/** The 12-byte chunk nonce: an 88-bit big-endian counter and a last-chunk flag. */
module StreamNonce {
  import opened Base
  import opened AeadModel
  import opened BigEndianBytes

  const COUNTER_SIZE: nat := 11
  const LAST_CHUNK_FLAG: byte := 1

  /** The chunks that one key can number: 2^88 counter values. */
  const COUNTER_LIMIT: nat := Pow256(COUNTER_SIZE)

  /** The nonce of chunk k. */
  function NonceFor(k: nat, last: bool): Nonce {
    BigEndian(COUNTER_SIZE, k) + [if last then LAST_CHUNK_FLAG else 0]
  }

  /** Adds one to a big-endian number, or None when it wraps around to zero. */
  function Successor(s: Bytes): (r: Option<Bytes>)
    ensures r.Some? ==> |r.value| == |s|
  {
    if s == [] then None
    else if s[|s| - 1] < 255 then Some(s[..|s| - 1] + [s[|s| - 1] + 1])
    else match Successor(s[..|s| - 1])
      case None => None
      case Some(t) => Some(t + [0])
  }

  lemma {:induction false} SuccessorCounts(w: nat, k: nat)
    requires k < Pow256(w)
    ensures Successor(BigEndian(w, k)) == if k + 1 < Pow256(w) then Some(BigEndian(w, k + 1)) else None
  {
    if w > 0 {
      SuccessorCounts(w - 1, k / 256);
      var s := BigEndian(w, k);
      assert s[..w - 1] == BigEndian(w - 1, k / 256);
      if k % 256 < 255 {
        assert (k + 1) / 256 == k / 256;
      } else {
        assert (k + 1) / 256 == k / 256 + 1;
      }
    }
  }

  /** No two chunks of one run, and no two flag settings, share a nonce. */
  lemma NonceInjective(j: nat, jLast: bool, k: nat, kLast: bool)
    requires j < COUNTER_LIMIT && k < COUNTER_LIMIT
    requires NonceFor(j, jLast) == NonceFor(k, kLast)
    ensures j == k && jLast == kLast
  {
    var s, t := NonceFor(j, jLast), NonceFor(k, kLast);
    assert s[..COUNTER_SIZE] == BigEndian(COUNTER_SIZE, j) && t[..COUNTER_SIZE] == BigEndian(COUNTER_SIZE, k);
    assert s[COUNTER_SIZE] == t[COUNTER_SIZE];
    BigEndianInjective(COUNTER_SIZE, j, k);
  }

  /** The counter is zero exactly before the first chunk. */
  lemma NonceZero(k: nat)
    requires k < COUNTER_LIMIT
    ensures NonceFor(k, false) == seq(NONCE_SIZE, _ => 0) <==> k == 0
  {
    BigEndianZero(COUNTER_SIZE);
    if NonceFor(k, false) == seq(NONCE_SIZE, _ => 0) {
      assert NonceFor(0, false) == NonceFor(k, false);
      NonceInjective(0, false, k, false);
    }
  }

  /** Go's 8-byte PutUint64 is wide enough for any non-negative int64. */
  lemma Int64FitsEightBytes()
    ensures TWO_63 < Pow256(8) < COUNTER_LIMIT
  {
    Pow256Values();
    assert COUNTER_LIMIT == 256 * Pow256(10) == 256 * (256 * Pow256(9)) == 256 * (256 * (256 * Pow256(8)));
  }

  /** incNonce: a carry loop over the counter bytes, in place; it panics (ok is false) when all of them wrap. */
  method IncNonce(nonce: array<byte>) returns (ok: bool)
    requires nonce.Length == NONCE_SIZE
    modifies nonce
    ensures nonce[COUNTER_SIZE] == old(nonce[COUNTER_SIZE])
    ensures match Successor(old(nonce[..COUNTER_SIZE]))
            case Some(s) => ok && nonce[..COUNTER_SIZE] == s
            case None => !ok && nonce[..COUNTER_SIZE] == seq(COUNTER_SIZE, _ => 0)
  {
    ghost var was := nonce[..COUNTER_SIZE];
    var i := nonce.Length - 2;
    assert was[..i + 1] == was;
    while i >= 0
      invariant -1 <= i <= COUNTER_SIZE - 1
      invariant nonce[COUNTER_SIZE] == old(nonce[COUNTER_SIZE])
      invariant nonce[..i + 1] == was[..i + 1]
      invariant forall j :: i < j < COUNTER_SIZE ==> nonce[j] == 0
      invariant match Successor(was[..i + 1])
                case Some(s) => Successor(was).Some? && Successor(was).value == s + nonce[i + 1..COUNTER_SIZE]
                case None => Successor(was).None?
    {
      ghost var head, tail := was[..i + 1], nonce[i + 1..COUNTER_SIZE];
      assert head[..i] == was[..i] && head[i] == was[i];
      nonce[i] := (nonce[i] as int + 1) % 256;
      if nonce[i] != 0 {
        assert nonce[..COUNTER_SIZE] == was[..i] + [was[i] + 1] + tail;
        return true;
      }
      assert nonce[i..COUNTER_SIZE] == [0] + tail;
      i := i - 1;
    }
    assert was[..0] == [];
    ok := false;
  }

  /** IncNonce steps the nonce of chunk k to that of chunk k + 1; the flag stays as it was. */
  method NextNonce(nonce: array<byte>, ghost k: nat, ghost last: bool)
    requires nonce.Length == NONCE_SIZE
    requires k + 1 < COUNTER_LIMIT
    requires nonce[..] == NonceFor(k, last)
    modifies nonce
    ensures nonce[..] == NonceFor(k + 1, last)
  {
    SuccessorCounts(COUNTER_SIZE, k);
    assert nonce[..COUNTER_SIZE] == nonce[..][..COUNTER_SIZE] == BigEndian(COUNTER_SIZE, k);
    assert nonce[COUNTER_SIZE] == nonce[..][COUNTER_SIZE];
    var ok := IncNonce(nonce);
    assert ok;
    assert nonce[..] == nonce[..COUNTER_SIZE] + [nonce[COUNTER_SIZE]];
  }

  /** From the zero nonce, k calls of incNonce reach the nonce of chunk k. */
  method StepFromZero(k: nat) returns (nonce: array<byte>)
    requires k < COUNTER_LIMIT
    ensures fresh(nonce) && nonce.Length == NONCE_SIZE
    ensures nonce[..] == NonceFor(k, false)
  {
    nonce := new byte[NONCE_SIZE](_ => 0);
    NonceZero(0);
    assert nonce[..] == seq(NONCE_SIZE, _ => 0);
    var i := 0;
    while i < k
      invariant 0 <= i <= k && nonce[..] == NonceFor(i, false)
    {
      NextNonce(nonce, i, false);
      i := i + 1;
    }
  }

  method SetLastChunkFlag(nonce: array<byte>, ghost k: nat)
    requires nonce.Length == NONCE_SIZE
    requires nonce[..] == NonceFor(k, false)
    modifies nonce
    ensures nonce[..] == NonceFor(k, true)
  {
    nonce[nonce.Length - 1] := LAST_CHUNK_FLAG;
    assert nonce[..] == old(nonce[..])[..COUNTER_SIZE] + [LAST_CHUNK_FLAG];
    assert NonceFor(k, false)[..COUNTER_SIZE] == BigEndian(COUNTER_SIZE, k);
  }

  /** nonceForChunk: the random-access readers build the nonce that k calls of incNonce reach. */
  method NonceForChunk(k: int) returns (nonce: array<byte>)
    requires 0 <= k < TWO_63
    ensures fresh(nonce) && nonce.Length == NONCE_SIZE
    ensures nonce[..] == NonceFor(k, false)
  {
    nonce := new byte[NONCE_SIZE](_ => 0);
    var word := BigEndian(8, k);
    forall j | 0 <= j < 8 {
      nonce[3 + j] := word[j];
    }
    Int64FitsEightBytes();
    BigEndianWidens(8, 3, k);
    assert nonce[..] == seq(3, _ => 0) + word + [0];
  }
}
