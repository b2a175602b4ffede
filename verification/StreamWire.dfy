/** The bytes of an encryption, chunk by chunk, with the numbers of the format written out. */
module StreamWire {
  import opened Base
  import opened AeadModel
  import opened BigEndianBytes
  import opened StreamNonce
  import opened StreamFormat

  /** Eleven bytes of chunk number, the most significant first, and a byte that is 1 on the last chunk. */
  lemma NonceBytes(k: nat, last: bool)
    requires k < COUNTER_LIMIT
    ensures var n := NonceFor(k, last); |n| == 12 && ValueOf(n[..11]) == k && n[11] == if last then 1 else 0
  {
    ValueOfBigEndian(11, k);
    assert NonceFor(k, last)[..11] == BigEndian(11, k);
  }

  /** Chunk k of an encryption is, at 65552 times k, what the AEAD makes of up to 65536 bytes of the message from 65536 times
      k on, under the nonce with the number k and the flag on the last chunk. */
  lemma ChunkBytes(a: Aead, m: Bytes, k: nat) returns (n: Nonce)
    requires Sized(a) && |m| <= MAX_MESSAGE && (k == 0 || k * 65536 < |m|)
    ensures ValueOf(n[..11]) == k && n[11] == if (k + 1) * 65536 < |m| then 0 else 1
    ensures k * 65536 <= |m| && k * 65552 <= |Enc(a, 0, m)|
    ensures Enc(a, 0, m)[k * 65552..Min((k + 1) * 65552, |Enc(a, 0, m)|)] == a.seal(n, m[k * 65536..Min((k + 1) * 65536, |m|)])
  {
    var last := (k + 1) * 65536 >= |m|;
    n := NonceFor(k, last);
    FewerThanTheLimit(|m|, k);
    NonceBytes(k, last);
    hide NonceFor, Enc;
    var before := ChunksBefore(a, m, k);
    var rest := m[k * 65536..];
    var from := Enc(a, k, rest);
    FirstChunkBytes(a, k, rest);
    StartOf(before, from, Min(65552, |from|));
    assert m[k * 65536..Min((k + 1) * 65536, |m|)] == rest[..Min(65536, |rest|)];
    assert Min((k + 1) * 65552, |Enc(a, 0, m)|) == |before| + Min(65552, |from|);
  }

  /** What comes before chunk k takes 65552 bytes for each chunk. */
  lemma ChunksBefore(a: Aead, m: Bytes, k: nat) returns (before: Bytes)
    requires Sized(a) && (k == 0 || k * 65536 < |m|)
    ensures |before| == k * 65552 && Enc(a, 0, m) == before + Enc(a, k, m[k * 65536..])
  {
    hide NonceFor, SealFull, Enc;
    var full, rest := m[..k * 65536], m[k * 65536..];
    assert m == full + rest;
    EncSplit(a, 0, k, full, rest);
    SealFullLength(a, 0, k, full);
    before := SealFull(a, 0, k, full);
  }

  lemma FewerThanTheLimit(n: nat, k: nat)
    requires n <= MAX_MESSAGE && (k == 0 || k * 65536 < n)
    ensures k < COUNTER_LIMIT
  {
    Int64FitsEightBytes();
  }

  lemma FirstChunkBytes(a: Aead, i: nat, m: Bytes)
    requires Sized(a)
    ensures var e := Enc(a, i, m);
            e[..Min(65552, |e|)] == a.seal(NonceFor(i, |m| <= 65536), m[..Min(65536, |m|)])
  {
    hide NonceFor;
    assert |m| <= 65536 ==> m[..|m|] == m;
  }

  lemma StartOf(before: Bytes, from: Bytes, n: nat)
    requires n <= |from|
    ensures (before + from)[|before|..|before| + n] == from[..n]
  {
  }
}
