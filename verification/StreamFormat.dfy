/** The STREAM chunked format: one reference encryption, one reference decryption, and how they invert each other. */
module StreamFormat {
  import opened Base
  import opened AeadModel
  import opened StreamNonce

  const CHUNK_SIZE: nat := 65536
  const ENC_CHUNK_SIZE: nat := CHUNK_SIZE + OVERHEAD

  /** The chunks of a message of n bytes; the empty message still has one. */
  function NumChunks(n: nat): nat {
    if n == 0 then 1 else (n + CHUNK_SIZE - 1) / CHUNK_SIZE
  }

  /** The longest message whose chunks the 88-bit counter can number, incNonce running once past the last. */
  const MAX_MESSAGE: nat := CHUNK_SIZE * (COUNTER_LIMIT - 1)

  /** Chunk k of a message. */
  function Chunk(m: Bytes, k: nat): Bytes
    requires k < NumChunks(|m|)
  {
    m[k * CHUNK_SIZE..Min((k + 1) * CHUNK_SIZE, |m|)]
  }

  /** Encrypted chunk k of a byte string, which is shorter than the others when it is the last. */
  function EncChunk(s: Bytes, k: nat): Bytes
    requires k * ENC_CHUNK_SIZE <= |s|
  {
    s[k * ENC_CHUNK_SIZE..Min((k + 1) * ENC_CHUNK_SIZE, |s|)]
  }

  /** Enc: the encryption of m whose first chunk has number i. */
  function Enc(a: Aead, i: nat, m: Bytes): Bytes
    decreases |m|
  {
    if |m| <= CHUNK_SIZE then a.seal(NonceFor(i, true), m)
    else a.seal(NonceFor(i, false), m[..CHUNK_SIZE]) + Enc(a, i + 1, m[CHUNK_SIZE..])
  }

  /** k whole chunks sealed before it is known whether they are the last: none of them carries the flag. */
  function SealFull(a: Aead, i: nat, k: nat, m: Bytes): Bytes
    requires |m| == k * CHUNK_SIZE
    decreases k
  {
    if k == 0 then [] else a.seal(NonceFor(i, false), m[..CHUNK_SIZE]) + SealFull(a, i + 1, k - 1, m[CHUNK_SIZE..])
  }

  lemma SealFullStep(a: Aead, i: nat, k: nat, head: Bytes, tail: Bytes)
    requires |head| == CHUNK_SIZE && |tail| == k * CHUNK_SIZE
    ensures SealFull(a, i, k + 1, head + tail) == a.seal(NonceFor(i, false), head) + SealFull(a, i + 1, k, tail)
  {
    hide NonceFor;
    assert (head + tail)[..CHUNK_SIZE] == head && (head + tail)[CHUNK_SIZE..] == tail;
  }

  /** One more full chunk at the end of those already sealed. */
  lemma {:induction false} SealFullSnoc(a: Aead, i: nat, k: nat, full: Bytes, c: Bytes)
    requires |full| == k * CHUNK_SIZE && |c| == CHUNK_SIZE
    ensures SealFull(a, i, k + 1, full + c) == SealFull(a, i, k, full) + a.seal(NonceFor(i + k, false), c)
    decreases k
  {
    hide NonceFor;
    if k == 0 {
      assert full + c == c + [];
      SealFullStep(a, i, 0, c, []);
    } else {
      hide SealFull;
      var head, rest := full[..CHUNK_SIZE], full[CHUNK_SIZE..];
      assert full == head + rest && full + c == head + (rest + c);
      SealFullStep(a, i, k - 1, head, rest);
      SealFullStep(a, i, k, head, rest + c);
      SealFullSnoc(a, i + 1, k - 1, rest, c);
      ConcatAssoc(a.seal(NonceFor(i, false), head), SealFull(a, i + 1, k - 1, rest), a.seal(NonceFor(i + k, false), c));
    }
  }

  lemma {:induction false} SealFullLength(a: Aead, i: nat, k: nat, full: Bytes)
    requires Sized(a) && |full| == k * CHUNK_SIZE
    ensures |SealFull(a, i, k, full)| == k * ENC_CHUNK_SIZE
    decreases k
  {
    hide NonceFor;
    if k > 0 {
      SealFullLength(a, i + 1, k - 1, full[CHUNK_SIZE..]);
    }
  }

  lemma EncStep(a: Aead, i: nat, head: Bytes, tail: Bytes)
    requires |head| == CHUNK_SIZE && tail != []
    ensures Enc(a, i, head + tail) == a.seal(NonceFor(i, false), head) + Enc(a, i + 1, tail)
  {
    hide NonceFor;
    var m := head + tail;
    assert m[..CHUNK_SIZE] == head && m[CHUNK_SIZE..] == tail;
  }

  /** Enc can be produced chunk by chunk, provided something is left for the last one. */
  lemma {:induction false} EncSplit(a: Aead, i: nat, k: nat, full: Bytes, rest: Bytes)
    requires |full| == k * CHUNK_SIZE
    requires k == 0 || rest != []
    ensures Enc(a, i, full + rest) == SealFull(a, i, k, full) + Enc(a, i + k, rest)
    decreases k
  {
    hide NonceFor, Enc;
    if k == 0 {
      assert full + rest == rest;
    } else {
      var head, tail := full[..CHUNK_SIZE], full[CHUNK_SIZE..];
      assert full + rest == head + (tail + rest);
      EncStep(a, i, head, tail + rest);
      EncSplit(a, i + 1, k - 1, tail, rest);
      ConcatAssoc(a.seal(NonceFor(i, false), head), SealFull(a, i + 1, k - 1, tail), Enc(a, i + k, rest));
    }
  }

  lemma NumChunksIs(n: nat, k: nat)
    requires k * CHUNK_SIZE < n <= (k + 1) * CHUNK_SIZE || n == k == 0
    ensures NumChunks(n) == k + 1
  {
  }

  lemma NumChunksBounds(n: nat)
    ensures NumChunks(n) >= 1
    ensures n == 0 ==> NumChunks(n) == 1
    ensures n > 0 ==> (NumChunks(n) - 1) * CHUNK_SIZE < n <= NumChunks(n) * CHUNK_SIZE
  {
  }

  /** The message from chunk i on: that chunk and the message from the next one on. */
  lemma ChunkAndTail(m: Bytes, i: nat)
    requires i < NumChunks(|m|)
    ensures i * CHUNK_SIZE <= |m|
    ensures i + 1 == NumChunks(|m|) ==> m[i * CHUNK_SIZE..] == Chunk(m, i) && |Chunk(m, i)| <= CHUNK_SIZE
    ensures i + 1 < NumChunks(|m|) ==>
              && |Chunk(m, i)| == CHUNK_SIZE
              && (i + 1) * CHUNK_SIZE < |m|
              && m[i * CHUNK_SIZE..] == Chunk(m, i) + m[(i + 1) * CHUNK_SIZE..]
  {
    NumChunksBounds(|m|);
  }

  lemma {:induction false} EncLength(a: Aead, i: nat, m: Bytes)
    requires Sized(a)
    ensures |Enc(a, i, m)| == |m| + OVERHEAD * NumChunks(|m|)
    decreases |m|
  {
    NumChunksBounds(|m|);
    if |m| <= CHUNK_SIZE {
      NumChunksIs(|m|, 0);
    } else {
      EncLength(a, i + 1, m[CHUNK_SIZE..]);
      NumChunksIs(|m| - CHUNK_SIZE, NumChunks(|m|) - 2);
    }
  }

  /** The nonces of the first n Seal calls of a run, the last of which closes the message when done. */
  function RunNonces(n: nat, done: bool): (r: seq<Nonce>)
    ensures |r| == n
  {
    seq<Nonce>(n, k requires 0 <= k < n => NonceFor(k, done && k == n - 1))
  }

  /** No nonce is used twice, and only the closing one carries the flag. */
  lemma RunNoncesDistinct(n: nat, done: bool)
    requires n <= COUNTER_LIMIT
    ensures forall j, k :: 0 <= j < k < n ==> RunNonces(n, done)[j] != RunNonces(n, done)[k]
    ensures forall k :: 0 <= k < n ==> (RunNonces(n, done)[k][COUNTER_SIZE] == LAST_CHUNK_FLAG <==> done && k == n - 1)
  {
    forall j, k | 0 <= j < k < n
      ensures RunNonces(n, done)[j] != RunNonces(n, done)[k]
    {
      if RunNonces(n, done)[j] == RunNonces(n, done)[k] {
        NonceInjective(j, done && j == n - 1, k, done && k == n - 1);
      }
    }
    forall k | 0 <= k < n
      ensures RunNonces(n, done)[k][COUNTER_SIZE] == LAST_CHUNK_FLAG <==> done && k == n - 1
    {
      assert RunNonces(n, done)[k] == NonceFor(k, done && k == n - 1);
    }
  }

  // ---- Reference decryption -------------------------------------------------------------------

  datatype Status = Eof | UnexpectedEof | EmptyLastChunk | Corrupted | TrailingData

  /** Everything a sequential reader delivers before it stops, and why it stops. */
  datatype Decrypted = Decrypted(plain: Bytes, status: Status)

  /** What readChunk makes of the rest of the source: an error, or a plaintext chunk that may be the last. */
  datatype Opened = NotOpened(error: Status) | Plain(p: Bytes, last: bool)

  /** A chunk cut short by the end of the source must be the last; a full one is tried as any other, then as the last. */
  function OpenNext(a: Aead, i: nat, s: Bytes): Opened {
    if s == [] then NotOpened(UnexpectedEof)
    else if |s| < ENC_CHUNK_SIZE then
      if i > 0 && |s| == OVERHEAD then NotOpened(EmptyLastChunk)
      else match a.open(NonceFor(i, true), s)
        case None => NotOpened(Corrupted)
        case Some(p) => Plain(p, true)
    else match a.open(NonceFor(i, false), s[..ENC_CHUNK_SIZE])
      case Some(p) => Plain(p, false)
      case None => match a.open(NonceFor(i, true), s[..ENC_CHUNK_SIZE])
        case None => NotOpened(Corrupted)
        case Some(p) => Plain(p, true)
  }

  /** Dec: what the reader makes of the whole rest s of its source when it expects chunk i. */
  function Dec(a: Aead, i: nat, s: Bytes): Decrypted
    decreases |s|
  {
    match OpenNext(a, i, s)
    case NotOpened(e) => Decrypted([], e)
    case Plain(p, true) => Decrypted(p, if |s| <= ENC_CHUNK_SIZE then Eof else TrailingData)
    case Plain(p, false) =>
      var d := Dec(a, i + 1, s[ENC_CHUNK_SIZE..]);
      Decrypted(p + d.plain, d.status)
  }

  lemma OpenedWasSealed(a: Aead, n: Nonce, c: Bytes)
    requires Ideal(a)
    ensures a.open(n, c).Some? ==> c == a.seal(n, a.open(n, c).value)
  {
    var r := a.open(n, c);
    assert r.Some? ==> r == Some(r.value);
  }

  /** A chunk does not open under a nonce with the other flag. */
  lemma OtherNonceFails(a: Aead, n: Nonce, n': Nonce, p: Bytes)
    requires Ideal(a) && n[COUNTER_SIZE] != n'[COUNTER_SIZE]
    ensures a.open(n, a.seal(n', p)).None?
  {
    OpenedWasSealed(a, n, a.seal(n', p));
  }

  /** Every encryption is accepted, and gives its message back. */
  lemma {:induction false} DecInvertsEnc(a: Aead, i: nat, m: Bytes)
    requires Ideal(a)
    requires i > 0 ==> m != []
    ensures Dec(a, i, Enc(a, i, m)) == Decrypted(m, Eof)
    decreases |m|
  {
    IdealIsSized(a);
    if |m| <= CHUNK_SIZE {
      var c := a.seal(NonceFor(i, true), m);
      assert |c| == |m| + OVERHEAD;
      assert a.open(NonceFor(i, true), c) == Some(m);
      if |m| == CHUNK_SIZE {
        assert c[..ENC_CHUNK_SIZE] == c;
        OtherNonceFails(a, NonceFor(i, false), NonceFor(i, true), m);
      }
    } else {
      var head, tail := m[..CHUNK_SIZE], m[CHUNK_SIZE..];
      var c := a.seal(NonceFor(i, false), head);
      var rest := Enc(a, i + 1, tail);
      assert a.open(NonceFor(i, false), c) == Some(head);
      assert (c + rest)[..ENC_CHUNK_SIZE] == c && (c + rest)[ENC_CHUNK_SIZE..] == rest;
      DecInvertsEnc(a, i + 1, tail);
      assert head + tail == m;
    }
  }

  /** Nothing but an encryption is accepted. */
  lemma {:induction false} EncInvertsDec(a: Aead, i: nat, s: Bytes)
    requires Ideal(a)
    requires Dec(a, i, s).status == Eof
    ensures s == Enc(a, i, Dec(a, i, s).plain)
    ensures i > 0 ==> Dec(a, i, s).plain != []
    decreases |s|
  {
    IdealIsSized(a);
    var m := Dec(a, i, s).plain;
    if |s| < ENC_CHUNK_SIZE {
      assert a.open(NonceFor(i, true), s) == Some(m);
    } else {
      var c, rest := s[..ENC_CHUNK_SIZE], s[ENC_CHUNK_SIZE..];
      assert s == c + rest;
      match a.open(NonceFor(i, false), c)
      case Some(p) =>
        assert a.open(NonceFor(i, false), c) == Some(p);
        EncInvertsDec(a, i + 1, rest);
        var d := Dec(a, i + 1, rest);
        assert m[..CHUNK_SIZE] == p && m[CHUNK_SIZE..] == d.plain;
      case None =>
        assert a.open(NonceFor(i, true), c) == Some(m);
    }
  }

  /** The sequential reader accepts exactly the image of Enc. */
  lemma DecAcceptsExactlyEnc(a: Aead, s: Bytes, m: Bytes)
    requires Ideal(a)
    ensures Dec(a, 0, s) == Decrypted(m, Eof) <==> s == Enc(a, 0, m)
  {
    if s == Enc(a, 0, m) {
      DecInvertsEnc(a, 0, m);
    }
    if Dec(a, 0, s) == Decrypted(m, Eof) {
      EncInvertsDec(a, 0, s);
    }
  }

  // ---- Prefix integrity -----------------------------------------------------------------------

  /** The AEAD opens nothing but the chunks that one encryption of m sealed. */
  ghost predicate OpensOnly(a: Aead, m: Bytes) {
    forall n, c :: a.open(n, c).Some? ==>
                     exists k :: IsChunkOf(a, m, k, n, c, a.open(n, c).value)
  }

  ghost predicate IsChunkOf(a: Aead, m: Bytes, k: nat, n: Nonce, c: Bytes, p: Bytes) {
    && k < NumChunks(|m|)
    && n == NonceFor(k, k == NumChunks(|m|) - 1)
    && p == Chunk(m, k)
    && c == a.seal(n, p)
  }

  /** Chunk k of m was sealed, as c under n. */
  ghost predicate WasSealed(a: Aead, m: Bytes, n: Nonce, c: Bytes) {
    exists k: nat :: k < NumChunks(|m|) && IsChunkOf(a, m, k, n, c, Chunk(m, k))
  }

  /** For every message there is an AEAD that opens its chunks and nothing else, so that a clean end can be reached. */
  lemma OpensOnlyExists(m: Bytes) returns (a: Aead)
    ensures Sized(a) && OpensOnly(a, m)
    ensures forall k :: 0 <= k < NumChunks(|m|) ==>
              var n := NonceFor(k, k == NumChunks(|m|) - 1); a.open(n, a.seal(n, Chunk(m, k))) == Some(Chunk(m, k))
    ensures Dec(a, 0, Enc(a, 0, m)) == Decrypted(m, Eof)
  {
    var t := Transparent();
    IdealExists();
    a := Aead(t.seal, (n: Nonce, c: Bytes) => if WasSealed(t, m, n, c) then t.open(n, c) else None);
    forall n, c | a.open(n, c).Some?
      ensures exists k :: IsChunkOf(a, m, k, n, c, a.open(n, c).value)
    {
      var k: nat :| k < NumChunks(|m|) && IsChunkOf(t, m, k, n, c, Chunk(m, k));
      assert t.open(n, c) == Some(Chunk(m, k));
      assert IsChunkOf(a, m, k, n, c, a.open(n, c).value);
    }
    forall k | 0 <= k < NumChunks(|m|)
      ensures var n := NonceFor(k, k == NumChunks(|m|) - 1); a.open(n, a.seal(n, Chunk(m, k))) == Some(Chunk(m, k))
    {
      var n := NonceFor(k, k == NumChunks(|m|) - 1);
      var c := t.seal(n, Chunk(m, k));
      assert IsChunkOf(t, m, k, n, c, Chunk(m, k)) && t.open(n, c) == Some(Chunk(m, k));
    }
    IdealIsSized(t);
    NumChunksBounds(|m|);
    assert m[0 * CHUNK_SIZE..] == m;
    ChunksDecrypt(a, t, m, 0);
  }

  /** If an AEAD opens the chunks of m and no more than t, which is ideal, then it decrypts m as t does. */
  lemma {:induction false} ChunksDecrypt(a: Aead, t: Aead, m: Bytes, i: nat)
    requires Ideal(t) && Sized(a) && a.seal == t.seal && i < NumChunks(|m|)
    requires forall n, c :: a.open(n, c).Some? ==> a.open(n, c) == t.open(n, c)
    requires forall k :: i <= k < NumChunks(|m|) ==>
               var n := NonceFor(k, k == NumChunks(|m|) - 1); a.open(n, a.seal(n, Chunk(m, k))) == Some(Chunk(m, k))
    ensures i * CHUNK_SIZE <= |m|
    ensures Dec(a, i, Enc(a, i, m[i * CHUNK_SIZE..])) == Decrypted(m[i * CHUNK_SIZE..], Eof)
    decreases NumChunks(|m|) - i
  {
    ChunkAndTail(m, i);
    NumChunksBounds(|m|);
    var last := i == NumChunks(|m|) - 1;
    var p := Chunk(m, i);
    var c := a.seal(NonceFor(i, last), p);
    assert a.open(NonceFor(i, last), c) == Some(p);
    hide Chunk, NumChunks;
    if last {
      OtherNonceFails(t, NonceFor(i, false), NonceFor(i, true), p);
      hide NonceFor;
      LastDecrypts(a, i, p);
    } else {
      ChunksDecrypt(a, t, m, i + 1);
      hide NonceFor;
      NextDecrypts(a, i, p, m[(i + 1) * CHUNK_SIZE..]);
    }
  }

  lemma LastDecrypts(a: Aead, i: nat, p: Bytes)
    requires Sized(a) && |p| <= CHUNK_SIZE && (i > 0 ==> p != [])
    requires var c := a.seal(NonceFor(i, true), p); a.open(NonceFor(i, true), c) == Some(p) && a.open(NonceFor(i, false), c) == None
    ensures Dec(a, i, Enc(a, i, p)) == Decrypted(p, Eof)
  {
    hide NonceFor;
    var c := a.seal(NonceFor(i, true), p);
    assert c[..|c|] == c;
  }

  lemma NextDecrypts(a: Aead, i: nat, p: Bytes, tail: Bytes)
    requires Sized(a) && |p| == CHUNK_SIZE && tail != []
    requires a.open(NonceFor(i, false), a.seal(NonceFor(i, false), p)) == Some(p)
    requires Dec(a, i + 1, Enc(a, i + 1, tail)) == Decrypted(tail, Eof)
    ensures Dec(a, i, Enc(a, i, p + tail)) == Decrypted(p + tail, Eof)
  {
    EncStep(a, i, p, tail);
    hide NonceFor, Enc;
    var c, rest := a.seal(NonceFor(i, false), p), Enc(a, i + 1, tail);
    assert (c + rest)[..ENC_CHUNK_SIZE] == c && (c + rest)[ENC_CHUNK_SIZE..] == rest;
  }

  /** Whatever the source holds, the bytes delivered are a prefix of m, and a clean end needs all of Enc(m). */
  lemma {:induction false} DecDeliversPrefix(a: Aead, m: Bytes, i: nat, s: Bytes)
    requires Sized(a) && OpensOnly(a, m)
    requires |m| <= MAX_MESSAGE
    requires i < NumChunks(|m|)
    ensures i * CHUNK_SIZE <= |m|
    ensures Dec(a, i, s).plain <= m[i * CHUNK_SIZE..]
    ensures Dec(a, i, s).status == Eof ==>
              Dec(a, i, s).plain == m[i * CHUNK_SIZE..] && s == Enc(a, i, m[i * CHUNK_SIZE..])
    decreases |s|
  {
    ChunkAndTail(m, i);
    if s == [] {
    } else if |s| < ENC_CHUNK_SIZE {
      OpenedChunk(a, m, i, true, s);
    } else {
      var c, rest := s[..ENC_CHUNK_SIZE], s[ENC_CHUNK_SIZE..];
      assert s == c + rest;
      OpenedChunk(a, m, i, false, c);
      OpenedChunk(a, m, i, true, c);
      if a.open(NonceFor(i, false), c).Some? {
        DecDeliversPrefix(a, m, i + 1, rest);
        assert (Chunk(m, i) + m[(i + 1) * CHUNK_SIZE..])[..CHUNK_SIZE] == Chunk(m, i);
        assert (Chunk(m, i) + m[(i + 1) * CHUNK_SIZE..])[CHUNK_SIZE..] == m[(i + 1) * CHUNK_SIZE..];
      }
    }
  }

  /** What opens as chunk i is chunk i, and it carries the flag exactly when it is the last. */
  lemma OpenedChunk(a: Aead, m: Bytes, i: nat, last: bool, c: Bytes)
    requires OpensOnly(a, m)
    requires |m| <= MAX_MESSAGE
    requires i < NumChunks(|m|)
    ensures a.open(NonceFor(i, last), c).Some? ==>
              && last == (i == NumChunks(|m|) - 1)
              && a.open(NonceFor(i, last), c).value == Chunk(m, i)
              && c == a.seal(NonceFor(i, last), Chunk(m, i))
  {
    var nonce := NonceFor(i, last);
    if a.open(nonce, c).Some? {
      var k: nat :| IsChunkOf(a, m, k, nonce, c, a.open(nonce, c).value);
      NonceInjective(i, last, k, k == NumChunks(|m|) - 1);
    }
  }

  // ---- Random access --------------------------------------------------------------------------

  /** Chunk k of s opens, alone, to chunk k of m, when numbering starts at i. */
  ghost predicate OpensAt(a: Aead, i: nat, s: Bytes, m: Bytes, k: nat)
    requires |s| == |m| + OVERHEAD * NumChunks(|m|) && k < NumChunks(|m|)
  {
    ChunkAndTail(m, k);
    a.open(NonceFor(i + k, k == NumChunks(|m|) - 1), EncChunk(s, k)) == Some(Chunk(m, k))
  }

  /** s is the encryption, from chunk i on, of m, as seen by opening each of its chunks alone. */
  ghost predicate ChunksOpen(a: Aead, i: nat, s: Bytes, m: Bytes) {
    && |s| == |m| + OVERHEAD * NumChunks(|m|)
    && forall k :: 0 <= k < NumChunks(|m|) ==> OpensAt(a, i, s, m, k)
  }

  lemma ChunkOfTail(m: Bytes, k: nat)
    requires |m| > CHUNK_SIZE && 0 < k < NumChunks(|m|)
    ensures NumChunks(|m[CHUNK_SIZE..]|) == NumChunks(|m|) - 1
    ensures Chunk(m[CHUNK_SIZE..], k - 1) == Chunk(m, k)
  {
    var mm := m[CHUNK_SIZE..];
    NumChunksBounds(|m|);
    NumChunksIs(|mm|, NumChunks(|m|) - 2);
    ChunkAndTail(m, k);
    var lo, hi := k * CHUNK_SIZE, Min((k + 1) * CHUNK_SIZE, |m|);
    assert Min(k * CHUNK_SIZE, |mm|) == hi - CHUNK_SIZE;
    assert mm[lo - CHUNK_SIZE..hi - CHUNK_SIZE] == m[lo..hi];
  }

  lemma EncChunkOfTail(s: Bytes, k: nat)
    requires |s| >= ENC_CHUNK_SIZE && k > 0 && k * ENC_CHUNK_SIZE <= |s|
    ensures EncChunk(s[ENC_CHUNK_SIZE..], k - 1) == EncChunk(s, k)
  {
    var ss := s[ENC_CHUNK_SIZE..];
    var lo, hi := k * ENC_CHUNK_SIZE, Min((k + 1) * ENC_CHUNK_SIZE, |s|);
    assert Min(k * ENC_CHUNK_SIZE, |ss|) == hi - ENC_CHUNK_SIZE;
    assert ss[lo - ENC_CHUNK_SIZE..hi - ENC_CHUNK_SIZE] == s[lo..hi];
  }

  lemma OpensAtTail(a: Aead, i: nat, s: Bytes, m: Bytes, k: nat)
    requires |m| > CHUNK_SIZE && |s| == |m| + OVERHEAD * NumChunks(|m|)
    requires 0 < k < NumChunks(|m|)
    ensures NumChunks(|m[CHUNK_SIZE..]|) == NumChunks(|m|) - 1
    ensures OpensAt(a, i, s, m, k) == OpensAt(a, i + 1, s[ENC_CHUNK_SIZE..], m[CHUNK_SIZE..], k - 1)
  {
    hide Chunk, EncChunk, NumChunks;
    ChunkAndTail(m, k);
    ChunkOfTail(m, k);
    EncChunkOfTail(s, k);
    assert i + 1 + (k - 1) == i + k;
  }

  lemma ChunksOpenStep(a: Aead, i: nat, s: Bytes, m: Bytes)
    requires |m| > CHUNK_SIZE && |s| == |m| + OVERHEAD * NumChunks(|m|)
    ensures ChunksOpen(a, i, s, m)
       <==> a.open(NonceFor(i, false), s[..ENC_CHUNK_SIZE]) == Some(m[..CHUNK_SIZE])
            && ChunksOpen(a, i + 1, s[ENC_CHUNK_SIZE..], m[CHUNK_SIZE..])
  {
    var n := NumChunks(|m|);
    var ss, mm := s[ENC_CHUNK_SIZE..], m[CHUNK_SIZE..];
    OpensAtTail(a, i, s, m, 1);
    assert OpensAt(a, i, s, m, 0) <==> a.open(NonceFor(i, false), s[..ENC_CHUNK_SIZE]) == Some(m[..CHUNK_SIZE]) by {
      assert EncChunk(s, 0) == s[..ENC_CHUNK_SIZE] && Chunk(m, 0) == m[..CHUNK_SIZE];
    }
    forall k | 0 < k < n
      ensures OpensAt(a, i, s, m, k) == OpensAt(a, i + 1, ss, mm, k - 1)
    {
      OpensAtTail(a, i, s, m, k);
    }
    if ChunksOpen(a, i, s, m) {
      var next := i + 1;
      forall k | 0 <= k < n - 1
        ensures OpensAt(a, next, ss, mm, k)
      {
        assert OpensAt(a, i, s, m, k + 1);
      }
    }
  }

  /** Opening every chunk on its own accepts exactly the image of Enc, too. */
  lemma {:induction false} ChunksOpenExactlyEnc(a: Aead, i: nat, s: Bytes, m: Bytes)
    requires Ideal(a)
    ensures ChunksOpen(a, i, s, m) <==> s == Enc(a, i, m)
    decreases |m|
  {
    IdealIsSized(a);
    EncLength(a, i, m);
    if |s| != |m| + OVERHEAD * NumChunks(|m|) {
    } else if |m| <= CHUNK_SIZE {
      assert NumChunks(|m|) == 1 && EncChunk(s, 0) == s && Chunk(m, 0) == m;
      assert a.open(NonceFor(i, true), s) == Some(m) <==> s == a.seal(NonceFor(i, true), m);
      assert ChunksOpen(a, i, s, m) <==> OpensAt(a, i, s, m, 0);
    } else {
      var c, ss := s[..ENC_CHUNK_SIZE], s[ENC_CHUNK_SIZE..];
      var p, mm := m[..CHUNK_SIZE], m[CHUNK_SIZE..];
      ChunksOpenStep(a, i, s, m);
      ChunksOpenExactlyEnc(a, i + 1, ss, mm);
      assert a.open(NonceFor(i, false), c) == Some(p) <==> c == a.seal(NonceFor(i, false), p);
      assert s == c + ss;
    }
  }
}
