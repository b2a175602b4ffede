/** How a sequential reader ends, on any source at all, said by what a writer would have sealed. */
module StreamEndings {
  import opened Base
  import opened AeadModel
  import opened StreamNonce
  import opened StreamFormat

  /** The source starts with k full chunks of this plaintext, none of them sealed as the last, and goes on with x. */
  ghost predicate AfterFull(a: Aead, k: nat, full: Bytes, s: Bytes, x: Bytes) {
    |full| == k * CHUNK_SIZE && s == SealFull(a, 0, k, full) + x
  }

  /** x starts with chunk k of something: a full one with more to come, or one sealed as the last. */
  ghost predicate StartsWithChunk(a: Aead, k: nat, x: Bytes) {
    || (|x| >= ENC_CHUNK_SIZE && exists p :: x[..ENC_CHUNK_SIZE] == a.seal(NonceFor(k, false), p))
    || exists p :: x[..Min(ENC_CHUNK_SIZE, |x|)] == a.seal(NonceFor(k, true), p)
  }

  /** As many bytes as an empty last chunk has, where there are chunks before it. */
  predicate LooksEmpty(k: nat, x: Bytes) {
    k > 0 && |x| == 16
  }

  /** What a source holds when reading it yields this plaintext and then this status. */
  ghost predicate EndsAs(a: Aead, s: Bytes, plain: Bytes, status: Status) {
    match status
    case Eof => s == Enc(a, 0, plain)
    case UnexpectedEof => exists k :: AfterFull(a, k, plain, s, [])
    case EmptyLastChunk => exists k, x :: AfterFull(a, k, plain, s, x) && LooksEmpty(k, x)
    case TrailingData => plain != [] && |plain| % CHUNK_SIZE == 0 && exists x :: x != [] && s == Enc(a, 0, plain) + x
    case Corrupted => exists k, x :: AfterFull(a, k, plain, s, x) && x != [] && !LooksEmpty(k, x) && !StartsWithChunk(a, k, x)
  }

  // ---- Up to where the reader stops -------------------------------------------------------------

  /** There is no further chunk to go on from. */
  predicate StopsAt(a: Aead, k: nat, x: Bytes) {
    var o := OpenNext(a, k, x);
    o.Plain? ==> o.last
  }

  function Prepend(p: Bytes, d: Decrypted): Decrypted {
    Decrypted(p + d.plain, d.status)
  }

  /** Full chunks are read one by one, and then what follows them. */
  lemma {:induction false} FullChunksAreRead(a: Aead, i: nat, k: nat, full: Bytes, x: Bytes)
    requires Ideal(a) && |full| == k * CHUNK_SIZE
    ensures Dec(a, i, SealFull(a, i, k, full) + x) == Prepend(full, Dec(a, i + k, x))
    decreases k
  {
    hide NonceFor, Dec;
    if k == 0 {
      assert [] + x == x && [] + Dec(a, i, x).plain == Dec(a, i, x).plain;
    } else {
      var head, tail := full[..CHUNK_SIZE], full[CHUNK_SIZE..];
      var c, rest := a.seal(NonceFor(i, false), head), SealFull(a, i + 1, k - 1, tail) + x;
      FullChunksAreRead(a, i + 1, k - 1, tail, x);
      ConcatAssoc(c, SealFull(a, i + 1, k - 1, tail), x);
      NextIsRead(a, i, head, rest);
      hide SealFull;
      ConcatAssoc(head, tail, Dec(a, i + k, x).plain);
      assert head + tail == full;
    }
  }

  lemma NextIsRead(a: Aead, i: nat, head: Bytes, rest: Bytes)
    requires Ideal(a) && |head| == CHUNK_SIZE
    ensures Dec(a, i, a.seal(NonceFor(i, false), head) + rest) == Prepend(head, Dec(a, i + 1, rest))
  {
    hide NonceFor;
    var c := a.seal(NonceFor(i, false), head);
    assert (c + rest)[..ENC_CHUNK_SIZE] == c && (c + rest)[ENC_CHUNK_SIZE..] == rest;
    assert a.open(NonceFor(i, false), c) == Some(head);
  }

  /** Every source is some full chunks, and then something at which the reader stops. */
  lemma {:induction false} FullChunksAreTaken(a: Aead, i: nat, s: Bytes) returns (k: nat, full: Bytes, x: Bytes)
    requires Ideal(a)
    ensures |full| == k * CHUNK_SIZE && s == SealFull(a, i, k, full) + x && StopsAt(a, i + k, x)
    decreases |s|
  {
    hide NonceFor;
    if StopsAt(a, i, s) {
      k, full, x := 0, [], s;
      assert [] + x == x;
    } else {
      var c, rest := s[..ENC_CHUNK_SIZE], s[ENC_CHUNK_SIZE..];
      var p := OpenNext(a, i, s).p;
      assert a.open(NonceFor(i, false), c) == Some(p);
      assert s == c + rest && |p| == CHUNK_SIZE;
      var tail;
      k, tail, x := FullChunksAreTaken(a, i + 1, rest);
      hide OpenNext;
      SealFullStep(a, i, k, p, tail);
      ConcatAssoc(c, SealFull(a, i + 1, k, tail), x);
      k, full := k + 1, p + tail;
    }
  }

  // ---- What it stops at -------------------------------------------------------------------------

  /** Opening finds what was sealed. */
  lemma OpensExactly(a: Aead, n: Nonce, c: Bytes)
    requires Ideal(a)
    ensures a.open(n, c).Some? <==> exists p :: c == a.seal(n, p)
    ensures forall p :: c == a.seal(n, p) ==> a.open(n, c) == Some(p) && |c| == |p| + OVERHEAD
  {
    OpenedWasSealed(a, n, c);
    forall p | c == a.seal(n, p)
      ensures a.open(n, c) == Some(p) && |c| == |p| + OVERHEAD
    {
      assert a.open(n, c) == Some(p) <==> c == a.seal(n, p);
    }
  }

  lemma StopsExactly(a: Aead, k: nat, x: Bytes)
    requires Ideal(a) && StopsAt(a, k, x)
    ensures OpenNext(a, k, x) == NotOpened(UnexpectedEof) <==> x == []
    ensures OpenNext(a, k, x) == NotOpened(EmptyLastChunk) <==> LooksEmpty(k, x)
    ensures OpenNext(a, k, x) == NotOpened(Corrupted) <==> x != [] && !LooksEmpty(k, x) && !StartsWithChunk(a, k, x)
    ensures OpenNext(a, k, x).NotOpened? ==> OpenNext(a, k, x).error in {UnexpectedEof, EmptyLastChunk, Corrupted}
  {
    hide NonceFor, Ideal;
    if |x| < ENC_CHUNK_SIZE {
      assert x[..|x|] == x;
      OpensExactly(a, NonceFor(k, true), x);
    } else {
      OpensExactly(a, NonceFor(k, true), x[..ENC_CHUNK_SIZE]);
      OpensExactly(a, NonceFor(k, false), x[..ENC_CHUNK_SIZE]);
    }
  }

  /** When it stops at a chunk that opens as the last, that chunk completes an encryption. */
  lemma StopsAtLast(a: Aead, k: nat, x: Bytes) returns (p: Bytes, y: Bytes)
    requires Ideal(a) && StopsAt(a, k, x) && OpenNext(a, k, x).Plain?
    ensures x == Enc(a, k, p) + y && (k > 0 ==> p != []) && (y != [] ==> |p| == CHUNK_SIZE)
    ensures Dec(a, k, x) == Decrypted(p, if y == [] then Eof else TrailingData)
  {
    hide NonceFor;
    var n := Min(ENC_CHUNK_SIZE, |x|);
    p, y := OpenNext(a, k, x).p, x[n..];
    var c := x[..n];
    assert x == c + y && (|x| <= ENC_CHUNK_SIZE ==> c == x);
    OpenedWasSealed(a, NonceFor(k, true), c);
  }

  /** A full last chunk with something behind it. */
  lemma TrailingIsSeen(a: Aead, k: nat, p: Bytes, y: Bytes)
    requires Ideal(a) && |p| == CHUNK_SIZE && y != []
    ensures Dec(a, k, Enc(a, k, p) + y) == Decrypted(p, TrailingData)
  {
    OtherNonceFails(a, NonceFor(k, false), NonceFor(k, true), p);
    hide NonceFor;
    var c := a.seal(NonceFor(k, true), p);
    assert (c + y)[..ENC_CHUNK_SIZE] == c;
    assert a.open(NonceFor(k, true), c) == Some(p);
  }

  // ---- How a reader ends ------------------------------------------------------------------------

  lemma EndIsRight(a: Aead, s: Bytes)
    requires Ideal(a)
    ensures var d := Dec(a, 0, s); EndsAs(a, s, d.plain, d.status)
  {
    hide Ideal, NonceFor, Dec, Enc, SealFull, OpenNext, StartsWithChunk, LooksEmpty;
    var k, full, x := FullChunksAreTaken(a, 0, s);
    FullChunksAreRead(a, 0, k, full, x);
    assert AfterFull(a, k, full, s, x);
    StopsExactly(a, k, x);
    if OpenNext(a, k, x).Plain? {
      var p, y := StopsAtLast(a, k, x);
      EncSplit(a, 0, k, full, p);
      ConcatAssoc(SealFull(a, 0, k, full), Enc(a, k, p), y);
      assert s == Enc(a, 0, full + p) + y;
      assert y == [] ==> s == Enc(a, 0, full + p);
    } else {
      StopsWithoutPlain(a, k, x);
      assert full + [] == full;
    }
  }

  lemma StopsWithoutPlain(a: Aead, k: nat, x: Bytes)
    requires OpenNext(a, k, x).NotOpened?
    ensures Dec(a, k, x) == Decrypted([], OpenNext(a, k, x).error)
  {
    hide OpenNext;
  }

  lemma EndIsReached(a: Aead, s: Bytes, plain: Bytes, status: Status)
    requires Ideal(a) && EndsAs(a, s, plain, status)
    ensures Dec(a, 0, s) == Decrypted(plain, status)
  {
    hide Ideal, NonceFor, Dec, Enc, SealFull, OpenNext, StartsWithChunk;
    match status
    case Eof => DecAcceptsExactlyEnc(a, s, plain);
    case UnexpectedEof =>
      var k :| AfterFull(a, k, plain, s, []);
      StoppedAfterFull(a, k, plain, s, [], status);
    case EmptyLastChunk =>
      var k, x :| AfterFull(a, k, plain, s, x) && LooksEmpty(k, x);
      StoppedAfterFull(a, k, plain, s, x, status);
    case Corrupted =>
      var k, x :| AfterFull(a, k, plain, s, x) && x != [] && !LooksEmpty(k, x) && !StartsWithChunk(a, k, x);
      StoppedAfterFull(a, k, plain, s, x, status);
    case TrailingData =>
      var x :| x != [] && s == Enc(a, 0, plain) + x;
      TrailingAfterAll(a, s, plain, x);
  }

  lemma StoppedAfterFull(a: Aead, k: nat, full: Bytes, s: Bytes, x: Bytes, status: Status)
    requires Ideal(a) && AfterFull(a, k, full, s, x)
    requires x == [] || LooksEmpty(k, x) || !StartsWithChunk(a, k, x)
    requires status == if x == [] then UnexpectedEof else if LooksEmpty(k, x) then EmptyLastChunk else Corrupted
    ensures Dec(a, 0, s) == Decrypted(full, status)
  {
    hide Ideal, NonceFor, Dec, SealFull;
    FullChunksAreRead(a, 0, k, full, x);
    NotAChunk(a, k, x);
    StopsExactly(a, k, x);
    hide OpenNext, StartsWithChunk;
    StopsWithoutPlain(a, k, x);
    assert full + [] == full;
  }

  lemma NotAChunk(a: Aead, k: nat, x: Bytes)
    requires Ideal(a) && (x == [] || LooksEmpty(k, x) || !StartsWithChunk(a, k, x))
    ensures OpenNext(a, k, x).NotOpened?
  {
    hide NonceFor, Ideal;
    var c := x[..Min(ENC_CHUNK_SIZE, |x|)];
    assert |x| < ENC_CHUNK_SIZE ==> c == x;
    OpensExactly(a, NonceFor(k, true), c);
    OpensExactly(a, NonceFor(k, false), c);
  }

  lemma TrailingAfterAll(a: Aead, s: Bytes, plain: Bytes, x: Bytes)
    requires Ideal(a) && plain != [] && |plain| % CHUNK_SIZE == 0 && x != [] && s == Enc(a, 0, plain) + x
    ensures Dec(a, 0, s) == Decrypted(plain, TrailingData)
  {
    hide Ideal, NonceFor, Dec, Enc, SealFull, OpenNext;
    var k := |plain| / CHUNK_SIZE - 1;
    var full, p := plain[..k * CHUNK_SIZE], plain[k * CHUNK_SIZE..];
    assert plain == full + p;
    EncSplit(a, 0, k, full, p);
    ConcatAssoc(SealFull(a, 0, k, full), Enc(a, k, p), x);
    FullChunksAreRead(a, 0, k, full, Enc(a, k, p) + x);
    TrailingIsSeen(a, k, p, x);
  }

  /** For every source, plaintext and status: the reader delivers the one and ends in the other exactly if the source holds
      what leads to that. */
  lemma DecEndsExactly(a: Aead, s: Bytes, plain: Bytes, status: Status)
    requires Ideal(a)
    ensures Dec(a, 0, s) == Decrypted(plain, status) <==> EndsAs(a, s, plain, status)
  {
    hide Ideal, Dec, EndsAs;
    EndIsRight(a, s);
    if EndsAs(a, s, plain, status) {
      EndIsReached(a, s, plain, status);
    }
  }

  // ---- Truncation -------------------------------------------------------------------------------

  /** An encryption that is cut at the end of a chunk, but not of the last, gives all the chunks before the cut, and an
      error that says it was cut. */
  lemma CutBetweenChunks(a: Aead, m: Bytes, k: nat)
    requires Ideal(a) && k < NumChunks(|m|)
    ensures k * CHUNK_SIZE <= |m| && k * ENC_CHUNK_SIZE <= |Enc(a, 0, m)|
    ensures Dec(a, 0, Enc(a, 0, m)[..k * ENC_CHUNK_SIZE]) == Decrypted(m[..k * CHUNK_SIZE], UnexpectedEof)
  {
    NumChunksBounds(|m|);
    hide NonceFor, Dec, Enc, SealFull, NumChunks;
    StartOfEnc(a, m, k, 0);
    DecEndsExactly(a, Enc(a, 0, m)[..k * ENC_CHUNK_SIZE], m[..k * CHUNK_SIZE], UnexpectedEof);
  }

  /** Cut inside a chunk, it gives the chunks before that one, too, and one of two other errors, unless what is left of the
      chunk happens to have been sealed as a last one itself. */
  lemma CutInsideChunk(a: Aead, m: Bytes, k: nat, n: nat)
    requires Ideal(a) && k < NumChunks(|m|) && 0 < n < ENC_CHUNK_SIZE && k * ENC_CHUNK_SIZE + n < |Enc(a, 0, m)|
    ensures k * CHUNK_SIZE <= |m|
    ensures var s := Enc(a, 0, m)[..k * ENC_CHUNK_SIZE + n];
            !StartsWithChunk(a, k, s[k * ENC_CHUNK_SIZE..]) || LooksEmpty(k, s[k * ENC_CHUNK_SIZE..]) ==>
              Dec(a, 0, s) == Decrypted(m[..k * CHUNK_SIZE], if k > 0 && n == 16 then EmptyLastChunk else Corrupted)
  {
    NumChunksBounds(|m|);
    hide NonceFor, Dec, Enc, SealFull, NumChunks, StartsWithChunk;
    StartOfEnc(a, m, k, n);
    var s := Enc(a, 0, m)[..k * ENC_CHUNK_SIZE + n];
    if !StartsWithChunk(a, k, s[k * ENC_CHUNK_SIZE..]) || LooksEmpty(k, s[k * ENC_CHUNK_SIZE..]) {
      DecEndsExactly(a, s, m[..k * CHUNK_SIZE], if k > 0 && n == 16 then EmptyLastChunk else Corrupted);
    }
  }

  lemma BeforeLast(n: nat, k: nat)
    requires k < NumChunks(n)
    ensures k * CHUNK_SIZE <= n && (k > 0 ==> k * CHUNK_SIZE < n)
  {
    NumChunksBounds(n);
  }

  /** The k full chunks that an encryption starts with, and what is behind them. */
  lemma FullChunksOf(a: Aead, m: Bytes, k: nat) returns (full: Bytes, c: Bytes, e: Bytes)
    requires Ideal(a) && k < NumChunks(|m|)
    ensures k * CHUNK_SIZE <= |m| && full == m[..k * CHUNK_SIZE] && |full| == k * CHUNK_SIZE
    ensures Enc(a, 0, m) == c + e && c == SealFull(a, 0, k, full) && |c| == k * ENC_CHUNK_SIZE
  {
    hide NonceFor, Enc, SealFull, NumChunks, Ideal, Sized;
    IdealIsSized(a);
    BeforeLast(|m|, k);
    full := m[..k * CHUNK_SIZE];
    var rest := m[k * CHUNK_SIZE..];
    assert m == full + rest;
    EncSplit(a, 0, k, full, rest);
    SealFullLength(a, 0, k, full);
    c, e := SealFull(a, 0, k, full), Enc(a, k, rest);
  }

  lemma StartOfEnc(a: Aead, m: Bytes, k: nat, n: nat)
    requires Ideal(a) && k < NumChunks(|m|) && (n == 0 || k * ENC_CHUNK_SIZE + n <= |Enc(a, 0, m)|)
    ensures k * CHUNK_SIZE <= |m| && k * ENC_CHUNK_SIZE + n <= |Enc(a, 0, m)|
    ensures var s := Enc(a, 0, m)[..k * ENC_CHUNK_SIZE + n]; AfterFull(a, k, m[..k * CHUNK_SIZE], s, s[k * ENC_CHUNK_SIZE..])
  {
    hide NonceFor, Enc, SealFull, NumChunks, Ideal, Sized;
    var full, c, e := FullChunksOf(a, m, k);
    CutAfter(c, e, n);
  }

  lemma CutAfter(c: Bytes, e: Bytes, n: nat)
    requires n <= |e|
    ensures (c + e)[..|c| + n] == c + e[..n] && (c + e[..n])[|c|..] == e[..n]
  {
  }
}
