/** The int64 arithmetic that recovers chunk count and plaintext size from an encrypted size. */
module StreamSizes {
  import opened Base
  import opened AeadModel
  import opened StreamFormat

  /** The largest encrypted size whose rounding up does not overflow int64. */
  const MAX_ENC_SIZE: int := TWO_63 - ENC_CHUNK_SIZE

  function CountFor(encryptedSize: int): int {
    TruncDiv(ToInt64(encryptedSize + ENC_CHUNK_SIZE - 1), ENC_CHUNK_SIZE)
  }

  function SizeFor(encryptedSize: int, chunks: int): int {
    ToInt64(encryptedSize - ToInt64(chunks * OVERHEAD))
  }

  function ExpectedCount(plaintextSize: int): int {
    if plaintextSize == 0 then 1 else TruncDiv(ToInt64(plaintextSize + CHUNK_SIZE - 1), CHUNK_SIZE)
  }

  /** EncryptedChunkCount: None stands for the invalid-size error. */
  function EncryptedChunkCount(encryptedSize: int): Option<int>
    requires IsInt64(encryptedSize)
  {
    var chunks := CountFor(encryptedSize);
    var plaintextSize := SizeFor(encryptedSize, chunks);
    if ExpectedCount(plaintextSize) != chunks then None else Some(chunks)
  }

  function PlaintextSize(encryptedSize: int): Option<int>
    requires IsInt64(encryptedSize)
  {
    match EncryptedChunkCount(encryptedSize)
    case None => None
    case Some(chunks) => Some(SizeFor(encryptedSize, chunks))
  }

  /** The size of the encryption of n bytes. */
  function EncryptedSize(n: nat): nat {
    n + OVERHEAD * NumChunks(n)
  }

  lemma InRange(x: int)
    ensures IsInt64(x) ==> ToInt64(x) == x
    ensures TWO_63 <= x < TWO_63 + TWO_64 ==> ToInt64(x) == x - TWO_64
  {
  }

  lemma DivEncChunk(x: int, q: int)
    requires q * ENC_CHUNK_SIZE <= x < (q + 1) * ENC_CHUNK_SIZE
    ensures x / ENC_CHUNK_SIZE == q && x % ENC_CHUNK_SIZE == x - q * ENC_CHUNK_SIZE
  {
  }

  lemma DivChunk(x: int, q: int)
    requires q * CHUNK_SIZE <= x < (q + 1) * CHUNK_SIZE
    ensures x / CHUNK_SIZE == q
  {
  }

  /** What the two roundings give: up for a positive operand, toward zero for a negative one. */
  lemma CountIs(s: int, c: int)
    requires var w := ToInt64(s + ENC_CHUNK_SIZE - 1);
             if w >= 0 then c * ENC_CHUNK_SIZE <= w < (c + 1) * ENC_CHUNK_SIZE
             else (c - 1) * ENC_CHUNK_SIZE < w <= c * ENC_CHUNK_SIZE
    ensures CountFor(s) == c
  {
    var w := ToInt64(s + ENC_CHUNK_SIZE - 1);
    if w >= 0 {
      DivEncChunk(w, c);
    } else {
      DivEncChunk(-w, -c);
    }
  }

  lemma ExpectedIs(p: int, c: int)
    requires p != 0
    requires var w := ToInt64(p + CHUNK_SIZE - 1);
             if w >= 0 then c * CHUNK_SIZE <= w < (c + 1) * CHUNK_SIZE
             else (c - 1) * CHUNK_SIZE < w <= c * CHUNK_SIZE
    ensures ExpectedCount(p) == c
  {
    var w := ToInt64(p + CHUNK_SIZE - 1);
    if w >= 0 {
      DivChunk(w, c);
    } else {
      DivChunk(-w, -c);
    }
  }

  lemma EmptyMessageHasOneChunk()
    ensures ExpectedCount(0) == 1
  {
  }

  lemma SizeIs(s: int, c: int)
    requires IsInt64(c * OVERHEAD)
    ensures IsInt64(s - c * OVERHEAD) ==> SizeFor(s, c) == s - c * OVERHEAD
    ensures TWO_63 <= s - c * OVERHEAD < TWO_63 + TWO_64 ==> SizeFor(s, c) == s - c * OVERHEAD - TWO_64
  {
    InRange(c * OVERHEAD);
    InRange(s - c * OVERHEAD);
  }

  /** The encrypted size of n bytes is recognised, and n recovered. */
  lemma SizeRecovered(n: nat)
    requires EncryptedSize(n) <= MAX_ENC_SIZE
    ensures EncryptedChunkCount(EncryptedSize(n)) == Some(NumChunks(n))
    ensures PlaintextSize(EncryptedSize(n)) == Some(n)
  {
    hide ToInt64, CountFor, SizeFor, ExpectedCount, NumChunks;
    var c, s := NumChunks(n), EncryptedSize(n);
    NumChunksBounds(n);
    InRange(s + ENC_CHUNK_SIZE - 1);
    CountIs(s, c);
    SizeIs(s, c);
    if n == 0 {
      EmptyMessageHasOneChunk();
    } else {
      InRange(n + CHUNK_SIZE - 1);
      ExpectedIs(n, c);
    }
  }

  /** A size given no error, in range, is the encrypted size of the plaintext size computed. */
  lemma SizeRecognised(s: int)
    requires 0 <= s <= MAX_ENC_SIZE
    requires EncryptedChunkCount(s).Some?
    ensures PlaintextSize(s).value >= 0
    ensures EncryptedSize(PlaintextSize(s).value) == s
  {
    hide ToInt64, CountFor, SizeFor, ExpectedCount;
    InRange(s + ENC_CHUNK_SIZE - 1);
    var c := (s + ENC_CHUNK_SIZE - 1) / ENC_CHUNK_SIZE;
    CountIs(s, c);
    SizeIs(s, c);
    var n := s - c * OVERHEAD;
    if n == 0 {
      EmptyMessageHasOneChunk();
    } else {
      InRange(n + CHUNK_SIZE - 1);
      ExpectedIs(n, (n + CHUNK_SIZE - 1) / CHUNK_SIZE);
    }
  }

  /** Without overflow: no error exactly on the size of some encryption, and then both results are its own. */
  lemma SizesAreExact(s: int)
    requires 0 <= s <= MAX_ENC_SIZE
    ensures EncryptedChunkCount(s).Some? <==> exists n: nat :: EncryptedSize(n) == s
    ensures forall n: nat :: EncryptedSize(n) == s ==>
                               EncryptedChunkCount(s) == Some(NumChunks(n)) && PlaintextSize(s) == Some(n)
  {
    forall n: nat | EncryptedSize(n) == s
      ensures EncryptedChunkCount(s) == Some(NumChunks(n)) && PlaintextSize(s) == Some(n)
    {
      SizeRecovered(n);
    }
    if EncryptedChunkCount(s).Some? {
      SizeRecognised(s);
    }
  }

  /** The sizes outside that range that are given no error. No negative size is that of an encryption; of those past
      MAX_ENC_SIZE some are, but the count they get is wrong. */
  predicate AcceptedOutOfRange(s: int) {
    if s < 0 then s > 1 - ENC_CHUNK_SIZE || (1 - s) % ENC_CHUNK_SIZE < CHUNK_SIZE - OVERHEAD
    else !(TWO_63 - 32782 <= s <= TWO_63 - 32751)
  }

  lemma SmallNegativeSizes(t: int)
    requires 0 < t < ENC_CHUNK_SIZE - 1
    ensures EncryptedChunkCount(-t) == Some(0)
  {
    InRange(-t + ENC_CHUNK_SIZE - 1);
    CountIs(-t, 0);
    SizeIs(-t, 0);
    InRange(-t + CHUNK_SIZE - 1);
    ExpectedIs(-t, 0);
  }

  /** A negative size below the first chunk: its count is -k, and k and x say where it lies. */
  lemma LargeNegativeSizes(t: int, k: int, x: int)
    requires t <= TWO_63 && k >= 0 && 0 <= x < ENC_CHUNK_SIZE
    requires t == ENC_CHUNK_SIZE - 1 + k * ENC_CHUNK_SIZE + x
    ensures EncryptedChunkCount(-t) == if x < CHUNK_SIZE - OVERHEAD then Some(-k) else None
  {
    hide ToInt64, CountFor, SizeFor, ExpectedCount;
    InRange(-t + ENC_CHUNK_SIZE - 1);
    CountIs(-t, -k);
    var p := -t + k * OVERHEAD;
    SizeIs(-t, -k);
    InRange(p + CHUNK_SIZE - 1);
    ExpectedIs(p, if x < CHUNK_SIZE - OVERHEAD then -k else -k - 1);
  }

  lemma NegativeSizes(s: int)
    requires -TWO_63 <= s < 0
    ensures EncryptedChunkCount(s).Some? <==> AcceptedOutOfRange(s)
  {
    hide EncryptedChunkCount;
    var t := -s;
    if t < ENC_CHUNK_SIZE - 1 {
      SmallNegativeSizes(t);
    } else {
      var k := (t - (ENC_CHUNK_SIZE - 1)) / ENC_CHUNK_SIZE;
      var x := t - (ENC_CHUNK_SIZE - 1) - k * ENC_CHUNK_SIZE;
      LargeNegativeSizes(t, k, x);
      DivEncChunk(1 - s, k + 1);
    }
  }

  lemma OverflowingSizes(s: int)
    requires MAX_ENC_SIZE < s < TWO_63
    ensures EncryptedChunkCount(s).Some? <==> AcceptedOutOfRange(s)
    ensures EncryptedChunkCount(s).Some? ==>
              EncryptedChunkCount(s).value == if s <= TWO_63 - 32783 then -140703137003520 else -140703137003519
  {
    hide ToInt64, CountFor, SizeFor, ExpectedCount;
    var w := s + ENC_CHUNK_SIZE - 1 - TWO_64;
    InRange(s + ENC_CHUNK_SIZE - 1);
    var c := if w <= -140703137003520 * ENC_CHUNK_SIZE then -140703137003520 else -140703137003519;
    CountIs(s, c);
    var p := s - c * OVERHEAD - TWO_64;
    SizeIs(s, c);
    var y := p + CHUNK_SIZE - 1;
    InRange(y);
    ExpectedIs(p, if y > c * CHUNK_SIZE then c + 1 else if y > (c - 1) * CHUNK_SIZE then c else c - 1);
  }

  /** The sizes of encryptions: a whole number of chunks, or a last chunk with at least one byte, or one empty chunk. */
  lemma ValidSizes(s: nat)
    ensures (exists n: nat :: EncryptedSize(n) == s)
       <==> s == OVERHEAD || (s > 0 && s % ENC_CHUNK_SIZE == 0) || s % ENC_CHUNK_SIZE > OVERHEAD
  {
    forall n: nat | EncryptedSize(n) == s
      ensures s == OVERHEAD || (s > 0 && s % ENC_CHUNK_SIZE == 0) || s % ENC_CHUNK_SIZE > OVERHEAD
    {
      NumChunksBounds(n);
      var c := NumChunks(n);
      if s < c * ENC_CHUNK_SIZE && n > 0 {
        DivEncChunk(s, c - 1);
      }
    }
    var q, r := s / ENC_CHUNK_SIZE, s % ENC_CHUNK_SIZE;
    if s == OVERHEAD {
      assert EncryptedSize(0) == s;
    } else if r == 0 && s > 0 {
      DivChunk(q * CHUNK_SIZE + CHUNK_SIZE - 1, q);
      assert EncryptedSize(q * CHUNK_SIZE) == s;
    } else if r > OVERHEAD {
      DivChunk(q * CHUNK_SIZE + r - OVERHEAD + CHUNK_SIZE - 1, q + 1);
      assert EncryptedSize(q * CHUNK_SIZE + r - OVERHEAD) == s;
    }
  }

  /** The answer a caller expects: the chunk count of the encryption of that size, and an error if there is none. */
  ghost predicate CountIsRight(s: int)
    requires IsInt64(s)
  {
    match EncryptedChunkCount(s)
    case Some(c) => exists n: nat :: EncryptedSize(n) == s && c == NumChunks(n)
    case None => !exists n: nat :: EncryptedSize(n) == s
  }

  /** EncryptedChunkCount is right about an int64 exactly when it is in range, or among the few refused outside. */
  lemma CountIsRightExactly(s: int)
    requires IsInt64(s)
    ensures CountIsRight(s)
       <==> 0 <= s <= MAX_ENC_SIZE || (s < 0 && !AcceptedOutOfRange(s)) || TWO_63 - 32767 <= s <= TWO_63 - 32752
  {
    hide EncryptedChunkCount, NumChunks;
    if s < 0 {
      NegativeSizes(s);
    } else if s <= MAX_ENC_SIZE {
      SizesAreExact(s);
    } else {
      OverflowingSizes(s);
      ValidSizes(s);
      DivEncChunk(s, if s >= 140703137003520 * ENC_CHUNK_SIZE then 140703137003520 else 140703137003519);
    }
  }

  // ---- Where the final chunk lies ---------------------------------------------------------------

  /** What NewDecryptReaderAt computes before it reads: where the final chunk is, or make([]byte, n) with n < 0. */
  datatype FinalChunk = BadSize | NegativeLength | At(index: int, off: int, length: nat)

  function FinalChunkOf(size: int): FinalChunk
    requires IsInt64(size)
  {
    match EncryptedChunkCount(size)
    case None => BadSize
    case Some(chunks) =>
      var off := ToInt64((chunks - 1) * ENC_CHUNK_SIZE);
      var length := ToInt64(size - off);
      if length < 0 then NegativeLength else At(chunks - 1, off, length)
  }

  lemma FinalChunkInRange(size: int)
    requires 0 <= size <= MAX_ENC_SIZE && EncryptedChunkCount(size).Some?
    ensures var n := PlaintextSize(size).value;
            && n >= 0 && EncryptedSize(n) == size
            && var k := NumChunks(n) - 1;
               FinalChunkOf(size) == At(k, k * ENC_CHUNK_SIZE, size - k * ENC_CHUNK_SIZE)
  {
    hide EncryptedChunkCount, ToInt64, NumChunks;
    SizeRecognised(size);
    var n := PlaintextSize(size).value;
    NumChunksBounds(n);
    SizeRecovered(n);
    var off := (NumChunks(n) - 1) * ENC_CHUNK_SIZE;
    InRange(off);
    InRange(size - off);
  }

  /** A negative size is refused, panics, or asks for a negative offset; which of the three is decided by one remainder. */
  lemma FinalChunkOfNegative(size: int)
    requires -TWO_63 <= size < 0
    ensures FinalChunkOf(size).At? ==> FinalChunkOf(size).off < 0
    ensures FinalChunkOf(size) == NegativeLength
       <==> size + ENC_CHUNK_SIZE < 0 && 2 <= (1 - size) % ENC_CHUNK_SIZE < CHUNK_SIZE - OVERHEAD
  {
    hide EncryptedChunkCount, ToInt64;
    var t := -size;
    if t < ENC_CHUNK_SIZE - 1 {
      SmallNegativeSizes(t);
      InRange(-1 * ENC_CHUNK_SIZE);
      InRange(size + ENC_CHUNK_SIZE);
    } else {
      var k := (t - (ENC_CHUNK_SIZE - 1)) / ENC_CHUNK_SIZE;
      var x := t - (ENC_CHUNK_SIZE - 1) - k * ENC_CHUNK_SIZE;
      LargeNegativeSizes(t, k, x);
      DivEncChunk(1 - size, k + 1);
      InRange((-k - 1) * ENC_CHUNK_SIZE);
      InRange(1 - x);
    }
  }

  /** Nor does a size that overflows lead to a read inside any source: all but 34 of them panic. */
  lemma FinalChunkOfOverflowing(size: int)
    requires MAX_ENC_SIZE < size < TWO_63
    ensures FinalChunkOf(size).At? ==> FinalChunkOf(size).off > MAX_ENC_SIZE
    ensures FinalChunkOf(size) == NegativeLength <==> size < TWO_63 - 32784 || size > TWO_63 - 32751
  {
    hide EncryptedChunkCount, ToInt64;
    OverflowingSizes(size);
    if EncryptedChunkCount(size).Some? {
      var c := EncryptedChunkCount(size).value;
      var off := (c - 1) * ENC_CHUNK_SIZE;
      InRange(off);
      InRange(off + TWO_64);
      InRange(size - off);
      InRange(size - off - TWO_64);
      Wraps(off);
      Wraps(size - off - TWO_64);
    }
  }

  lemma Wraps(x: int)
    ensures ToInt64(x) == ToInt64(x + TWO_64)
  {
  }

  /** The sizes on which the constructor panics: most that are below minus one chunk, and nearly all that overflow. */
  predicate Panics(size: int) {
    || (size + ENC_CHUNK_SIZE < 0 && 2 <= (1 - size) % ENC_CHUNK_SIZE < CHUNK_SIZE - OVERHEAD)
    || MAX_ENC_SIZE < size < TWO_63 - 32784
    || size > TWO_63 - 32751
  }

  /** A negative length is computed for exactly these sizes. */
  lemma PanicsExactly(size: int)
    requires IsInt64(size)
    ensures FinalChunkOf(size) == NegativeLength <==> Panics(size)
  {
    hide EncryptedChunkCount, ToInt64;
    if size < 0 {
      FinalChunkOfNegative(size);
    } else if size > MAX_ENC_SIZE {
      FinalChunkOfOverflowing(size);
    } else if EncryptedChunkCount(size).Some? {
      FinalChunkInRange(size);
    }
  }
}
