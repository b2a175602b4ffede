/** What random access should return, independent of any reader: the plaintext as its chunks open one by one. */
module StreamRandomAccess {
  import opened Base
  import opened AeadModel
  import opened StreamNonce
  import opened StreamFormat
  import opened StreamSizes

  /** A source together with the plaintext size that was computed for it. */
  datatype Layout = Layout(a: Aead, data: Bytes, size: nat) {
    const chunks := NumChunks(size)
    const encSize := EncryptedSize(size)

    ghost predicate Valid() {
      Sized(a) && encSize <= MAX_ENC_SIZE
    }

    /** Where encrypted chunk k ends. */
    function ChunkEnd(k: nat): int {
      Min((k + 1) * ENC_CHUNK_SIZE, encSize)
    }

    /** The plaintext of chunk k, if the source has all of it and it opens. */
    function ChunkPlain(k: nat): Option<Bytes>
      requires k < chunks
    {
      NumChunksBounds(size);
      if ChunkEnd(k) > |data| then None
      else a.open(NonceFor(k, k == chunks - 1), data[k * ENC_CHUNK_SIZE..ChunkEnd(k)])
    }

    function ChunkLength(k: nat): nat
      requires k < chunks
    {
      NumChunksBounds(size);
      Min(CHUNK_SIZE, size - k * CHUNK_SIZE)
    }

    /** The plaintext from chunk k on; a chunk that does not open counts as zeros. */
    function PlainFrom(k: nat): Bytes
      requires k <= chunks
      decreases chunks - k
    {
      if k == chunks then []
      else (match ChunkPlain(k)
            case Some(p) => p
            case None => seq(ChunkLength(k), _ => 0)) + PlainFrom(k + 1)
    }

    function Plain(): Bytes {
      PlainFrom(0)
    }

    /** Every chunk with a byte of the plaintext range lo..hi opens. */
    ghost predicate Opens(lo: nat, hi: nat) {
      lo < hi ==>
        forall k :: 0 <= k < chunks && lo < (k + 1) * CHUNK_SIZE && k * CHUNK_SIZE < hi ==> ChunkPlain(k).Some?
    }

    lemma OpensFurther(lo: nat, mid: nat, hi: nat, k: nat)
      requires lo <= mid && Opens(lo, mid) && k < chunks && ChunkPlain(k).Some?
      requires k * CHUNK_SIZE <= mid && hi <= (k + 1) * CHUNK_SIZE
      ensures Opens(lo, hi)
    {
      forall j | 0 <= j < chunks && lo < hi && lo < (j + 1) * CHUNK_SIZE && j * CHUNK_SIZE < hi
        ensures ChunkPlain(j).Some?
      {
        assert (lo < mid && j * CHUNK_SIZE < mid) || j == k;
      }
    }

    lemma ChunkPlainLength(k: nat)
      requires Valid() && k < chunks && ChunkPlain(k).Some?
      ensures |ChunkPlain(k).value| == ChunkLength(k)
    {
      NumChunksBounds(size);
    }

    lemma {:induction false} PlainFromLength(k: nat)
      requires Valid() && k <= chunks
      ensures |PlainFrom(k)| == if k == chunks then 0 else size - k * CHUNK_SIZE
      decreases chunks - k
    {
      NumChunksBounds(size);
      if k < chunks {
        if ChunkPlain(k).Some? {
          ChunkPlainLength(k);
        }
        PlainFromLength(k + 1);
      }
    }

    lemma PlainFromStep(k: nat)
      requires Valid() && k + 1 < chunks
      ensures (k + 1) * CHUNK_SIZE < size
      ensures |PlainFrom(k)| == size - k * CHUNK_SIZE && PlainFrom(k)[CHUNK_SIZE..] == PlainFrom(k + 1)
    {
      NumChunksBounds(size);
      PlainFromLength(k);
      if ChunkPlain(k).Some? {
        ChunkPlainLength(k);
      }
    }

    lemma {:induction false} PlainSuffix(k: nat)
      requires Valid() && k < chunks
      ensures |Plain()| == size && k * CHUNK_SIZE <= size && Plain()[k * CHUNK_SIZE..] == PlainFrom(k)
    {
      hide PlainFrom, ChunkPlain, NumChunks;
      NumChunksBounds(size);
      PlainFromLength(0);
      if k == 0 {
        assert Plain()[0..] == Plain();
      } else {
        PlainSuffix(k - 1);
        PlainFromStep(k - 1);
        DropOfDrop(Plain(), (k - 1) * CHUNK_SIZE, CHUNK_SIZE);
      }
    }

    /** A chunk that opens is the plaintext's slice at that chunk. */
    lemma PlainAtChunk(k: nat)
      requires Valid() && k < chunks && ChunkPlain(k).Some?
      ensures |Plain()| == size && k * CHUNK_SIZE + |ChunkPlain(k).value| <= size
      ensures Plain()[k * CHUNK_SIZE..k * CHUNK_SIZE + |ChunkPlain(k).value|] == ChunkPlain(k).value
    {
      PlainSuffix(k);
      ChunkPlainLength(k);
      var p := ChunkPlain(k).value;
      assert PlainFrom(k)[..|p|] == p;
      SliceOfSlice(Plain(), k * CHUNK_SIZE, size, 0, |p|);
    }
  }

  /** Every chunk opens, alone, to that chunk of m. */
  ghost predicate ChunkwiseIs(l: Layout, m: Bytes) {
    && |m| == l.size
    && forall k :: 0 <= k < l.chunks ==> l.ChunkPlain(k) == Some(Chunk(m, k))
  }

  lemma {:induction false} ChunkwisePlain(l: Layout, m: Bytes, k: nat)
    requires l.Valid() && ChunkwiseIs(l, m) && k < l.chunks
    ensures k * CHUNK_SIZE <= |m| && l.PlainFrom(k) == m[k * CHUNK_SIZE..]
    decreases l.chunks - k
  {
    ChunkAndTail(m, k);
    if k + 1 < l.chunks {
      ChunkwisePlain(l, m, k + 1);
    } else {
      assert l.PlainFrom(k + 1) == [];
    }
  }

  /** When every chunk opens, they open to the chunks of the plaintext. */
  lemma PlainIsChunkwise(l: Layout)
    requires l.Valid()
    requires forall k :: 0 <= k < l.chunks ==> l.ChunkPlain(k).Some?
    ensures ChunkwiseIs(l, l.Plain())
  {
    l.PlainSuffix(0);
    forall k | 0 <= k < l.chunks
      ensures l.ChunkPlain(k) == Some(Chunk(l.Plain(), k))
    {
      l.PlainAtChunk(k);
      l.ChunkPlainLength(k);
      NumChunksBounds(l.size);
    }
  }

  lemma ChunkOpensAt(l: Layout, m: Bytes, k: nat)
    requires l.Valid() && |l.data| == l.encSize && |m| == l.size && k < l.chunks
    ensures OpensAt(l.a, 0, l.data, m, k) <==> l.ChunkPlain(k) == Some(Chunk(m, k))
  {
    ChunkAndTail(m, k);
    NumChunksBounds(l.size);
    assert EncChunk(l.data, k) == l.data[k * ENC_CHUNK_SIZE..l.ChunkEnd(k)];
    assert 0 + k == k;
  }

  lemma ChunkwiseIsChunksOpen(l: Layout, m: Bytes)
    requires l.Valid() && |l.data| == l.encSize && |m| == l.size
    ensures ChunkwiseIs(l, m) <==> ChunksOpen(l.a, 0, l.data, m)
  {
    hide OpensAt, Chunk, NumChunks;
    forall k | 0 <= k < l.chunks
      ensures OpensAt(l.a, 0, l.data, m, k) <==> l.ChunkPlain(k) == Some(Chunk(m, k))
    {
      ChunkOpensAt(l, m, k);
    }
  }

  lemma SizeDetermined(n: nat, n': nat)
    requires EncryptedSize(n) == EncryptedSize(n') <= MAX_ENC_SIZE
    ensures n == n'
  {
    SizeRecovered(n);
    SizeRecovered(n');
  }

  /** Reading everything chunk by chunk gives m exactly when the sequential reader ends cleanly with m. */
  lemma RandomAgreesWithSequential(l: Layout, m: Bytes)
    requires Ideal(l.a) && l.Valid() && |l.data| == l.encSize
    ensures (forall k :: 0 <= k < l.chunks ==> l.ChunkPlain(k).Some?) && l.Plain() == m
       <==> Dec(l.a, 0, l.data) == Decrypted(m, Eof)
  {
    DecAcceptsExactlyEnc(l.a, l.data, m);
    ChunksOpenExactlyEnc(l.a, 0, l.data, m);
    if (forall k :: 0 <= k < l.chunks ==> l.ChunkPlain(k).Some?) && l.Plain() == m {
      PlainIsChunkwise(l);
      ChunkwiseIsChunksOpen(l, m);
    }
    if ChunksOpen(l.a, 0, l.data, m) {
      SizeDetermined(|m|, l.size);
      ChunkwiseIsChunksOpen(l, m);
      NumChunksBounds(l.size);
      ChunkwisePlain(l, m, 0);
    }
  }

  /** Over the encryption of m, every chunk opens and the plaintext is m. */
  lemma EncryptionOpens(l: Layout, m: Bytes)
    requires Ideal(l.a) && l.Valid()
    requires l.data == Enc(l.a, 0, m) && l.size == |m|
    ensures (forall k :: 0 <= k < l.chunks ==> l.ChunkPlain(k).Some?) && l.Plain() == m
  {
    EncLength(l.a, 0, m);
    DecAcceptsExactlyEnc(l.a, l.data, m);
    RandomAgreesWithSequential(l, m);
  }
}
