/** Random access over an encryption, and over any source compared with the sequential reader. */
module StreamRandomAccessRuns {
  import opened Base
  import opened AeadModel
  import opened StreamFormat
  import opened StreamSizes
  import opened StreamRandomAccess
  import opened StreamDecryptReaderAt

  /** Over the encryption of m, whatever calls came before and whatever they left in the cache, ReadAt is slicing. */
  method ReadSlice(r: DecryptReaderAt, m: Bytes, p: array<byte>, off: int) returns (n: nat, error: Option<AtError>)
    requires r.Valid() && (r.cache != null ==> p != r.cache.data)
    requires Ideal(r.a) && r.src.data == Enc(r.a, 0, m) && r.size == |m|
    requires 0 <= off <= |m| && p.Length > 0
    modifies r, p
    ensures r.Valid() && (r.cache == old(r.cache) || (r.cache != null && fresh(r.cache.data)))
    ensures n == Min(p.Length, |m| - off) && p[..n] == m[off..off + n] && p[n..] == old(p[n..])
    ensures error == if off + n == |m| then Some(EOF) else None
  {
    EncryptionOpens(r.Here(), m);
    n, error := r.ReadAt(p, off);
  }

  /** The encryption of m is accepted at its size, unless the source reports EOF along with the last of it. */
  lemma EncryptionAccepted(a: Aead, src: ReaderAt, m: Bytes)
    requires Ideal(a) && src.data == Enc(a, 0, m) && |src.data| <= MAX_ENC_SIZE
    ensures OpensAtSize(a, src, |src.data|) <==> !src.eagerEof
    ensures PlaintextSize(|src.data|) == Some(|m|)
  {
    hide Enc, EncryptedChunkCount, NumChunks;
    IdealIsSized(a);
    EncLength(a, 0, m);
    SizeRecovered(|m|);
    NumChunksBounds(|m|);
    EncryptionOpens(Layout(a, src.data, |m|), m);
  }

  method OpenEncryption(a: Aead, m: Bytes) returns (r: DecryptReaderAt)
    requires Ideal(a) && EncryptedSize(|m|) <= MAX_ENC_SIZE
    ensures fresh(r) && r.Valid() && (r.cache != null ==> fresh(r.cache.data))
    ensures r.a == a && r.src.data == Enc(a, 0, m) && r.size == |m|
  {
    hide Enc, OpensAtSize, EncryptedChunkCount, NumChunks;
    IdealIsSized(a);
    EncLength(a, 0, m);
    var src := ReaderAt(Enc(a, 0, m), false);
    EncryptionAccepted(a, src, m);
    var o := NewDecryptReaderAt(a, src, |src.data|);
    r := o.r;
  }

  /** Any number of reads, anywhere, after opening the encryption of m: each returns its slice. */
  method ReadAnywhere(a: Aead, m: Bytes, wanted: seq<(nat, nat)>) returns (results: seq<Bytes>)
    requires Ideal(a) && EncryptedSize(|m|) <= MAX_ENC_SIZE
    requires forall i :: 0 <= i < |wanted| ==> wanted[i].0 <= |m|
    ensures |results| == |wanted|
    ensures forall i :: 0 <= i < |wanted| ==>
                          results[i] == m[wanted[i].0..Min(wanted[i].0 + wanted[i].1, |m|)]
  {
    hide Enc;
    var r := OpenEncryption(a, m);
    results := [];
    while |results| < |wanted|
      invariant |results| <= |wanted|
      invariant fresh(r) && r.Valid() && (r.cache != null ==> fresh(r.cache.data))
      invariant r.a == a && r.src.data == Enc(a, 0, m) && r.size == |m|
      invariant forall i :: 0 <= i < |results| ==>
                              results[i] == m[wanted[i].0..Min(wanted[i].0 + wanted[i].1, |m|)]
    {
      var (off, len) := wanted[|results|];
      if len == 0 {
        results := results + [[]];
      } else {
        var p := new byte[len];
        var n, error := ReadSlice(r, m, p, off);
        results := results + [p[..n]];
      }
    }
  }

  /** Opening a source at its size and reading it whole succeeds with m exactly when the sequential reader drains it
      to a clean EOF with m. */
  method ReadWhole(a: Aead, s: Bytes) returns (m: Option<Bytes>)
    requires Ideal(a) && |s| <= MAX_ENC_SIZE
    ensures forall x :: m == Some(x) <==> Dec(a, 0, s) == Decrypted(x, Eof)
  {
    hide Dec, OpensAtSize, EncryptedChunkCount, PlaintextSize, NumChunks, Layout.ChunkPlain, Layout.PlainFrom, Panics;
    IdealIsSized(a);
    var src := ReaderAt(s, false);
    var o := NewDecryptReaderAt(a, src, |s|);
    if !o.Opened? {
      RefusedIsNotEncryption(a, src);
      return None;
    }
    var r := o.r;
    AcceptedSize(a, src);
    var p := new byte[r.size];
    var n, error := r.ReadAt(p, 0);
    if error == None || error == Some(EOF) {
      WholeOpens(r.Here(), n);
      m := Some(p[..n]);
    } else {
      WholeFails(r.Here(), n, error.value);
      m := None;
    }
  }

  lemma AcceptedSize(a: Aead, src: ReaderAt)
    requires Sized(a) && |src.data| <= MAX_ENC_SIZE && OpensAtSize(a, src, |src.data|)
    ensures EncryptedChunkCount(|src.data|).Some? && PlaintextSize(|src.data|).value >= 0
    ensures var l := Layout(a, src.data, PlaintextSize(|src.data|).value);
            l.Valid() && |src.data| == l.encSize && l.chunks > 0 && l.ChunkPlain(l.chunks - 1).Some?
  {
    SizeRecognised(|src.data|);
  }

  /** The last chunk opens, and so does every chunk with a byte of 0..size: then all chunks do. */
  lemma WholeOpens(l: Layout, n: nat)
    requires Ideal(l.a) && l.Valid() && |l.data| == l.encSize && l.chunks > 0 && l.ChunkPlain(l.chunks - 1).Some?
    requires n == l.size && l.Opens(0, n)
    ensures |l.Plain()| == n && l.Plain()[0..n] == l.Plain()
    ensures forall x :: Dec(l.a, 0, l.data) == Decrypted(x, Eof) <==> x == l.Plain()
  {
    hide Dec, Layout.ChunkPlain, Layout.Plain, NumChunks;
    NumChunksBounds(l.size);
    l.PlainSuffix(0);
    assert forall k :: 0 <= k < l.chunks ==> l.ChunkPlain(k).Some?;
    forall x
      ensures Dec(l.a, 0, l.data) == Decrypted(x, Eof) <==> x == l.Plain()
    {
      RandomAgreesWithSequential(l, x);
    }
  }

  lemma WholeFails(l: Layout, n: nat, e: AtError)
    requires Ideal(l.a) && l.Valid() && |l.data| == l.encSize && Fails(l, n, e)
    ensures forall x :: Dec(l.a, 0, l.data) != Decrypted(x, Eof)
  {
    forall x
      ensures Dec(l.a, 0, l.data) != Decrypted(x, Eof)
    {
      RandomAgreesWithSequential(l, x);
    }
  }

  /** A source that is refused at its own size is no encryption. */
  lemma RefusedIsNotEncryption(a: Aead, src: ReaderAt)
    requires Ideal(a) && |src.data| <= MAX_ENC_SIZE && !src.eagerEof
    requires !OpensAtSize(a, src, |src.data|)
    ensures forall x :: Dec(a, 0, src.data) != Decrypted(x, Eof)
  {
    forall x
      ensures Dec(a, 0, src.data) != Decrypted(x, Eof)
    {
      DecAcceptsExactlyEnc(a, src.data, x);
      if src.data == Enc(a, 0, x) {
        EncryptionAccepted(a, src, x);
      }
    }
  }

  // ---- Truncation -------------------------------------------------------------------------------

  lemma WholeChunk(l: Layout, m: Bytes, k: nat)
    requires Ideal(l.a) && l.Valid() && l.size == |m| && l.data == Enc(l.a, 0, m) && k < l.chunks
    ensures |l.data| == l.encSize && l.ChunkPlain(k) == Some(Chunk(m, k))
  {
    hide Enc, NumChunks, Layout.ChunkPlain, OpensAt, Chunk;
    IdealIsSized(l.a);
    EncLength(l.a, 0, m);
    ChunksOpenExactlyEnc(l.a, 0, l.data, m);
    ChunkwiseIsChunksOpen(l, m);
  }

  /** In a source that has only the first t bytes of the encryption of m, the chunks that end there open, and no others. */
  lemma TruncatedChunk(l: Layout, m: Bytes, t: nat, k: nat)
    requires Ideal(l.a) && l.Valid() && l.size == |m| && t <= |Enc(l.a, 0, m)| && l.data == Enc(l.a, 0, m)[..t] && k < l.chunks
    ensures l.ChunkPlain(k) == if l.ChunkEnd(k) <= t then Some(Chunk(m, k)) else None
  {
    hide Enc, Ideal, Sized, NumChunks, Chunk;
    var whole := Layout(l.a, Enc(l.a, 0, m), l.size);
    WholeChunk(whole, m, k);
    NumChunksBounds(l.size);
    if l.ChunkEnd(k) <= t {
      SliceOfSlice(whole.data, 0, t, k * ENC_CHUNK_SIZE, l.ChunkEnd(k));
    }
  }

  /** A stretch of plaintext all of whose chunks open to those of m is that stretch of m. */
  lemma StretchOfMessage(l: Layout, m: Bytes, lo: nat, hi: nat)
    requires l.Valid() && l.size == |m| && lo <= hi <= |m| && |l.Plain()| == |m| && l.Opens(lo, hi)
    requires forall k :: 0 <= k < l.chunks && l.ChunkPlain(k).Some? ==> l.ChunkPlain(k) == Some(Chunk(m, k))
    ensures l.Plain()[lo..hi] == m[lo..hi]
  {
    hide Layout.ChunkPlain, Layout.Plain, NumChunks;
    forall i | lo <= i < hi
      ensures l.Plain()[i] == m[i]
    {
      ByteOfMessage(l, m, i);
    }
  }

  lemma ByteOfMessage(l: Layout, m: Bytes, i: nat)
    requires l.Valid() && l.size == |m| && i < |m| == |l.Plain()|
    requires i / CHUNK_SIZE < l.chunks ==> l.ChunkPlain(i / CHUNK_SIZE) == Some(Chunk(m, i / CHUNK_SIZE))
    ensures l.Plain()[i] == m[i]
  {
    hide Layout.ChunkPlain, Layout.Plain, NumChunks;
    var k := i / CHUNK_SIZE;
    NumChunksBounds(|m|);
    l.PlainAtChunk(k);
    var base, p := k * CHUNK_SIZE, Chunk(m, k);
    assert l.Plain()[base..base + |p|][i - base] == p[i - base];
  }

  lemma WholeChunks(l: Layout, t: nat, k: nat)
    requires t < l.encSize && k < l.chunks
    ensures l.ChunkEnd(k) <= t <==> k < t / ENC_CHUNK_SIZE
  {
    hide NumChunks;
    NumChunksBounds(l.size);
  }

  /** The first chunk that is not whole stops a read that comes to it. */
  lemma FirstMissing(l: Layout, t: nat, off: nat, n: nat, want: nat, error: Option<AtError>)
    requires l.Valid() && t < l.encSize && t == |l.data| && want > 0 && off + n <= l.size && n <= want && l.Opens(off, off + n)
    requires forall k :: 0 <= k < l.chunks ==> (l.ChunkPlain(k).Some? <==> k < t / ENC_CHUNK_SIZE)
    requires if error == None || error == Some(EOF) then
               n == Min(want, l.size - off) && (error == Some(EOF) <==> off + n == l.size)
             else
               n < want && Fails(l, off + n, error.value)
    ensures var end, stop := Min(off + want, l.size), t / ENC_CHUNK_SIZE * CHUNK_SIZE;
            if off == end || end <= stop then n == end - off && error == if end == l.size then Some(EOF) else None
            else n == (if off <= stop then stop - off else 0) && error == Some(ReadFailed)
  {
    hide Layout.ChunkPlain, NumChunks, Layout.Opens;
    NumChunksBounds(l.size);
    var whole := t / ENC_CHUNK_SIZE;
    if n > 0 {
      LastOpened(l, off, off + n);
    }
    if !(error == None || error == Some(EOF)) {
      var k: nat :| FailsAt(l, k, off + n, error.value);
      assert k >= whole;
      WholeChunks(l, t, k);
    }
  }

  lemma LastOpened(l: Layout, lo: nat, hi: nat)
    requires lo < hi <= l.size && l.Opens(lo, hi)
    ensures (hi - 1) / CHUNK_SIZE < l.chunks && l.ChunkPlain((hi - 1) / CHUNK_SIZE).Some?
  {
    hide Layout.ChunkPlain, NumChunks;
    NumChunksBounds(l.size);
  }

  /** Reading where the encryption of m was cut off after t bytes: all that was asked for if its chunks are whole, else what
      comes before the first chunk that is not, and the error of a source that is too short. */
  method ReadTruncated(r: DecryptReaderAt, m: Bytes, t: nat, p: array<byte>, off: nat) returns (n: nat, error: Option<AtError>)
    requires r.Valid() && (r.cache != null ==> p != r.cache.data) && off <= |m| && p.Length > 0
    requires Ideal(r.a) && r.size == |m| && t < |Enc(r.a, 0, m)| && r.src.data == Enc(r.a, 0, m)[..t]
    modifies r, p
    ensures r.Valid() && n <= p.Length && off + n <= |m| && p[..n] == m[off..off + n]
    ensures var end, stop := Min(off + p.Length, |m|), t / ENC_CHUNK_SIZE * CHUNK_SIZE;
            if off == end || end <= stop then n == end - off && error == if end == |m| then Some(EOF) else None
            else n == (if off <= stop then stop - off else 0) && error == Some(ReadFailed)
  {
    hide Layout.ChunkPlain, Layout.Plain, Layout.Opens, NumChunks, Enc, Fails;
    ghost var l := r.Here();
    EncLength(l.a, 0, m);
    forall k | 0 <= k < l.chunks
      ensures l.ChunkPlain(k) == if k < t / ENC_CHUNK_SIZE then Some(Chunk(m, k)) else None
    {
      TruncatedChunk(l, m, t, k);
      EncLength(l.a, 0, m);
      WholeChunks(l, t, k);
    }
    n, error := r.ReadAt(p, off);
    StretchOfMessage(l, m, off, off + n);
    FirstMissing(l, t, off, n, p.Length, error);
  }
}
