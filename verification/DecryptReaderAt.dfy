/** Random-access decryption: any slice of the plaintext, with the last chunk opened kept in a cache. */
module StreamDecryptReaderAt {
  import opened Base
  import opened AeadModel
  import opened StreamNonce
  import opened StreamFormat
  import opened StreamSizes
  import opened StreamRandomAccess

  datatype ReadError = EndOfFile | NegativeOffset

  /** An io.ReaderAt over fixed data. Reading up to its very end may or may not report EOF along with the bytes. */
  datatype ReaderAt = ReaderAt(data: Bytes, eagerEof: bool) {
    function ReadAt(n: nat, off: int): (r: (Bytes, Option<ReadError>))
      ensures |r.0| <= n
    {
      if off < 0 then ([], Some(NegativeOffset))
      else if off > |data| then ([], Some(EndOfFile))
      else
        var end := Min(off + n, |data|);
        (data[off..end], if end < off + n || (eagerEof && end == |data|) then Some(EndOfFile) else None)
    }
  }

  datatype AtError = EOF | InvalidSize | OutOfRange | ReadFailed | BadChunk

  /** A decrypted chunk: data[..len] is the plaintext of the chunk whose ciphertext starts at off. */
  class CachedChunk {
    const off: int
    const data: array<byte>
    const len: nat

    constructor (off: int, data: array<byte>, len: nat)
      ensures this.off == off && this.data == data && this.len == len
    {
      this.off, this.data, this.len := off, data, len;
    }
  }

  /** c holds the plaintext of the chunk it claims to. */
  ghost predicate Holds(l: Layout, c: CachedChunk)
    reads c.data
  {
    && 0 <= c.len <= c.data.Length
    && exists k :: HoldsChunk(l, k, c.off, c.data[..c.len])
  }

  ghost predicate HoldsChunk(l: Layout, k: nat, off: int, plain: Bytes) {
    k < l.chunks && off == k * ENC_CHUNK_SIZE && l.ChunkPlain(k) == Some(plain)
  }

  /** Reading at pos fails: the chunk that has the byte there is missing from the source, or does not open. */
  ghost predicate Fails(l: Layout, pos: nat, e: AtError) {
    pos < l.size && exists k :: FailsAt(l, k, pos, e)
  }

  ghost predicate FailsAt(l: Layout, k: nat, pos: nat, e: AtError) {
    && k < l.chunks && k * CHUNK_SIZE <= pos < (k + 1) * CHUNK_SIZE
    && l.ChunkPlain(k).None?
    && e == if l.ChunkEnd(k) > |l.data| then ReadFailed else BadChunk
  }

  /** Where the chunk starts, in the source, that has the last byte before plaintext position pos. */
  function LastChunkOff(pos: int): int {
    (pos - 1) / CHUNK_SIZE * ENC_CHUNK_SIZE
  }

  lemma LastChunkIs(k: nat, pos: int)
    requires k * CHUNK_SIZE < pos <= (k + 1) * CHUNK_SIZE
    ensures LastChunkOff(pos) == k * ENC_CHUNK_SIZE
  {
  }

  lemma FailsThere(l: Layout, k: nat, pos: nat, e: AtError)
    requires pos < l.size && FailsAt(l, k, pos, e)
    ensures Fails(l, pos, e)
  {
  }

  /** A stretch of chunk k, from plaintext position pos. */
  lemma Stretch(l: Layout, k: nat, pos: nat, n: nat)
    requires l.Valid() && k < l.chunks && l.ChunkPlain(k).Some?
    requires k * CHUNK_SIZE <= pos && pos + n <= k * CHUNK_SIZE + |l.ChunkPlain(k).value|
    ensures |l.Plain()| == l.size && pos + n <= l.size
    ensures l.Plain()[pos..pos + n] == l.ChunkPlain(k).value[pos - k * CHUNK_SIZE..pos - k * CHUNK_SIZE + n]
  {
    hide Layout.ChunkPlain, Layout.Plain, NumChunks;
    l.PlainAtChunk(k);
    var base, plain := k * CHUNK_SIZE, l.ChunkPlain(k).value;
    SliceOfSlice(l.Plain(), base, base + |plain|, pos - base, pos - base + n);
  }

  lemma StretchLength(l: Layout, k: nat, pos: nat)
    requires l.Valid() && k < l.chunks && l.ChunkPlain(k).Some?
    requires k * CHUNK_SIZE <= pos < (k + 1) * CHUNK_SIZE && pos < l.size
    ensures pos < k * CHUNK_SIZE + |l.ChunkPlain(k).value| <= Min(l.size, (k + 1) * CHUNK_SIZE)
  {
    NumChunksBounds(l.size);
    l.ChunkPlainLength(k);
  }

  /** What one call has read so far: the plaintext from off to pos, all of it from chunks that open. */
  ghost predicate ReadSoFar(l: Layout, got: Bytes, off: nat, pos: nat) {
    && off <= pos <= l.size == |l.Plain()|
    && got == l.Plain()[off..pos] && l.Opens(off, pos)
  }

  lemma NothingReadYet(l: Layout, off: nat)
    requires l.Valid() && off <= l.size
    ensures ReadSoFar(l, [], off, off)
  {
    hide Layout.ChunkPlain, Layout.PlainFrom, Layout.Plain, NumChunks;
    NumChunksBounds(l.size);
    l.PlainSuffix(0);
  }

  lemma ReadFurther(l: Layout, got: Bytes, off: nat, pos: nat, k: nat, piece: Bytes)
    requires ReadSoFar(l, got, off, pos) && pos + |piece| <= l.size && k < l.chunks && l.ChunkPlain(k).Some?
    requires k * CHUNK_SIZE <= pos && pos + |piece| <= (k + 1) * CHUNK_SIZE
    requires piece == l.Plain()[pos..pos + |piece|]
    ensures ReadSoFar(l, got + piece, off, pos + |piece|)
  {
    hide Layout.ChunkPlain, Layout.Plain, Layout.Opens;
    l.OpensFurther(off, pos, pos + |piece|, k);
    SliceJoin(l.Plain(), off, pos, pos + |piece|);
  }

  lemma ReadIs(l: Layout, got: Bytes, off: nat, pos: nat)
    requires ReadSoFar(l, got, off, pos)
    ensures off <= pos <= l.size == |l.Plain()| && got == l.Plain()[off..pos] && l.Opens(off, pos)
  {
  }

  /** All that was asked for, with EOF just when that is up to the end, or an error at the first byte that cannot be had. */
  ghost predicate ReadEnds(l: Layout, got: Bytes, off: nat, want: nat, error: Option<AtError>) {
    && ReadSoFar(l, got, off, off + |got|)
    && if error == None || error == Some(EOF) then
         |got| == Min(want, l.size - off) && (error == Some(EOF) <==> off + |got| == l.size)
       else
         |got| < want && Fails(l, off + |got|, error.value)
  }

  lemma ReadFails(l: Layout, got: Bytes, off: nat, want: nat, pos: nat, e: AtError)
    requires ReadSoFar(l, got, off, pos) && |got| < want && Fails(l, pos, e)
    ensures ReadEnds(l, got, off, want, Some(e)) && e != EOF
  {
    hide Layout.ChunkPlain, Layout.Plain, Layout.Opens;
  }

  lemma ReadCompletes(l: Layout, got: Bytes, off: nat, want: nat, pos: nat)
    requires ReadSoFar(l, got, off, pos) && (|got| == want || pos == l.size) && |got| <= want
    ensures ReadEnds(l, got, off, want, if pos == l.size then Some(EOF) else None)
  {
    hide Layout.ChunkPlain, Layout.Plain, Layout.Opens;
  }

  datatype Opening = Opened(r: DecryptReaderAt) | Refused(error: AtError) | Panicked

  class DecryptReaderAt {
    const a: Aead
    const src: ReaderAt
    const size: nat
    const chunks: nat
    var cache: CachedChunk?

    ghost function Here(): Layout {
      Layout(a, src.data, size)
    }

    ghost predicate Valid()
      reads this, if cache != null then {cache.data} else {}
    {
      && Here().Valid() && chunks == NumChunks(size)
      && (cache != null ==> Holds(Here(), cache))
    }

    constructor (a: Aead, src: ReaderAt, size: nat, cache: CachedChunk)
      requires Layout(a, src.data, size).Valid() && Holds(Layout(a, src.data, size), cache)
      ensures Valid() && this.a == a && this.src == src && this.size == size && this.cache == cache
    {
      this.a, this.src, this.size, this.cache := a, src, size, cache;
      this.chunks := NumChunks(size);
    }

    /** ReadAt: exactly the plaintext asked for, with EOF when that reaches the end; or an error, after everything before
        the first chunk that could not be read or opened. The last chunk it takes from is then in the cache. */
    method ReadAt(p: array<byte>, off: int) returns (n: nat, error: Option<AtError>)
      requires Valid() && (cache != null ==> p != cache.data)
      modifies this, p
      ensures Valid() && (cache == old(cache) || (cache != null && fresh(cache.data)))
      ensures n > 0 && (error == None || error == Some(EOF)) ==> cache != null && cache.off == LastChunkOff(off + n)
      ensures n == 0 || !(error == None || error == Some(EOF)) ==> cache == old(cache)
      ensures n <= p.Length && p[n..] == old(p[n..])
      ensures !(0 <= off <= size) ==> n == 0 && error == Some(OutOfRange)
      ensures 0 <= off <= size ==>
                && |Here().Plain()| == size && off + n <= size
                && p[..n] == Here().Plain()[off..off + n] && Here().Opens(off, off + n)
      ensures 0 <= off <= size && p.Length == 0 ==> error == None
      ensures 0 <= off <= size && p.Length > 0 ==>
                if error == None || error == Some(EOF) then
                  n == Min(p.Length, size - off) && (error == Some(EOF) <==> off + n == size)
                else
                  n < p.Length && error.Some? && Fails(Here(), off + n, error.value)
    {
      hide LastChunkOff, Holds, Fails, ReadSoFar, Layout.ChunkPlain, Layout.PlainFrom, Layout.Plain, Layout.Opens, NumChunks;
      if off < 0 || off > size {
        return 0, Some(OutOfRange);
      }
      if p.Length == 0 {
        NothingReadYet(Here(), off);
        ReadIs(Here(), [], off, off);
        assert p[..0] == [];
        return 0, None;
      }
      n, error := ReadChunks(p, off);
      ReadIs(Here(), p[..n], off, off + n);
    }

    /** The loop over the chunks that have some of the plaintext asked for. */
    method ReadChunks(p: array<byte>, off: nat) returns (n: nat, error: Option<AtError>)
      requires Valid() && (cache != null ==> p != cache.data) && off <= size && p.Length > 0
      modifies this, p
      ensures Valid() && (cache == old(cache) || (cache != null && fresh(cache.data)))
      ensures n > 0 && (error == None || error == Some(EOF)) ==> cache != null && cache.off == LastChunkOff(off + n)
      ensures n == 0 || !(error == None || error == Some(EOF)) ==> cache == old(cache)
      ensures n <= p.Length && p[n..] == old(p[n..]) && ReadEnds(Here(), p[..n], off, p.Length, error)
    {
      hide LastChunkOff, Holds, Fails, ReadEnds, ReadSoFar, Layout.ChunkPlain, Layout.Plain, Layout.Opens, NumChunks;
      n := 0;
      NothingReadYet(Here(), off);
      assert p[..0] == [];
      var cacheUpdate: CachedChunk? := null;
      var chunk := new byte[ENC_CHUNK_SIZE](_ => 0);
      var pos := off;
      while n < p.Length && pos < size
        invariant n <= p.Length && pos == off + n <= size
        invariant cache == old(cache) && Valid()
        invariant cacheUpdate != null ==> cacheUpdate.data == chunk && Holds(Here(), cacheUpdate)
        invariant n == 0 ==> cacheUpdate == null
        invariant n > 0 ==> var last := if cacheUpdate != null then cacheUpdate else cache; last != null && last.off == LastChunkOff(pos)
        invariant ReadSoFar(Here(), p[..n], off, pos) && p[n..] == old(p[n..])
        decreases p.Length - n
      {
        ghost var got := p[..n];
        var k := pos / CHUNK_SIZE;
        NumChunksBounds(size);
        var plaintext, len, e;
        plaintext, len, cacheUpdate, e := Load(k, chunk);
        if e != None {
          FailsThere(Here(), k, pos, e.value);
          ReadFails(Here(), got, off, p.Length, pos, e.value);
          return n, e;
        }
        ghost var untouched := p[n..];
        var copySize := CopyOut(k, plaintext, len, p, n, pos);
        assert p[n + copySize..] == untouched[copySize..];
        ReadFurther(Here(), got, off, pos, k, p[n..n + copySize]);
        assert p[..n + copySize] == got + p[n..n + copySize];
        n, pos := n + copySize, pos + copySize;
        LastChunkIs(k, pos);
      }
      ReadCompletes(Here(), p[..n], off, p.Length, pos);
      if cacheUpdate != null {
        cache := cacheUpdate;
      }
      error := if pos == size then Some(EOF) else None;
    }

    /** Takes chunk k from the cache if it is there, else through the buffer, which update then publishes. */
    method Load(k: nat, chunk: array<byte>)
      returns (plaintext: array<byte>, len: nat, update: CachedChunk?, error: Option<AtError>)
      requires Valid() && k < chunks && chunk.Length == ENC_CHUNK_SIZE && (cache != null ==> chunk != cache.data)
      modifies chunk
      ensures plaintext == chunk || (cache != null && plaintext == cache.data)
      ensures update == null || (update.data == chunk && Holds(Here(), update))
      ensures error == None ==> var from := if update != null then update else cache; from != null && from.off == k * ENC_CHUNK_SIZE
      ensures match Here().ChunkPlain(k)
              case Some(plain) => error == None && len <= plaintext.Length && plaintext[..len] == plain
              case None => error == Some(if Here().ChunkEnd(k) > |src.data| then ReadFailed else BadChunk)
    {
      hide Layout.ChunkPlain, NumChunks;
      var chunkOff := k * ENC_CHUNK_SIZE;
      var cached := cache;
      if cached != null && cached.off == chunkOff {
        assert HoldsChunk(Here(), k, chunkOff, cached.data[..cached.len]);
        return cached.data, cached.len, null, None;
      }
      plaintext, update := chunk, null;
      len, error := OpenChunk(k, chunk);
      if error == None {
        update := new CachedChunk(chunkOff, chunk, len);
        assert HoldsChunk(Here(), k, chunkOff, chunk[..len]);
      }
    }

    /** Reads encrypted chunk k into the buffer and opens it there. */
    method OpenChunk(k: nat, chunk: array<byte>) returns (len: nat, error: Option<AtError>)
      requires Here().Valid() && chunks == NumChunks(size) && k < chunks && chunk.Length == ENC_CHUNK_SIZE
      modifies chunk
      ensures match Here().ChunkPlain(k)
              case Some(plain) => error == None && len <= chunk.Length && chunk[..len] == plain
              case None => error == Some(if Here().ChunkEnd(k) > |src.data| then ReadFailed else BadChunk)
    {
      var chunkSize, ok := FetchChunk(k, chunk);
      if !ok {
        return 0, Some(ReadFailed);
      }
      NumChunksBounds(size);
      var nonce := NonceForChunk(k);
      if k == chunks - 1 {
        SetLastChunkFlag(nonce, k);
      }
      match a.open(nonce[..], chunk[..chunkSize])
      case None => return 0, Some(BadChunk);
      case Some(plain) =>
        Store(plain, chunk);
        len, error := |plain|, None;
    }

    /** Reads encrypted chunk k; EOF along with all of its bytes is no error, with fewer it is. */
    method FetchChunk(k: nat, chunk: array<byte>) returns (chunkSize: nat, ok: bool)
      requires Here().Valid() && chunks == NumChunks(size) && k < chunks && chunk.Length == ENC_CHUNK_SIZE
      modifies chunk
      ensures chunkSize <= ENC_CHUNK_SIZE && (ok <==> Here().ChunkEnd(k) <= |src.data|)
      ensures ok ==> k * ENC_CHUNK_SIZE <= Here().ChunkEnd(k)
                     && chunk[..chunkSize] == src.data[k * ENC_CHUNK_SIZE..Here().ChunkEnd(k)]
    {
      NumChunksBounds(size);
      var chunkOff := k * ENC_CHUNK_SIZE;
      var encSize := size + chunks * OVERHEAD;
      chunkSize := Min(encSize - chunkOff, ENC_CHUNK_SIZE);
      var (bytes, e) := src.ReadAt(chunkSize, chunkOff);
      Store(bytes, chunk);
      ok := e == None || (e == Some(EndOfFile) && |bytes| == chunkSize);
    }

    static method Store(bytes: Bytes, chunk: array<byte>)
      requires |bytes| <= chunk.Length
      modifies chunk
      ensures chunk[..|bytes|] == bytes
    {
      forall i | 0 <= i < |bytes| {
        chunk[i] := bytes[i];
      }
    }

    /** Copies from plaintext position pos, which lies in chunk k, to p[n..]; always at least one byte. */
    method CopyOut(k: nat, plaintext: array<byte>, len: nat, p: array<byte>, n: nat, pos: nat) returns (copied: nat)
      requires Here().Valid() && p != plaintext
      requires len <= plaintext.Length && k < NumChunks(size) && Here().ChunkPlain(k) == Some(plaintext[..len])
      requires n < p.Length && pos < size && k * CHUNK_SIZE <= pos < (k + 1) * CHUNK_SIZE
      modifies p
      ensures 0 < copied <= p.Length - n && pos + copied <= size && |Here().Plain()| == size
      ensures pos + copied <= (k + 1) * CHUNK_SIZE
      ensures p[..n] == old(p[..n]) && p[n + copied..] == old(p[n + copied..])
      ensures p[n..n + copied] == Here().Plain()[pos..pos + copied]
    {
      StretchLength(Here(), k, pos);
      var from := pos - k * CHUNK_SIZE;
      copied := Min(len - from, p.Length - n);
      Stretch(Here(), k, pos, copied);
      ghost var piece := plaintext[..len][from..from + copied];
      assert piece == plaintext[from..from + copied];
      CopyBytes(plaintext, from, copied, p, n);
    }

    static method CopyBytes(source: array<byte>, from: nat, count: nat, p: array<byte>, n: nat)
      requires p != source && from + count <= source.Length && n + count <= p.Length
      modifies p
      ensures p[..n] == old(p[..n]) && p[n + count..] == old(p[n + count..])
      ensures p[n..n + count] == source[from..from + count]
    {
      forall i | 0 <= i < count {
        p[n + i] := source[from + i];
      }
    }
  }

  /** The size is that of an encryption, the source has that many bytes and gives the final ones without EOF, and
      the final chunk opens as the last one. */
  ghost predicate OpensAtSize(a: Aead, src: ReaderAt, size: int)
    requires IsInt64(size)
  {
    && 0 <= size <= MAX_ENC_SIZE && EncryptedChunkCount(size).Some?
    && GivesSize(src, size)
    && PlaintextSize(size).value >= 0
    && FinalPlain(a, src, PlaintextSize(size).value).Some?
  }

  /** The source has this many bytes, and gives the last of them without EOF. */
  predicate GivesSize(src: ReaderAt, size: int) {
    0 <= size <= |src.data| && !(src.eagerEof && size == |src.data|)
  }

  ghost function FinalPlain(a: Aead, src: ReaderAt, n: nat): Option<Bytes> {
    NumChunksBounds(n);
    Layout(a, src.data, n).ChunkPlain(NumChunks(n) - 1)
  }

  /** What comes of the read of the final chunk: the source's own error, or that chunk of the layout. */
  ghost predicate FinalReadIsRight(a: Aead, src: ReaderAt, size: int, index: int, off: int, length: nat)
    requires IsInt64(size)
  {
    var (bytes, e) := src.ReadAt(length, off);
    EncryptedChunkCount(size).Some?
    && if e != None then !GivesSize(src, size) && !OpensAtSize(a, src, size)
    else
      && GivesSize(src, size)
      && EncryptedChunkCount(size).Some? && PlaintextSize(size).value >= 0 && 0 <= size <= MAX_ENC_SIZE
      && var n := PlaintextSize(size).value;
         && EncryptedSize(n) == size && 0 <= index < TWO_63 && index == NumChunks(n) - 1
         && off == index * ENC_CHUNK_SIZE
         && a.open(NonceFor(index, true), bytes) == FinalPlain(a, src, n)
         && (OpensAtSize(a, src, size) <==> FinalPlain(a, src, n).Some?)
  }

  /** The read at the place of the final chunk of n bytes of plaintext. */
  lemma FinalChunkRead(a: Aead, src: ReaderAt, n: nat, k: nat, length: nat)
    requires k == NumChunks(n) - 1 && k * ENC_CHUNK_SIZE + length == EncryptedSize(n)
    ensures var (bytes, e) := src.ReadAt(length, k * ENC_CHUNK_SIZE);
            && (e == None <==> EncryptedSize(n) <= |src.data| && !(src.eagerEof && EncryptedSize(n) == |src.data|))
            && (e == None ==> a.open(NonceFor(k, true), bytes) == FinalPlain(a, src, n))
  {
    hide NumChunks, NonceFor;
    NumChunksBounds(n);
  }

  lemma FinalReadInRange(a: Aead, src: ReaderAt, size: int)
    requires 0 <= size <= MAX_ENC_SIZE && EncryptedChunkCount(size).Some?
    ensures FinalChunkOf(size).At?
    ensures FinalReadIsRight(a, src, size, FinalChunkOf(size).index, FinalChunkOf(size).off, FinalChunkOf(size).length)
  {
    hide EncryptedChunkCount, ToInt64, NumChunks, NonceFor, FinalPlain, ReaderAt.ReadAt, FinalChunkOf;
    FinalChunkInRange(size);
    var n := PlaintextSize(size).value;
    NumChunksBounds(n);
    FinalChunkRead(a, src, n, NumChunks(n) - 1, FinalChunkOf(size).length);
  }

  /** The read of the final chunk succeeds only with a size in range, and then it gets that chunk of the layout. */
  lemma FinalRead(a: Aead, src: ReaderAt, size: int)
    requires IsInt64(size) && |src.data| <= MAX_ENC_SIZE
    ensures match FinalChunkOf(size)
            case At(index, off, length) => FinalReadIsRight(a, src, size, index, off, length)
            case BadSize => EncryptedChunkCount(size).None? && !OpensAtSize(a, src, size)
            case NegativeLength => !OpensAtSize(a, src, size)
  {
    hide EncryptedChunkCount, PlaintextSize, ToInt64, NumChunks;
    if size < 0 {
      FinalChunkOfNegative(size);
    } else if size > MAX_ENC_SIZE {
      FinalChunkOfOverflowing(size);
    } else if EncryptedChunkCount(size).Some? {
      FinalReadInRange(a, src, size);
    }
  }

  /** NewDecryptReaderAt: the size is accepted only once the final chunk has been opened, and that chunk is cached. */
  method NewDecryptReaderAt(a: Aead, src: ReaderAt, size: int) returns (o: Opening)
    requires Sized(a) && IsInt64(size) && |src.data| <= MAX_ENC_SIZE
    ensures o.Opened? <==> OpensAtSize(a, src, size)
    ensures o.Opened? ==>
              && fresh(o.r) && o.r.Valid() && o.r.a == a && o.r.src == src && o.r.size == PlaintextSize(size).value
              && o.r.cache != null && fresh(o.r.cache.data) && o.r.cache.off == (o.r.chunks - 1) * ENC_CHUNK_SIZE
    ensures o.Refused? ==>
              o.error == if EncryptedChunkCount(size).None? then InvalidSize
                         else if GivesSize(src, size) then BadChunk else ReadFailed
    ensures o == Panicked <==> Panics(size)
  {
    hide OpensAtSize, GivesSize, NonceFor, Panics, FinalChunkOf, EncryptedChunkCount, NumChunks, ReaderAt.ReadAt;
    FinalRead(a, src, size);
    PanicsExactly(size);
    match FinalChunkOf(size)
    case BadSize => return Refused(InvalidSize);
    case NegativeLength => return Panicked;
    case At(index, off, length) =>
      var finalChunk := new byte[length](_ => 0);
      var (bytes, e) := src.ReadAt(length, off);
      DecryptReaderAt.Store(bytes, finalChunk);
      if e != None {
        return Refused(ReadFailed);
      }
      var nonce := NonceForChunk(index);
      SetLastChunkFlag(nonce, index);
      match a.open(nonce[..], bytes) {
        case None => return Refused(BadChunk);
        case Some(plain) =>
          DecryptReaderAt.Store(plain, finalChunk);
          var cache := new CachedChunk(off, finalChunk, |plain|);
          var n := PlaintextSize(size).value;
          assert HoldsChunk(Layout(a, src.data, n), index, off, finalChunk[..|plain|]);
          var r := new DecryptReaderAt(a, src, n, cache);
          o := Opened(r);
      }
  }
}
