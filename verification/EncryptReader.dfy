/** Pull encryption: each Read takes ciphertext that is made, chunk by chunk, from a plaintext source. */
module StreamEncryptReader {
  import opened Base
  import opened AeadModel
  import opened StreamNonce
  import opened StreamFormat
  import opened StreamIo

  // ---- What the reader keeps, as a statement about values ---------------------------------------

  /** How far a run got: the buffered bytes, of which the first ready are ciphertext, and what left the reader. */
  datatype Progress = Progress(contents: Bytes, ready: nat, pos: nat, emitted: Bytes, sealed: seq<Nonce>)

  /** Before the last chunk: the sealed chunks are out or ready, and at most one byte was read ahead of them. */
  ghost predicate Midway(a: Aead, data: Bytes, g: Progress) {
    var base := |g.sealed| * CHUNK_SIZE;
    && g.ready <= |g.contents| <= g.ready + 1
    && (g.sealed != [] ==> |g.contents| == g.ready + 1)
    && g.sealed == RunNonces(|g.sealed|, false)
    && base <= g.pos <= |data|
    && g.contents[g.ready..] == data[base..g.pos]
    && g.emitted + g.contents[..g.ready] == SealFull(a, 0, |g.sealed|, data[..base])
  }

  /** A chunk's worth of plaintext is loaded, and nothing of the buffer is ciphertext yet. */
  ghost predicate Loaded(a: Aead, data: Bytes, g: Progress) {
    var base := |g.sealed| * CHUNK_SIZE;
    && g.ready == 0
    && (g.sealed != [] ==> g.contents != [])
    && g.sealed == RunNonces(|g.sealed|, false)
    && base <= g.pos <= |data|
    && g.contents == data[base..g.pos]
    && g.emitted == SealFull(a, 0, |g.sealed|, data[..base])
  }

  ghost predicate Finished(a: Aead, data: Bytes, g: Progress) {
    && g.ready == |g.contents|
    && g.emitted + g.contents == Enc(a, 0, data)
    && g.sealed == RunNonces(NumChunks(|data|), true)
  }

  /** The state of a reader whose nonce array holds the given bytes. */
  ghost predicate Consistent(a: Aead, data: Bytes, g: Progress, eof: bool, nonce: Bytes) {
    if eof then Finished(a, data, g) else Midway(a, data, g) && nonce == NonceFor(|g.sealed|, false)
  }

  /** The counter cannot wrap while there is something to seal. */
  lemma LoadedIsCounted(a: Aead, data: Bytes, g: Progress)
    requires |data| <= MAX_MESSAGE && Loaded(a, data, g)
    ensures |g.sealed| + 1 < COUNTER_LIMIT && g.ready == 0
  {
    Int64FitsEightBytes();
  }

  function Delivered(g: Progress, n: nat): Progress
    requires n <= g.ready <= |g.contents|
  {
    g.(contents := g.contents[n..], ready := g.ready - n, emitted := g.emitted + g.contents[..n])
  }

  lemma DeliveryKeeps(a: Aead, data: Bytes, g: Progress, eof: bool, nonce: Bytes, n: nat)
    requires Consistent(a, data, g, eof, nonce) && n <= g.ready
    ensures g.ready <= |g.contents| && Consistent(a, data, Delivered(g, n), eof, nonce)
  {
    if !eof {
      assert g.contents[..n] + g.contents[n..][..g.ready - n] == g.contents[..g.ready];
      ConcatAssoc(g.emitted, g.contents[..n], g.contents[n..][..g.ready - n]);
      assert g.contents[n..][g.ready - n..] == g.contents[g.ready..];
    }
    if eof {
      assert g.contents[..n] + g.contents[n..] == g.contents;
      ConcatAssoc(g.emitted, g.contents[..n], g.contents[n..]);
    }
  }

  lemma LoadingKeeps(a: Aead, data: Bytes, g: Progress, pos: nat)
    requires Midway(a, data, g) && g.ready == 0 && g.pos <= pos <= |data|
    ensures Loaded(a, data, g.(contents := g.contents + data[g.pos..pos], pos := pos))
  {
    var base := |g.sealed| * CHUNK_SIZE;
    assert g.contents[g.ready..] == g.contents && g.contents[..g.ready] == [];
    assert data[base..pos] == data[base..g.pos] + data[g.pos..pos];
    assert g.emitted + [] == g.emitted;
  }

  lemma LastChunkFinishes(a: Aead, data: Bytes, g: Progress)
    requires Loaded(a, data, g) && |g.contents| <= CHUNK_SIZE && g.pos == |data|
    ensures var k := |g.sealed|;
            var c := a.seal(NonceFor(k, true), g.contents);
            Finished(a, data, g.(contents := c, ready := |c|, sealed := g.sealed + [NonceFor(k, true)]))
  {
    var k := |g.sealed|;
    var full := data[..k * CHUNK_SIZE];
    assert data == full + g.contents;
    EncSplit(a, 0, k, full, g.contents);
    NumChunksIs(|data|, k);
    assert g.sealed + [NonceFor(k, true)] == RunNonces(k + 1, true);
  }

  lemma FullChunkKeeps(a: Aead, data: Bytes, g: Progress)
    requires Sized(a) && Loaded(a, data, g) && |g.contents| == CHUNK_SIZE + 1
    ensures var k := |g.sealed|;
            var c := a.seal(NonceFor(k, false), g.contents[..CHUNK_SIZE]);
            Midway(a, data, g.(contents := c + [g.contents[CHUNK_SIZE]], ready := |c|, sealed := g.sealed + [NonceFor(k, false)]))
  {
    hide NonceFor, SealFull;
    var k := |g.sealed|;
    var plain := g.contents[..CHUNK_SIZE];
    var c := a.seal(NonceFor(k, false), plain);
    var full := data[..k * CHUNK_SIZE];
    SealFullSnoc(a, 0, k, full, plain);
    assert data[..(k + 1) * CHUNK_SIZE] == full + plain;
    assert (c + [g.contents[CHUNK_SIZE]])[..|c|] == c;
    assert g.contents[CHUNK_SIZE..] == [g.contents[CHUNK_SIZE]] == data[(k + 1) * CHUNK_SIZE..g.pos];
    assert g.sealed + [NonceFor(k, false)] == RunNonces(k + 1, false);
  }

  // ---- The object -------------------------------------------------------------------------------

  class EncryptReader {
    const a: Aead
    const src: Source
    const buf: Buffer
    const nonce: array<byte>
    var ready: nat  // the first ready bytes of buf are already encrypted
    var eof: bool  // the err field: nil or io.EOF

    ghost var emitted: Bytes  // all the ciphertext handed out so far
    ghost var sealed: seq<Nonce>  // the nonce of every Seal call so far

    ghost predicate Sound()
      reads this, src, buf, nonce
    {
      && Sized(a) && |src.data| <= MAX_MESSAGE
      && src.Valid() && buf.Valid() && buf.store != nonce
      && nonce.Length == NONCE_SIZE
    }

    ghost function Now(): Progress
      reads this, src, buf, buf.store
      requires buf.Valid()
    {
      Progress(buf.Contents(), ready, src.pos, emitted, sealed)
    }

    ghost predicate Valid()
      reads this, src, buf, buf.store, nonce
    {
      Sound() && Consistent(a, src.data, Now(), eof, nonce[..])
    }

    constructor (a: Aead, src: Source)
      requires Sized(a) && src.Valid() && src.pos == 0 && |src.data| <= MAX_MESSAGE
      ensures Valid() && !eof && emitted == [] && this.a == a && this.src == src
      ensures fresh(buf) && fresh(buf.store) && fresh(nonce)
    {
      this.a, this.src := a, src;
      buf := new Buffer();
      nonce := new byte[NONCE_SIZE](_ => 0);
      ready, eof := 0, false;
      emitted, sealed := [], [];
      new;
      NonceZero(0);
      assert nonce[..] == seq(NONCE_SIZE, _ => 0);
    }

    /** Read hands out ciphertext that is ready, and makes the next chunk when there is none. */
    method Read(p: array<byte>) returns (n: nat, end: bool)
      requires Valid() && p != buf.store && p != nonce
      modifies this, src, buf, buf.store, nonce, p
      ensures Valid() && (buf.store == old(buf.store) || fresh(buf.store))
      ensures n <= p.Length && emitted == old(emitted) + p[..n] && p[n..] == old(p[n..])
      ensures end <==> old(eof) && old(ready) == 0
      ensures end ==> n == 0 && emitted == Enc(a, 0, src.data)
      ensures !end && p.Length > 0 ==> n > 0
    {
      if ready > 0 {
        n := Deliver(p);
        return n, false;
      }
      if eof {
        assert emitted + buf.Contents() == emitted;
        return 0, true;
      }
      if p.Length == 0 {
        return 0, false;
      }
      FeedBuffer();
      n := Deliver(p);
      end := false;
    }

    /** buf.Read of no more than what is ready. */
    method Deliver(p: array<byte>) returns (n: nat)
      requires Valid() && p != buf.store && p != nonce && ready > 0
      modifies this, buf, p
      ensures Valid() && buf.store == old(buf.store) && eof == old(eof)
      ensures n == Min(p.Length, old(ready))
      ensures emitted == old(emitted) + p[..n] && p[n..] == old(p[n..])
    {
      hide Consistent;
      ghost var was := Now();
      n := Min(p.Length, ready);
      DeliveryKeeps(a, src.data, was, eof, nonce[..], n);
      ghost var next := Delivered(was, n);
      n := buf.Read(p, n);
      assert buf.Contents() == next.contents;
      assert p[..n] == was.contents[..n];
      ready := ready - n;
      emitted := emitted + p[..n];
      assert Now() == next;
    }

    /** feedBuffer: reads one chunk and one byte more, which tells whether the chunk is the last. */
    method FeedBuffer()
      requires Valid() && !eof && ready == 0
      modifies this, src, buf, buf.store, nonce
      ensures Valid() && (buf.store == old(buf.store) || fresh(buf.store))
      ensures emitted == old(emitted) && ready > 0
    {
      ghost var was := Now();
      var more := src.ReadUpTo(CHUNK_SIZE - buf.Len() + 1);
      buf.Write(more);
      LoadingKeeps(a, src.data, was, src.pos);
      assert Now() == was.(contents := was.contents + more, pos := src.pos);
      if buf.Len() <= CHUNK_SIZE {
        SealLast();
      } else {
        SealNext();
      }
    }

    /** The source is exhausted: what is loaded is the last chunk, encrypted in place. */
    method SealLast()
      requires Sound() && !eof && Loaded(a, src.data, Now()) && nonce[..] == NonceFor(|sealed|, false)
      requires buf.Len() <= CHUNK_SIZE && src.pos == |src.data|
      modifies this, buf, buf.store, nonce
      ensures Valid() && eof && ready > 0 && emitted == old(emitted)
      ensures buf.store == old(buf.store) || fresh(buf.store)
    {
      hide Midway, Finished, Loaded, NonceFor;
      ghost var was, k := Now(), |sealed|;
      LoadedIsCounted(a, src.data, was);
      LastChunkFinishes(a, src.data, was);
      SetLastChunkFlag(nonce, k);
      assert was.contents[..buf.Len()] == was.contents;
      var c := SealInPlace(buf.Len(), k, true);
      ready, eof := buf.Len(), true;
      sealed := sealed + [NonceFor(k, true)];
      assert Now() == was.(contents := c, ready := |c|, sealed := sealed);
    }

    /** A full chunk and the byte after it are loaded: there are more to come. */
    method SealNext()
      requires Sound() && !eof && Loaded(a, src.data, Now()) && nonce[..] == NonceFor(|sealed|, false)
      requires buf.Len() == CHUNK_SIZE + 1
      modifies this, buf, buf.store, nonce
      ensures Valid() && !eof && ready > 0 && emitted == old(emitted)
      ensures buf.store == old(buf.store) || fresh(buf.store)
    {
      hide Midway, Finished, Loaded, NonceFor;
      ghost var was, k := Now(), |sealed|;
      LoadedIsCounted(a, src.data, was);
      FullChunkKeeps(a, src.data, was);
      var c := SealKeepingTail(k);
      ready := CHUNK_SIZE + OVERHEAD;
      sealed := sealed + [NonceFor(k, false)];
      assert Now() == was.(contents := c + [was.contents[CHUNK_SIZE]], ready := |c|, sealed := sealed);
    }

    /** The tag overwrites the byte after the chunk, which is put back behind the tag. */
    method SealKeepingTail(ghost k: nat) returns (ghost c: Bytes)
      requires Sized(a) && buf.Valid() && buf.Len() == CHUNK_SIZE + 1
      requires buf.store != nonce && nonce.Length == NONCE_SIZE
      requires k + 1 < COUNTER_LIMIT && nonce[..] == NonceFor(k, false)
      modifies buf, buf.store, nonce
      ensures buf.Valid() && (buf.store == old(buf.store) || fresh(buf.store))
      ensures c == a.seal(NonceFor(k, false), old(buf.Contents())[..CHUNK_SIZE])
      ensures buf.Contents() == c + [old(buf.Contents())[CHUNK_SIZE]]
      ensures nonce[..] == NonceFor(k + 1, false)
    {
      hide NonceFor;
      var tailByte := buf.store[buf.lo + CHUNK_SIZE];
      c := SealInPlace(CHUNK_SIZE, k, false);
      buf.Write([tailByte]);
    }

    /** Seals the first len bytes of the buffer where they lie. The tag runs over the byte after them, if there
        is one, and into the spare capacity; the part of it past the end is then appended onto itself. */
    method SealInPlace(len: nat, ghost k: nat, ghost last: bool) returns (ghost c: Bytes)
      requires Sized(a) && buf.Valid() && len <= buf.Len() <= len + 1
      requires buf.store != nonce && nonce.Length == NONCE_SIZE
      requires k + 1 < COUNTER_LIMIT && nonce[..] == NonceFor(k, last)
      modifies buf, buf.store, nonce
      ensures buf.Valid() && (buf.store == old(buf.store) || fresh(buf.store))
      ensures c == a.seal(NonceFor(k, last), old(buf.Contents())[..len])
      ensures buf.Contents() == c
      ensures nonce[..] == NonceFor(k + 1, last)
    {
      var plaintext := buf.store[buf.lo..buf.lo + len];
      assert plaintext == buf.Contents()[..len];
      var ciphertext := a.seal(nonce[..], plaintext);
      buf.Replace(ciphertext);
      NextNonce(nonce, k, last);
      c := ciphertext;
    }
  }
}
