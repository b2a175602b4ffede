/** Sequential decryption: each Read takes plaintext from chunks that are read, opened and checked one at a time. */
module StreamDecryptReader {
  import opened Base
  import opened AeadModel
  import opened StreamNonce
  import opened StreamFormat
  import opened StreamIo

  /** The longest source whose chunks the nonce counter can number. */
  const MAX_SOURCE: nat := ENC_CHUNK_SIZE * (COUNTER_LIMIT - 1)

  /** How far a run got: what was handed out, what waits in the buffer, and the chunks taken from the source. */
  datatype Progress = Progress(delivered: Bytes, unread: Bytes, chunks: nat, pos: nat)

  /** Chunks are still to come, and they will complete what Dec makes of the source. */
  ghost predicate Reading(a: Aead, data: Bytes, g: Progress) {
    && g.pos == g.chunks * ENC_CHUNK_SIZE <= |data|
    && Dec(a, 0, data).plain == g.delivered + g.unread + Dec(a, g.chunks, data[g.pos..]).plain
    && Dec(a, 0, data).status == Dec(a, g.chunks, data[g.pos..]).status
  }

  lemma NothingReadYet(a: Aead, data: Bytes)
    ensures Reading(a, data, Progress([], [], 0, 0))
  {
    hide Dec;
    assert data[0..] == data;
  }

  lemma NextChunkKeeps(a: Aead, data: Bytes, g: Progress, p: Bytes)
    requires Reading(a, data, g) && g.unread == []
    requires OpenNext(a, g.chunks, data[g.pos..]) == Plain(p, false)
    requires Sized(a)
    ensures g.pos + ENC_CHUNK_SIZE <= |data| && p != []
    ensures Reading(a, data, g.(unread := p, chunks := g.chunks + 1, pos := g.pos + ENC_CHUNK_SIZE))
  {
    var s := data[g.pos..];
    var next := data[g.pos + ENC_CHUNK_SIZE..];
    var d := Dec(a, g.chunks + 1, next);
    assert Dec(a, g.chunks, s) == Decrypted(p + d.plain, d.status) by {
      assert s[ENC_CHUNK_SIZE..] == next;
    }
    assert g.delivered + g.unread == g.delivered;
    ConcatAssoc(g.delivered, p, d.plain);
  }

  lemma LastChunkStops(a: Aead, data: Bytes, g: Progress, p: Bytes)
    requires Reading(a, data, g) && g.unread == []
    requires OpenNext(a, g.chunks, data[g.pos..]) == Plain(p, true)
    ensures Dec(a, 0, data) == Decrypted(g.delivered + p, if |data| - g.pos <= ENC_CHUNK_SIZE then Eof else TrailingData)
  {
    assert g.delivered + g.unread == g.delivered;
  }

  lemma FailureStops(a: Aead, data: Bytes, g: Progress, e: Status)
    requires Reading(a, data, g) && g.unread == []
    requires OpenNext(a, g.chunks, data[g.pos..]) == NotOpened(e)
    ensures Dec(a, 0, data) == Decrypted(g.delivered, e)
  {
    assert g.delivered + g.unread + [] == g.delivered;
  }

  lemma ReadingIsAligned(a: Aead, data: Bytes, g: Progress)
    requires Reading(a, data, g)
    ensures g.pos == g.chunks * ENC_CHUNK_SIZE <= |data|
  {
  }

  lemma DeliveryKeeps(a: Aead, data: Bytes, g: Progress, n: nat)
    requires n <= |g.unread|
    ensures g.delivered + g.unread[..n] + g.unread[n..] == g.delivered + g.unread
    ensures Reading(a, data, g) ==> Reading(a, data, g.(delivered := g.delivered + g.unread[..n], unread := g.unread[n..]))
  {
    ConcatAssoc(g.delivered, g.unread[..n], g.unread[n..]);
    assert g.unread[..n] + g.unread[n..] == g.unread;
  }

  class DecryptReader {
    const a: Aead
    const src: Source
    const buf: array<byte>
    const nonce: array<byte>
    var unread: nat  // buf[unread..end] is decrypted but unread data
    var end: nat
    var err: Option<Status>

    ghost var delivered: Bytes  // all the plaintext handed out so far
    ghost var chunks: nat  // the chunks opened so far

    ghost predicate Sound()
      reads this, src
    {
      && Sized(a) && |src.data| <= MAX_SOURCE
      && src.Valid()
      && buf != nonce && buf.Length == ENC_CHUNK_SIZE && nonce.Length == NONCE_SIZE
      && unread <= end <= ENC_CHUNK_SIZE
    }

    ghost function Now(): Progress
      reads this, src, buf
      requires unread <= end <= buf.Length
    {
      Progress(delivered, buf[unread..end], chunks, src.pos)
    }

    ghost predicate Valid()
      reads this, src, buf, nonce
    {
      && Sound()
      && match err
         case None => Reading(a, src.data, Now()) && nonce[..] == NonceFor(chunks, false)
         case Some(status) => Dec(a, 0, src.data) == Decrypted(delivered + buf[unread..end], status)
    }

    constructor (a: Aead, src: Source)
      requires Sized(a) && src.Valid() && src.pos == 0 && |src.data| <= MAX_SOURCE
      ensures Valid() && err == None && delivered == [] && this.a == a && this.src == src
      ensures fresh(buf) && fresh(nonce)
    {
      this.a, this.src := a, src;
      buf := new byte[ENC_CHUNK_SIZE](_ => 0);
      nonce := new byte[NONCE_SIZE](_ => 0);
      unread, end, err := 0, 0, None;
      delivered, chunks := [], 0;
      new;
      hide Dec, Reading, NonceFor;
      NonceZero(0);
      assert nonce[..] == seq(NONCE_SIZE, _ => 0);
      assert buf[unread..end] == [];
      NothingReadYet(a, src.data);
    }

    /** Read hands out plaintext, at least one byte of it unless the chunk just opened is empty. */
    method Read(p: array<byte>) returns (n: nat, error: Option<Status>)
      requires Valid() && p != buf && p != nonce
      modifies this, src, buf, nonce, p
      ensures Valid()
      ensures n <= p.Length && delivered == old(delivered) + p[..n] && p[n..] == old(p[n..])
      ensures error.Some? ==> n == 0 && err == error && Dec(a, 0, src.data) == Decrypted(delivered, error.value)
      ensures old(err).Some? ==> err == old(err) && (old(unread) == old(end) ==> error == err)
      ensures error.None? && p.Length > 0 ==> n > 0 || (old(err).None? && err.Some?)
    {
      hide Reading, Dec, OpenNext;
      if end > unread {
        n := Deliver(p);
        return n, None;
      }
      if err != None {
        assert delivered + buf[unread..end] == delivered == delivered + p[..0];
        return 0, err;
      }
      if p.Length == 0 {
        return 0, None;
      }
      ghost var was := Now();
      ReadingIsAligned(a, src.data, was);
      var last, e := ReadChunk();
      if e != None {
        err := e;
        FailureStops(a, src.data, was, e.value);
        assert delivered + buf[unread..end] == delivered == delivered + p[..0];
        return 0, e;
      }
      ghost var plain := buf[unread..end];
      if last {
        LastChunkStops(a, src.data, was, plain);
        err := CheckEnd();
      } else {
        NextChunkKeeps(a, src.data, was, plain);
        assert Now() == was.(unread := plain, chunks := was.chunks + 1, pos := was.pos + ENC_CHUNK_SIZE);
      }
      n := Deliver(p);
      error := None;
    }

    /** Copies what it can of the unread data to p. */
    method Deliver(p: array<byte>) returns (n: nat)
      requires Valid() && p != buf && p != nonce
      modifies `unread, `delivered, p
      ensures Valid() && n == Min(p.Length, old(end - unread)) && unread == old(unread) + n
      ensures delivered == old(delivered) + p[..n] && p[n..] == old(p[n..])
    {
      hide Reading, Dec;
      ghost var was := Now();
      n := Min(p.Length, end - unread);
      DeliveryKeeps(a, src.data, was, n);
      forall i | 0 <= i < n {
        p[i] := buf[unread + i];
      }
      assert p[..n] == was.unread[..n];
      unread := unread + n;
      delivered := delivered + p[..n];
      assert buf[unread..end] == was.unread[n..];
      assert Now() == was.(delivered := was.delivered + was.unread[..n], unread := was.unread[n..]);
    }

    /** After the last chunk there must be nothing: a further byte from the source is trailing data. */
    method CheckEnd() returns (e: Option<Status>)
      requires src.Valid()
      modifies src
      ensures src.Valid()
      ensures e == Some(if old(src.pos) == |src.data| then Eof else TrailingData)
    {
      var b, eof := src.Read(1);
      e := Some(if eof then Eof else TrailingData);
    }

    /** readChunk: fills buf with ciphertext, opens it, and leaves the plaintext in its place. */
    method ReadChunk() returns (last: bool, error: Option<Status>)
      requires Sound() && nonce[..] == NonceFor(chunks, false)
      requires unread == end && src.pos == chunks * ENC_CHUNK_SIZE
      modifies `unread, `end, `chunks, src, buf, nonce
      ensures Sound() && src.pos == Min(old(src.pos) + ENC_CHUNK_SIZE, |src.data|)
      ensures match OpenNext(a, old(chunks), src.data[old(src.pos)..])
              case NotOpened(e) => error == Some(e) && unread == end && chunks == old(chunks)
              case Plain(p, l) =>
                && error == None && last == l && buf[unread..end] == p && chunks == old(chunks) + 1
                && (!l ==> nonce[..] == NonceFor(chunks, false))
    {
      ghost var k, rest := chunks, src.data[src.pos..];
      var n := src.ReadFull(buf);
      assert buf[..n] == rest[..n];
      if n == 0 {
        return false, Some(UnexpectedEof);
      }
      CountedWhileReading(k);
      NonceZero(k);
      last := false;
      if n < ENC_CHUNK_SIZE {
        assert buf[..n] == rest;
        if nonce[..] != seq(NONCE_SIZE, _ => 0) && n == OVERHEAD {
          return false, Some(EmptyLastChunk);
        }
        last := true;
        SetLastChunkFlag(nonce, k);
      }
      var out := a.open(nonce[..], buf[..n]);
      if out == None && !last {
        last := true;
        SetLastChunkFlag(nonce, k);
        out := a.open(nonce[..], buf[..n]);
      }
      if out == None {
        return false, Some(Corrupted);
      }
      NextNonce(nonce, k, last);
      chunks := chunks + 1;
      Keep(out.value);
      error := None;
    }

    /** Copies an opened chunk over its ciphertext, where it waits to be read. */
    method Keep(plain: Bytes)
      requires buf.Length == ENC_CHUNK_SIZE && |plain| <= ENC_CHUNK_SIZE
      modifies `unread, `end, buf
      ensures unread == 0 && end == |plain| && buf[unread..end] == plain
    {
      unread, end := 0, Min(|plain|, buf.Length);
      forall i | 0 <= i < end {
        buf[i] := plain[i];
      }
    }

    lemma CountedWhileReading(k: nat)
      requires k * ENC_CHUNK_SIZE < |src.data| <= MAX_SOURCE
      ensures k + 1 < COUNTER_LIMIT
    {
    }
  }
}
