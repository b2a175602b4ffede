/** Push encryption: plaintext written in any pieces, ciphertext pushed out one chunk at a time. */
module StreamEncryptWriter {
  import opened Base
  import opened AeadModel
  import opened StreamNonce
  import opened StreamFormat
  import opened StreamIo

  // ---- What the writer keeps, as a statement about values ---------------------------------------

  /** How far a run got: the buffered plaintext, all the plaintext accepted, the ciphertext out, the nonces used. */
  datatype Progress = Progress(buf: Bytes, written: Bytes, out: Bytes, sealed: seq<Nonce>)

  /** All that an open writer keeps, except that inside Write the buffer may be empty after a flush. */
  ghost predicate Buffering(a: Aead, g: Progress) {
    var base := |g.sealed| * CHUNK_SIZE;
    && |g.buf| <= CHUNK_SIZE
    && |g.written| == base + |g.buf|
    && g.buf == g.written[base..]
    && g.out == SealFull(a, 0, |g.sealed|, g.written[..base])
    && g.sealed == RunNonces(|g.sealed|, false)
  }

  ghost predicate Complete(a: Aead, g: Progress) {
    && g.out == Enc(a, 0, g.written)
    && g.sealed == RunNonces(NumChunks(|g.written|), true)
  }

  /** The counter cannot wrap while there is something to seal. */
  lemma BufferedIsCounted(a: Aead, g: Progress)
    requires Buffering(a, g) && |g.written| <= MAX_MESSAGE && (g.sealed != [] ==> g.buf != [])
    ensures |g.sealed| + 1 < COUNTER_LIMIT
  {
    Int64FitsEightBytes();
  }

  lemma FillingKeeps(a: Aead, g: Progress, p: Bytes)
    requires Buffering(a, g) && |g.buf| + |p| <= CHUNK_SIZE
    ensures Buffering(a, g.(buf := g.buf + p, written := g.written + p))
  {
    var base := |g.sealed| * CHUNK_SIZE;
    assert (g.written + p)[..base] == g.written[..base];
    assert (g.written + p)[base..] == g.buf + p;
  }

  function Flushed(a: Aead, g: Progress, last: bool): Progress {
    var nonce := NonceFor(|g.sealed|, last);
    g.(buf := [], out := g.out + a.seal(nonce, g.buf), sealed := g.sealed + [nonce])
  }

  lemma FlushKeeps(a: Aead, g: Progress)
    requires Buffering(a, g) && |g.buf| == CHUNK_SIZE
    ensures Buffering(a, Flushed(a, g, false))
  {
    var k := |g.sealed|;
    var full := g.written[..k * CHUNK_SIZE];
    SealFullSnoc(a, 0, k, full, g.buf);
    assert g.written == full + g.buf == g.written[..(k + 1) * CHUNK_SIZE];
    assert Flushed(a, g, false).sealed == RunNonces(k + 1, false);
  }

  lemma FlushCompletes(a: Aead, g: Progress)
    requires Buffering(a, g) && (g.sealed != [] ==> g.buf != [])
    ensures Complete(a, Flushed(a, g, true))
  {
    var k := |g.sealed|;
    var full := g.written[..k * CHUNK_SIZE];
    EncSplit(a, 0, k, full, g.buf);
    assert g.written == full + g.buf;
    NumChunksIs(|g.written|, k);
    assert Flushed(a, g, true).sealed == RunNonces(k + 1, true);
  }

  // ---- The object -------------------------------------------------------------------------------

  datatype State = Open | Failed | Closed

  class EncryptWriter {
    const a: Aead
    const dst: Sink
    const nonce: array<byte>
    var buf: Bytes
    var state: State  // the err field: nil, a write error, or "already closed"

    ghost var written: Bytes  // all the plaintext accepted so far
    ghost var out: Bytes  // all the ciphertext made so far
    ghost var sealed: seq<Nonce>  // the nonce of every Seal call so far
    ghost const before: Bytes  // what dst held when the writer was made

    ghost function Now(): Progress
      reads this
    {
      Progress(buf, written, out, sealed)
    }

    ghost predicate Ready()
      reads this, dst, nonce
    {
      && nonce.Length == NONCE_SIZE && nonce[..] == NonceFor(|sealed|, false)
      && Buffering(a, Now())
      && dst.data == before + out
    }

    ghost predicate Valid()
      reads this, dst, nonce
    {
      && (state == Open ==> Ready() && (sealed != [] ==> buf != []))
      && (state == Closed ==> Complete(a, Now()) && dst.data == before + out)
      && (state == Failed ==> Buffering(a, Now()) || Complete(a, Now()))
    }

    constructor (a: Aead, dst: Sink)
      ensures Valid() && state == Open && written == [] && fresh(nonce)
      ensures this.a == a && this.dst == dst && before == dst.data
    {
      this.a, this.dst := a, dst;
      nonce := new byte[NONCE_SIZE](_ => 0);
      buf, state := [], Open;
      written, out, sealed, before := [], [], [], dst.data;
      new;
      NonceZero(0);
      assert nonce[..] == seq(NONCE_SIZE, _ => 0);
    }

    /** Write buffers p and flushes every chunk that is known not to be the last. */
    method Write(p: Bytes) returns (n: nat, error: bool)
      requires Valid() && |written| + |p| <= MAX_MESSAGE
      modifies this, dst, nonce
      ensures Valid()
      ensures old(state) != Open ==> error && n == 0 && state == old(state) && dst.data == old(dst.data)
      ensures old(state) == Open && !error ==> state == Open && n == |p| && written == old(written) + p
      ensures old(state) == Open && error ==> state == Failed && n == 0 && !dst.reliable
    {
      hide Buffering, Complete, NonceFor;
      if state != Open {
        return 0, true;
      }
      if |p| == 0 {
        assert written + p == written;
        return 0, false;
      }
      var rest := p;
      ghost var done: Bytes := [];
      while |rest| > 0
        invariant state == Open && Ready()
        invariant rest == [] && sealed != [] ==> buf != []
        invariant p == done + rest && written == old(written) + done
        decreases |rest|, |buf|
      {
        var k := Fill(rest);
        ghost var piece := rest[..k];
        assert rest == piece + rest[k..];
        ConcatAssoc(done, piece, rest[k..]);
        ConcatAssoc(old(written), done, piece);
        done, rest := done + piece, rest[k..];
        if |buf| == CHUNK_SIZE && |rest| > 0 {
          var ok := FlushChunk(false);
          if !ok {
            state := Failed;
            return 0, true;
          }
        }
      }
      assert done == p;
      n, error := |p|, false;
    }

    /** Moves as much of p into the buffer as fits, which is nothing when a full chunk waits there. */
    method Fill(p: Bytes) returns (n: nat)
      requires Ready()
      modifies `buf, `written
      ensures Ready() && n == Min(|p|, CHUNK_SIZE - |old(buf)|)
      ensures buf == old(buf) + p[..n] && written == old(written) + p[..n]
    {
      n := Min(|p|, CHUNK_SIZE - |buf|);
      FillingKeeps(a, Now(), p[..n]);
      buf := buf + p[..n];
      written := written + p[..n];
    }

    /** Close flushes the last chunk; only the first call on a writer without errors succeeds. */
    method Close() returns (error: bool)
      requires Valid() && |written| <= MAX_MESSAGE
      modifies this, dst, nonce
      ensures Valid() && written == old(written)
      ensures old(state) != Open ==> error && state == old(state) && dst.data == old(dst.data)
      ensures old(state) == Open ==> state == if error then Failed else Closed
      ensures old(state) == Open && dst.reliable ==> !error
    {
      hide Buffering, Complete;
      if state != Open {
        return true;
      }
      FlushCompletes(a, Now());
      var ok := FlushChunk(true);
      state := if ok then Closed else Failed;
      error := !ok;
    }

    /** flushChunk. Its callers never meet the panic on a partial chunk that is not the last. */
    method FlushChunk(last: bool) returns (ok: bool)
      requires Ready() && |written| <= MAX_MESSAGE
      requires last || |buf| == CHUNK_SIZE
      requires sealed != [] ==> buf != []
      modifies `buf, `out, `sealed, dst, nonce
      ensures Now() == Flushed(a, old(Now()), last)
      ensures dst.reliable ==> ok
      ensures ok ==> dst.data == before + out
      ensures !last ==> Buffering(a, Now())
      ensures ok && !last ==> Ready()
    {
      hide Buffering;
      ghost var k := |sealed|;
      BufferedIsCounted(a, Now());
      if last {
        SetLastChunkFlag(nonce, k);
      } else {
        FlushKeeps(a, Now());
      }
      var ciphertext := a.seal(nonce[..], buf);
      ConcatAssoc(before, out, ciphertext);
      ok := dst.Write(ciphertext);
      out, sealed := out + ciphertext, sealed + [NonceFor(k, last)];
      NextNonce(nonce, k, last);
      buf := [];
    }
  }
}
