/** Whole runs of the stream objects, with every choice of piece and buffer sizes left open. */
module StreamRuns {
  import opened Base
  import opened AeadModel
  import opened StreamNonce
  import opened StreamFormat
  import opened StreamEndings
  import opened StreamIo
  import opened StreamEncryptWriter
  import opened StreamEncryptReader
  import opened StreamDecryptReader

  function Join(pieces: seq<Bytes>): Bytes {
    if pieces == [] then [] else Join(pieces[..|pieces| - 1]) + pieces[|pieces| - 1]
  }

  /** Push: however a message is cut into Writes, Close leaves exactly its encryption in the sink. */
  method PushEncrypt(a: Aead, pieces: seq<Bytes>) returns (out: Bytes)
    requires Sized(a) && |Join(pieces)| <= MAX_MESSAGE
    ensures out == Enc(a, 0, Join(pieces))
  {
    var dst := new Sink(true);
    var w := new EncryptWriter(a, dst);
    var i := 0;
    assert pieces[..0] == [];
    while i < |pieces|
      invariant 0 <= i <= |pieces|
      invariant w.Valid() && w.state == Open && w.a == a && w.dst == dst && dst.reliable && w.before == []
      invariant fresh(w) && fresh(dst) && fresh(w.nonce)
      invariant w.written == Join(pieces[..i])
    {
      JoinMonotone(pieces, i + 1);
      assert pieces[..i + 1][..i] == pieces[..i];
      var n, error := w.Write(pieces[i]);
      i := i + 1;
    }
    assert pieces[..i] == pieces;
    var error := w.Close();
    assert [] + w.out == w.out;
    out := dst.data;
  }

  /** At every moment before Close the sink holds whole chunks of the encryption, whatever is still to be written, and all
      of them but the one that may turn out to be the last. */
  lemma SunkIsPrefix(w: EncryptWriter, rest: Bytes)
    requires w.Valid() && w.state == Open
    ensures w.dst.data == w.before + w.out && w.out <= Enc(w.a, 0, w.written + rest)
    ensures |w.written| - CHUNK_SIZE <= |w.sealed| * CHUNK_SIZE <= |w.written|
    ensures w.sealed != [] ==> |w.sealed| * CHUNK_SIZE < |w.written|
  {
    hide NonceFor, Enc, SealFull, RunNonces;
    var k := |w.sealed|;
    var full := w.written[..k * CHUNK_SIZE];
    assert w.written == full + w.buf;
    ConcatAssoc(full, w.buf, rest);
    EncSplit(w.a, 0, k, full, w.buf + rest);
  }

  lemma {:induction false} JoinMonotone(pieces: seq<Bytes>, i: nat)
    requires i <= |pieces|
    ensures |Join(pieces[..i])| <= |Join(pieces)|
    decreases |pieces|
  {
    if i == |pieces| {
      assert pieces[..i] == pieces;
    } else {
      var front := pieces[..|pieces| - 1];
      assert front[..i] == pieces[..i];
      JoinMonotone(front, i);
    }
  }

  /** At every moment of a pull, what has been handed out is a prefix of the encryption. */
  lemma EmittedIsPrefix(r: EncryptReader)
    requires r.Valid()
    ensures r.emitted <= Enc(r.a, 0, r.src.data)
  {
    var g, data := r.Now(), r.src.data;
    if !r.eof {
      var k := |g.sealed|;
      if k == 0 {
        assert g.emitted == [];
      } else {
        var full, rest := data[..k * CHUNK_SIZE], data[k * CHUNK_SIZE..];
        assert data == full + rest;
        EncSplit(r.a, 0, k, full, rest);
        assert g.emitted <= SealFull(r.a, 0, k, full);
      }
    }
  }

  /** Pull: with any positive buffer size at each Read, and any short reads of the source, the bytes read to EOF
      are the same encryption. */
  method PullEncrypt(a: Aead, m: Bytes) returns (out: Bytes)
    requires Sized(a) && |m| <= MAX_MESSAGE
    ensures out == Enc(a, 0, m)
  {
    hide Enc, StreamEncryptReader.Midway, StreamEncryptReader.Finished;
    var src := new Source(m);
    var r := new EncryptReader(a, src);
    out := [];
    var end := false;
    while !end
      invariant r.Valid() && r.a == a && r.src == src && src.data == m
      invariant fresh(r) && fresh(src) && fresh(r.buf) && fresh(r.buf.store) && fresh(r.nonce)
      invariant out == r.emitted <= Enc(a, 0, m)
      invariant end ==> out == Enc(a, 0, m)
      decreases |Enc(a, 0, m)| - |out|, !end
    {
      var size :| size > 0;
      var p := new byte[size];
      var n;
      n, end := r.Read(p);
      out := out + p[..n];
      EmittedIsPrefix(r);
    }
  }

  /** With an AEAD that opens only the chunks of m, every reader at every moment has delivered a prefix of m. */
  lemma DeliveredIsPrefix(r: DecryptReader, m: Bytes)
    requires r.Valid() && OpensOnly(r.a, m) && |m| <= MAX_MESSAGE
    ensures r.delivered <= m
    ensures r.err == Some(Eof) ==> r.src.data == Enc(r.a, 0, m)
  {
    var data := r.src.data;
    NumChunksBounds(|m|);
    DecDeliversPrefix(r.a, m, 0, data);
    assert m[0 * CHUNK_SIZE..] == m;
    assert r.delivered <= Dec(r.a, 0, data).plain;
  }

  /** Reading to the first error, with any positive buffer sizes, delivers what Dec says; with an Ideal AEAD that is a clean
      EOF with m exactly when the source is the encryption of m, and any other status exactly when the source shows it. */
  method PullDecrypt(a: Aead, s: Bytes) returns (out: Bytes, status: Status)
    requires Sized(a) && |s| <= MAX_SOURCE
    ensures Decrypted(out, status) == Dec(a, 0, s)
    ensures Ideal(a) ==> forall m, e :: out == m && status == e <==> EndsAs(a, s, m, e)
  {
    hide Dec, EndsAs;
    var src := new Source(s);
    var r := new DecryptReader(a, src);
    out := [];
    var error: Option<Status> := None;
    while error == None
      invariant r.Valid() && r.a == a && r.src == src && src.data == s
      invariant fresh(r) && fresh(src) && fresh(r.buf) && fresh(r.nonce)
      invariant out == r.delivered && |out| <= |Dec(a, 0, s).plain|
      invariant error.Some? ==> Decrypted(out, error.value) == Dec(a, 0, s)
      decreases |Dec(a, 0, s).plain| - |out|, r.err.None?, error.None?
    {
      var size :| size > 0;
      var p := new byte[size];
      var n;
      n, error := r.Read(p);
      out := out + p[..n];
    }
    status := error.value;
    if Ideal(a) {
      forall m, e
        ensures out == m && status == e <==> EndsAs(a, s, m, e)
      {
        DecEndsExactly(a, s, m, e);
      }
    }
  }

  // ---- Nonces -----------------------------------------------------------------------------------

  /** The nonces that an object has used: no two are equal, and only the last may carry the flag. */
  ghost predicate Disciplined(sealed: seq<Nonce>) {
    && (forall j, k :: 0 <= j < k < |sealed| ==> sealed[j] != sealed[k])
    && (forall k :: 0 <= k < |sealed| - 1 ==> sealed[k][COUNTER_SIZE] != LAST_CHUNK_FLAG)
  }

  lemma RunIsDisciplined(n: nat, done: bool)
    requires n <= COUNTER_LIMIT
    ensures Disciplined(RunNonces(n, done))
    ensures n > 0 ==> (RunNonces(n, done)[n - 1][COUNTER_SIZE] == LAST_CHUNK_FLAG <==> done)
  {
    RunNoncesDistinct(n, done);
  }

  lemma ChunksAreCounted(n: nat)
    requires n <= MAX_MESSAGE
    ensures 1 <= NumChunks(n) <= COUNTER_LIMIT
  {
    NumChunksBounds(n);
    Int64FitsEightBytes();
  }

  /** A writer, failed or closed ones included, has never used a nonce twice; the flag marks a closed one's last chunk. */
  lemma WriterIsDisciplined(w: EncryptWriter)
    requires w.Valid() && |w.written| <= MAX_MESSAGE
    ensures Disciplined(w.sealed)
    ensures w.state == Open && w.sealed != [] ==> w.sealed[|w.sealed| - 1][COUNTER_SIZE] != LAST_CHUNK_FLAG
    ensures w.state == Closed ==>
              |w.sealed| == NumChunks(|w.written|) > 0 && w.sealed[|w.sealed| - 1][COUNTER_SIZE] == LAST_CHUNK_FLAG
  {
    hide Disciplined, Enc, SealFull, RunNonces, NumChunks;
    ChunksAreCounted(|w.written|);
    RunIsDisciplined(NumChunks(|w.written|), true);
    if |w.sealed| <= COUNTER_LIMIT {
      RunIsDisciplined(|w.sealed|, false);
    }
  }

  /** Nor has a pulling encryptor, and the flag marks the last chunk of one that has met the end of its source. */
  lemma ReaderIsDisciplined(r: EncryptReader)
    requires r.Valid()
    ensures Disciplined(r.sealed)
    ensures !r.eof && r.sealed != [] ==> r.sealed[|r.sealed| - 1][COUNTER_SIZE] != LAST_CHUNK_FLAG
    ensures r.eof ==>
              |r.sealed| == NumChunks(|r.src.data|) > 0 && r.sealed[|r.sealed| - 1][COUNTER_SIZE] == LAST_CHUNK_FLAG
  {
    hide Disciplined, Enc, SealFull, RunNonces, NumChunks;
    ChunksAreCounted(|r.src.data|);
    RunIsDisciplined(NumChunks(|r.src.data|), true);
    if |r.sealed| <= COUNTER_LIMIT {
      RunIsDisciplined(|r.sealed|, false);
    }
  }
}
