/** What COSE verification accepts, and what a signature binds. */
module CoseTheorems {
  import opened Base
  import opened CborHeader
  import opened CborFieldOrder
  import opened CborSchema
  import opened CborRoundTrip
  import opened CborScalar
  import opened CborMarshal
  import opened CoseSuite
  import opened CoseTypes
  import opened Cose

  // ---- Parsing undoes encoding ------------------------------------------------------------------

  /** For a type that is unambiguous and not nullable, parsing yields v exactly from the encoding of v. */
  lemma {:induction false} ParseExactly(data: Bytes, s: Schema, v: Value)
    requires TypeOk(s) && (s.SArray? || s.SMap?)
    ensures Parse(data, s) == Ok(v) <==> Encodes(v, s) && Marshal(v, s) == Ok(data)
  {
    hide Unmarshal, HasType, RawsAreItems;
    UnmarshalAcceptsExactlyMarshal(data, s, v);
    if Encodes(v, s) {
      StartsWithNull(v, s, false);
    }
  }

  lemma {:induction false} SigHeaderShape(v: Value)
    requires HasType(v, SigHeaderType())
    ensures IsInt64(v.values[3].n)
    ensures v.values[0].n == ALGORITHM_XDSA && v.values[1].values[0].n == HEADER_TIMESTAMP ==>
              v == SigHeader(v.values[2].bytes, v.values[3].n)
  {
    var crit := v.values[1];
    assert crit.values == [crit.values[0]];
    assert v.values == [v.values[0], crit, v.values[2], v.values[3]];
  }

  lemma {:induction false} SigHeaderReadBack(kid: Fingerprint, timestamp: int)
    requires IsInt64(timestamp) && SchemaOk(SigHeaderType())
    ensures Parse(SigProtected(kid, timestamp), SigHeaderType()) == Ok(SigHeader(kid, timestamp))
  {
    hide Parse, Encode, HasType, RawsAreItems, SchemaOk, Unambiguous;
    TypesOk();
    SigHeaderEncodes(kid, timestamp);
    ParseExactly(SigProtected(kid, timestamp), SigHeaderType(), SigHeader(kid, timestamp));
  }

  lemma {:induction false} SigHeaderReadOnly(protected: Bytes)
    requires SchemaOk(SigHeaderType()) && Parse(protected, SigHeaderType()).Ok?
    ensures var v := Parse(protected, SigHeaderType()).value;
            && IsInt64(v.values[3].n)
            && (v.values[0].n == ALGORITHM_XDSA && v.values[1].values[0].n == HEADER_TIMESTAMP ==>
                  protected == SigProtected(v.values[2].bytes, v.values[3].n))
  {
    hide Parse, Encodable, Marshal;
    TypesOk();
    var v := Parse(protected, SigHeaderType()).value;
    SigHeaderShape(v);
    ParseExactly(protected, SigHeaderType(), v);
  }

  /** The protected header is accepted, with its timestamp, exactly if it is the header that a signer writes. */
  lemma {:induction false} SigHeaderExactly(x: Signing, protected: Bytes, public: Key, timestamp: int)
    ensures CheckSigHeader(x, protected, public) == Ok(timestamp)
       <==> IsInt64(timestamp) && protected == SigProtected(x.fingerprint(public), timestamp)
  {
    hide Parse, SigProtected, Unambiguous, SchemaOk;
    TypesOk();
    if Parse(protected, SigHeaderType()).Ok? {
      SigHeaderReadOnly(protected);
    }
    if IsInt64(timestamp) {
      SigHeaderReadBack(x.fingerprint(public), timestamp);
    }
  }

  lemma {:induction false} EncHeaderReadBack(kid: Fingerprint)
    requires SchemaOk(EncHeaderType())
    ensures Parse(EncProtected(kid), EncHeaderType()) == Ok(EncHeader(kid))
  {
    hide Parse, Encode, HasType, RawsAreItems, SchemaOk, Unambiguous;
    TypesOk();
    EncHeaderEncodes(kid);
    ParseExactly(EncProtected(kid), EncHeaderType(), EncHeader(kid));
  }

  lemma {:induction false} EncHeaderReadOnly(protected: Bytes)
    requires SchemaOk(EncHeaderType()) && Parse(protected, EncHeaderType()).Ok?
    ensures var v := Parse(protected, EncHeaderType()).value;
            v.values[0].n == ALGORITHM_XHPKE ==> protected == EncProtected(v.values[1].bytes)
  {
    hide Parse, Encodable, Marshal;
    TypesOk();
    var v := Parse(protected, EncHeaderType()).value;
    assert v.values == [v.values[0], v.values[1]];
    ParseExactly(protected, EncHeaderType(), v);
  }

  lemma {:induction false} EncHeaderExactly(h: Hpke, protected: Bytes, public: Key)
    ensures CheckEncHeader(h, protected, public).Ok? <==> protected == EncProtected(h.fingerprint(public))
  {
    hide Parse, EncProtected, Unambiguous, SchemaOk, KeysOk;
    TypesOk();
    if Parse(protected, EncHeaderType()).Ok? {
      EncHeaderReadOnly(protected);
    }
    EncHeaderReadBack(h.fingerprint(public));
  }

  /** A message parses just when it is the encoding of its three parts. */
  lemma {:induction false} Sign1Exactly(message: Bytes, protected: Slice, payload: Option<Slice>, signature: Signature)
    ensures ParseSign1(message) == Ok(Sign1(protected, payload, signature))
       <==> message == Sign1Message(protected, payload, signature)
  {
    hide Parse, Encode, HasType, RawsAreItems, SchemaOk, Unambiguous;
    TypesOk();
    Sign1Encodes(protected, payload, signature);
    ParseExactly(message, Sign1Type(), Sign1(protected, payload, signature));
  }

  /** And whatever parses has such parts. */
  lemma {:induction false} Sign1Parts(message: Bytes) returns (protected: Slice, payload: Option<Slice>, signature: Signature)
    requires ParseSign1(message).Ok?
    ensures ParseSign1(message).value == Sign1(protected, payload, signature)
  {
    hide Parse, Marshal, Encodable;
    TypesOk();
    var v := ParseSign1(message).value;
    ParseExactly(message, Sign1Type(), v);
    Sign1Shape(v);
    protected, signature := v.values[0].bytes, v.values[3].bytes;
    payload := if v.values[2].Nil? then None else Some(v.values[2].bytes);
  }

  lemma {:induction false} Encrypt0Exactly(message: Bytes, protected: Slice, sealed: Sealed)
    ensures ParseEncrypt0(message) == Ok(Encrypt0(protected, sealed.encapKey, sealed.ciphertext))
       <==> message == Encrypt0Message(protected, sealed)
  {
    hide Parse, Encode, HasType, RawsAreItems, SchemaOk, Unambiguous;
    TypesOk();
    Encrypt0Encodes(protected, sealed.encapKey, sealed.ciphertext);
    ParseExactly(message, Encrypt0Type(), Encrypt0(protected, sealed.encapKey, sealed.ciphertext));
  }

  lemma {:induction false} Encrypt0Parts(message: Bytes)
    requires ParseEncrypt0(message).Ok?
    ensures var v := ParseEncrypt0(message).value;
            && |v.values[0].bytes| <= MAX_INT && |v.values[2].bytes| <= MAX_INT
            && v == Encrypt0(v.values[0].bytes, v.values[1].values[0].bytes, v.values[2].bytes)
  {
    hide Parse, Marshal, Encodable;
    TypesOk();
    var v := ParseEncrypt0(message).value;
    ParseExactly(message, Encrypt0Type(), v);
    Encrypt0Shape(v);
  }

  // ---- Acceptance is canonical ------------------------------------------------------------------

  /** What a verifier requires of a message: its one encoding, a fresh timestamp, and the signature over all of it. */
  ghost predicate Acceptable(x: Signing, message: Bytes, payload: Option<Slice>, auth: Bytes, public: Key, domain: Bytes,
                             maxDrift: Option<int>, now: int, timestamp: int, signature: Signature)
    requires Fits(domain) && Fits(auth)
  {
    && IsInt64(timestamp)
    && var protected := SigProtected(x.fingerprint(public), timestamp);
       && message == Sign1Message(protected, payload, signature)
       && Fresh(now, timestamp, maxDrift)
       && var signed := if payload.Some? then payload.value else [];
          x.verify(public, ToBeSigned(protected, ExternalAad(domain, auth), signed), signature)
  }

  lemma {:induction false} CheckSignedExactly(x: Signing, protected: Slice, payload: Option<Slice>, signature: Signature, aad: Slice,
                                              public: Key, maxDrift: Option<int>, now: int)
    requires HasType(Sign1(protected, payload, signature), Sign1Type())
    ensures var signed := if payload.Some? then payload.value else [];
            (CheckSigned(x, Sign1(protected, payload, signature), aad, signed, public, maxDrift, now).Ok?
             <==> exists timestamp ::
                    && IsInt64(timestamp) && protected == SigProtected(x.fingerprint(public), timestamp)
                    && Fresh(now, timestamp, maxDrift) && x.verify(public, ToBeSigned(protected, aad, signed), signature))
  {
    hide CheckSigHeader, SigProtected, ToBeSigned, Drift, HasType;
    forall timestamp
      ensures CheckSigHeader(x, protected, public) == Ok(timestamp)
         <==> IsInt64(timestamp) && protected == SigProtected(x.fingerprint(public), timestamp)
    {
      SigHeaderExactly(x, protected, public, timestamp);
    }
  }

  /** verify accepts exactly the canonical messages: the payload, a timestamp and the signature over them determine every
      byte, and the header is the one for the verifier's own key. */
  lemma {:induction false} VerifyAcceptsExactly(x: Signing, message: Bytes, payload: Slice, auth: Bytes, public: Key,
                                                domain: Bytes, maxDrift: Option<int>, now: int)
    requires Fits(domain) && Fits(auth)
    ensures Verify(x, message, auth, public, domain, maxDrift, now) == Ok(payload)
       <==> exists timestamp, signature ::
              Acceptable(x, message, Some(payload), auth, public, domain, maxDrift, now, timestamp, signature)
  {
    hide ParseSign1, CheckSigned, SigProtected, ToBeSigned, ExternalAad, Sign1Message, Drift, HasType, Encodable;
    var aad := ExternalAad(domain, auth);
    if Verify(x, message, auth, public, domain, maxDrift, now) == Ok(payload) {
      var protected, p, signature := Sign1Parts(message);
      Sign1Exactly(message, protected, p, signature);
      CheckSignedExactly(x, protected, p, signature, aad, public, maxDrift, now);
      var timestamp :|
        && IsInt64(timestamp) && protected == SigProtected(x.fingerprint(public), timestamp)
        && Fresh(now, timestamp, maxDrift) && x.verify(public, ToBeSigned(protected, aad, payload), signature);
      assert Acceptable(x, message, Some(payload), auth, public, domain, maxDrift, now, timestamp, signature);
    }
    if timestamp, signature :| Acceptable(x, message, Some(payload), auth, public, domain, maxDrift, now, timestamp, signature) {
      var protected := SigProtected(x.fingerprint(public), timestamp);
      Sign1Exactly(message, protected, Some(payload), signature);
      CheckSignedExactly(x, protected, Some(payload), signature, aad, public, maxDrift, now);
    }
  }

  /** So does verifyDetached, of messages with a null payload. */
  lemma {:induction false} VerifyDetachedAcceptsExactly(x: Signing, message: Bytes, auth: Bytes, public: Key, domain: Bytes,
                                                        maxDrift: Option<int>, now: int)
    requires Fits(domain) && Fits(auth)
    ensures VerifyDetached(x, message, auth, public, domain, maxDrift, now).Ok?
       <==> exists timestamp, signature ::
              Acceptable(x, message, None, auth, public, domain, maxDrift, now, timestamp, signature)
  {
    hide ParseSign1, CheckSigned, SigProtected, ToBeSigned, ExternalAad, Sign1Message, Drift, HasType, Encodable;
    var aad := ExternalAad(domain, auth);
    if VerifyDetached(x, message, auth, public, domain, maxDrift, now).Ok? {
      var protected, p, signature := Sign1Parts(message);
      Sign1Exactly(message, protected, p, signature);
      CheckSignedExactly(x, protected, p, signature, aad, public, maxDrift, now);
      var timestamp :|
        && IsInt64(timestamp) && protected == SigProtected(x.fingerprint(public), timestamp)
        && Fresh(now, timestamp, maxDrift) && x.verify(public, ToBeSigned(protected, aad, []), signature);
      assert Acceptable(x, message, None, auth, public, domain, maxDrift, now, timestamp, signature);
    }
    if timestamp, signature :| Acceptable(x, message, None, auth, public, domain, maxDrift, now, timestamp, signature) {
      var protected := SigProtected(x.fingerprint(public), timestamp);
      Sign1Exactly(message, protected, None, signature);
      CheckSignedExactly(x, protected, None, signature, aad, public, maxDrift, now);
    }
  }

  /** No two messages are written alike: the bytes determine the key named, the timestamp, the payload and the signature. */
  lemma {:induction false} MessagesDiffer(k: Fingerprint, t: int, p: Option<Slice>, s: Signature,
                                          k': Fingerprint, t': int, p': Option<Slice>, s': Signature)
    requires IsInt64(t) && IsInt64(t')
    requires Sign1Message(SigProtected(k, t), p, s) == Sign1Message(SigProtected(k', t'), p', s')
    ensures k == k' && t == t' && p == p' && s == s'
  {
    hide ParseSign1, Parse, SigProtected, Sign1Message;
    TypesOk();
    Sign1Exactly(Sign1Message(SigProtected(k, t), p, s), SigProtected(k, t), p, s);
    Sign1Exactly(Sign1Message(SigProtected(k, t), p, s), SigProtected(k', t'), p', s');
    var v, w := Sign1(SigProtected(k, t), p, s), Sign1(SigProtected(k', t'), p', s');
    assert v == w;
    assert v.values[0] == w.values[0] && v.values[2] == w.values[2] && v.values[3] == w.values[3];
    SigHeaderReadBack(k, t);
    SigHeaderReadBack(k', t');
    var h, h' := SigHeader(k, t), SigHeader(k', t');
    assert h == h';
    assert h.values[2] == h'.values[2] && h.values[3] == h'.values[3];
  }

  // ---- What a signature binds -------------------------------------------------------------------

  lemma {:induction false} AadBinds(domain: Bytes, auth: Bytes, domain': Bytes, auth': Bytes)
    requires Fits(domain) && Fits(auth) && Fits(domain') && Fits(auth')
    requires ExternalAad(domain, auth) == ExternalAad(domain', auth')
    ensures domain == domain' && auth == auth'
  {
    hide Encode, HasType, SchemaOk;
    SigAadEncodes(Info(domain), auth);
    SigAadEncodes(Info(domain'), auth');
    var head := Header(MAJOR_ARRAY, 2);
    hide Header;
    var x, x' := Header(MAJOR_BYTES, |Info(domain)|) + Info(domain), Header(MAJOR_BYTES, |Info(domain')|) + Info(domain');
    Cancel(head, x + auth, x' + auth');
    BlobReadBack(Info(domain), auth);
    BlobReadBack(Info(domain'), auth');
    assert Info(domain)[12..] == domain && Info(domain')[12..] == domain';
  }

  /** What is signed determines the domain, the message to authenticate, the signer's key, the timestamp and the payload:
      a signature is good for no other choice of them than the one that was signed. */
  lemma {:induction false} SignatureBinds(k: Fingerprint, t: int, domain: Bytes, auth: Bytes, p: Slice,
                                          k': Fingerprint, t': int, domain': Bytes, auth': Bytes, p': Slice)
    requires IsInt64(t) && IsInt64(t') && Fits(domain) && Fits(auth) && Fits(domain') && Fits(auth')
    requires ToBeSigned(SigProtected(k, t), ExternalAad(domain, auth), p)
          == ToBeSigned(SigProtected(k', t'), ExternalAad(domain', auth'), p')
    ensures k == k' && t == t' && domain == domain' && auth == auth' && p == p'
  {
    hide SigProtected, ExternalAad, Parse, HasType, RawsAreItems, Encode;
    var v, w := SigStructure(SigProtected(k, t), ExternalAad(domain, auth), p),
                SigStructure(SigProtected(k', t'), ExternalAad(domain', auth'), p');
    TypesOk();
    SigStructureEncodes(SigProtected(k, t), ExternalAad(domain, auth), p);
    SigStructureEncodes(SigProtected(k', t'), ExternalAad(domain', auth'), p');
    MarshalIsInjective(v, w, SigStructureType(), Marshal(v, SigStructureType()).value);
    assert v.values[1] == w.values[1] && v.values[2] == w.values[2] && v.values[3] == w.values[3];
    SigHeaderReadBack(k, t);
    SigHeaderReadBack(k', t');
    var h, h' := SigHeader(k, t), SigHeader(k', t');
    assert h == h';
    assert h.values[2] == h'.values[2] && h.values[3] == h'.values[3];
    AadBinds(domain, auth, domain', auth');
  }

  /** With an ideal signature, verify accepts exactly what the owner of the key signed for this domain and message. */
  lemma {:induction false} VerifiesExactlySigned(x: Signing, message: Bytes, payload: Slice, auth: Bytes, secret: Key,
                                                 domain: Bytes, maxDrift: Option<int>, now: int)
    requires Fits(domain) && Fits(auth) && SigningIdeal(x)
    ensures Verify(x, message, auth, x.publicKey(secret), domain, maxDrift, now) == Ok(payload)
       <==> exists timestamp :: IsInt64(timestamp) && Fresh(now, timestamp, maxDrift)
                                && message == SignMessage(x, Some(payload), auth, secret, domain, timestamp)
  {
    hide Verify, SigProtected, ToBeSigned, ExternalAad, Sign1Message, Drift;
    var public := x.publicKey(secret);
    VerifyAcceptsExactly(x, message, payload, auth, public, domain, maxDrift, now);
    if timestamp, signature :| Acceptable(x, message, Some(payload), auth, public, domain, maxDrift, now, timestamp, signature) {
      assert message == SignMessage(x, Some(payload), auth, secret, domain, timestamp);
    }
    if timestamp :| IsInt64(timestamp) && Fresh(now, timestamp, maxDrift)
                    && message == SignMessage(x, Some(payload), auth, secret, domain, timestamp) {
      var toBeSigned := ToBeSigned(SigProtected(x.fingerprint(public), timestamp), ExternalAad(domain, auth), payload);
      assert Acceptable(x, message, Some(payload), auth, public, domain, maxDrift, now, timestamp, x.sign(secret, toBeSigned));
    }
  }

  /** A message that verifies names the key it is verified with. */
  lemma {:induction false} VerifiedNamesSigner(x: Signing, message: Bytes, auth: Bytes, public: Key, domain: Bytes,
                                               maxDrift: Option<int>, now: int)
    requires Fits(domain) && Fits(auth) && Verify(x, message, auth, public, domain, maxDrift, now).Ok?
    ensures Signer(message) == Ok(x.fingerprint(public))
  {
    hide Verify, SigProtected, ToBeSigned, ExternalAad, Sign1Message, Drift, Parse, ParseSign1, HasType, SchemaOk, Unambiguous;
    var payload := Verify(x, message, auth, public, domain, maxDrift, now).value;
    VerifyAcceptsExactly(x, message, payload, auth, public, domain, maxDrift, now);
    var timestamp, signature :|
      Acceptable(x, message, Some(payload), auth, public, domain, maxDrift, now, timestamp, signature);
    TypesOk();
    Sign1Exactly(message, SigProtected(x.fingerprint(public), timestamp), Some(payload), signature);
    SigHeaderReadBack(x.fingerprint(public), timestamp);
  }

  /** What verifies is what was there to be seen before: Peek gives the same value, or fails in the same way. */
  lemma {:induction false} VerifiedIsPeeked(x: Signing, message: Bytes, auth: Bytes, public: Key, domain: Bytes,
                                            maxDrift: Option<int>, now: int, s: Schema)
    requires Fits(domain) && Fits(auth) && SchemaOk(s) && Verify(x, message, auth, public, domain, maxDrift, now).Ok?
    ensures Peek(message, s) == Parse(Verify(x, message, auth, public, domain, maxDrift, now).value, s)
  {
    hide Verify, SigProtected, ToBeSigned, ExternalAad, Sign1Message, Drift, Parse, ParseSign1, HasType, SchemaOk;
    var payload := Verify(x, message, auth, public, domain, maxDrift, now).value;
    VerifyAcceptsExactly(x, message, payload, auth, public, domain, maxDrift, now);
    var timestamp, signature :|
      Acceptable(x, message, Some(payload), auth, public, domain, maxDrift, now, timestamp, signature);
    Sign1Exactly(message, SigProtected(x.fingerprint(public), timestamp), Some(payload), signature);
  }
}
