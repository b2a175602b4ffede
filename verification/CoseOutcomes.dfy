/** What verifying and decrypting say of each message that there can be, the refusals included. */
module CoseOutcomes {
  import opened Base
  import opened CborSchema
  import opened CborRoundTrip
  import opened CoseSuite
  import opened CoseTypes
  import opened Cose
  import opened CoseTheorems
  import opened CoseDrift
  import opened CoseSealing

  // ---- Signatures -------------------------------------------------------------------------------

  /** A protected header that parses: any algorithm, critical label, key and timestamp. */
  function AnySigHeader(algorithm: int, crit: int, kid: Fingerprint, timestamp: int): Value {
    Struct([Int(algorithm), Struct([Int(crit)]), CborSchema.Blob(kid), Int(timestamp)])
  }

  /** protected is the encoding of that header. */
  ghost predicate IsSigHeader(protected: Bytes, algorithm: int, crit: int, kid: Fingerprint, timestamp: int) {
    var v := AnySigHeader(algorithm, crit, kid, timestamp);
    Encodes(v, SigHeaderType()) && Marshal(v, SigHeaderType()) == Ok(protected)
  }

  /** The distance the short way around a circle of 2^64 seconds is more than is allowed, if there is a limit at all. */
  predicate Stale(now: int, timestamp: int, maxDrift: Option<int>) {
    maxDrift.Some? && Min(Distance(now, timestamp), TWO_64 - Distance(now, timestamp)) > maxDrift.value
  }

  lemma FreshIsNotStale(now: int, timestamp: int, maxDrift: Option<int>)
    requires IsInt64(now) && IsInt64(timestamp)
    ensures Fresh(now, timestamp, maxDrift) <==> !Stale(now, timestamp, maxDrift)
  {
    DriftIsCircular(now, timestamp);
  }

  /** The header, the drift and the signature are checked in this order, and without a limit the clock does not matter. */
  ghost function SignatureOutcome(x: Signing, algorithm: int, crit: int, kid: Fingerprint, timestamp: int, public: Key,
                                  maxDrift: Option<int>, now: int, toBeSigned: Bytes, signature: Signature): Result<(), CoseError> {
    if algorithm != -70000 || crit != -70002 then Err(UnexpectedAlgorithm)
    else if kid != x.fingerprint(public) then Err(UnexpectedKey)
    else if Stale(now, timestamp, maxDrift) then Err(StaleSignature)
    else if !x.verify(public, toBeSigned, signature) then Err(InvalidSignature)
    else Ok(())
  }

  lemma {:induction false} HeaderOutcome(x: Signing, protected: Bytes, public: Key, algorithm: int, crit: int, kid: Fingerprint,
                                         timestamp: int)
    requires IsSigHeader(protected, algorithm, crit, kid, timestamp)
    ensures IsInt64(timestamp)
    ensures CheckSigHeader(x, protected, public) ==
            if algorithm != -70000 || crit != -70002 then Err(UnexpectedAlgorithm)
            else if kid != x.fingerprint(public) then Err(UnexpectedKey)
            else Ok(timestamp)
  {
    hide Parse, Marshal, Unambiguous, SchemaOk, Encode, RawsAreItems;
    var v := AnySigHeader(algorithm, crit, kid, timestamp);
    TypesOk();
    ParseExactly(protected, SigHeaderType(), v);
    SigHeaderShape(v);
  }

  /** Any message with such a header, whatever its payload and signature. */
  lemma {:induction false} VerifyOutcome(x: Signing, protected: Slice, payload: Option<Slice>, signature: Signature, auth: Bytes,
                                         public: Key, domain: Bytes, maxDrift: Option<int>, now: int,
                                         algorithm: int, crit: int, kid: Fingerprint, timestamp: int)
    requires Fits(domain) && Fits(auth) && IsInt64(now) && IsSigHeader(protected, algorithm, crit, kid, timestamp)
    ensures Verify(x, Sign1Message(protected, payload, signature), auth, public, domain, maxDrift, now) ==
            if payload == None then Err(MissingPayload)
            else match SignatureOutcome(x, algorithm, crit, kid, timestamp, public, maxDrift, now,
                                        ToBeSigned(protected, ExternalAad(domain, auth), payload.value), signature)
              case Ok(_) => Ok(payload.value)
              case Err(e) => Err(e)
    ensures VerifyDetached(x, Sign1Message(protected, payload, signature), auth, public, domain, maxDrift, now) ==
            if payload != None then Err(UnexpectedPayload)
            else SignatureOutcome(x, algorithm, crit, kid, timestamp, public, maxDrift, now,
                                  ToBeSigned(protected, ExternalAad(domain, auth), []), signature)
  {
    hide ParseSign1, CheckSigHeader, ToBeSigned, ExternalAad, Sign1Message, Fresh, Stale, IsSigHeader, HasType;
    Sign1Exactly(Sign1Message(protected, payload, signature), protected, payload, signature);
    HeaderOutcome(x, protected, public, algorithm, crit, kid, timestamp);
    FreshIsNotStale(now, timestamp, maxDrift);
  }

  /** Whose key it names, and what its payload is, can be seen without verifying it. */
  lemma {:induction false} SignerOutcome(protected: Slice, payload: Option<Slice>, signature: Signature, s: Schema,
                                         algorithm: int, crit: int, kid: Fingerprint, timestamp: int)
    requires SchemaOk(s) && IsSigHeader(protected, algorithm, crit, kid, timestamp)
    ensures var message := Sign1Message(protected, payload, signature);
            && Signer(message) == Ok(kid)
            && Peek(message, s) == if payload == None then Err(MissingPayload) else Parse(payload.value, s)
  {
    hide ParseSign1, Parse, Marshal, Sign1Message, Encodes, SchemaOk, Unambiguous;
    TypesOk();
    Sign1Exactly(Sign1Message(protected, payload, signature), protected, payload, signature);
    ParseExactly(protected, SigHeaderType(), AnySigHeader(algorithm, crit, kid, timestamp));
  }

  /** And of a byte string that is no such message, or whose header is not of that form, only the parser's error comes. */
  lemma {:induction false} MalformedOutcome(x: Signing, message: Bytes, auth: Bytes, public: Key, domain: Bytes,
                                            maxDrift: Option<int>, now: int)
    requires Fits(domain) && Fits(auth)
    requires forall protected: Slice, payload: Option<Slice>, signature, algorithm, crit, kid, timestamp ::
               message == Sign1Message(protected, payload, signature) ==> !IsSigHeader(protected, algorithm, crit, kid, timestamp)
    ensures var r := Verify(x, message, auth, public, domain, maxDrift, now);
            r.Err? && (r.error.Cbor? || r.error == MissingPayload)
    ensures var r := VerifyDetached(x, message, auth, public, domain, maxDrift, now);
            r.Err? && (r.error.Cbor? || r.error == UnexpectedPayload)
  {
    hide CheckSigHeader, ToBeSigned, ExternalAad, Sign1Message, Fresh, IsSigHeader, HasType;
    if ParseSign1(message).Ok? {
      var protected, payload, signature := Sign1Parts(message);
      Sign1Exactly(message, protected, payload, signature);
      hide ParseSign1;
      if CheckSigHeader(x, protected, public).Ok? || !CheckSigHeader(x, protected, public).error.Cbor? {
        var algorithm, crit, kid, timestamp := ParsedSigHeader(x, protected, public);
      }
    }
  }

  lemma {:induction false} ParsedSigHeader(x: Signing, protected: Bytes, public: Key)
    returns (algorithm: int, crit: int, kid: Fingerprint, timestamp: int)
    requires CheckSigHeader(x, protected, public).Ok? || !CheckSigHeader(x, protected, public).error.Cbor?
    ensures IsSigHeader(protected, algorithm, crit, kid, timestamp)
  {
    hide Marshal, Unambiguous, SchemaOk, Encode, RawsAreItems, Unmarshal;
    TypesOk();
    var v := Parse(protected, SigHeaderType()).value;
    ParseExactly(protected, SigHeaderType(), v);
    algorithm, crit, kid, timestamp := v.values[0].n, v.values[1].values[0].n, v.values[2].bytes, v.values[3].n;
    assert v.values[1].values == [v.values[1].values[0]];
    assert v.values == AnySigHeader(algorithm, crit, kid, timestamp).values;
  }

  /** The header that a signer writes is one of these. */
  lemma {:induction false} SignersHeader(kid: Fingerprint, timestamp: int)
    requires IsInt64(timestamp)
    ensures IsSigHeader(SigProtected(kid, timestamp), -70000, -70002, kid, timestamp)
  {
    hide Encode, HasType, RawsAreItems, SchemaOk;
    SigHeaderEncodes(kid, timestamp);
    assert AnySigHeader(-70000, -70002, kid, timestamp) == SigHeader(kid, timestamp);
  }

  /** What its owner signed verifies, attached and detached: without a limit always, and with a limit just when the
      timestamp is no further away than that, the short way around. */
  lemma {:induction false} SignedOutcome(x: Signing, payload: Slice, auth: Bytes, secret: Key, domain: Bytes, timestamp: int,
                                         maxDrift: Option<int>, now: int)
    requires Fits(domain) && Fits(auth) && IsInt64(timestamp) && IsInt64(now) && SigningCorrect(x)
    ensures var close := maxDrift == None || Min(Distance(now, timestamp), TWO_64 - Distance(now, timestamp)) <= maxDrift.value;
            var attached := SignMessage(x, Some(payload), auth, secret, domain, timestamp);
            var detached := SignMessage(x, None, auth, secret, domain, timestamp);
            && Verify(x, attached, auth, x.publicKey(secret), domain, maxDrift, now)
               == (if close then Ok(payload) else Err(StaleSignature))
            && VerifyDetached(x, detached, auth, x.publicKey(secret), domain, maxDrift, now)
               == (if close then Ok(()) else Err(StaleSignature))
  {
    hide Fresh, Verify, VerifyDetached, SignMessage;
    FreshIsNotStale(now, timestamp, maxDrift);
    SignedVerifies(x, payload, auth, secret, domain, timestamp, maxDrift, now);
    DetachedVerifies(x, auth, secret, domain, timestamp, maxDrift, now);
  }

  /** So it is with what was sealed, for values of every type that survives Marshal and Unmarshal. */
  lemma {:induction false} SealedOutcome(x: Signing, h: Hpke, msgToSeal: Typed, msgToAuth: Typed, signer: Key, recipient: Key,
                                         domain: Bytes, timestamp: int, random: Bytes, maxDrift: Option<int>, now: int)
    requires Marshals(msgToSeal) && MarshalsSmall(msgToAuth) && Fits(domain) && IsInt64(timestamp) && IsInt64(now)
    requires SigningCorrect(x) && HpkeCorrect(h)
    requires RawsAreItems(msgToSeal.value) && Unambiguous(SPtr(msgToSeal.schema), false)
    ensures var sealed := SealAt(x, h, msgToSeal, msgToAuth, signer, h.publicKey(recipient), domain, timestamp, random);
            var close := maxDrift == None || Min(Distance(now, timestamp), TWO_64 - Distance(now, timestamp)) <= maxDrift.value;
            sealed.Ok? ==>
              OpenAt(x, h, sealed.value, msgToAuth, recipient, x.publicKey(signer), domain, maxDrift, now, msgToSeal.schema)
              == (if close then Ok(msgToSeal.value) else Err(StaleSignature))
  {
    hide SealAt, OpenAt, Marshals, MarshalsSmall, RawsAreItems, Unambiguous, Fresh;
    FreshIsNotStale(now, timestamp, maxDrift);
    OpenInvertsSeal(x, h, msgToSeal, msgToAuth, signer, recipient, domain, timestamp, random, maxDrift, now);
  }

  // ---- Encryption -------------------------------------------------------------------------------

  function AnyEncHeader(algorithm: int, kid: Fingerprint): Value {
    Struct([Int(algorithm), CborSchema.Blob(kid)])
  }

  ghost predicate IsEncHeader(protected: Bytes, algorithm: int, kid: Fingerprint) {
    var v := AnyEncHeader(algorithm, kid);
    Encodes(v, EncHeaderType()) && Marshal(v, EncHeaderType()) == Ok(protected)
  }

  lemma {:induction false} EncHeaderOutcome(h: Hpke, protected: Bytes, public: Key, algorithm: int, kid: Fingerprint)
    requires IsEncHeader(protected, algorithm, kid)
    ensures CheckEncHeader(h, protected, public) ==
            if algorithm != -70001 then Err(UnexpectedAlgorithm)
            else if kid != h.fingerprint(public) then Err(UnexpectedKey)
            else Ok(())
  {
    hide Parse, Marshal, Unambiguous, SchemaOk, Encode, RawsAreItems;
    TypesOk();
    ParseExactly(protected, EncHeaderType(), AnyEncHeader(algorithm, kid));
  }

  /** Whose key it is for can be seen without decrypting it. */
  lemma {:induction false} RecipientOutcome(protected: Slice, sealed: Sealed, algorithm: int, kid: Fingerprint)
    requires IsEncHeader(protected, algorithm, kid)
    ensures Recipient(Encrypt0Message(protected, sealed)) == Ok(kid)
  {
    hide ParseEncrypt0, Parse, Marshal, Encrypt0Message, Encodes, SchemaOk, Unambiguous;
    TypesOk();
    Encrypt0Exactly(Encrypt0Message(protected, sealed), protected, sealed);
    ParseExactly(protected, EncHeaderType(), AnyEncHeader(algorithm, kid));
  }

  /** Any message with such a header: the header, the size of the encapsulated key and the ciphertext are checked in this
      order, the last of them by what HPKE makes of it. */
  lemma {:induction false} DecryptOutcome(h: Hpke, protected: Slice, encapKey: Slice, ciphertext: Slice, message: Bytes, auth: Slice,
                                          secret: Key, domain: Bytes, algorithm: int, kid: Fingerprint)
    requires IsEncHeader(protected, algorithm, kid)
    requires Encodes(Encrypt0(protected, encapKey, ciphertext), Encrypt0Type())
             && Marshal(Encrypt0(protected, encapKey, ciphertext), Encrypt0Type()) == Ok(message)
    ensures Decrypt(h, message, auth, secret, domain) ==
            if algorithm != -70001 then Err(UnexpectedAlgorithm)
            else if kid != h.fingerprint(h.publicKey(secret)) then Err(UnexpectedKey)
            else if |encapKey| != 1120 then Err(InvalidEncapKeySize)
            else match h.open(secret, Sealed(encapKey, ciphertext), EncAad(protected, auth), Info(domain))
              case None => Err(DecryptionFailed)
              case Some(signed) => Ok(signed)
  {
    hide CheckEncHeader, EncAad, IsEncHeader, Parse, Marshal, Encodes, SchemaOk, Unambiguous, HasType;
    TypesOk();
    ParseExactly(message, Encrypt0Type(), Encrypt0(protected, encapKey, ciphertext));
    EncHeaderOutcome(h, protected, h.publicKey(secret), algorithm, kid);
  }
}
