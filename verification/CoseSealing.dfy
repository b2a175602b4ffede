/** What Decrypt and OpenAt accept, and what opening gives back of what was sealed. */
module CoseSealing {
  import opened Base
  import opened CborSchema
  import opened CborRoundTrip
  import opened CborMarshal
  import opened CoseSuite
  import opened CoseTypes
  import opened Cose
  import opened CoseTheorems
  import opened CoseDrift
  import opened CoseWire

  /** Decrypt accepts exactly the canonical messages to its own key: an encapsulated key and a ciphertext that open
      determine every byte. */
  lemma {:induction false} DecryptAcceptsExactly(h: Hpke, message: Bytes, signed: Bytes, auth: Slice, secret: Key, domain: Bytes,
                                                 prefix: Bytes)
    requires IsPrefix(prefix)
    ensures var protected := EncProtected(h.fingerprint(h.publicKey(secret)));
            (Decrypt(h, message, auth, secret, domain) == Ok(signed)
             <==> exists sealed ::
                    && message == Encrypt0Message(protected, sealed)
                    && h.open(secret, sealed, EncAad(protected, auth), prefix + domain) == Some(signed))
  {
    hide ParseEncrypt0, CheckEncHeader, EncProtected, EncAad, Encrypt0Message, HasType, Encodable;
    assert Info(domain) == prefix + domain;
    var own := EncProtected(h.fingerprint(h.publicKey(secret)));
    if Decrypt(h, message, auth, secret, domain) == Ok(signed) {
      Encrypt0Parts(message);
      var v := ParseEncrypt0(message).value;
      var sealed := Sealed(v.values[1].values[0].bytes, v.values[2].bytes);
      EncHeaderExactly(h, v.values[0].bytes, h.publicKey(secret));
      Encrypt0Exactly(message, own, sealed);
      assert message == Encrypt0Message(own, sealed);
    }
    forall sealed | message == Encrypt0Message(own, sealed)
                    && h.open(secret, sealed, EncAad(own, auth), prefix + domain) == Some(signed)
      ensures Decrypt(h, message, auth, secret, domain) == Ok(signed)
    {
      EncHeaderExactly(h, own, h.publicKey(secret));
      Encrypt0Exactly(message, own, sealed);
    }
  }

  /** A message that can be decrypted names the key that decrypts it. */
  lemma {:induction false} DecryptedNamesRecipient(h: Hpke, message: Bytes, auth: Slice, secret: Key, domain: Bytes)
    requires Decrypt(h, message, auth, secret, domain).Ok?
    ensures Recipient(message) == Ok(h.fingerprint(h.publicKey(secret)))
  {
    hide Decrypt, ParseEncrypt0, Parse, EncProtected, EncAad, Encrypt0Message, HasType, SchemaOk, Unambiguous;
    var kid := h.fingerprint(h.publicKey(secret));
    var signed := Decrypt(h, message, auth, secret, domain).value;
    DecryptAcceptsExactly(h, message, signed, auth, secret, domain, DOMAIN_PREFIX);
    var sealed :| message == Encrypt0Message(EncProtected(kid), sealed);
    TypesOk();
    Encrypt0Exactly(message, EncProtected(kid), sealed);
    EncHeaderReadBack(kid);
  }

  /** Decrypting undoes encrypting to the same key, under the same domain and message to authenticate. */
  lemma {:induction false} DecryptInvertsEncrypt(h: Hpke, signed: Bytes, auth: Slice, secret: Key, domain: Bytes, random: Bytes)
    requires HpkeCorrect(h)
    ensures var r := Encrypt(h, signed, auth, h.publicKey(secret), domain, random);
            r.Ok? ==> Decrypt(h, r.value, auth, secret, domain) == Ok(signed)
  {
    hide Decrypt, EncProtected, EncAad, Encrypt0Message;
    var r := Encrypt(h, signed, auth, h.publicKey(secret), domain, random);
    if r.Ok? {
      DecryptAcceptsExactly(h, r.value, signed, auth, secret, domain, DOMAIN_PREFIX);
    }
  }

  /** A message that its owner signed verifies just when its timestamp is fresh. */
  lemma {:induction false} SignedVerifies(x: Signing, payload: Slice, auth: Bytes, secret: Key, domain: Bytes,
                                          timestamp: int, maxDrift: Option<int>, now: int)
    requires Fits(domain) && Fits(auth) && IsInt64(timestamp) && SigningCorrect(x)
    ensures var message := SignMessage(x, Some(payload), auth, secret, domain, timestamp);
            Verify(x, message, auth, x.publicKey(secret), domain, maxDrift, now) ==
            if Fresh(now, timestamp, maxDrift) then Ok(payload) else Err(StaleSignature)
  {
    hide ParseSign1, CheckSigHeader, SigProtected, ToBeSigned, ExternalAad, Sign1Message, Drift, HasType, Encodable;
    var message := SignMessage(x, Some(payload), auth, secret, domain, timestamp);
    var public := x.publicKey(secret);
    var protected := SigProtected(x.fingerprint(public), timestamp);
    var signature := x.sign(secret, ToBeSigned(protected, ExternalAad(domain, auth), payload));
    Sign1Exactly(message, protected, Some(payload), signature);
    SigHeaderExactly(x, protected, public, timestamp);
  }

  /** And a detached one. */
  lemma {:induction false} DetachedVerifies(x: Signing, auth: Bytes, secret: Key, domain: Bytes,
                                            timestamp: int, maxDrift: Option<int>, now: int)
    requires Fits(domain) && Fits(auth) && IsInt64(timestamp) && SigningCorrect(x)
    ensures var message := SignMessage(x, None, auth, secret, domain, timestamp);
            VerifyDetached(x, message, auth, x.publicKey(secret), domain, maxDrift, now) ==
            if Fresh(now, timestamp, maxDrift) then Ok(()) else Err(StaleSignature)
  {
    hide ParseSign1, CheckSigHeader, SigProtected, ToBeSigned, ExternalAad, Sign1Message, Drift, HasType, Encodable;
    var message := SignMessage(x, None, auth, secret, domain, timestamp);
    var public := x.publicKey(secret);
    var protected := SigProtected(x.fingerprint(public), timestamp);
    var signature := x.sign(secret, ToBeSigned(protected, ExternalAad(domain, auth), []));
    Sign1Exactly(message, protected, None, signature);
    SigHeaderExactly(x, protected, public, timestamp);
  }

  /** Opening what was sealed gives back the value, of any type that survives Marshal and Unmarshal, just when the
      timestamp is fresh. */
  lemma {:induction false} OpenInvertsSeal(x: Signing, h: Hpke, msgToSeal: Typed, msgToAuth: Typed, signer: Key, recipient: Key,
                                           domain: Bytes, timestamp: int, random: Bytes, maxDrift: Option<int>, now: int)
    requires Marshals(msgToSeal) && MarshalsSmall(msgToAuth) && Fits(domain) && IsInt64(timestamp)
    requires SigningCorrect(x) && HpkeCorrect(h)
    requires RawsAreItems(msgToSeal.value) && Unambiguous(SPtr(msgToSeal.schema), false)
    ensures var sealed := SealAt(x, h, msgToSeal, msgToAuth, signer, h.publicKey(recipient), domain, timestamp, random);
            sealed.Ok? ==>
              OpenAt(x, h, sealed.value, msgToAuth, recipient, x.publicKey(signer), domain, maxDrift, now, msgToSeal.schema) ==
              if Fresh(now, timestamp, maxDrift) then Ok(msgToSeal.value) else Err(StaleSignature)
  {
    hide Verify, Decrypt, Encrypt, SignMessage, HasType, RawsAreItems, Unambiguous, Drift, Encode, Unmarshal;
    var sealed := SealAt(x, h, msgToSeal, msgToAuth, signer, h.publicKey(recipient), domain, timestamp, random);
    if sealed.Ok? {
      var seal, auth := MarshalTyped(msgToSeal).value, MarshalTyped(msgToAuth).value;
      var signed := SignMessage(x, Some(seal), auth, signer, domain, timestamp);
      DecryptInvertsEncrypt(h, signed, auth, recipient, domain, random);
      SignedVerifies(x, seal, auth, signer, domain, timestamp, maxDrift, now);
      RoundTripsExactly(msgToSeal.schema);
    }
  }

  /** In particular, when the clock is past 1970 and the allowed drift does not reach the end of int64, just when the true
      distance in time is allowed, whatever the timestamp. */
  lemma {:induction false} OpenInvertsSealWithinDrift(x: Signing, h: Hpke, msgToSeal: Typed, msgToAuth: Typed, signer: Key,
                                                      recipient: Key, domain: Bytes, timestamp: int, random: Bytes,
                                                      maxDrift: int, now: int)
    requires Marshals(msgToSeal) && MarshalsSmall(msgToAuth) && Fits(domain) && IsInt64(timestamp)
    requires SigningCorrect(x) && HpkeCorrect(h)
    requires RawsAreItems(msgToSeal.value) && Unambiguous(SPtr(msgToSeal.schema), false)
    requires 0 <= now < TWO_63 && 0 <= maxDrift < TWO_63 - now
    ensures var sealed := SealAt(x, h, msgToSeal, msgToAuth, signer, h.publicKey(recipient), domain, timestamp, random);
            sealed.Ok? ==>
              var result := OpenAt(x, h, sealed.value, msgToAuth, recipient, x.publicKey(signer), domain, Some(maxDrift), now,
                                   msgToSeal.schema);
              (result == Ok(msgToSeal.value) <==> Distance(now, timestamp) <= maxDrift)
  {
    hide SealAt, OpenAt, Marshals, MarshalsSmall, RawsAreItems, Unambiguous, Fresh;
    OpenInvertsSeal(x, h, msgToSeal, msgToAuth, signer, recipient, domain, timestamp, random, Some(maxDrift), now);
    UsualCheckIsTruthful(now, maxDrift, timestamp);
  }

  // ---- With ideal HPKE --------------------------------------------------------------------------

  /** What an encryption authenticates determines the protected header and the message to authenticate. */
  lemma {:induction false} EncAadBinds(protected: Slice, auth: Slice, protected': Slice, auth': Slice)
    requires EncAad(protected, auth) == EncAad(protected', auth')
    ensures protected == protected' && auth == auth'
  {
    hide HasType, RawsAreItems, Encode;
    var v, w := EncStructure(protected, auth), EncStructure(protected', auth');
    TypesOk();
    EncStructureEncodes(protected, auth);
    EncStructureEncodes(protected', auth');
    MarshalIsInjective(v, w, EncStructureType(), Marshal(v, EncStructureType()).value);
    assert v.values[1] == w.values[1] && v.values[2] == w.values[2];
  }

  lemma InfoBinds(domain: Bytes, domain': Bytes)
    requires Info(domain) == Info(domain')
    ensures domain == domain'
  {
    assert Info(domain)[|DOMAIN_PREFIX|..] == domain && Info(domain')[|DOMAIN_PREFIX|..] == domain';
  }

  /** An encrypted message determines its protected header, encapsulated key and ciphertext. */
  lemma {:induction false} EncryptedDiffer(protected: Slice, sealed: Sealed, protected': Slice, sealed': Sealed)
    requires Encrypt0Message(protected, sealed) == Encrypt0Message(protected', sealed')
    ensures protected == protected' && sealed == sealed'
  {
    hide ParseEncrypt0, Encrypt0Message;
    var message := Encrypt0Message(protected, sealed);
    Encrypt0Exactly(message, protected, sealed);
    Encrypt0Exactly(message, protected', sealed');
    var v := Encrypt0(protected, sealed.encapKey, sealed.ciphertext);
    var w := Encrypt0(protected', sealed'.encapKey, sealed'.ciphertext);
    assert v == w;
    assert v.values[0] == w.values[0] && v.values[1].values[0] == w.values[1].values[0] && v.values[2] == w.values[2];
  }

  /** Decrypt accepts exactly what was encrypted to the own key, for this domain and message to authenticate. */
  lemma {:induction false} DecryptsExactlyEncrypted(h: Hpke, message: Bytes, signed: Bytes, auth: Slice, secret: Key, domain: Bytes)
    requires HpkeIdeal(h)
    ensures Decrypt(h, message, auth, secret, domain) == Ok(signed)
       <==> exists random :: Encrypt(h, signed, auth, h.publicKey(secret), domain, random) == Ok(message)
  {
    hide Decrypt, EncProtected, EncAad, Encrypt0Message;
    var public := h.publicKey(secret);
    var protected := EncProtected(h.fingerprint(public));
    DecryptAcceptsExactly(h, message, signed, auth, secret, domain, DOMAIN_PREFIX);
    if Decrypt(h, message, auth, secret, domain) == Ok(signed) {
      var sealed :| message == Encrypt0Message(protected, sealed)
                    && h.open(secret, sealed, EncAad(protected, auth), Info(domain)) == Some(signed);
      var random :| h.seal(public, signed, EncAad(protected, auth), Info(domain), random) == Some(sealed);
      assert Encrypt(h, signed, auth, public, domain, random) == Ok(message);
    }
    forall random | Encrypt(h, signed, auth, public, domain, random) == Ok(message)
      ensures Decrypt(h, message, auth, secret, domain) == Ok(signed)
    {
      IdealIsCorrect(h);
      DecryptInvertsEncrypt(h, signed, auth, secret, domain, random);
    }
  }

  /** What was encrypted for one key, domain and message to authenticate is decrypted with these and no others. */
  lemma {:induction false} DecryptsOnlyForItsOwn(h: Hpke, message: Bytes, signed: Bytes, auth: Slice, recipient: Key, domain: Bytes,
                                                 random: Bytes, auth': Slice, secret: Key, domain': Bytes)
    requires HpkeIdeal(h) && Encrypt(h, signed, auth, recipient, domain, random) == Ok(message)
    ensures Decrypt(h, message, auth', secret, domain').Ok?
       <==> recipient == h.publicKey(secret) && auth == auth' && domain == domain'
  {
    hide Decrypt, Encrypt;
    if recipient == h.publicKey(secret) && auth == auth' && domain == domain' {
      IdealIsCorrect(h);
      DecryptInvertsEncrypt(h, signed, auth, secret, domain, random);
    }
    if Decrypt(h, message, auth', secret, domain').Ok? {
      var signed' := Decrypt(h, message, auth', secret, domain').value;
      DecryptsExactlyEncrypted(h, message, signed', auth', secret, domain');
      var random' :| Encrypt(h, signed', auth', h.publicKey(secret), domain', random') == Ok(message);
      SameEncryption(h, message, signed, auth, recipient, domain, random, signed', auth', h.publicKey(secret), domain', random');
    }
  }

  lemma {:induction false} SameEncryption(h: Hpke, message: Bytes, signed: Bytes, auth: Slice, recipient: Key, domain: Bytes, random: Bytes,
                                          signed': Bytes, auth': Slice, recipient': Key, domain': Bytes, random': Bytes)
    requires HpkeIdeal(h)
    requires Encrypt(h, signed, auth, recipient, domain, random) == Ok(message)
    requires Encrypt(h, signed', auth', recipient', domain', random') == Ok(message)
    ensures signed == signed' && recipient == recipient' && auth == auth' && domain == domain'
  {
    hide EncProtected, EncAad, Encrypt0Message;
    var protected, protected' := EncProtected(h.fingerprint(recipient)), EncProtected(h.fingerprint(recipient'));
    var sealed := h.seal(recipient, signed, EncAad(protected, auth), Info(domain), random).value;
    var sealed' := h.seal(recipient', signed', EncAad(protected', auth'), Info(domain'), random').value;
    EncryptedDiffer(protected, sealed, protected', sealed');
    EncAadBinds(protected, auth, protected', auth');
    InfoBinds(domain, domain');
  }

  /** With ideal signatures and HPKE, OpenAt yields a value exactly from what SealAt makes of it: with the sender's key, for
      the own key, this domain and this message to authenticate, at a fresh time. */
  lemma {:induction false} OpensExactlySealed(x: Signing, h: Hpke, message: Bytes, v: Value, s: Schema, msgToAuth: Typed, sender: Key,
                                              recipient: Key, domain: Bytes, maxDrift: Option<int>, now: int)
    requires SigningIdeal(x) && HpkeIdeal(h) && MarshalsSmall(msgToAuth) && Fits(domain)
    requires SchemaOk(s) && Unambiguous(SPtr(s), false)
    ensures OpenAt(x, h, message, msgToAuth, recipient, x.publicKey(sender), domain, maxDrift, now, s) == Ok(v)
       <==> Marshals(Typed(v, s)) && RawsAreItems(v)
            && exists timestamp, random :: IsInt64(timestamp) && Fresh(now, timestamp, maxDrift)
                 && SealAt(x, h, Typed(v, s), msgToAuth, sender, h.publicKey(recipient), domain, timestamp, random) == Ok(message)
  {
    hide SealAt, OpenAt, Marshals, MarshalsSmall, RawsAreItems, Unambiguous, Drift;
    if OpenAt(x, h, message, msgToAuth, recipient, x.publicKey(sender), domain, maxDrift, now, s) == Ok(v) {
      var timestamp, random := OpenedWasSealed(x, h, message, v, s, msgToAuth, sender, recipient, domain, maxDrift, now);
    }
    if Marshals(Typed(v, s)) && RawsAreItems(v) {
      IdealIsCorrect(h);
      forall timestamp, random |
        IsInt64(timestamp) && Fresh(now, timestamp, maxDrift)
        && SealAt(x, h, Typed(v, s), msgToAuth, sender, h.publicKey(recipient), domain, timestamp, random) == Ok(message)
        ensures OpenAt(x, h, message, msgToAuth, recipient, x.publicKey(sender), domain, maxDrift, now, s) == Ok(v)
      {
        OpenInvertsSeal(x, h, Typed(v, s), msgToAuth, sender, recipient, domain, timestamp, random, maxDrift, now);
      }
    }
  }

  lemma {:induction false} OpenedWasSealed(x: Signing, h: Hpke, message: Bytes, v: Value, s: Schema, msgToAuth: Typed, sender: Key,
                                           recipient: Key, domain: Bytes, maxDrift: Option<int>, now: int)
    returns (timestamp: int, random: Bytes)
    requires SigningIdeal(x) && HpkeIdeal(h) && MarshalsSmall(msgToAuth) && Fits(domain)
    requires SchemaOk(s) && Unambiguous(SPtr(s), false)
    requires OpenAt(x, h, message, msgToAuth, recipient, x.publicKey(sender), domain, maxDrift, now, s) == Ok(v)
    ensures Marshals(Typed(v, s)) && RawsAreItems(v) && IsInt64(timestamp) && Fresh(now, timestamp, maxDrift)
    ensures SealAt(x, h, Typed(v, s), msgToAuth, sender, h.publicKey(recipient), domain, timestamp, random) == Ok(message)
  {
    hide Verify, Decrypt, Encrypt, SignMessage, HasType, RawsAreItems, Unambiguous, Drift, Encode, Unmarshal;
    var auth := MarshalTyped(msgToAuth).value;
    var signed := Decrypt(h, message, auth, recipient, domain).value;
    var payload := Verify(x, signed, auth, x.publicKey(sender), domain, maxDrift, now).value;
    DecryptsExactlyEncrypted(h, message, signed, auth, recipient, domain);
    random :| Encrypt(h, signed, auth, h.publicKey(recipient), domain, random) == Ok(message);
    VerifiesExactlySigned(x, signed, payload, auth, sender, domain, maxDrift, now);
    timestamp :| IsInt64(timestamp) && Fresh(now, timestamp, maxDrift)
                 && signed == SignMessage(x, Some(payload), auth, sender, domain, timestamp);
    UnmarshalAcceptsOnlyMarshal(payload, s);
  }
}
