/** The COSE messages as CBOR items, as sections 4.2, 4.4, 5.2 and 5.3 of RFC 9052 lay them out. */
module CoseWire {
  import opened Base
  import opened CborFieldOrder
  import opened CborHeader
  import opened CborSchema
  import opened CborMarshalItems
  import opened CoseSuite
  import opened CoseTypes
  import opened Cose
  import CborItem

  function IntItem(n: int): CborItem.Item {
    if n >= 0 then CborItem.UInt(n) else CborItem.NInt(-1 - n)
  }

  function BytesItem(b: Bytes): CborItem.Item {
    CborItem.Blob(b)
  }

  lemma {:induction false} ScalarsStandFor(n: int, b: Bytes)
    requires IsInt64(n) && |b| <= MAX_INT
    ensures StandsFor(Int(n), SInt, IntItem(n)) && StandsFor(Text(b), SText, CborItem.Text(b))
    ensures StandsFor(CborSchema.Blob(b), SBytes, BytesItem(b)) && StandsFor(CborSchema.Blob(b), SFixed(|b|), BytesItem(b))
    ensures StandsFor(Nil, SBytes, NullItem())
  {
  }

  /** A structure that encodes and stands for an item is written as that item. */
  lemma {:induction false} WrittenAs(v: Value, s: Schema, i: CborItem.Item)
    requires Encodes(v, s) && StandsFor(v, s, i)
    ensures WritesItem(Marshal(v, s).value, i)
  {
    hide WritesItem, Encode, ToItem, HasType;
    EncodeWritesItem(v, s, false);
  }

  /** The protected header of a signature: algorithm, critical labels, key and timestamp, in the order of their labels. */
  lemma {:induction false} SigProtectedItem(kid: Fingerprint, timestamp: int)
    requires IsInt64(timestamp)
    ensures WritesItem(SigProtected(kid, timestamp),
                       CborItem.Map([1, 2, 4, -70002],
                                    [IntItem(-70000), CborItem.Array([IntItem(-70002)]), BytesItem(kid), IntItem(timestamp)]))
  {
    hide StandsFor, WritesItem, Marshal, KeysOk, Encodes, IntItem, BytesItem;
    SigHeaderEncodes(kid, timestamp);
    ScalarsStandFor(ALGORITHM_XDSA, kid);
    ScalarsStandFor(HEADER_TIMESTAMP, kid);
    ScalarsStandFor(timestamp, kid);
    PartsOk();
    ArrayStandsFor(CritValue().values, CritHeader().fields, [IntItem(-70002)]);
    var items := [IntItem(-70000), CborItem.Array([IntItem(-70002)]), BytesItem(kid), IntItem(timestamp)];
    MapStandsFor(SigHeader(kid, timestamp).values, [1, 2, 4, -70002], SigHeaderType().fields, items);
    WrittenAs(SigHeader(kid, timestamp), SigHeaderType(), CborItem.Map([1, 2, 4, -70002], items));
  }

  /** The protected header of an encryption: algorithm and key. */
  lemma {:induction false} EncProtectedItem(kid: Fingerprint)
    ensures WritesItem(EncProtected(kid), CborItem.Map([1, 4], [IntItem(-70001), BytesItem(kid)]))
  {
    hide StandsFor, WritesItem, Marshal, KeysOk, Encodes, IntItem, BytesItem;
    EncHeaderEncodes(kid);
    ScalarsStandFor(ALGORITHM_XHPKE, kid);
    PartsOk();
    MapStandsFor(EncHeader(kid).values, [1, 4], EncHeaderType().fields, [IntItem(-70001), BytesItem(kid)]);
    WrittenAs(EncHeader(kid), EncHeaderType(), CborItem.Map([1, 4], [IntItem(-70001), BytesItem(kid)]));
  }

  /** What is signed: the context "Signature1", the protected header, the external data and the payload. */
  lemma {:induction false} ToBeSignedItem(protected: Slice, aad: Slice, payload: Slice)
    ensures WritesItem(ToBeSigned(protected, aad, payload),
                       CborItem.Array([CborItem.Text([83, 105, 103, 110, 97, 116, 117, 114, 101, 49]),
                                       BytesItem(protected), BytesItem(aad), BytesItem(payload)]))
  {
    hide StandsFor, WritesItem, Marshal, Encodes, BytesItem;
    SigStructureEncodes(protected, aad, payload);
    ScalarsStandFor(0, SIGNATURE1);
    ScalarsStandFor(0, protected);
    ScalarsStandFor(0, aad);
    ScalarsStandFor(0, payload);
    var items := [CborItem.Text(SIGNATURE1), BytesItem(protected), BytesItem(aad), BytesItem(payload)];
    ArrayStandsFor(SigStructure(protected, aad, payload).values, SigStructureType().fields, items);
    WrittenAs(SigStructure(protected, aad, payload), SigStructureType(), CborItem.Array(items));
  }

  /** What an encryption authenticates: the context "Encrypt0", the protected header and the external data. */
  lemma {:induction false} EncAadItem(protected: Slice, auth: Slice)
    ensures WritesItem(EncAad(protected, auth),
                       CborItem.Array([CborItem.Text([69, 110, 99, 114, 121, 112, 116, 48]),
                                       BytesItem(protected), BytesItem(auth)]))
  {
    hide StandsFor, WritesItem, Marshal, Encodes, BytesItem;
    EncStructureEncodes(protected, auth);
    ScalarsStandFor(0, ENCRYPT0);
    ScalarsStandFor(0, protected);
    ScalarsStandFor(0, auth);
    var items := [CborItem.Text(ENCRYPT0), BytesItem(protected), BytesItem(auth)];
    ArrayStandsFor(EncStructure(protected, auth).values, EncStructureType().fields, items);
    WrittenAs(EncStructure(protected, auth), EncStructureType(), CborItem.Array(items));
  }

  function PayloadItem(payload: Option<Slice>): CborItem.Item {
    if payload.Some? then BytesItem(payload.value) else NullItem()
  }

  /** A COSE_Sign1: the protected header, no unprotected one, the payload or null, and the signature. */
  lemma {:induction false} Sign1Item(protected: Slice, payload: Option<Slice>, signature: Signature)
    ensures WritesItem(Sign1Message(protected, payload, signature),
                       CborItem.Array([BytesItem(protected), CborItem.Map([], []), PayloadItem(payload), BytesItem(signature)]))
  {
    hide StandsFor, WritesItem, Marshal, KeysOk, Encodes, BytesItem, SchemaOk, FieldOk;
    Sign1Encodes(protected, payload, signature);
    ScalarsStandFor(0, protected);
    ScalarsStandFor(0, if payload.Some? then payload.value else []);
    ScalarsStandFor(0, signature);
    PartsOk();
    MapStandsFor([], [], [], []);
    var items := [BytesItem(protected), CborItem.Map([], []), PayloadItem(payload), BytesItem(signature)];
    ArrayStandsFor(Sign1(protected, payload, signature).values, Sign1Type().fields, items);
    WrittenAs(Sign1(protected, payload, signature), Sign1Type(), CborItem.Array(items));
  }

  /** A COSE_Encrypt0: the protected header, the encapsulated key under label -4, and the ciphertext. */
  lemma {:induction false} Encrypt0Item(protected: Slice, sealed: Sealed)
    ensures WritesItem(Encrypt0Message(protected, sealed),
                       CborItem.Array([BytesItem(protected), CborItem.Map([-4], [BytesItem(sealed.encapKey)]),
                                       BytesItem(sealed.ciphertext)]))
  {
    hide StandsFor, WritesItem, Marshal, KeysOk, Encodes, BytesItem;
    Encrypt0Encodes(protected, sealed.encapKey, sealed.ciphertext);
    ScalarsStandFor(0, protected);
    ScalarsStandFor(0, sealed.encapKey);
    ScalarsStandFor(0, sealed.ciphertext);
    PartsOk();
    MapStandsFor([CborSchema.Blob(sealed.encapKey)], [-4], [Plain(SBytes)], [BytesItem(sealed.encapKey)]);
    var items := [BytesItem(protected), CborItem.Map([-4], [BytesItem(sealed.encapKey)]), BytesItem(sealed.ciphertext)];
    ArrayStandsFor(Encrypt0(protected, sealed.encapKey, sealed.ciphertext).values, Encrypt0Type().fields, items);
    WrittenAs(Encrypt0(protected, sealed.encapKey, sealed.ciphertext), Encrypt0Type(), CborItem.Array(items));
  }

  // ---- Whole messages ---------------------------------------------------------------------------

  /** The prefix of this library in front of every domain: dark-bio-v1 and a colon. */
  predicate IsPrefix(prefix: Bytes) {
    prefix == [100, 97, 114, 107, 45, 98, 105, 111, 45, 118, 49, 58]
  }

  /** The external data of a signature, byte by byte: an array of the prefixed domain and the message to authenticate. */
  lemma {:induction false} ExternalAadBytes(prefix: Bytes, domain: Bytes, auth: Bytes)
    requires IsPrefix(prefix) && Fits(domain) && Fits(auth)
    ensures ExternalAad(domain, auth) == [0x82] + (Header(2, 12 + |domain|) + (prefix + domain) + auth)
  {
    hide Encode, HasType, SchemaOk;
    SigAadEncodes(Info(domain), auth);
    assert Header(MAJOR_ARRAY, 2) == [0x82];
  }

  /** A signed message: what is signed is the Sig_structure over the external data above, with an empty payload when that is
      detached, and what is sent is the COSE_Sign1 with that signature. */
  lemma {:induction false} SignedMessageItem(x: Signing, payload: Option<Slice>, auth: Bytes, secret: Key, domain: Bytes, timestamp: int,
                                             prefix: Bytes)
    returns (protected: Slice, aad: Slice, toBeSigned: Bytes)
    requires IsPrefix(prefix) && Fits(domain) && Fits(auth) && IsInt64(timestamp)
    ensures WritesItem(protected, CborItem.Map([1, 2, 4, -70002],
              [IntItem(-70000), CborItem.Array([IntItem(-70002)]), BytesItem(x.fingerprint(x.publicKey(secret))), IntItem(timestamp)]))
    ensures aad == [0x82] + (Header(2, 12 + |domain|) + (prefix + domain) + auth)
    ensures WritesItem(toBeSigned, CborItem.Array([CborItem.Text([83, 105, 103, 110, 97, 116, 117, 114, 101, 49]),
              BytesItem(protected), BytesItem(aad), BytesItem(if payload.Some? then payload.value else [])]))
    ensures WritesItem(SignMessage(x, payload, auth, secret, domain, timestamp),
              CborItem.Array([BytesItem(protected), CborItem.Map([], []),
                              if payload.Some? then BytesItem(payload.value) else CborItem.Simple(22),
                              BytesItem(x.sign(secret, toBeSigned))]))
  {
    hide WritesItem, ExternalAad, SigProtected, ToBeSigned, Sign1Message, Header, IsPrefix;
    protected, aad := SigProtected(x.fingerprint(x.publicKey(secret)), timestamp), ExternalAad(domain, auth);
    var signed: Slice := if payload.Some? then payload.value else [];
    toBeSigned := ToBeSigned(protected, aad, signed);
    SigProtectedItem(x.fingerprint(x.publicKey(secret)), timestamp);
    ExternalAadBytes(prefix, domain, auth);
    ToBeSignedItem(protected, aad, signed);
    Sign1Item(protected, payload, x.sign(secret, toBeSigned));
  }

  /** An encrypted message: HPKE is given the Enc_structure and the prefixed domain, and what it makes is sent in a
      COSE_Encrypt0. */
  lemma {:induction false} EncryptedMessageItem(h: Hpke, signed: Bytes, auth: Slice, recipient: Key, domain: Bytes, random: Bytes,
                                                prefix: Bytes)
    returns (protected: Slice, aad: Bytes)
    requires IsPrefix(prefix)
    ensures WritesItem(protected, CborItem.Map([1, 4], [IntItem(-70001), BytesItem(h.fingerprint(recipient))]))
    ensures WritesItem(aad, CborItem.Array([CborItem.Text([69, 110, 99, 114, 121, 112, 116, 48]), BytesItem(protected), BytesItem(auth)]))
    ensures match h.seal(recipient, signed, aad, prefix + domain, random)
            case None => Encrypt(h, signed, auth, recipient, domain, random) == Err(DecryptionFailed)
            case Some(sealed) =>
              var message := Encrypt(h, signed, auth, recipient, domain, random);
              message.Ok? && WritesItem(message.value,
                CborItem.Array([BytesItem(protected), CborItem.Map([-4], [BytesItem(sealed.encapKey)]), BytesItem(sealed.ciphertext)]))
  {
    hide WritesItem, EncAad, EncProtected, Encrypt0Message;
    protected := EncProtected(h.fingerprint(recipient));
    aad := EncAad(protected, auth);
    EncProtectedItem(h.fingerprint(recipient));
    EncAadItem(protected, auth);
    assert Info(domain) == prefix + domain;
    var sealed := h.seal(recipient, signed, aad, prefix + domain, random);
    if sealed.Some? {
      Encrypt0Item(protected, sealed.value);
    }
  }
}
