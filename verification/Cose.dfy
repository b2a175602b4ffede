/** COSE_Sign1 and COSE_Encrypt0 messages: built, parsed, compared and checked. */
module Cose {
  import opened Base
  import opened CborHeader
  import opened CborSchema
  import opened CborMarshal
  import opened CoseSuite
  import opened CoseTypes

  datatype CoseError =
    | Cbor(error: CborError) | UnexpectedAlgorithm | UnexpectedKey | UnexpectedPayload | MissingPayload
    | InvalidSignature | StaleSignature | InvalidEncapKeySize | DecryptionFailed

  // ---- Encodings that do not fail ---------------------------------------------------------------

  function Info(domain: Bytes): Bytes {
    DOMAIN_PREFIX + domain
  }

  function ExternalAad(domain: Bytes, auth: Bytes): Slice
    requires Fits(domain) && Fits(auth)
  {
    SigAadEncodes(Info(domain), auth);
    Marshal(SigAad(Info(domain), auth), SigAadType()).value
  }

  function SigProtected(kid: Fingerprint, timestamp: int): Slice
    requires IsInt64(timestamp)
  {
    SigHeaderEncodes(kid, timestamp);
    Marshal(SigHeader(kid, timestamp), SigHeaderType()).value
  }

  function EncProtected(kid: Fingerprint): Slice {
    EncHeaderEncodes(kid);
    Marshal(EncHeader(kid), EncHeaderType()).value
  }

  function ToBeSigned(protected: Slice, aad: Slice, payload: Slice): Bytes {
    SigStructureEncodes(protected, aad, payload);
    Marshal(SigStructure(protected, aad, payload), SigStructureType()).value
  }

  function EncAad(protected: Slice, auth: Slice): Bytes {
    EncStructureEncodes(protected, auth);
    Marshal(EncStructure(protected, auth), EncStructureType()).value
  }

  function Sign1Message(protected: Slice, payload: Option<Slice>, signature: Signature): Bytes {
    Sign1Encodes(protected, payload, signature);
    Marshal(Sign1(protected, payload, signature), Sign1Type()).value
  }

  function Encrypt0Message(protected: Slice, sealed: Sealed): Bytes {
    Encrypt0Encodes(protected, sealed.encapKey, sealed.ciphertext);
    Marshal(Encrypt0(protected, sealed.encapKey, sealed.ciphertext), Encrypt0Type()).value
  }

  // ---- Signing ----------------------------------------------------------------------------------

  /** signAt, and with no payload signDetachedAt, which signs an empty payload and writes null. */
  function SignMessage(x: Signing, payload: Option<Slice>, auth: Bytes, secret: Key, domain: Bytes, timestamp: int): Bytes
    requires Fits(domain) && Fits(auth) && IsInt64(timestamp)
  {
    var aad := ExternalAad(domain, auth);
    var protected := SigProtected(x.fingerprint(x.publicKey(secret)), timestamp);
    var toBeSigned := ToBeSigned(protected, aad, if payload.Some? then payload.value else []);
    Sign1Message(protected, payload, x.sign(secret, toBeSigned))
  }

  // ---- Verifying --------------------------------------------------------------------------------

  /** cbor.Unmarshal, with its error passed on. */
  function Parse(data: Bytes, s: Schema): (r: Result<Value, CoseError>)
    requires SchemaOk(s)
    ensures r.Ok? ==> HasType(r.value, s)
  {
    match Unmarshal(data, s)
    case Err(e) => Err(Cbor(e))
    case Ok(v) =>
      UnmarshalAcceptsOnlyMarshal(data, s);
      Ok(v)
  }

  /** verifySigProtectedHeader; of the header only the timestamp is used. */
  function CheckSigHeader(x: Signing, protected: Bytes, public: Key): Result<int, CoseError> {
    TypesOk();
    var header :- Parse(protected, SigHeaderType());
    if header.values[0].n != ALGORITHM_XDSA then Err(UnexpectedAlgorithm)
    else if header.values[1].values[0].n != HEADER_TIMESTAMP then Err(UnexpectedAlgorithm)
    else if header.values[2].bytes != x.fingerprint(public) then Err(UnexpectedKey)
    else Ok(header.values[3].n)
  }

  /** The drift that is compared: an int64 difference, negated if it is negative, as a uint64. */
  function Drift(now: int, timestamp: int): int {
    var drift := ToInt64(now - timestamp);
    var size := if drift < 0 then ToInt64(-drift) else drift;
    if size < 0 then size + TWO_64 else size
  }

  predicate Fresh(now: int, timestamp: int, maxDrift: Option<int>) {
    maxDrift.Some? ==> Drift(now, timestamp) <= maxDrift.value
  }

  /** The checks that verify and verifyDetached share, in order: header, drift, signature. */
  function CheckSigned(x: Signing, sign1: Value, aad: Slice, payload: Slice, public: Key, maxDrift: Option<int>, now: int)
    : Result<(), CoseError>
    requires HasType(sign1, Sign1Type()) && sign1.values[0].Blob?
  {
    var protected := sign1.values[0].bytes;
    var timestamp :- CheckSigHeader(x, protected, public);
    if !Fresh(now, timestamp, maxDrift) then Err(StaleSignature)
    else if !x.verify(public, ToBeSigned(protected, aad, payload), sign1.values[3].bytes) then Err(InvalidSignature)
    else Ok(())
  }

  /** A parsed COSE_Sign1; only its payload may be null. */
  function ParseSign1(message: Bytes): (r: Result<Value, CoseError>)
    ensures r.Ok? ==> HasType(r.value, Sign1Type()) && r.value.values[0].Blob?
  {
    TypesOk();
    var v :- Parse(message, Sign1Type());
    UnmarshalAcceptsOnlyMarshal(message, Sign1Type());
    Sign1Shape(v);
    Ok(v)
  }

  /** verify. */
  function Verify(x: Signing, message: Bytes, auth: Bytes, public: Key, domain: Bytes, maxDrift: Option<int>, now: int)
    : Result<Slice, CoseError>
    requires Fits(domain) && Fits(auth)
  {
    var aad := ExternalAad(domain, auth);
    var sign1 :- ParseSign1(message);
    if sign1.values[2].Nil? then Err(MissingPayload)
    else
      var payload := sign1.values[2].bytes;
      var _ :- CheckSigned(x, sign1, aad, payload, public, maxDrift, now);
      Ok(payload)
  }

  /** verifyDetached. */
  function VerifyDetached(x: Signing, message: Bytes, auth: Bytes, public: Key, domain: Bytes, maxDrift: Option<int>, now: int)
    : Result<(), CoseError>
    requires Fits(domain) && Fits(auth)
  {
    var aad := ExternalAad(domain, auth);
    var sign1 :- ParseSign1(message);
    if !sign1.values[2].Nil? then Err(UnexpectedPayload)
    else CheckSigned(x, sign1, aad, [], public, maxDrift, now)
  }

  /** Signer: whose key a message names, before it is verified. */
  function Signer(message: Bytes): Result<Fingerprint, CoseError> {
    var sign1 :- ParseSign1(message);
    TypesOk();
    var header :- Parse(sign1.values[0].bytes, SigHeaderType());
    Ok(header.values[2].bytes)
  }

  /** Peek: the payload of a message that is not verified. */
  function Peek(message: Bytes, s: Schema): Result<Value, CoseError>
    requires SchemaOk(s)
  {
    var sign1 :- ParseSign1(message);
    if sign1.values[2].Nil? then Err(MissingPayload) else Parse(sign1.values[2].bytes, s)
  }

  // ---- Encrypting and decrypting ----------------------------------------------------------------

  /** Encrypt. */
  function Encrypt(h: Hpke, signed: Bytes, auth: Slice, recipient: Key, domain: Bytes, random: Bytes): Result<Bytes, CoseError> {
    var protected := EncProtected(h.fingerprint(recipient));
    match h.seal(recipient, signed, EncAad(protected, auth), Info(domain), random)
    case None => Err(DecryptionFailed)
    case Some(sealed) => Ok(Encrypt0Message(protected, sealed))
  }

  /** verifyEncProtectedHeader. */
  function CheckEncHeader(h: Hpke, protected: Bytes, public: Key): Result<(), CoseError> {
    TypesOk();
    var header :- Parse(protected, EncHeaderType());
    if header.values[0].n != ALGORITHM_XHPKE then Err(UnexpectedAlgorithm)
    else if header.values[1].bytes != h.fingerprint(public) then Err(UnexpectedKey)
    else Ok(())
  }

  function ParseEncrypt0(message: Bytes): (r: Result<Value, CoseError>)
    ensures r.Ok? ==> HasType(r.value, Encrypt0Type()) && r.value.values[0].Blob?
    ensures r.Ok? ==> r.value.values[1].values[0].Blob? && r.value.values[2].Blob?
  {
    TypesOk();
    var v :- Parse(message, Encrypt0Type());
    UnmarshalAcceptsOnlyMarshal(message, Encrypt0Type());
    Encrypt0Shape(v);
    Ok(v)
  }

  /** Decrypt. */
  function Decrypt(h: Hpke, message: Bytes, auth: Slice, secret: Key, domain: Bytes): Result<Bytes, CoseError> {
    var encrypt0 :- ParseEncrypt0(message);
    var protected, encapKey := encrypt0.values[0].bytes, encrypt0.values[1].values[0].bytes;
    var _ :- CheckEncHeader(h, protected, h.publicKey(secret));
    if |encapKey| != ENCAP_KEY_SIZE then Err(InvalidEncapKeySize)
    else
      match h.open(secret, Sealed(encapKey, encrypt0.values[2].bytes), EncAad(protected, auth), Info(domain))
      case None => Err(DecryptionFailed)
      case Some(signed) => Ok(signed)
  }

  /** Recipient: whose key a message is for, before it is decrypted. */
  function Recipient(message: Bytes): Result<Fingerprint, CoseError> {
    var encrypt0 :- ParseEncrypt0(message);
    TypesOk();
    var header :- Parse(encrypt0.values[0].bytes, EncHeaderType());
    Ok(header.values[1].bytes)
  }

  // ---- Values in and out ------------------------------------------------------------------------

  /** A value and its type: what any holds. */
  datatype Typed = Typed(value: Value, schema: Schema)

  /** It can be handed to Marshal, and what comes out fits a slice. */
  predicate Marshals(t: Typed) {
    && SchemaOk(t.schema) && HasType(t.value, t.schema)
    && (Marshal(t.value, t.schema).Ok? ==> |Marshal(t.value, t.schema).value| <= MAX_INT)
  }

  /** What comes out leaves room for the headers around it, too. */
  predicate MarshalsSmall(t: Typed) {
    Marshals(t) && (Marshal(t.value, t.schema).Ok? ==> Fits(Marshal(t.value, t.schema).value))
  }

  function MarshalTyped(t: Typed): (r: Result<Slice, CoseError>)
    requires Marshals(t)
    ensures r.Ok? ==> Marshal(t.value, t.schema) == Ok(r.value)
  {
    match Marshal(t.value, t.schema)
    case Err(e) => Err(Cbor(e))
    case Ok(b) => Ok(b)
  }

  /** SealAt. */
  function SealAt(x: Signing, h: Hpke, msgToSeal: Typed, msgToAuth: Typed, signer: Key, recipient: Key, domain: Bytes,
                  timestamp: int, random: Bytes): Result<Bytes, CoseError>
    requires Marshals(msgToSeal) && MarshalsSmall(msgToAuth) && Fits(domain) && IsInt64(timestamp)
  {
    var seal :- MarshalTyped(msgToSeal);
    var auth :- MarshalTyped(msgToAuth);
    var signed := SignMessage(x, Some(seal), auth, signer, domain, timestamp);
    Encrypt(h, signed, auth, recipient, domain, random)
  }

  /** VerifyAt: the payload is decoded only once it is verified. */
  function VerifyAt(x: Signing, message: Bytes, msgToAuth: Typed, public: Key, domain: Bytes, maxDrift: Option<int>, now: int,
                    s: Schema): Result<Value, CoseError>
    requires MarshalsSmall(msgToAuth) && Fits(domain) && SchemaOk(s)
  {
    var auth :- MarshalTyped(msgToAuth);
    var payload :- Verify(x, message, auth, public, domain, maxDrift, now);
    Parse(payload, s)
  }

  /** OpenAt. */
  function OpenAt(x: Signing, h: Hpke, message: Bytes, msgToAuth: Typed, recipient: Key, sender: Key, domain: Bytes,
                  maxDrift: Option<int>, now: int, s: Schema): Result<Value, CoseError>
    requires MarshalsSmall(msgToAuth) && Fits(domain) && SchemaOk(s)
  {
    var auth :- MarshalTyped(msgToAuth);
    var signed :- Decrypt(h, message, auth, recipient, domain);
    VerifyAt(x, signed, msgToAuth, sender, domain, maxDrift, now, s)
  }
}
