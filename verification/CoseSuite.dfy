/** The cryptography under COSE, as functions with a stated contract. */
module CoseSuite {
  import opened Base

  const SIGNATURE_SIZE: nat := 3373
  const FINGERPRINT_SIZE: nat := 32
  const ENCAP_KEY_SIZE: nat := 1120

  type Key = Bytes
  type Fingerprint = f: Bytes | |f| == FINGERPRINT_SIZE witness seq(FINGERPRINT_SIZE, _ => 0)
  type Signature = s: Bytes | |s| == SIGNATURE_SIZE witness seq(SIGNATURE_SIZE, _ => 0)
  type EncapKey = k: Bytes | |k| == ENCAP_KEY_SIZE witness seq(ENCAP_KEY_SIZE, _ => 0)

  /** What a Go slice can hold. */
  type Slice = b: Bytes | |b| <= MAX_INT

  /** xDSA. */
  datatype Signing = Signing(
    publicKey: Key -> Key,
    fingerprint: Key -> Fingerprint,
    sign: (Key, Bytes) -> Signature,
    verify: (Key, Bytes, Signature) -> bool)

  /** What a key pair has signed, its public key verifies. */
  ghost predicate SigningCorrect(x: Signing) {
    forall secret, m :: x.verify(x.publicKey(secret), m, x.sign(secret, m))
  }

  /** And the public key verifies nothing else. */
  ghost predicate SigningIdeal(x: Signing) {
    forall secret, m, s :: x.verify(x.publicKey(secret), m, s) <==> s == x.sign(secret, m)
  }

  /** What sealing makes: a key for the recipient, and the ciphertext. */
  datatype Sealed = Sealed(encapKey: EncapKey, ciphertext: Slice)

  /** xHPKE; the random numbers that sealing draws are its last argument. */
  datatype Hpke = Hpke(
    publicKey: Key -> Key,
    fingerprint: Key -> Fingerprint,
    seal: (Key, Bytes, Bytes, Bytes, Bytes) -> Option<Sealed>,
    open: (Key, Sealed, Bytes, Bytes) -> Option<Bytes>)

  /** What is sealed to a public key is opened with its secret key, under the same additional data and info. */
  ghost predicate HpkeCorrect(h: Hpke) {
    forall secret, m, aad, info, random ::
      h.seal(h.publicKey(secret), m, aad, info, random).Some? ==>
        h.open(secret, h.seal(h.publicKey(secret), m, aad, info, random).value, aad, info) == Some(m)
  }

  /** And opened only as what it was sealed as: for one key, under one additional data and info. */
  ghost predicate HpkeIdeal(h: Hpke) {
    && (forall secret, c, m, aad, info ::
          h.open(secret, c, aad, info) == Some(m)
          <==> exists random :: h.seal(h.publicKey(secret), m, aad, info, random) == Some(c))
    && (forall public, m, aad, info, random, public', m', aad', info', random' ::
          h.seal(public, m, aad, info, random).Some?
          && h.seal(public, m, aad, info, random) == h.seal(public', m', aad', info', random') ==>
            public == public' && m == m' && aad == aad' && info == info')
  }

  lemma IdealIsCorrect(h: Hpke)
    requires HpkeIdeal(h)
    ensures HpkeCorrect(h)
  {
  }

  function Zeros(n: nat): (z: Bytes)
    ensures |z| == n
  {
    seq(n, _ => 0)
  }

  // ---- The contracts can be met -----------------------------------------------------------------

  /** A length in unary, and the bytes: what follows them does not run into them. */
  function Frame(b: Bytes): Bytes {
    seq(|b|, _ => 1) + [0] + b
  }

  lemma FramesDoNotOverlap(b: Bytes, c: Bytes, x: Bytes, y: Bytes)
    requires Frame(b) + x == Frame(c) + y
    ensures b == c && x == y
  {
    var s, t := Frame(b) + x, Frame(c) + y;
    assert s[|b|] == 0 && (forall i :: 0 <= i < |b| ==> s[i] == 1);
    assert t[|c|] == 0 && (forall i :: 0 <= i < |c| ==> t[i] == 1);
    assert s[|b| + 1..][..|b|] == b && t[|c| + 1..][..|c|] == c;
    assert s[2 * |b| + 1..] == x && t[2 * |c| + 1..] == y;
  }

  /** A box that is not locked: it shows all that went into it. */
  function Box(public: Key, m: Bytes, aad: Bytes, info: Bytes): Bytes {
    Frame(public) + (Frame(m) + (Frame(aad) + Frame(info)))
  }

  lemma BoxShowsAll(public: Key, m: Bytes, aad: Bytes, info: Bytes, public': Key, m': Bytes, aad': Bytes, info': Bytes)
    requires Box(public, m, aad, info) == Box(public', m', aad', info')
    ensures public == public' && m == m' && aad == aad' && info == info'
  {
    hide Frame;
    FramesDoNotOverlap(public, public', Frame(m) + (Frame(aad) + Frame(info)), Frame(m') + (Frame(aad') + Frame(info')));
    FramesDoNotOverlap(m, m', Frame(aad) + Frame(info), Frame(aad') + Frame(info'));
    FramesDoNotOverlap(aad, aad', Frame(info), Frame(info'));
    assert Frame(info) + [] == Frame(info) && Frame(info') + [] == Frame(info');
    FramesDoNotOverlap(info, info', [], []);
  }

  function Sealing(public: Key, m: Bytes, aad: Bytes, info: Bytes): Option<Sealed> {
    var box := Box(public, m, aad, info);
    if |box| <= MAX_INT then Some(Sealed(Zeros(ENCAP_KEY_SIZE), box)) else None
  }

  ghost function Opening(secret: Key, c: Sealed, aad: Bytes, info: Bytes): Option<Bytes> {
    if exists m :: Sealing(secret, m, aad, info) == Some(c) then
      var m :| Sealing(secret, m, aad, info) == Some(c);
      Some(m)
    else None
  }

  lemma OpeningIs(secret: Key, c: Sealed, m: Bytes, aad: Bytes, info: Bytes)
    ensures Opening(secret, c, aad, info) == Some(m) <==> Sealing(secret, m, aad, info) == Some(c)
  {
    hide Box;
    if Sealing(secret, m, aad, info) == Some(c) {
      var m' := Opening(secret, c, aad, info).value;
      BoxShowsAll(secret, m, aad, info, secret, m', aad, info);
    }
  }

  /** There are a signature and an HPKE that meet the contracts, though neither keeps a secret. */
  lemma SuiteExists() returns (x: Signing, h: Hpke)
    ensures SigningCorrect(x) && SigningIdeal(x) && HpkeCorrect(h) && HpkeIdeal(h)
  {
    x := Signing((k: Key) => k, (k: Key) => Zeros(FINGERPRINT_SIZE), (k: Key, m: Bytes) => Zeros(SIGNATURE_SIZE),
                 (k: Key, m: Bytes, s: Signature) => s == Zeros(SIGNATURE_SIZE));
    h := Hpke((k: Key) => k, (k: Key) => Zeros(FINGERPRINT_SIZE),
              (k: Key, m: Bytes, aad: Bytes, info: Bytes, random: Bytes) => Sealing(k, m, aad, info),
              (k: Key, c: Sealed, aad: Bytes, info: Bytes) => Opening(k, c, aad, info));
    hide Sealing, Opening;
    forall secret, c, m, aad, info
      ensures h.open(secret, c, aad, info) == Some(m)
         <==> exists random :: h.seal(h.publicKey(secret), m, aad, info, random) == Some(c)
    {
      OpeningIs(secret, c, m, aad, info);
      assert forall random :: h.seal(h.publicKey(secret), m, aad, info, random) == Sealing(secret, m, aad, info);
      assert h.seal(h.publicKey(secret), m, aad, info, []) == Sealing(secret, m, aad, info);
    }
    forall public, m, aad, info, random, public', m', aad', info', random' |
      h.seal(public, m, aad, info, random).Some?
      && h.seal(public, m, aad, info, random) == h.seal(public', m', aad', info', random')
      ensures public == public' && m == m' && aad == aad' && info == info'
    {
      SealingShowsAll(public, m, aad, info, public', m', aad', info');
    }
    IdealIsCorrect(h);
  }

  lemma SealingShowsAll(public: Key, m: Bytes, aad: Bytes, info: Bytes, public': Key, m': Bytes, aad': Bytes, info': Bytes)
    requires Sealing(public, m, aad, info).Some? && Sealing(public, m, aad, info) == Sealing(public', m', aad', info')
    ensures public == public' && m == m' && aad == aad' && info == info'
  {
    hide Box;
    BoxShowsAll(public, m, aad, info, public', m', aad', info');
  }
}
