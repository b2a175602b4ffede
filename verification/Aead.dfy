/** The AEAD that the stream objects hold, as a pair of functions with a stated contract. */
module AeadModel {
  import opened Base

  const OVERHEAD: nat := 16
  const NONCE_SIZE: nat := 12

  type Nonce = n: Bytes | |n| == NONCE_SIZE witness seq(NONCE_SIZE, _ => 0)

  /** A cipher.AEAD under one key; the additional data is always nil. */
  datatype Aead = Aead(seal: (Nonce, Bytes) -> Bytes, open: (Nonce, Bytes) -> Option<Bytes>)

  /** The tag costs OVERHEAD bytes in both directions. */
  ghost predicate Sized(a: Aead) {
    && (forall n, p :: |a.seal(n, p)| == |p| + OVERHEAD)
    && (forall n, c :: a.open(n, c).Some? ==> |c| == |a.open(n, c).value| + OVERHEAD)
  }

  /** Open returns p exactly on Seal(p), and a ciphertext belongs to one nonce only. */
  ghost predicate Ideal(a: Aead) {
    && (forall n, p :: |a.seal(n, p)| == |p| + OVERHEAD)
    && (forall n, p, c :: a.open(n, c) == Some(p) <==> c == a.seal(n, p))
    && (forall n, p, n', p' :: a.seal(n, p) == a.seal(n', p') ==> n == n')
  }

  lemma IdealIsSized(a: Aead)
    requires Ideal(a)
    ensures Sized(a)
  {
    forall n, c | a.open(n, c).Some?
      ensures |c| == |a.open(n, c).value| + OVERHEAD
    {
      var p := a.open(n, c).value;
      assert a.open(n, c) == Some(p);
    }
  }

  /** An AEAD that appends its nonce as the tag: it hides nothing, and it is Ideal. */
  function Transparent(): Aead {
    Aead(
      (n: Nonce, p: Bytes) => p + n + [0, 0, 0, 0],
      (n: Nonce, c: Bytes) =>
        if |c| >= OVERHEAD && c[|c| - OVERHEAD..] == n + [0, 0, 0, 0] then Some(c[..|c| - OVERHEAD]) else None
    )
  }

  /** The contract assumed of the AEAD can be met, so theorems about Ideal AEADs are not vacuous. */
  lemma IdealExists()
    ensures Ideal(Transparent())
  {
    var a := Transparent();
    var z: Bytes := [0, 0, 0, 0];
    forall n, p: Bytes
      ensures |a.seal(n, p)| == |p| + OVERHEAD
      ensures a.seal(n, p)[..|p|] == p && a.seal(n, p)[|p|..] == n + z
    {
      assert a.seal(n, p) == p + (n + z);
    }
    forall n, p, c
      ensures a.open(n, c) == Some(p) <==> c == a.seal(n, p)
    {
      if c == a.seal(n, p) {
        assert |c| - OVERHEAD == |p|;
      }
      if a.open(n, c) == Some(p) {
        assert c == c[..|c| - OVERHEAD] + c[|c| - OVERHEAD..];
        assert c == p + (n + z);
      }
    }
    forall n, p: Bytes, n', p': Bytes | a.seal(n, p) == a.seal(n', p')
      ensures n == n'
    {
      assert |p| == |p'|;
      assert n == (n + z)[..NONCE_SIZE] && n' == (n' + z)[..NONCE_SIZE];
    }
  }
}
