/** Big-endian fixed-width numbers, as encoding/binary writes and reads them. */
module BigEndianBytes {
  import opened Base

  function Pow256(w: nat): (r: nat)
    ensures r >= 1
  {
    if w == 0 then 1 else 256 * Pow256(w - 1)
  }

  function BigEndian(w: nat, k: nat): (s: Bytes)
    ensures |s| == w
  {
    if w == 0 then [] else BigEndian(w - 1, k / 256) + [k % 256]
  }

  function ValueOf(s: Bytes): (v: nat)
  {
    if s == [] then 0 else 256 * ValueOf(s[..|s| - 1]) + s[|s| - 1]
  }

  lemma {:induction false} ValueOfBigEndian(w: nat, k: nat)
    requires k < Pow256(w)
    ensures ValueOf(BigEndian(w, k)) == k
  {
    if w > 0 {
      ValueOfBigEndian(w - 1, k / 256);
      assert BigEndian(w, k)[..w - 1] == BigEndian(w - 1, k / 256);
    }
  }

  lemma {:induction false} BigEndianOfValue(s: Bytes)
    ensures ValueOf(s) < Pow256(|s|) && BigEndian(|s|, ValueOf(s)) == s
  {
    if s != [] {
      var front := s[..|s| - 1];
      BigEndianOfValue(front);
      assert ValueOf(s) / 256 == ValueOf(front) && ValueOf(s) % 256 == s[|s| - 1];
      assert s == front + [s[|s| - 1]];
    }
  }

  lemma BigEndianInjective(w: nat, j: nat, k: nat)
    requires j < Pow256(w) && k < Pow256(w)
    requires BigEndian(w, j) == BigEndian(w, k)
    ensures j == k
  {
    ValueOfBigEndian(w, j);
    ValueOfBigEndian(w, k);
  }

  lemma {:induction false} BigEndianZero(w: nat)
    ensures BigEndian(w, 0) == seq(w, _ => 0)
  {
    if w > 0 {
      BigEndianZero(w - 1);
    }
  }

  lemma {:induction false} BigEndianWidens(w: nat, extra: nat, k: nat)
    requires k < Pow256(w)
    ensures BigEndian(w + extra, k) == seq(extra, _ => 0) + BigEndian(w, k)
    decreases w
  {
    if w == 0 {
      BigEndianZero(extra);
    } else {
      BigEndianWidens(w - 1, extra, k / 256);
    }
  }

  /** The widths that machine integers use. */
  lemma Pow256Values()
    ensures Pow256(1) == 0x100 && Pow256(2) == 0x1_0000 && Pow256(4) == 0x1_0000_0000 && Pow256(8) == TWO_64
  {
    assert Pow256(2) == 256 * Pow256(1);
    assert Pow256(4) == 256 * Pow256(3) == 256 * (256 * Pow256(2));
    assert Pow256(6) == 256 * Pow256(5) == 256 * (256 * Pow256(4));
    assert Pow256(8) == 256 * Pow256(7) == 256 * (256 * Pow256(6));
  }
}
