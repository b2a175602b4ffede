/** The searches of the bytes package that the PEM parser uses. */
module ByteSearch {
  import opened Base

  /** bytes.HasPrefix. */
  predicate HasPrefix(s: Bytes, p: Bytes) {
    |p| <= |s| && s[..|p|] == p
  }

  lemma PrefixStarts(s: Bytes, p: Bytes)
    requires p != []
    ensures HasPrefix(s, p) ==> s != [] && s[0] == p[0]
  {
    if HasPrefix(s, p) {
      assert s[..|p|][0] == s[0];
    }
  }

  /** bytes.HasSuffix. */
  predicate HasSuffix(s: Bytes, p: Bytes) {
    |p| <= |s| && s[|s| - |p|..] == p
  }

  /** bytes.Index: where p occurs first. */
  function Index(s: Bytes, p: Bytes): (r: Option<nat>)
    ensures r.Some? ==> r.value + |p| <= |s| && s[r.value..r.value + |p|] == p
  {
    if HasPrefix(s, p) then Some(0)
    else if s == [] then None
    else
      match Index(s[1..], p)
      case None => None
      case Some(i) =>
        SliceOfSlice(s, 1, |s|, i, i + |p|);
        Some(i + 1)
  }

  /** p does not occur in s before i. */
  ghost predicate NotBefore(s: Bytes, p: Bytes, i: nat) {
    forall k :: 0 <= k < i && k <= |s| ==> !HasPrefix(s[k..], p)
  }

  lemma NotBeforeTail(s: Bytes, p: Bytes, i: nat)
    requires s != [] && i > 0
    ensures NotBefore(s, p, i) <==> !HasPrefix(s, p) && NotBefore(s[1..], p, i - 1)
  {
    hide HasPrefix;
    assert s[0..] == s;
    assert forall k :: 1 <= k <= |s| ==> s[k..] == s[1..][k - 1..];
    if NotBefore(s, p, i) {
      forall k | 0 <= k < i - 1 && k <= |s| - 1
        ensures !HasPrefix(s[1..][k..], p)
      {
        assert s[k + 1..] == s[1..][k..];
      }
    }
  }

  /** Index is the first occurrence and no other. */
  lemma {:induction false} IndexIsFirst(s: Bytes, p: Bytes, i: nat)
    ensures Index(s, p) == Some(i) <==> i <= |s| && HasPrefix(s[i..], p) && NotBefore(s, p, i)
  {
    assert s[0..] == s;
    if s == [] {
    } else if i > 0 {
      NotBeforeTail(s, p, i);
      if !HasPrefix(s, p) {
        IndexIsFirst(s[1..], p, i - 1);
        assert i <= |s| ==> s[i..] == s[1..][i - 1..];
      }
    }
  }

  /** The first occurrence of one byte. */
  lemma IndexOfByte(s: Bytes, b: byte, i: nat)
    ensures Index(s, [b]) == Some(i) <==> i < |s| && s[i] == b && b !in s[..i]
  {
    IndexIsFirst(s, [b], i);
    hide Index;
    forall k | 0 <= k <= |s|
      ensures HasPrefix(s[k..], [b]) <==> k < |s| && s[k] == b
    {
      PrefixStarts(s[k..], [b]);
      assert k < |s| ==> s[k..][..1] == [s[k]];
    }
    if i < |s| && b in s[..i] {
      var k :| 0 <= k < i && s[..i][k] == b;
      assert HasPrefix(s[k..], [b]);
    }
  }

  /** bytes.ReplaceAll(s, p, nil). */
  function RemoveAll(s: Bytes, p: Bytes): Bytes
    requires p != []
    decreases |s|
  {
    if s == [] then []
    else if HasPrefix(s, p) then RemoveAll(s[|p|..], p)
    else [s[0]] + RemoveAll(s[1..], p)
  }
}
