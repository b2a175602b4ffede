/** Skipping over one item with only the checks that walking it takes. */
module CborSkip {
  import opened Base
  import opened CborHeader
  import opened CborScalar
  import opened CborItem

  /** skipObject: what is left after one item. Text is not checked, and a map is just pairs of items. */
  function Skip(s: Bytes, depth: nat): Result<Bytes, CborError>
    decreases depth, 1, 0
  {
    if depth == 0 then Err(MaxDepthExceeded)
    else
      var h :- ReadHead(s);
      HeaderInvertsReadHead(s);
      if h.major in {MAJOR_UINT, MAJOR_NINT} then Ok(h.rest)
      else if h.major in {MAJOR_BYTES, MAJOR_TEXT} then
        var b :- ReadBytes(h.rest, h.value);
        Ok(b.rest)
      else if h.major == MAJOR_ARRAY then SkipMany(h.rest, depth - 1, h.value)
      else if h.major == MAJOR_MAP then SkipMany(h.rest, depth - 1, 2 * h.value)
      else if h.major == MAJOR_SIMPLE && h.value in {SIMPLE_FALSE, SIMPLE_TRUE, SIMPLE_NULL} then Ok(h.rest)
      else Err(UnsupportedType)
  }

  function SkipMany(s: Bytes, depth: nat, n: nat): Result<Bytes, CborError>
    decreases depth, 2, n
  {
    if n == 0 then Ok(s)
    else
      var rest :- Skip(s, depth);
      SkipMany(rest, depth, n - 1)
  }

  // ---- Skipping accepts whatever verifying does -------------------------------------------------

  /** If verifyObject succeeds then skipObject does, from the same place at the same depth, and stops where it stops. */
  lemma {:induction false} SkipFollowsParse(s: Bytes, depth: nat)
    ensures Parse(s, depth).Ok? ==> Skip(s, depth) == Ok(Parse(s, depth).value.rest)
    decreases depth, 1, 0
  {
    if Parse(s, depth).Ok? {
      var h := ReadHead(s).value;
      HeaderInvertsReadHead(s);
      if h.major == MAJOR_ARRAY {
        SkipFollowsItems(h.rest, depth - 1, h.value);
      } else if h.major == MAJOR_MAP {
        SkipFollowsEntries(h.rest, depth - 1, h.value, None);
      }
    }
  }

  lemma {:induction false} SkipFollowsItems(s: Bytes, depth: nat, n: nat)
    ensures ParseItems(s, depth, n).Ok? ==> SkipMany(s, depth, n) == Ok(ParseItems(s, depth, n).value.rest)
    decreases depth, 2, n
  {
    if n > 0 && ParseItems(s, depth, n).Ok? {
      SkipFollowsParse(s, depth);
      SkipFollowsItems(Parse(s, depth).value.rest, depth, n - 1);
    }
  }

  lemma SkipManyStep(s: Bytes, depth: nat, n: nat)
    requires n > 0 && Skip(s, depth).Ok?
    ensures SkipMany(s, depth, n) == SkipMany(Skip(s, depth).value, depth, n - 1)
  {
    hide Skip;
  }

  lemma {:induction false} SkipFollowsEntries(s: Bytes, depth: nat, n: nat, prev: Option<int>)
    requires prev.Some? ==> IsInt64(prev.value)
    ensures ParseEntries(s, depth, n, prev).Ok? ==>
              SkipMany(s, depth, 2 * n) == Ok(ParseEntries(s, depth, n, prev).value.rest)
    decreases depth, 2, n
  {
    hide Skip, ReadInt;
    if n > 0 && ParseEntries(s, depth, n, prev).Ok? {
      var key := ReadInt(s).value;
      EncodeIntInvertsReadInt(s);
      KeySkips(s, depth);
      SkipFollowsParse(key.rest, depth);
      var value := Parse(key.rest, depth).value;
      SkipFollowsEntries(value.rest, depth, n - 1, Some(key.value));
      SkipManyStep(s, depth, 2 * n);
      SkipManyStep(key.rest, depth, 2 * n - 1);
    }
  }

  /** A map key is walked as an item of its own; since the value after it takes depth, there is depth for the key. */
  lemma KeySkips(s: Bytes, depth: nat)
    requires ReadInt(s).Ok?
    ensures depth > 0 ==> Skip(s, depth) == Ok(ReadInt(s).value.rest)
  {
  }

  // ---- What is skipped does not depend on what follows ------------------------------------------

  /** A header and what it announces. */
  lemma HeadedSkip(major: int, value: int, body: Bytes, t: Bytes, depth: nat)
    requires 0 <= major < 8 && IsUint64(value) && depth > 0
    ensures major in {MAJOR_BYTES, MAJOR_TEXT} && |body| == value <= MAX_INT ==> Skip(Header(major, value) + body + t, depth) == Ok(t)
    ensures major == MAJOR_ARRAY ==> Skip(Header(major, value) + body + t, depth) == SkipMany(body + t, depth - 1, value)
    ensures major == MAJOR_MAP ==> Skip(Header(major, value) + body + t, depth) == SkipMany(body + t, depth - 1, 2 * value)
  {
    hide Header, ReadHead, SkipMany;
    ConcatAssoc(Header(major, value), body, t);
    ReadHeadInvertsHeader(major, value, body + t);
    if |body| <= MAX_INT {
      ReadBytesBack(body, t);
    }
  }

  lemma {:induction false} LeafIsLocal(s: Bytes, depth: nat) returns (c: Bytes)
    requires Skip(s, depth).Ok? && ReadHead(s).value.major !in {MAJOR_BYTES, MAJOR_TEXT, MAJOR_ARRAY, MAJOR_MAP}
    ensures c != [] && s == c + Skip(s, depth).value
    ensures forall t :: Skip(c + t, depth) == Ok(t)
  {
    HeaderInvertsReadHead(s);
    var h := ReadHead(s).value;
    c := Header(h.major, h.value);
    hide Header, ReadHead;
    forall t
      ensures Skip(c + t, depth) == Ok(t)
    {
      ReadHeadInvertsHeader(h.major, h.value, t);
    }
  }

  lemma {:induction false} StringIsLocal(s: Bytes, depth: nat) returns (c: Bytes)
    requires Skip(s, depth).Ok? && ReadHead(s).value.major in {MAJOR_BYTES, MAJOR_TEXT}
    ensures c != [] && s == c + Skip(s, depth).value
    ensures forall t :: Skip(c + t, depth) == Ok(t)
  {
    HeaderInvertsReadHead(s);
    var h, rest := ReadHead(s).value, Skip(s, depth).value;
    hide Header, ReadHead, SkipMany;
    var b := h.rest[..h.value];
    assert h.rest == b + rest;
    hide Skip;
    ConcatAssoc(Header(h.major, h.value), b, rest);
    c := Header(h.major, h.value) + b;
    forall t
      ensures Skip(c + t, depth) == Ok(t)
    {
      HeadedSkip(h.major, h.value, b, t, depth);
    }
  }

  /** The bytes c that Skip walked over are walked over in the same way whatever comes after them. */
  lemma {:induction false} SkipIsLocal(s: Bytes, depth: nat) returns (c: Bytes)
    requires Skip(s, depth).Ok?
    ensures c != [] && s == c + Skip(s, depth).value
    ensures forall t :: Skip(c + t, depth) == Ok(t)
    decreases depth, 1, 0
  {
    HeaderInvertsReadHead(s);
    var h, rest := ReadHead(s).value, Skip(s, depth).value;
    hide Header, ReadHead, SkipMany;
    if h.major in {MAJOR_BYTES, MAJOR_TEXT} {
      c := StringIsLocal(s, depth);
    } else if h.major in {MAJOR_ARRAY, MAJOR_MAP} {
      var body := SkipManyIsLocal(h.rest, depth - 1, if h.major == MAJOR_ARRAY then h.value else 2 * h.value);
      hide Skip;
      c := Header(h.major, h.value) + body;
      ConcatAssoc(Header(h.major, h.value), body, rest);
      forall t
        ensures Skip(c + t, depth) == Ok(t)
      {
        HeadedSkip(h.major, h.value, body, t, depth);
      }
    } else {
      c := LeafIsLocal(s, depth);
    }
  }

  lemma {:induction false} SkipManyIsLocal(s: Bytes, depth: nat, n: nat) returns (c: Bytes)
    requires SkipMany(s, depth, n).Ok?
    ensures |c| >= n && s == c + SkipMany(s, depth, n).value
    ensures forall t :: SkipMany(c + t, depth, n) == Ok(t)
    decreases depth, 2, n
  {
    hide Skip;
    if n == 0 {
      c := [];
      assert forall t: Bytes :: [] + t == t;
    } else {
      var mid := Skip(s, depth).value;
      var c0 := SkipIsLocal(s, depth);
      var c1 := SkipManyIsLocal(mid, depth, n - 1);
      c := c0 + c1;
      ConcatAssoc(c0, c1, SkipMany(s, depth, n).value);
      forall t
        ensures SkipMany(c + t, depth, n) == Ok(t)
      {
        ConcatAssoc(c0, c1, t);
        assert Skip(c0 + (c1 + t), depth) == Ok(c1 + t);
      }
    }
  }

  /** What is skipped at one depth is skipped in the same way at any greater depth. */
  lemma {:induction false} SkipDeeper(s: Bytes, depth: nat, deeper: nat)
    requires depth <= deeper
    ensures Skip(s, depth).Ok? ==> Skip(s, deeper) == Skip(s, depth)
    decreases depth, 1, 0
  {
    if Skip(s, depth).Ok? {
      HeaderInvertsReadHead(s);
      var h := ReadHead(s).value;
      hide Header, ReadHead;
      if h.major == MAJOR_ARRAY {
        SkipManyDeeper(h.rest, depth - 1, deeper - 1, h.value);
      } else if h.major == MAJOR_MAP {
        SkipManyDeeper(h.rest, depth - 1, deeper - 1, 2 * h.value);
      }
    }
  }

  lemma {:induction false} SkipManyDeeper(s: Bytes, depth: nat, deeper: nat, n: nat)
    requires depth <= deeper
    ensures SkipMany(s, depth, n).Ok? ==> SkipMany(s, deeper, n) == SkipMany(s, depth, n)
    decreases depth, 2, n
  {
    hide Skip;
    if n > 0 && SkipMany(s, depth, n).Ok? {
      SkipDeeper(s, depth, deeper);
      SkipManyDeeper(Skip(s, depth).value, depth, deeper, n - 1);
    }
  }

  /** A byte string that is one item to Skip: the contents of a Raw value. */
  predicate IsOneItem(raw: Bytes) {
    Skip(raw, MAX_DEPTH) == Ok([])
  }

  lemma OneItemSkips(raw: Bytes, t: Bytes)
    requires IsOneItem(raw)
    ensures raw != [] && Skip(raw + t, MAX_DEPTH) == Ok(t)
  {
    var c := SkipIsLocal(raw, MAX_DEPTH);
    assert c + [] == c;
  }

  lemma SkippedIsOneItem(s: Bytes)
    requires Skip(s, MAX_DEPTH).Ok?
    ensures var rest := Skip(s, MAX_DEPTH).value;
            |rest| < |s| && IsOneItem(s[..|s| - |rest|]) && s == s[..|s| - |rest|] + rest
  {
    var c := SkipIsLocal(s, MAX_DEPTH);
    assert s[..|c|] == c && c + [] == c;
  }
}
