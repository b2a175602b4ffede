/** The order in which the fields of a map struct are encoded, and why a decoder that checks it sees each one once. */
module CborFieldOrder {
  import opened Base
  import opened CborHeader

  /** Distinct int64 keys. */
  predicate KeysOk(keys: seq<int>) {
    && (forall i :: 0 <= i < |keys| ==> IsInt64(keys[i]))
    && (forall i, j :: 0 <= i < j < |keys| ==> keys[i] != keys[j])
  }

  /** The keyToField lookup. */
  function PositionOf(keys: seq<int>, key: int): (r: Option<nat>)
    ensures match r
            case Some(j) => j < |keys| && keys[j] == key
            case None => key !in keys
  {
    if keys == [] then None
    else if keys[|keys| - 1] == key then Some(|keys| - 1)
    else PositionOf(keys[..|keys| - 1], key)
  }

  /** Positions whose keys strictly increase in the order of map keys. */
  ghost predicate Ordered(keys: seq<int>, order: seq<nat>)
    requires KeysOk(keys)
  {
    && (forall i :: 0 <= i < |order| ==> order[i] < |keys|)
    && (forall i, j :: 0 <= i < j < |order| ==> KeyRank(keys[order[i]]) < KeyRank(keys[order[j]]))
  }

  /** Where position k goes among positions already sorted. */
  function Insert(keys: seq<int>, sorted: seq<nat>, k: nat): (r: seq<nat>)
    requires KeysOk(keys) && k < |keys| && (forall i :: 0 <= i < |sorted| ==> sorted[i] < |keys|)
    ensures forall i :: 0 <= i < |r| ==> r[i] < |keys|
  {
    if sorted == [] || MapKeyCmp(keys[k], keys[sorted[0]]) < 0 then [k] + sorted
    else [sorted[0]] + Insert(keys, sorted[1..], k)
  }

  /** slices.SortFunc over the first n fields. */
  function SortFirst(keys: seq<int>, n: nat): (r: seq<nat>)
    requires KeysOk(keys) && n <= |keys|
    ensures forall i :: 0 <= i < |r| ==> r[i] < |keys|
  {
    if n == 0 then [] else Insert(keys, SortFirst(keys, n - 1), n - 1)
  }

  function SortedOrder(keys: seq<int>): (r: seq<nat>)
    requires KeysOk(keys)
    ensures forall i :: 0 <= i < |r| ==> r[i] < |keys|
  {
    SortFirst(keys, |keys|)
  }

  ghost predicate Before(keys: seq<int>, k: nat, order: seq<nat>)
    requires KeysOk(keys) && k < |keys|
  {
    forall x :: x in order ==> x < |keys| && KeyRank(keys[k]) < KeyRank(keys[x])
  }

  lemma OrderedCons(keys: seq<int>, k: nat, order: seq<nat>)
    requires KeysOk(keys) && k < |keys|
    ensures Ordered(keys, [k] + order) <==> Ordered(keys, order) && Before(keys, k, order)
  {
    var r := [k] + order;
    assert forall i :: 0 <= i < |order| ==> r[1 + i] == order[i];
    if Ordered(keys, r) {
      assert r[1..] == order;
      forall x | x in order
        ensures x < |keys| && KeyRank(keys[k]) < KeyRank(keys[x])
      {
        var i :| 0 <= i < |order| && order[i] == x;
        assert r[1 + i] == x && KeyRank(keys[r[0]]) < KeyRank(keys[r[1 + i]]);
      }
    }
  }

  ghost predicate AllBelow(order: seq<nat>, n: nat) {
    forall x :: x in order ==> x < n
  }

  lemma {:induction false} InsertOrders(keys: seq<int>, sorted: seq<nat>, k: nat)
    requires KeysOk(keys) && k < |keys| && (forall i :: 0 <= i < |sorted| ==> sorted[i] < |keys|)
    requires Ordered(keys, sorted) && k !in sorted
    ensures Ordered(keys, Insert(keys, sorted, k))
    ensures |Insert(keys, sorted, k)| == |sorted| + 1
    ensures forall x :: x in Insert(keys, sorted, k) ==> x == k || x in sorted
  {
    hide Ordered, MapKeyCmp, KeyRank;
    OrderedCons(keys, k, sorted);
    if sorted != [] {
      var head, tail := sorted[0], sorted[1..];
      assert sorted == [head] + tail;
      OrderedCons(keys, head, tail);
      MapKeyCmpIsRankOrder(keys[k], keys[head]);
      if MapKeyCmp(keys[k], keys[head]) >= 0 {
        InsertOrders(keys, tail, k);
        OrderedCons(keys, head, Insert(keys, tail, k));
      }
    }
  }

  lemma {:induction false} SortFirstOrders(keys: seq<int>, n: nat)
    requires KeysOk(keys) && n <= |keys|
    ensures Ordered(keys, SortFirst(keys, n)) && |SortFirst(keys, n)| == n
    ensures AllBelow(SortFirst(keys, n), n)
  {
    hide Insert, Ordered, KeysOk, AllBelow;
    if n == 0 {
      NothingOrdered(keys);
    } else {
      SortFirstOrders(keys, n - 1);
      InsertNext(keys, SortFirst(keys, n - 1), n - 1);
    }
  }

  lemma NothingOrdered(keys: seq<int>)
    requires KeysOk(keys)
    ensures Ordered(keys, []) && AllBelow([], 0)
  {
  }

  lemma InsertNext(keys: seq<int>, sorted: seq<nat>, k: nat)
    requires KeysOk(keys) && k < |keys| && (forall i :: 0 <= i < |sorted| ==> sorted[i] < |keys|)
    requires Ordered(keys, sorted) && AllBelow(sorted, k)
    ensures var r := Insert(keys, sorted, k); Ordered(keys, r) && |r| == |sorted| + 1 && AllBelow(r, k + 1)
  {
    hide Insert, Ordered, KeysOk;
    InsertOrders(keys, sorted, k);
  }

  /** The sorted order has every position, once, by increasing key. */
  lemma SortedOrderIsOrdered(keys: seq<int>)
    requires KeysOk(keys)
    ensures Ordered(keys, SortedOrder(keys)) && |SortedOrder(keys)| == |keys|
  {
    SortFirstOrders(keys, |keys|);
  }

  // ---- Counting the entries is enough -----------------------------------------------------------

  function Elements(p: seq<nat>): set<nat> {
    set x | x in p
  }

  lemma {:induction false} SetOfDistinct(p: seq<nat>)
    requires forall i, j :: 0 <= i < j < |p| ==> p[i] != p[j]
    ensures |Elements(p)| == |p|
  {
    if p == [] {
      assert Elements(p) == {};
    } else {
      var front, last := p[..|p| - 1], p[|p| - 1];
      SetOfDistinct(front);
      assert p == front + [last];
      assert Elements(p) == Elements(front) + {last} && last !in Elements(front);
    }
  }

  lemma {:induction false} SubsetSize(a: set<nat>, b: set<nat>)
    requires a <= b
    ensures |a| <= |b|
  {
    if a != {} {
      var x :| x in a;
      SubsetSize(a - {x}, b - {x});
    }
  }

  function Below(n: nat): (all: set<nat>)
    ensures |all| == n && forall x: nat :: x in all <==> x < n
  {
    if n == 0 then {} else Below(n - 1) + {n - 1}
  }

  lemma DistinctPositions(keys: seq<int>, p: seq<nat>)
    requires KeysOk(keys) && Ordered(keys, p)
    ensures forall i, j :: 0 <= i < j < |p| ==> p[i] != p[j]
  {
    forall i, j | 0 <= i < j < |p|
      ensures p[i] != p[j]
    {
      assert KeyRank(keys[p[i]]) < KeyRank(keys[p[j]]);
    }
  }

  /** As many positions as there are keys, in increasing order of key, are all of them. */
  lemma OrderedIsComplete(keys: seq<int>, p: seq<nat>)
    requires KeysOk(keys) && Ordered(keys, p) && |p| == |keys|
    ensures forall x: nat :: x < |keys| ==> x in p
  {
    var a, b := Elements(p), Below(|keys|);
    DistinctPositions(keys, p);
    SetOfDistinct(p);
    assert a <= b;
    forall x: nat | x < |keys|
      ensures x in p
    {
      if x !in p {
        SubsetSize(a, b - {x});
      }
    }
  }

  /** There is only one such order: an accepted map has its fields exactly where the encoder puts them. */
  lemma OrderedIsUnique(keys: seq<int>, p: seq<nat>, q: seq<nat>)
    requires KeysOk(keys) && Ordered(keys, p) && Ordered(keys, q) && |p| == |q| == |keys|
    ensures p == q
  {
    OrderedIsComplete(keys, p);
    OrderedIsComplete(keys, q);
    var n := 0;
    while n < |p|
      invariant n <= |p| && p[..n] == q[..n]
    {
      LeastNext(keys, p, q, n);
      LeastNext(keys, q, p, n);
      n := n + 1;
    }
    assert p[..n] == p && q[..n] == q;
  }

  /** The element at n of one order comes no later than the element at n of another that has the same beginning. */
  lemma LeastNext(keys: seq<int>, p: seq<nat>, q: seq<nat>, n: nat)
    requires KeysOk(keys) && Ordered(keys, p) && Ordered(keys, q) && n < |p| == |q|
    requires p[..n] == q[..n] && (forall x: nat :: x < |keys| ==> x in q)
    ensures KeyRank(keys[q[n]]) <= KeyRank(keys[p[n]])
  {
    var x := p[n];
    assert x in q;
    var k :| 0 <= k < |q| && q[k] == x;
    forall i | 0 <= i < n
      ensures q[i] == p[i] && KeyRank(keys[p[i]]) < KeyRank(keys[x])
    {
      assert p[..n][i] == q[..n][i];
    }
  }
}
