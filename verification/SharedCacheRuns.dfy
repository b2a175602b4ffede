/** How concurrent ReadAt calls get on: that none of them ever waits for another, and what each leaves in the cache. */
module StreamSharedCacheRuns {
  import opened Base
  import opened AeadModel
  import opened StreamFormat
  import opened StreamRandomAccess
  import opened StreamSharedCache

  // ---- Over an encryption -----------------------------------------------------------------------

  /** Over the encryption of m no call ever fails: whatever the interleaving, each one that returns has its slice of m. */
  lemma EveryCallCompletes(l: Layout, s: State, events: seq<Event>, m: Bytes)
    requires l.Valid() && Ideal(l.a) && l.data == Enc(l.a, 0, m) && l.size == |m|
    requires Initial(l, s) && Run(l, s, events).Some?
    ensures var t := Run(l, s, events).value;
            forall id :: id in t.calls && t.calls[id].at.Returned? ==>
              var c := t.calls[id];
              c.at.complete && c.off <= |m| && c.out == m[c.off..Min(c.off + c.want, |m|)]
  {
    hide Run, Initial, Layout.Plain, Layout.ChunkPlain, NumChunks, Enc, Ideal;
    InterleavingsAreSafe(l, s, events);
    EncryptionOpens(l, m);
  }

  // ---- Progress ---------------------------------------------------------------------------------

  /** What a call that has not returned can do next by itself. */
  ghost function Next(l: Layout, c: Call, id: nat): Event
    requires !c.at.Returned?
  {
    match c.at
    case Head => if |c.out| < c.want && c.pos < l.size then Load(id) else Finish(id)
    case Missed(k) => if k < l.chunks && l.ChunkPlain(k).Some? then Open(id) else Fail(id)
    case Copying(_, _, upTo) => Copy(id, if upTo >= c.pos then upTo - c.pos else 0)
  }

  /** How many steps a call has left at most: up to three for every byte, and one to finish. */
  ghost function StepsLeft(l: Layout, c: Call): int {
    var left := Min(c.off + c.want, l.size) - c.pos;
    match c.at
    case Head => 3 * left + 1
    case Missed(_) => 3 * left
    case Copying(_, _, _) => 3 * left - 1
    case Returned(_) => 0
  }

  /** An event that gets its call on: all but writes to its own buffer and copies of no bytes. */
  predicate GetsOn(e: Event) {
    !e.Start? && !e.Scribble? && (e.Copy? ==> e.n > 0)
  }

  lemma StepsLeftIsNat(l: Layout, s: State, id: nat)
    requires l.Valid() && Inv(l, s) && id in s.calls
    ensures StepsLeft(l, s.calls[id]) >= 0
    ensures s.calls[id].at.Returned? <==> StepsLeft(l, s.calls[id]) == 0
  {
    hide Layout.Plain, NumChunks, Holds, HoldsChunk, Layout.ChunkPlain;
    assert CallInv(l, s.heap, s.published, s.calls[id]);
  }

  /** In every reachable state each call that has not returned can go on, whatever the others do. */
  lemma NextIsEnabled(l: Layout, s: State, id: nat)
    requires l.Valid() && Inv(l, s) && id in s.calls && !s.calls[id].at.Returned?
    ensures var e := Next(l, s.calls[id], id);
            e.id == id && GetsOn(e) && Step(l, s, e).Some?
  {
    hide Layout.Plain, NumChunks;
    assert CallInv(l, s.heap, s.published, s.calls[id]);
    if s.calls[id].at.Copying? {
      hide CallInv, Inv;
      CopyIsEnabled(l, s, id, s.calls[id].at.upTo - s.calls[id].pos);
    }
  }

  /** A step that gets a call on leaves it fewer of them. */
  lemma OwnStepCounts(l: Layout, s: State, e: Event)
    requires l.Valid() && Inv(l, s) && Step(l, s, e).Some? && GetsOn(e)
    ensures e.id in s.calls && e.id in Step(l, s, e).value.calls
    ensures StepsLeft(l, Step(l, s, e).value.calls[e.id]) < StepsLeft(l, s.calls[e.id])
  {
    hide Layout.Plain, NumChunks, Holds, HoldsChunk, Layout.ChunkPlain;
    assert CallInv(l, s.heap, s.published, s.calls[e.id]);
  }

  /** No other event takes anything from it. */
  lemma OtherStepsDoNot(l: Layout, s: State, e: Event, id: nat)
    requires l.Valid() && Inv(l, s) && Step(l, s, e).Some? && id in s.calls && (e.id != id || !GetsOn(e))
    ensures id in Step(l, s, e).value.calls
    ensures StepsLeft(l, Step(l, s, e).value.calls[id]) == StepsLeft(l, s.calls[id])
  {
    hide Layout.Plain, NumChunks, Holds, HoldsChunk, Layout.ChunkPlain;
    assert CallInv(l, s.heap, s.published, s.calls[id]);
  }

  /** The steps in a run that get this call on. */
  function OwnSteps(events: seq<Event>, id: nat): nat {
    if events == [] then 0
    else OwnSteps(events[..|events| - 1], id) + (if events[|events| - 1].id == id && GetsOn(events[|events| - 1]) then 1 else 0)
  }

  /** No call takes more steps than it had left, however the others run meanwhile: it never waits for them. */
  lemma {:induction false} CallsAreWaitFree(l: Layout, s: State, events: seq<Event>, id: nat)
    requires l.Valid() && Inv(l, s) && Run(l, s, events).Some? && id in s.calls
    ensures id in Run(l, s, events).value.calls
    ensures OwnSteps(events, id) + StepsLeft(l, Run(l, s, events).value.calls[id]) <= StepsLeft(l, s.calls[id])
  {
    hide Step, Inv, StepsLeft, Layout.Valid;
    if events != [] {
      var before, e := events[..|events| - 1], events[|events| - 1];
      CallsAreWaitFree(l, s, before, id);
      RunKeeps(l, s, before);
      var t := Run(l, s, before).value;
      if e.id == id && GetsOn(e) {
        OwnStepCounts(l, t, e);
      } else {
        OtherStepsDoNot(l, t, e, id);
      }
    }
  }

  lemma {:induction false} RunCons(l: Layout, s: State, e: Event, events: seq<Event>)
    requires Step(l, s, e).Some?
    ensures Run(l, s, [e] + events) == Run(l, Step(l, s, e).value, events)
  {
    hide Step;
    var all := [e] + events;
    if events == [] {
      assert all[..0] == [] && Run(l, s, all[..0]) == Some(s);
    } else {
      RunCons(l, s, e, events[..|events| - 1]);
      assert all[..|all| - 1] == [e] + events[..|events| - 1];
    }
  }

  /** From every reachable state each call can return by steps of its own, the others having stopped wherever they are. */
  lemma {:induction false} CallCanReturn(l: Layout, s: State, id: nat) returns (events: seq<Event>)
    requires l.Valid() && Inv(l, s) && id in s.calls
    ensures forall e :: e in events ==> e.id == id
    ensures Run(l, s, events).Some? && id in Run(l, s, events).value.calls && Run(l, s, events).value.calls[id].at.Returned?
    decreases StepsLeft(l, s.calls[id])
  {
    hide Step, Inv, StepsLeft, Next, Layout.Valid;
    StepsLeftIsNat(l, s, id);
    if s.calls[id].at.Returned? {
      events := [];
    } else {
      var e := Next(l, s.calls[id], id);
      NextIsEnabled(l, s, id);
      OwnStepCounts(l, s, e);
      StepKeeps(l, s, e);
      var s' := Step(l, s, e).value;
      StepsLeftIsNat(l, s', id);
      var others := CallCanReturn(l, s', id);
      RunCons(l, s, e, others);
      events := [e] + others;
    }
  }

  /** In particular after any run of a new reader. */
  lemma EveryCallCanReturn(l: Layout, s: State, events: seq<Event>, id: nat) returns (more: seq<Event>)
    requires l.Valid() && Initial(l, s) && Run(l, s, events).Some? && id in Run(l, s, events).value.calls
    ensures forall e :: e in more ==> e.id == id
    ensures var t := Run(l, Run(l, s, events).value, more);
            t.Some? && id in t.value.calls && t.value.calls[id].at.Returned?
  {
    hide Run, Step, Layout.Valid;
    RunKeeps(l, s, events);
    more := CallCanReturn(l, Run(l, s, events).value, id);
  }

  /** And new calls can always come in. */
  lemma CallsCanStart(l: Layout, s: State, id: nat, buf: nat, off: nat, want: nat)
    requires id !in s.calls && buf !in s.heap && off <= l.size && want > 0
    ensures Step(l, s, Start(id, buf, off, want)).Some?
    ensures var c := Step(l, s, Start(id, buf, off, want)).value.calls[id]; c.at.Head? && c.out == [] && c.off == off && c.want == want
  {
  }

  // ---- What is left in the cache ----------------------------------------------------------------

  /** The chunk that a call has opened is pending. */
  ghost predicate Pending(s: State, id: nat, x: Slice) {
    id in s.calls && s.calls[id].update == Some(x) && !s.calls[id].at.Missed?
  }

  lemma {:induction false} StaysPending(l: Layout, s: State, events: seq<Event>, id: nat, x: Slice)
    requires Pending(s, id, x) && Run(l, s, events).Some? && Load(id) !in events
    ensures Pending(Run(l, s, events).value, id, x)
  {
    if events != [] {
      var before, e := events[..|events| - 1], events[|events| - 1];
      assert e in events;
      StaysPending(l, s, before, id, x);
    }
  }

  lemma OpenedIsPending(l: Layout, s: State, id: nat, k: nat)
    requires id in s.calls && s.calls[id].at == Missed(k) && Step(l, s, Open(id)).Some?
    ensures var t := Step(l, s, Open(id)).value;
            id in t.calls && t.calls[id].update.Some? && Pending(t, id, t.calls[id].update.value)
            && t.calls[id].update.value.off == k * ENC_CHUNK_SIZE && t.calls[id].update.value.buf == s.calls[id].buf
  {
    hide Layout.ChunkPlain, Layout.Plain, NumChunks;
  }

  lemma FinishPublishes(l: Layout, s: State, id: nat, x: Slice)
    requires Pending(s, id, x) && Step(l, s, Finish(id)).Some?
    ensures Step(l, s, Finish(id)).value.cache == x
  {
    hide Layout.ChunkPlain, Layout.Plain, NumChunks;
  }

  lemma CachedChunkIsTaken(l: Layout, s: State, id: nat, k: nat)
    requires s.cache.off == k * ENC_CHUNK_SIZE && id in s.calls && s.calls[id].at.Head? && Within(l, s.calls[id], k)
    ensures var t := Step(l, s, Load(id)); t.Some? && t.value.calls[id].at.Copying? && t.value.calls[id].at.from == s.cache
  {
    hide Layout.ChunkPlain, Layout.Plain, NumChunks;
  }

  /** When the last chunk that a call looked at was not in the cache, the call leaves it there, and others that want a byte
      of it then take it from there. */
  lemma OpenedChunkIsCached(l: Layout, s: State, id: nat, events: seq<Event>, k: nat, id': nat)
    requires l.Valid() && Inv(l, s) && id in s.calls && s.calls[id].at == Missed(k)
    requires Step(l, s, Open(id)).Some? && Load(id) !in events
    requires var t := Run(l, Step(l, s, Open(id)).value, events); t.Some? && Step(l, t.value, Finish(id)).Some?
    ensures var t := Step(l, Run(l, Step(l, s, Open(id)).value, events).value, Finish(id)).value;
            && t.cache.off == k * ENC_CHUNK_SIZE && t.cache.buf == s.calls[id].buf
            && (id' in t.calls && t.calls[id'].at.Head? && Within(l, t.calls[id'], k) ==>
                  var u := Step(l, t, Load(id'));
                  u.Some? && u.value.calls[id'].at.Copying? && u.value.calls[id'].at.from == t.cache)
  {
    hide Run, Step, Inv, Pending, Layout.Valid;
    OpenedIsPending(l, s, id, k);
    var s1 := Step(l, s, Open(id)).value;
    var x := s1.calls[id].update.value;
    StaysPending(l, s1, events, id, x);
    FinishPublishes(l, Run(l, s1, events).value, id, x);
    var t := Step(l, Run(l, s1, events).value, Finish(id)).value;
    if id' in t.calls && t.calls[id'].at.Head? && Within(l, t.calls[id'], k) {
      CachedChunkIsTaken(l, t, id', k);
    }
  }

  // ---- How often a chunk is looked up -----------------------------------------------------------

  /** The chunks that a call has yet to look up. */
  ghost function ChunksLeft(l: Layout, c: Call): int {
    var end := Min(c.off + c.want, l.size);
    var last := (end - 1) / CHUNK_SIZE;
    match c.at
    case Head => if c.pos < end then last - c.pos / CHUNK_SIZE + 1 else 0
    case Missed(k) => last - k
    case Copying(k, _, _) => last - k
    case Returned(_) => 0
  }

  lemma LoadTakesOne(l: Layout, s: State, id: nat)
    requires l.Valid() && Inv(l, s) && Step(l, s, Load(id)).Some?
    ensures id in s.calls && id in Step(l, s, Load(id)).value.calls
    ensures ChunksLeft(l, Step(l, s, Load(id)).value.calls[id]) == ChunksLeft(l, s.calls[id]) - 1
  {
    hide Layout.Plain, NumChunks, Holds, HoldsChunk, Layout.ChunkPlain;
    assert CallInv(l, s.heap, s.published, s.calls[id]);
  }

  /** A copy that ends an iteration has come to the end of its chunk, or of what was asked for. */
  lemma CopyingEnds(l: Layout, s: State, c: Call)
    requires l.Valid() && CallInv(l, s.heap, s.published, c) && c.at.Copying?
    ensures c.at.upTo == Min((c.at.k + 1) * CHUNK_SIZE, Min(c.off + c.want, l.size)) && c.at.k < l.chunks
  {
    hide Layout.Plain, NumChunks, Layout.ChunkPlain;
    NumChunksBounds(l.size);
    l.ChunkPlainLength(c.at.k);
  }

  lemma OthersLeaveIt(l: Layout, s: State, e: Event, id: nat)
    requires Step(l, s, e).Some? && id in s.calls && e.id != id
    ensures id in Step(l, s, e).value.calls && Step(l, s, e).value.calls[id] == s.calls[id]
  {
  }

  /** A call with chunks left to look up, or with none. */
  ghost predicate TakesNone(l: Layout, c: Call, c': Call) {
    0 <= ChunksLeft(l, c') <= ChunksLeft(l, c) && (c'.at != Returned(false) ==> ChunksLeft(l, c') == ChunksLeft(l, c))
  }

  lemma SomeAreLeft(l: Layout, s: State, c: Call)
    requires l.Valid() && CallInv(l, s.heap, s.published, c)
    ensures TakesNone(l, c, c)
  {
    hide Layout.Plain, NumChunks, Holds, HoldsChunk, Layout.ChunkPlain;
    if c.at.Copying? {
      CopyingEnds(l, s, c);
    }
  }

  lemma CopyTakesNone(l: Layout, s: State, e: Event)
    requires l.Valid() && Inv(l, s) && Step(l, s, e).Some? && e.Copy?
    ensures e.id in s.calls && e.id in Step(l, s, e).value.calls
    ensures TakesNone(l, s.calls[e.id], Step(l, s, e).value.calls[e.id])
  {
    hide Layout.Plain, NumChunks, Holds, HoldsChunk, Layout.ChunkPlain;
    var c := s.calls[e.id];
    assert CallInv(l, s.heap, s.published, c);
    CopyingEnds(l, s, c);
  }

  lemma OtherEventsTakeNone(l: Layout, s: State, e: Event, id: nat)
    requires l.Valid() && Inv(l, s) && Step(l, s, e).Some? && id in s.calls && e != Load(id)
    ensures id in Step(l, s, e).value.calls && TakesNone(l, s.calls[id], Step(l, s, e).value.calls[id])
  {
    hide Layout.Plain, NumChunks, Holds, HoldsChunk, Layout.ChunkPlain;
    var c := s.calls[id];
    assert CallInv(l, s.heap, s.published, c);
    SomeAreLeft(l, s, c);
    hide CallInv, CopyEnd;
    if e.id != id {
      OthersLeaveIt(l, s, e, id);
    } else if e.Copy? {
      CopyTakesNone(l, s, e);
    }
  }

  /** The steps of a run in which this call looks a chunk up in the cache. */
  function Loads(events: seq<Event>, id: nat): nat {
    if events == [] then 0
    else Loads(events[..|events| - 1], id) + (if events[|events| - 1] == Load(id) then 1 else 0)
  }

  /** Each chunk with a byte that was asked for is looked up once, and no other, unless the call fails before it. */
  lemma {:induction false} ChunksAreLoadedOnce(l: Layout, s: State, events: seq<Event>, id: nat)
    requires l.Valid() && Inv(l, s) && Run(l, s, events).Some? && id in s.calls
    ensures id in Run(l, s, events).value.calls
    ensures var c, c' := s.calls[id], Run(l, s, events).value.calls[id];
            && Loads(events, id) + ChunksLeft(l, c') <= ChunksLeft(l, c)
            && (c'.at != Returned(false) ==> Loads(events, id) + ChunksLeft(l, c') == ChunksLeft(l, c))
  {
    hide Step, Inv, ChunksLeft, Layout.Valid;
    if events != [] {
      var before, e := events[..|events| - 1], events[|events| - 1];
      ChunksAreLoadedOnce(l, s, before, id);
      RunKeeps(l, s, before);
      var t := Run(l, s, before).value;
      if t.calls[id].at.Returned? {
        ReturnedStays(l, t, e, id);
      } else if e == Load(id) {
        LoadTakesOne(l, t, id);
      } else {
        OtherEventsTakeNone(l, t, e, id);
      }
    }
  }

  lemma ReturnedStays(l: Layout, s: State, e: Event, id: nat)
    requires id in s.calls && Step(l, s, e).Some? && s.calls[id].at.Returned?
    ensures e != Load(id) && id in Step(l, s, e).value.calls && Step(l, s, e).value.calls[id] == s.calls[id]
  {
  }
}
