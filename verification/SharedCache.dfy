/** Concurrent ReadAt calls on one reader: a state machine in which every access to shared memory is a step. */
module StreamSharedCache {
  import opened Base
  import opened StreamFormat
  import opened StreamRandomAccess

  /** A published or pending cachedChunk: the first len bytes of a buffer, for the ciphertext chunk at off. */
  datatype Slice = Slice(off: nat, buf: nat, len: nat)

  /** Where a call stands in the loop of ReadAt. */
  datatype Point =
    | Head                                          // at the loop condition
    | Missed(k: nat)                                // chunk k was not in the cache; the buffer is being filled
    | Copying(k: nat, from: Slice, upTo: nat)       // copying out of chunk k, up to plaintext position upTo
    | Returned(complete: bool)

  /** One call of ReadAt: its own chunk buffer, what was asked for, what is copied out, and the pending cacheUpdate. */
  datatype Call = Call(buf: nat, off: nat, want: nat, out: Bytes, update: Option<Slice>, at: Point) {
    const pos := off + |out|
  }

  /** The heap holds the contents of every chunk buffer; published are those that were ever stored in the cache. */
  datatype State = State(heap: map<nat, Bytes>, cache: Slice, calls: map<nat, Call>, published: set<nat>)

  datatype Event =
    | Start(id: nat, buf: nat, off: nat, want: nat)
    | Load(id: nat)                     // r.cache.Load() and the comparison of offsets
    | Scribble(id: nat, junk: Bytes)    // any write to the call's buffer while it is read and opened
    | Open(id: nat)                     // the chunk is decrypted in the buffer and cacheUpdate is set
    | Fail(id: nat)                     // the chunk cannot be read or opened
    | Copy(id: nat, n: nat)             // some more bytes copied to p
    | Finish(id: nat)                   // the loop is over: r.cache.Store(cacheUpdate) unless it is nil

  /** The state after an event, or None when it cannot happen. */
  function Step(l: Layout, s: State, e: Event): Option<State> {
    if e.Start? then
      if e.id in s.calls || e.buf in s.heap || e.off > l.size || e.want == 0 then None
      else Some(s.(heap := s.heap[e.buf := seq(ENC_CHUNK_SIZE, _ => 0)],
                   calls := s.calls[e.id := Call(e.buf, e.off, e.want, [], None, Head)]))
    else if e.id !in s.calls then None
    else
      var c := s.calls[e.id];
      match e
      case Load(id) =>
        if !(c.at.Head? && |c.out| < c.want && c.pos < l.size) then None
        else
          var k := c.pos / CHUNK_SIZE;
          if s.cache.off == k * ENC_CHUNK_SIZE then
            Some(s.(calls := s.calls[id := c.(update := None, at := Copying(k, s.cache, CopyEnd(c, k, s.cache.len)))]))
          else Some(s.(calls := s.calls[id := c.(at := Missed(k))]))
      case Scribble(id, junk) =>
        if !c.at.Missed? || |junk| != ENC_CHUNK_SIZE then None
        else Some(s.(heap := s.heap[c.buf := junk]))
      case Open(id) =>
        if !(c.at.Missed? && c.at.k < l.chunks && l.ChunkPlain(c.at.k).Some? && c.buf in s.heap) then None
        else
          var plain := l.ChunkPlain(c.at.k).value;
          var slice := Slice(c.at.k * ENC_CHUNK_SIZE, c.buf, |plain|);
          Some(s.(heap := s.heap[c.buf := plain],
                  calls := s.calls[id := c.(update := Some(slice), at := Copying(c.at.k, slice, CopyEnd(c, c.at.k, |plain|)))]))
      case Fail(id) =>
        if !(c.at.Missed? && c.at.k < l.chunks && l.ChunkPlain(c.at.k).None?) then None
        else Some(s.(calls := s.calls[id := c.(at := Returned(false))]))
      case Copy(id, n) =>
        if !(c.at.Copying? && c.pos + n <= c.at.upTo && c.at.from.buf in s.heap) then None
        else
          var from := c.pos - c.at.k * CHUNK_SIZE;
          var data := s.heap[c.at.from.buf];
          if !(0 <= from <= from + n <= |data|) then None
          else
            Some(s.(calls := s.calls[id := Copied(c, data[from..from + n])]))
      case Finish(id) =>
        if !(c.at.Head? && !(|c.out| < c.want && c.pos < l.size)) then None
        else
          var calls := s.calls[id := c.(at := Returned(true))];
          match c.update
          case None => Some(s.(calls := calls))
          case Some(u) => Some(s.(cache := u, calls := calls, published := s.published + {u.buf}))
  }

  /** The plaintext position up to which one iteration copies: the end of the chunk, or of the space left in p. */
  function CopyEnd(c: Call, k: nat, len: nat): nat {
    Min(k * CHUNK_SIZE + len, c.off + c.want)
  }

  // ---- The invariant ----------------------------------------------------------------------------

  /** The slice is the plaintext of chunk k. */
  ghost predicate HoldsChunk(l: Layout, heap: map<nat, Bytes>, x: Slice, k: nat) {
    && k < l.chunks && x.off == k * ENC_CHUNK_SIZE
    && x.buf in heap && x.len <= |heap[x.buf]|
    && l.ChunkPlain(k) == Some(heap[x.buf][..x.len])
  }

  ghost predicate Holds(l: Layout, heap: map<nat, Bytes>, x: Slice) {
    exists k :: HoldsChunk(l, heap, x, k)
  }

  /** What one call relies on: its buffer is its own until published, and it copies from a chunk that stays put. */
  ghost predicate CallInv(l: Layout, heap: map<nat, Bytes>, published: set<nat>, c: Call) {
    && c.pos <= Min(c.off + c.want, l.size) && l.size <= |l.Plain()|
    && c.out == l.Plain()[c.off..c.pos]
    && (!c.at.Returned? ==> c.buf in heap && c.buf !in published)
    && match c.at
       case Head => c.update.Some? ==> c.update.value.buf == c.buf && Holds(l, heap, c.update.value)
       case Missed(k) => Within(l, c, k)
       case Copying(k, from, upTo) =>
         && HoldsChunk(l, heap, from, k)
         && (from.buf == c.buf || from.buf in published)
         && (c.update.Some? ==> c.update.value == from && from.buf == c.buf)
         && upTo == CopyEnd(c, k, from.len) <= l.size
         && k * CHUNK_SIZE <= c.pos < upTo
       case Returned(complete) => if complete then c.pos == Min(c.off + c.want, l.size) else Stuck(l, c)
  }

  /** The chunk that has the next byte wanted is missing from the source, or does not open. */
  ghost predicate Stuck(l: Layout, c: Call) {
    var k := c.pos / CHUNK_SIZE;
    && c.pos < Min(c.off + c.want, l.size)
    && k < l.chunks && l.ChunkPlain(k).None?
  }

  /** The next byte wanted lies in chunk k. */
  ghost predicate Within(l: Layout, c: Call, k: nat) {
    && k < l.chunks && k * CHUNK_SIZE <= c.pos < (k + 1) * CHUNK_SIZE
    && c.pos < l.size && |c.out| < c.want
  }

  /** Two calls that have not returned write to different buffers. */
  ghost predicate Apart(c: Call, c': Call) {
    c.at.Returned? || c'.at.Returned? || c.buf != c'.buf
  }

  ghost predicate Inv(l: Layout, s: State) {
    && Holds(l, s.heap, s.cache) && s.cache.buf in s.published
    && s.published <= s.heap.Keys
    && (forall id :: id in s.calls ==> CallInv(l, s.heap, s.published, s.calls[id]))
    && (forall id, id' :: id in s.calls && id' in s.calls && id != id' ==> Apart(s.calls[id], s.calls[id']))
  }

  /** Only buffer b was written, or published. */
  ghost predicate OnlyAt(b: nat, heap: map<nat, Bytes>, published: set<nat>, heap': map<nat, Bytes>, published': set<nat>) {
    && b !in published
    && heap.Keys <= heap'.Keys && (forall x :: x in heap && x != b ==> heap'[x] == heap[x])
    && published <= published' <= published + {b}
  }

  lemma HeldStays(l: Layout, b: nat, heap: map<nat, Bytes>, heap': map<nat, Bytes>, x: Slice)
    requires heap.Keys <= heap'.Keys && (forall y :: y in heap && y != b ==> heap'[y] == heap[y])
    requires Holds(l, heap, x) && x.buf != b
    ensures Holds(l, heap', x)
  {
    var k :| HoldsChunk(l, heap, x, k);
    assert HoldsChunk(l, heap', x, k);
  }

  /** A call is not disturbed by what happens at a buffer that is not its own. */
  lemma OtherCallStays(l: Layout, b: nat, heap: map<nat, Bytes>, published: set<nat>,
                       heap': map<nat, Bytes>, published': set<nat>, c: Call)
    requires OnlyAt(b, heap, published, heap', published')
    requires CallInv(l, heap, published, c) && (c.at.Returned? || c.buf != b)
    ensures CallInv(l, heap', published', c)
  {
    if c.at.Head? && c.update.Some? {
      HeldStays(l, b, heap, heap', c.update.value);
    }
  }

  /** One call steps, writing or publishing at most its own buffer: everything else stays as it was. */
  lemma OneCallSteps(l: Layout, s: State, id: nat, c': Call, s': State)
    requires Inv(l, s) && id in s.calls && !s.calls[id].at.Returned?
    requires c'.buf == s.calls[id].buf && s'.calls == s.calls[id := c']
    requires OnlyAt(c'.buf, s.heap, s.published, s'.heap, s'.published)
    requires s'.published <= s'.heap.Keys
    requires s'.cache == s.cache || (Holds(l, s'.heap, s'.cache) && s'.cache.buf in s'.published)
    requires CallInv(l, s'.heap, s'.published, c')
    ensures Inv(l, s')
  {
    if s'.cache == s.cache {
      HeldStays(l, c'.buf, s.heap, s'.heap, s.cache);
    }
    forall j | j in s'.calls
      ensures CallInv(l, s'.heap, s'.published, s'.calls[j])
    {
      if j != id {
        assert Apart(s.calls[id], s.calls[j]);
        OtherCallStays(l, c'.buf, s.heap, s.published, s'.heap, s'.published, s.calls[j]);
      }
    }
    forall j, j' | j in s'.calls && j' in s'.calls && j != j'
      ensures Apart(s'.calls[j], s'.calls[j'])
    {
      assert Apart(s.calls[j], s.calls[j']);
    }
  }

  lemma StartKeeps(l: Layout, s: State, e: Event)
    requires l.Valid() && Inv(l, s) && e.Start? && Step(l, s, e).Some?
    ensures Inv(l, Step(l, s, e).value)
  {
    hide Layout.Plain, NumChunks;
    var s' := Step(l, s, e).value;
    var c := s'.calls[e.id];
    NumChunksBounds(l.size);
    l.PlainSuffix(0);
    assert l.Plain()[e.off..e.off] == [];
    HeldStays(l, e.buf, s.heap, s'.heap, s.cache);
    forall j | j in s'.calls
      ensures CallInv(l, s'.heap, s'.published, s'.calls[j])
    {
      if j != e.id {
        OtherCallStays(l, e.buf, s.heap, s.published, s'.heap, s'.published, s.calls[j]);
      }
    }
    forall j, j' | j in s'.calls && j' in s'.calls && j != j'
      ensures Apart(s'.calls[j], s'.calls[j'])
    {
      if j != e.id && j' != e.id {
        assert Apart(s.calls[j], s.calls[j']);
      }
    }
  }

  /** On a hit the call copies from the cached chunk, and has nothing to publish; on a miss it fills its buffer. */
  lemma LoadedCall(l: Layout, s: State, c: Call, k: nat)
    requires l.Valid() && Holds(l, s.heap, s.cache) && s.cache.buf in s.published
    requires CallInv(l, s.heap, s.published, c) && c.at.Head? && Within(l, c, k)
    ensures if s.cache.off == k * ENC_CHUNK_SIZE
            then CallInv(l, s.heap, s.published, c.(update := None, at := Copying(k, s.cache, CopyEnd(c, k, s.cache.len))))
            else CallInv(l, s.heap, s.published, c.(at := Missed(k)))
  {
    hide Layout.ChunkPlain, Layout.Plain, NumChunks;
    if s.cache.off == k * ENC_CHUNK_SIZE {
      var j :| HoldsChunk(l, s.heap, s.cache, j);
      assert j == k;
      CopyEndIsAhead(l, c, k);
    }
  }

  lemma LoadKeeps(l: Layout, s: State, e: Event)
    requires l.Valid() && Inv(l, s) && e.Load? && Step(l, s, e).Some?
    ensures Inv(l, Step(l, s, e).value)
  {
    hide Holds, HoldsChunk, Layout.ChunkPlain, Layout.Plain, NumChunks;
    var s' := Step(l, s, e).value;
    var c := s.calls[e.id];
    assert CallInv(l, s.heap, s.published, c);
    NumChunksBounds(l.size);
    LoadedCall(l, s, c, c.pos / CHUNK_SIZE);
    hide CallInv;
    OneCallSteps(l, s, e.id, s'.calls[e.id], s');
  }

  /** An iteration always has something to copy, and it stays inside the plaintext. */
  lemma CopyEndIsAhead(l: Layout, c: Call, k: nat)
    requires l.Valid() && Within(l, c, k) && l.ChunkPlain(k).Some?
    ensures c.pos < CopyEnd(c, k, |l.ChunkPlain(k).value|) <= l.size
  {
    NumChunksBounds(l.size);
    l.ChunkPlainLength(k);
  }

  lemma OpenKeeps(l: Layout, s: State, e: Event)
    requires l.Valid() && Inv(l, s) && e.Open? && Step(l, s, e).Some?
    ensures Inv(l, Step(l, s, e).value)
  {
    hide Layout.Plain, NumChunks;
    var s' := Step(l, s, e).value;
    var c, c' := s.calls[e.id], s'.calls[e.id];
    CopyEndIsAhead(l, c, c.at.k);
    var plain := l.ChunkPlain(c.at.k).value;
    assert plain[..|plain|] == plain;
    OneCallSteps(l, s, e.id, c', s');
  }

  function Copied(c: Call, data: Bytes): Call
    requires c.at.Copying?
  {
    var c' := c.(out := c.out + data);
    if c'.pos == c.at.upTo then c'.(at := Head) else c'
  }

  lemma CopiedBytes(plain: Bytes, off: nat, pos: nat, base: nat, data: Bytes, len: nat, n: nat)
    requires off <= pos && base <= pos && pos + n <= base + len <= |plain| && len <= |data|
    requires data[..len] == plain[base..base + len]
    ensures plain[off..pos] + data[pos - base..pos - base + n] == plain[off..pos + n]
  {
    SliceOfSlice(plain, base, base + len, pos - base, pos - base + n);
    SliceOfSlice(data, 0, len, pos - base, pos - base + n);
    SliceJoin(plain, off, pos, pos + n);
  }

  /** Where a call copies from: the plaintext of chunk k, which reaches at least as far as the call copies. */
  lemma CopySource(l: Layout, s: State, c: Call)
    requires l.Valid() && CallInv(l, s.heap, s.published, c) && c.at.Copying?
    ensures var x, base := c.at.from, c.at.k * CHUNK_SIZE;
            && x.buf in s.heap && x.len <= |s.heap[x.buf]| && base + x.len <= |l.Plain()|
            && s.heap[x.buf][..x.len] == l.Plain()[base..base + x.len]
            && base <= c.pos < c.at.upTo <= base + x.len
  {
    hide Layout.ChunkPlain, Layout.Plain, NumChunks, Holds;
    l.PlainAtChunk(c.at.k);
  }

  lemma HeldSomewhere(l: Layout, heap: map<nat, Bytes>, x: Slice, k: nat)
    requires HoldsChunk(l, heap, x, k)
    ensures Holds(l, heap, x)
  {
    hide Layout.ChunkPlain, NumChunks;
  }

  lemma CopiedCall(l: Layout, s: State, c: Call, n: nat)
    requires l.Valid() && CallInv(l, s.heap, s.published, c) && c.at.Copying? && c.pos + n <= c.at.upTo
    ensures var from := c.pos - c.at.k * CHUNK_SIZE;
            var data := s.heap[c.at.from.buf];
            0 <= from <= from + n <= |data| && CallInv(l, s.heap, s.published, Copied(c, data[from..from + n]))
  {
    hide Layout.ChunkPlain, Layout.Plain, NumChunks, Holds, HoldsChunk;
    CopySource(l, s, c);
    var k, x := c.at.k, c.at.from;
    CopiedBytes(l.Plain(), c.off, c.pos, k * CHUNK_SIZE, s.heap[x.buf], x.len, n);
    HeldSomewhere(l, s.heap, x, k);
  }

  lemma CopyKeeps(l: Layout, s: State, e: Event)
    requires l.Valid() && Inv(l, s) && e.Copy? && Step(l, s, e).Some?
    ensures Inv(l, Step(l, s, e).value)
  {
    hide Holds, HoldsChunk, Layout.ChunkPlain, Layout.Plain, NumChunks;
    var s' := Step(l, s, e).value;
    var c := s.calls[e.id];
    assert CallInv(l, s.heap, s.published, c);
    CopiedCall(l, s, c, e.n);
    hide CallInv;
    OneCallSteps(l, s, e.id, s'.calls[e.id], s');
  }

  lemma FinishKeeps(l: Layout, s: State, e: Event)
    requires Inv(l, s) && e.Finish? && Step(l, s, e).Some?
    ensures Inv(l, Step(l, s, e).value)
  {
    hide Layout.Plain, NumChunks;
    var s' := Step(l, s, e).value;
    OneCallSteps(l, s, e.id, s'.calls[e.id], s');
  }

  lemma ScribbleKeeps(l: Layout, s: State, e: Event)
    requires Inv(l, s) && e.Scribble? && Step(l, s, e).Some?
    ensures Inv(l, Step(l, s, e).value)
  {
    hide Layout.Plain, NumChunks;
    var s' := Step(l, s, e).value;
    OneCallSteps(l, s, e.id, s'.calls[e.id], s');
  }

  lemma FailKeeps(l: Layout, s: State, e: Event)
    requires l.Valid() && Inv(l, s) && e.Fail? && Step(l, s, e).Some?
    ensures Inv(l, Step(l, s, e).value)
  {
    hide Layout.Plain, NumChunks, Holds, HoldsChunk;
    var s' := Step(l, s, e).value;
    var c, c' := s.calls[e.id], s'.calls[e.id];
    assert CallInv(l, s.heap, s.published, c);
    assert c.pos / CHUNK_SIZE == c.at.k;
    assert CallInv(l, s.heap, s.published, c');
    hide CallInv;
    OneCallSteps(l, s, e.id, c', s');
  }

  /** No event of any call breaks the invariant. */
  lemma StepKeeps(l: Layout, s: State, e: Event)
    requires l.Valid() && Inv(l, s) && Step(l, s, e).Some?
    ensures Inv(l, Step(l, s, e).value)
  {
    hide Step, Inv;
    match e
    case Start(_, _, _, _) => StartKeeps(l, s, e);
    case Load(_) => LoadKeeps(l, s, e);
    case Scribble(_, _) => ScribbleKeeps(l, s, e);
    case Open(_) => OpenKeeps(l, s, e);
    case Fail(_) => FailKeeps(l, s, e);
    case Copy(_, _) => CopyKeeps(l, s, e);
    case Finish(_) => FinishKeeps(l, s, e);
  }

  // ---- Runs -------------------------------------------------------------------------------------

  /** The state after a sequence of events, or None when one of them cannot happen. */
  function Run(l: Layout, s: State, events: seq<Event>): Option<State> {
    if events == [] then Some(s)
    else match Run(l, s, events[..|events| - 1])
      case None => None
      case Some(t) => Step(l, t, events[|events| - 1])
  }

  /** A reader as it comes from its constructor: the final chunk is published, and no call has started. */
  ghost predicate Initial(l: Layout, s: State) {
    && s.calls == map[] && s.published == {s.cache.buf} && s.cache.buf in s.heap
    && Holds(l, s.heap, s.cache)
  }

  lemma {:induction false} RunKeeps(l: Layout, s: State, events: seq<Event>)
    requires l.Valid() && Inv(l, s) && Run(l, s, events).Some?
    ensures Inv(l, Run(l, s, events).value)
  {
    if events != [] {
      var before := events[..|events| - 1];
      RunKeeps(l, s, before);
      StepKeeps(l, Run(l, s, before).value, events[|events| - 1]);
    }
  }

  /** In every interleaving: the cache holds the plaintext of the chunk at its offset, and a call that returns has exactly
      the bytes asked for, or, after an error, those before the first chunk that is missing or does not open. */
  lemma InterleavingsAreSafe(l: Layout, s: State, events: seq<Event>)
    requires l.Valid() && Initial(l, s) && Run(l, s, events).Some?
    ensures var t := Run(l, s, events).value;
            && |l.Plain()| == l.size
            && Holds(l, t.heap, t.cache)
            && forall id :: id in t.calls && t.calls[id].at.Returned? ==>
                 var c := t.calls[id];
                 var end := Min(c.off + c.want, l.size);
                 && c.off <= end
                 && c.out <= l.Plain()[c.off..end]
                 && (c.at.complete ==> c.out == l.Plain()[c.off..end])
                 && (!c.at.complete ==> c.pos < end && c.pos / CHUNK_SIZE < l.chunks && l.ChunkPlain(c.pos / CHUNK_SIZE).None?)
  {
    hide Layout.ChunkPlain, Layout.Plain, NumChunks, Step, Run;
    NumChunksBounds(l.size);
    l.PlainSuffix(0);
    RunKeeps(l, s, events);
    var t := Run(l, s, events).value;
    forall id | id in t.calls && t.calls[id].at.Returned?
      ensures var c := t.calls[id];
              var end := Min(c.off + c.want, l.size);
              && c.off <= end && c.out <= l.Plain()[c.off..end] && (c.at.complete ==> c.out == l.Plain()[c.off..end])
              && (!c.at.complete ==> Stuck(l, c))
    {
      var c := t.calls[id];
      assert CallInv(l, t.heap, t.published, c);
    }
  }

  /** A buffer that has been stored in the cache is never written again, although calls still copy from it. */
  lemma {:induction false} PublishedIsFrozen(l: Layout, s: State, events: seq<Event>)
    requires l.Valid() && Inv(l, s) && Run(l, s, events).Some?
    ensures s.published <= Run(l, s, events).value.published
    ensures forall b :: b in s.published ==>
                          b in s.heap && b in Run(l, s, events).value.heap && Run(l, s, events).value.heap[b] == s.heap[b]
  {
    if events != [] {
      var before := events[..|events| - 1];
      PublishedIsFrozen(l, s, before);
      RunKeeps(l, s, before);
      var t, e := Run(l, s, before).value, events[|events| - 1];
      if !e.Start? {
        assert CallInv(l, t.heap, t.published, t.calls[e.id]);
      }
    }
  }

  /** While a call copies, the bytes it is about to take are there: no index is ever out of range. */
  lemma CopyIsEnabled(l: Layout, s: State, id: nat, n: nat)
    requires l.Valid() && Inv(l, s) && id in s.calls && s.calls[id].at.Copying?
    requires s.calls[id].pos + n <= s.calls[id].at.upTo
    ensures Step(l, s, Copy(id, n)).Some?
    ensures s.calls[id].pos < s.calls[id].at.upTo
  {
    assert CallInv(l, s.heap, s.published, s.calls[id]);
  }
}
