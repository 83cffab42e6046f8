/** The consumer's model, `heap_app.cpp`: draining with pause and replay, and folding each event into the
    chunk table, the live-set counters and the heat map.

    The table appears in the class as the plain map that module Chunks proves it to be; `FillTable` runs the
    same events through the real one. */
module HeapApps {
  import opened Basics
  import opened RobinHood
  import opened Chunks
  import opened LiveSums
  import opened HeatMaps
  import Ring
  import Interceptor

  type Event = Ring.Event

  const MAX_EVENTS_PER_FRAME: nat := 32768

  /** Milliseconds since the session attached. */
  function EventMs(origin: nat, timestamp: nat): nat {
    if timestamp <= origin then 0 else ClampU32((timestamp - origin) / 1000000)
  }

  /** Whole milliseconds since the origin, cut off at 2^32 - 1; 0 for events from before it. */
  lemma EventMsMeans(origin: nat, timestamp: nat)
    ensures var ms := EventMs(origin, timestamp);
            if timestamp <= origin then ms == 0
            else if timestamp < origin + 0x1_0000_0000 * 1_000_000 then origin + ms * 1_000_000 <= timestamp < origin + ms * 1_000_000 + 1_000_000
            else ms == 0xFFFF_FFFF
  {
  }

  /** What an event does to the table. */
  function OpOf(origin: nat, e: Event): Op {
    if Interceptor.IsFree(e) then OpFree(e.ptr, EventMs(origin, e.timestamp))
    else OpInsert(e.ptr, ClampU32(e.size), e.usable, EventMs(origin, e.timestamp), Ring.TidOf(e))
  }

  function TableAfter(origin: nat, events: seq<Event>): map<Key, Chunk> {
    if events == [] then map[]
    else OnMap(TableAfter(origin, events[..|events| - 1]), OpOf(origin, events[|events| - 1]))
  }

  /** No event from `i` on, or after it, is about `a`. */
  ghost predicate Unmentioned(events: seq<Event>, i: nat, a: nat) {
    forall j :: i <= j < |events| ==> events[j].ptr != a
  }

  /** Event `i` is the last allocation at `a`. */
  ghost predicate LastAlloc(events: seq<Event>, i: nat, a: nat) {
    && i < |events| && events[i].ptr == a && !Interceptor.IsFree(events[i])
    && forall j :: i < j < |events| && events[j].ptr == a ==> Interceptor.IsFree(events[j])
  }

  /** The record of an address says what its last allocation reported and when it was last freed since. */
  ghost predicate Recorded(origin: nat, events: seq<Event>, i: nat, a: nat, c: Chunk) {
    && LastAlloc(events, i, a)
    && c.key == a && c.usable == events[i].usable && c.size == (if events[i].size < 0x1_0000_0000 then events[i].size else 0xFFFF_FFFF)
    && c.allocMs == EventMs(origin, events[i].timestamp)
    && c.tid == events[i].tid0 + 256 * events[i].tid1 + 65536 * events[i].tid2
    && if Unmentioned(events, i + 1, a) then c.state.Live? && c.freeMs == 0
       else c.state.Freed? && exists j :: i < j < |events| && events[j].ptr == a && Unmentioned(events, j + 1, a) && c.freeMs == EventMs(origin, events[j].timestamp)
  }

  /** Exactly the addresses ever allocated have a record, and it is this one. */
  lemma {:induction false} RecordMeans(origin: nat, events: seq<Event>, a: nat)
    ensures var m := TableAfter(origin, events);
            && (a in m <==> a != 0 && exists i: nat :: LastAlloc(events, i, a))
            && (a in m ==> exists i: nat :: Recorded(origin, events, i, a, m[a]))
  {
    if events != [] {
      var n := |events| - 1;
      RecordMeans(origin, events[..n], a);
      RecordNext(origin, events[..n], a, events[n]);
      assert events[..n] + [events[n]] == events;
    }
  }

  lemma RecordNext(origin: nat, before: seq<Event>, a: nat, e: Event)
    requires var m := TableAfter(origin, before);
             && (a in m <==> a != 0 && exists i: nat :: LastAlloc(before, i, a))
             && (a in m ==> exists i: nat :: Recorded(origin, before, i, a, m[a]))
    ensures var m := OnMap(TableAfter(origin, before), OpOf(origin, e));
            && (a in m <==> a != 0 && exists i: nat :: LastAlloc(before + [e], i, a))
            && (a in m ==> exists i: nat :: Recorded(origin, before + [e], i, a, m[a]))
  {
    var m, events, n := TableAfter(origin, before), before + [e], |before|;
    if e.ptr == a && !Interceptor.IsFree(e) {
      assert LastAlloc(events, n, a);
      assert a != 0 ==> Recorded(origin, events, n, a, OnMap(m, OpOf(origin, e))[a]);
    } else {
      forall i: nat
        ensures LastAlloc(events, i, a) <==> LastAlloc(before, i, a)
      {
        SameLast(before, e, i, a);
      }
      if a in m {
        var i: nat :| Recorded(origin, before, i, a, m[a]);
        RecordKept(origin, before, e, i, a, m[a]);
      }
    }
  }

  lemma SameLast(before: seq<Event>, e: Event, i: nat, a: nat)
    requires e.ptr != a || Interceptor.IsFree(e)
    ensures LastAlloc(before + [e], i, a) <==> LastAlloc(before, i, a)
  {
    var events := before + [e];
    assert forall j :: 0 <= j < |before| ==> events[j] == before[j];
  }

  lemma RecordKept(origin: nat, before: seq<Event>, e: Event, i: nat, a: nat, c: Chunk)
    requires Recorded(origin, before, i, a, c) && (e.ptr != a || Interceptor.IsFree(e))
    ensures Recorded(origin, before + [e], i, a, if e.ptr == a then c.(state := Freed, freeMs := EventMs(origin, e.timestamp)) else c)
  {
    var events, n := before + [e], |before|;
    SameLast(before, e, i, a);
    assert forall j :: 0 <= j < n ==> events[j] == before[j];
    if e.ptr == a {
      assert events[n].ptr == a && Unmentioned(events, n + 1, a);
    } else {
      forall k: nat | k <= n
        ensures Unmentioned(events, k, a) <==> Unmentioned(before, k, a)
      {
        assert Unmentioned(events, k, a) ==> forall j :: k <= j < n ==> before[j] == events[j];
      }
    }
  }

  /** What an event does to the heat map, given the table before it. */
  function HeatStep(v: View, origin: nat, h: Heat, m: map<Key, Chunk>, e: Event): Heat {
    var ms := EventMs(origin, e.timestamp);
    if Interceptor.IsFree(e) then
      if e.ptr in m then OnFree(v, h, e.ptr, m[e.ptr].size, m[e.ptr].usable, ms)
      else OnFree(v, h, e.ptr, e.usable, e.usable, ms)
    else OnAlloc(v, h, e.ptr, ClampU32(e.size), e.usable, ms)
  }

  function HeatAfter(v: View, origin: nat, cells: nat, events: seq<Event>): Heat {
    if events == [] then Heat(seq(cells, i => EMPTY_AGG), 0, 0)
    else
      var before, e := events[..|events| - 1], events[|events| - 1];
      HeatStep(v, origin, HeatAfter(v, origin, cells, before), TableAfter(origin, before), e)
  }

  // ---------------------------------------------------------------- live-set accounting

  function One(): Measure {
    (c: Chunk) => if c.state.Live? then 1 else 0
  }

  function Usable(): Measure {
    (c: Chunk) => if c.state.Live? then c.usable else 0
  }

  /** Allocation events that report a null pointer; the table refuses them, the counters do not. */
  function NullAllocs(events: seq<Event>): nat {
    if events == [] then 0
    else NullAllocs(events[..|events| - 1]) + (if NullAlloc(events[|events| - 1]) then 1 else 0)
  }

  function NullBytes(events: seq<Event>): nat {
    if events == [] then 0
    else NullBytes(events[..|events| - 1]) + (if NullAlloc(events[|events| - 1]) then events[|events| - 1].usable else 0)
  }

  predicate NullAlloc(e: Event) {
    !Interceptor.IsFree(e) && e.ptr == 0
  }

  lemma Snoc(v: View, origin: nat, cells: nat, events: seq<Event>, e: Event)
    ensures TableAfter(origin, events + [e]) == OnMap(TableAfter(origin, events), OpOf(origin, e))
    ensures HeatAfter(v, origin, cells, events + [e]) ==
            HeatStep(v, origin, HeatAfter(v, origin, cells, events), TableAfter(origin, events), e)
    ensures NullAllocs(events + [e]) == NullAllocs(events) + (if NullAlloc(e) then 1 else 0)
    ensures NullBytes(events + [e]) == NullBytes(events) + (if NullAlloc(e) then e.usable else 0)
  {
    assert (events + [e])[..|events|] == events;
  }

  /** The consumer's model: the table, the heat map and the live-set counters. */
  datatype Model = Model(table: map<Key, Chunk>, heat: Heat, live: nat, liveBytes: nat, freesUnknown: nat)

  /** Frees of addresses that were never allocated, at least not where the consumer could see it. */
  ghost function UnknownFrees(events: seq<Event>): nat {
    if events == [] then 0
    else UnknownFrees(events[..|events| - 1]) + (if UnknownFree(events, |events| - 1) then 1 else 0)
  }

  ghost predicate UnknownFree(events: seq<Event>, i: nat) {
    && i < |events| && Interceptor.IsFree(events[i])
    && (events[i].ptr == 0 || forall j :: 0 <= j < i && events[j].ptr == events[i].ptr ==> Interceptor.IsFree(events[j]))
  }

  lemma {:induction false} LastAllocOf(events: seq<Event>, a: nat, j: nat) returns (i: nat)
    requires j < |events| && events[j].ptr == a && !Interceptor.IsFree(events[j])
    ensures LastAlloc(events, i, a)
    decreases |events| - j
  {
    if k :| j < k < |events| && events[k].ptr == a && !Interceptor.IsFree(events[k]) {
      i := LastAllocOf(events, a, k);
    } else {
      i := j;
    }
  }

  lemma UnknownStep(origin: nat, applied: seq<Event>, e: Event)
    ensures UnknownFrees(applied + [e]) ==
            UnknownFrees(applied) + (if Interceptor.IsFree(e) && e.ptr !in TableAfter(origin, applied) then 1 else 0)
  {
    var events, n := applied + [e], |applied|;
    assert events[..n] == applied;
    RecordMeans(origin, applied, e.ptr);
    if Interceptor.IsFree(e) && e.ptr != 0 {
      if j: nat :| j < n && events[j].ptr == e.ptr && !Interceptor.IsFree(events[j]) {
        assert applied[j] == events[j];
        var i := LastAllocOf(applied, e.ptr, j);
      } else if i: nat :| LastAlloc(applied, i, e.ptr) {
        assert events[i] == applied[i];
      }
    }
  }

  /** The counters are the count and the usable bytes of the live records, plus what null-pointer
      allocations added. */
  ghost predicate Counted(st: Model, applied: seq<Event>) {
    && st.live == Sum(st.table, One()) + NullAllocs(applied)
    && st.liveBytes == Sum(st.table, Usable()) + NullBytes(applied)
  }

  ghost predicate Folded(v: View, origin: nat, cells: nat, st: Model, applied: seq<Event>) {
    && st.table == TableAfter(origin, applied)
    && st.heat == HeatAfter(v, origin, cells, applied)
    && Counted(st, applied) && st.freesUnknown == UnknownFrees(applied)
  }

  lemma {:induction false} NoNullAllocs(events: seq<Event>)
    ensures NullAllocs(events) == 0 <==> forall i :: 0 <= i < |events| ==> !NullAlloc(events[i])
  {
    if events != [] {
      var n := |events| - 1;
      NoNullAllocs(events[..n]);
      assert forall i :: 0 <= i < n ==> events[..n][i] == events[i];
    }
  }

  /** So the counter is the number of live records if and only if no allocation reported a null pointer. */
  lemma CountedExactly(st: Model, applied: seq<Event>)
    requires Counted(st, applied)
    ensures st.live == Sum(st.table, One()) <==> forall i :: 0 <= i < |applied| ==> !NullAlloc(applied[i])
  {
    NoNullAllocs(applied);
  }

  /** The free branch of `apply`. */
  method ApplyFree(v: View, origin: nat, st: Model, e: Event, ghost applied: seq<Event>) returns (st': Model)
    requires Interceptor.IsFree(e) && Counted(st, applied)
    ensures st'.table == OnMap(st.table, OpOf(origin, e)) && st'.heat == HeatStep(v, origin, st.heat, st.table, e)
    ensures st'.live + (if e.ptr in st.table && st.table[e.ptr].state.Live? then 1 else 0) == st.live
    ensures st'.liveBytes + (if e.ptr in st.table && st.table[e.ptr].state.Live? then st.table[e.ptr].usable else 0) == st.liveBytes
    ensures st'.freesUnknown == st.freesUnknown + (if e.ptr in st.table then 0 else 1)
  {
    var ms := EventMs(origin, e.timestamp);
    st' := st;
    if e.ptr in st.table {
      var c := st.table[e.ptr];
      CountFree(st.table, e.ptr, ms);
      if c.state.Live? {
        if st'.live != 0 {
          st' := st'.(live := st'.live - 1);
        }
        st' := st'.(liveBytes := Less(st'.liveBytes, c.usable));
      }
      st' := st'.(heat := OnFree(v, st'.heat, e.ptr, c.size, c.usable, ms));
      st' := st'.(table := OnMap(st'.table, OpFree(e.ptr, ms)));
    } else {
      st' := st'.(freesUnknown := st'.freesUnknown + 1);
      st' := st'.(heat := OnFree(v, st'.heat, e.ptr, e.usable, e.usable, ms));
    }
  }

  /** The allocation branch of `apply`. */
  method ApplyAlloc(v: View, origin: nat, st: Model, e: Event, ghost applied: seq<Event>) returns (st': Model)
    requires !Interceptor.IsFree(e) && Counted(st, applied)
    ensures st'.table == OnMap(st.table, OpOf(origin, e)) && st'.heat == HeatStep(v, origin, st.heat, st.table, e)
    ensures st'.live == st.live + (if e.ptr in st.table && st.table[e.ptr].state.Live? then 0 else 1)
    ensures st'.liveBytes + (if e.ptr in st.table && st.table[e.ptr].state.Live? then st.table[e.ptr].usable else 0) == st.liveBytes + e.usable
    ensures st'.freesUnknown == st.freesUnknown
  {
    var ms, bytes := EventMs(origin, e.timestamp), ClampU32(e.size);
    st' := st;
    if e.ptr !in st.table || !st.table[e.ptr].state.Live? {
      st' := st'.(live := st'.live + 1);
    } else {
      SumRemove(st.table, e.ptr, Usable());
      st' := st'.(liveBytes := Less(st'.liveBytes, st.table[e.ptr].usable));
    }
    st' := st'.(liveBytes := st'.liveBytes + e.usable);
    st' := st'.(heat := OnAlloc(v, st'.heat, e.ptr, bytes, e.usable, ms));
    st' := st'.(table := OnMap(st'.table, OpInsert(e.ptr, bytes, e.usable, ms, Ring.TidOf(e))));
  }

  lemma CountedStep(origin: nat, st: Model, e: Event, applied: seq<Event>, st': Model)
    requires Counted(st, applied) && (e.ptr == 0 ==> 0 !in st.table)
    requires st'.table == OnMap(st.table, OpOf(origin, e))
    requires var over := e.ptr in st.table && st.table[e.ptr].state.Live?;
             var was := if over then st.table[e.ptr].usable else 0;
             if Interceptor.IsFree(e) then st'.live + (if over then 1 else 0) == st.live && st'.liveBytes + was == st.liveBytes
             else st'.live == st.live + (if over then 0 else 1) && st'.liveBytes + was == st.liveBytes + e.usable
    ensures Counted(st', applied + [e])
  {
    assert (applied + [e])[..|applied|] == applied;
    if Interceptor.IsFree(e) {
      if e.ptr in st.table {
        CountFree(st.table, e.ptr, EventMs(origin, e.timestamp));
      }
    } else {
      CountAlloc(st.table, e, origin);
    }
  }

  lemma {:induction false} NoNullKey(origin: nat, events: seq<Event>)
    ensures 0 !in TableAfter(origin, events)
  {
    if events != [] {
      NoNullKey(origin, events[..|events| - 1]);
    }
  }

  method ApplyOne(v: View, origin: nat, ghost cells: nat, st: Model, e: Event, ghost applied: seq<Event>) returns (st': Model)
    requires Folded(v, origin, cells, st, applied)
    ensures Folded(v, origin, cells, st', applied + [e])
  {
    Snoc(v, origin, cells, applied, e);
    UnknownStep(origin, applied, e);
    NoNullKey(origin, applied);
    if Interceptor.IsFree(e) {
      st' := ApplyFree(v, origin, st, e, applied);
    } else {
      st' := ApplyAlloc(v, origin, st, e, applied);
    }
    CountedStep(origin, st, e, applied, st');
  }

  /** `apply`: folds a batch of events, in order. */
  method Apply(v: View, origin: nat, ghost cells: nat, st: Model, batch: seq<Event>, ghost applied: seq<Event>) returns (st': Model)
    requires Folded(v, origin, cells, st, applied)
    ensures Folded(v, origin, cells, st', applied + batch)
  {
    st' := st;
    ghost var now := applied;
    for i := 0 to |batch|
      invariant now == applied + batch[..i]
      invariant Folded(v, origin, cells, st', now)
    {
      st' := ApplyOne(v, origin, cells, st', batch[i], now);
      OneFurther(applied, batch, i);
      now := now + [batch[i]];
    }
    assert batch[..|batch|] == batch;
  }

  /** Applying one allocation of a null pointer to an empty model: a count of one, and no record. */
  method NullIsCounted(v: View, origin: nat, cells: nat, e: Event) returns (st: Model)
    requires NullAlloc(e)
    ensures st.live == 1 && st.liveBytes == e.usable && st.table == map[]
  {
    var empty := Model(map[], Heat(seq(cells, i => EMPTY_AGG), 0, 0), 0, 0, 0);
    st := Apply(v, origin, cells, empty, [e], []);
    Snoc(v, origin, cells, [], e);
    assert Sum(map[], One()) == 0 && Sum(map[], Usable()) == 0;
  }

  lemma OneFurther(applied: seq<Event>, batch: seq<Event>, i: nat)
    requires i < |batch|
    ensures applied + batch[..i] + [batch[i]] == applied + batch[..i + 1]
  {
    assert batch[..i + 1] == batch[..i] + [batch[i]];
  }

  class HeapApp {
    const origin: nat
    const view: View
    const cells: nat
    var model: Model
    var staged: seq<Event>
    var stagedHead: nat
    var paused: bool
    ghost var applied: seq<Event>
    ghost var drained: seq<Event>

    /** The model is the fold of the applied events; the applied events and the staged ones are together what
        was drained, in order. */
    ghost predicate Valid()
      reads this
    {
      && Folded(view, origin, cells, model, applied)
      && stagedHead <= |staged|
      && (stagedHead == |staged| ==> staged == [])
      && drained == applied + staged[stagedHead..]
    }

    constructor (origin: nat, view: View, cells: nat)
      ensures Valid() && applied == [] && drained == [] && !paused
    {
      this.origin, this.view, this.cells := origin, view, cells;
      model := Model(map[], Heat(seq(cells, i => EMPTY_AGG), 0, 0), 0, 0, 0);
      staged, stagedHead, paused := [], 0, false;
      applied, drained := [], [];
    }

    method TogglePause()
      requires Valid()
      modifies this`paused
      ensures Valid() && paused != old(paused)
    {
      paused := !paused;
    }

    /** One frame's drain.  `ring` is what the ring would hand over; a prefix of it is taken.  Paused, it is
        only staged; otherwise staged events are replayed first, and the ring is read only once none is left.
        Nothing is lost, repeated or reordered. */
    method Drain(ring: seq<Event>) returns (count: nat, ghost taken: nat)
      requires Valid()
      modifies this
      ensures Valid() && paused == old(paused)
      ensures taken <= |ring| && drained == old(drained) + ring[..taken]
      ensures old(applied) <= applied && |applied| - |old(applied)| <= MAX_EVENTS_PER_FRAME
      ensures paused ==> applied == old(applied) && count == 0 && taken == Min(|ring|, MAX_EVENTS_PER_FRAME)
      ensures !paused ==> count == |applied| - |old(applied)|
      ensures !paused && staged != [] ==> taken == 0 && count == MAX_EVENTS_PER_FRAME
      ensures !paused && staged == [] ==> taken <= count && taken == Min(|ring|, MAX_EVENTS_PER_FRAME - (count - taken))
    {
      if paused {
        taken := Min(|ring|, MAX_EVENTS_PER_FRAME);
        Stage(ring[..Min(|ring|, MAX_EVENTS_PER_FRAME)]);
        return 0, taken;
      }
      var done := Replay();
      taken := 0;
      if done < MAX_EVENTS_PER_FRAME && staged == [] {
        var n := Min(|ring|, MAX_EVENTS_PER_FRAME - done);
        Consume(ring[..n]);
        done, taken := done + n, n;
      }
      count := done;
    }

    /** Applies a batch straight from the ring. */
    method Consume(batch: seq<Event>)
      requires Valid() && staged == []
      modifies this`model, this`applied, this`drained
      ensures Valid() && applied == old(applied) + batch && drained == old(drained) + batch
    {
      if |batch| != 0 {
        model := Apply(view, origin, cells, model, batch, applied);
        applied, drained := applied + batch, drained + batch;
      }
    }

    method Stage(batch: seq<Event>)
      requires Valid()
      modifies this`staged, this`drained
      ensures Valid() && drained == old(drained) + batch
    {
      StagedMore(drained, applied, staged, stagedHead, batch);
      if |batch| != 0 {
        staged := staged + batch;
      }
      drained := drained + batch;
    }

    /** Applies up to a frame's worth of staged events. */
    method Replay() returns (done: nat)
      requires Valid()
      modifies this`model, this`staged, this`stagedHead, this`applied
      ensures Valid()
      ensures old(applied) <= applied && done == |applied| - |old(applied)| <= MAX_EVENTS_PER_FRAME
      ensures staged != [] ==> done == MAX_EVENTS_PER_FRAME
    {
      var waiting := |staged| - stagedHead;
      if waiting == 0 {
        return 0;
      }
      done := Min(waiting, MAX_EVENTS_PER_FRAME);
      var batch := staged[stagedHead..stagedHead + done];
      StagedLess(drained, applied, staged, stagedHead, done);
      model := Apply(view, origin, cells, model, batch, applied);
      applied := applied + batch;
      stagedHead := stagedHead + done;
      if stagedHead == |staged| {
        staged, stagedHead := [], 0;
      }
    }
  }

  lemma StagedMore(drained: seq<Event>, applied: seq<Event>, staged: seq<Event>, head: nat, batch: seq<Event>)
    requires head <= |staged| && drained == applied + staged[head..]
    ensures drained + batch == applied + (staged + batch)[head..] && (batch == [] ==> drained + batch == drained)
  {
    assert (staged + batch)[head..] == staged[head..] + batch;
  }

  lemma StagedLess(drained: seq<Event>, applied: seq<Event>, staged: seq<Event>, head: nat, n: nat)
    requires head + n <= |staged| && drained == applied + staged[head..]
    ensures drained == applied + staged[head..head + n] + staged[head + n..]
  {
    assert staged[head..] == staged[head..head + n] + staged[head + n..];
  }

  /** The same events through the Robin Hood table: it ends up holding exactly the map above. */
  method FillTable(hash: Hash, origin: nat, events: seq<Event>) returns (t: ChunkTable)
    requires GoodHash(hash)
    ensures fresh(t) && t.Valid() && t.model == TableAfter(origin, events)
  {
    t := new ChunkTable(hash, 1024);
    for i := 0 to |events|
      invariant fresh(t) && t.Valid() && t.maxEntries == 0 && t.model == TableAfter(origin, events[..i])
    {
      Do(t, OpOf(origin, events[i]));
      assert events[..i + 1][..i] == events[..i];
    }
    assert events[..|events|] == events;
  }

  lemma CountFree(m: map<Key, Chunk>, p: Key, ms: nat)
    requires p in m
    ensures var m' := m[p := m[p].(state := Freed, freeMs := ms)];
            && Sum(m, One()) == Sum(m', One()) + (if m[p].state.Live? then 1 else 0)
            && Sum(m, Usable()) == Sum(m', Usable()) + (if m[p].state.Live? then m[p].usable else 0)
  {
    var c := m[p].(state := Freed, freeMs := ms);
    SumUpdate(m, p, c, One());
    SumUpdate(m, p, c, Usable());
  }

  lemma CountAlloc(m: map<Key, Chunk>, e: Event, origin: nat)
    requires !Interceptor.IsFree(e)
    ensures var m' := OnMap(m, OpOf(origin, e));
            var over := e.ptr in m && m[e.ptr].state.Live?;
            && (e.ptr == 0 ==> m' == m)
            && (e.ptr != 0 ==>
                 && Sum(m', One()) == Sum(m, One()) + (if over then 0 else 1)
                 && Sum(m', Usable()) + (if over then m[e.ptr].usable else 0) == Sum(m, Usable()) + e.usable)
  {
    if e.ptr != 0 {
      var c := OnMap(m, OpOf(origin, e))[e.ptr];
      SumUpdate(m, e.ptr, c, One());
      SumUpdate(m, e.ptr, c, Usable());
    }
  }
}
