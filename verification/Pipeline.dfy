/** From the target's allocator to the consumer's screen model: what the interceptor, the ring and the consumer
    guarantee together. */
module Pipeline {
  import opened Basics
  import opened RobinHood
  import opened Chunks
  import opened LiveSums
  import opened HeatMaps
  import opened HeapApps
  import opened Interceptor
  import Ring
  import Grids

  // ---------------------------------------------------------------- the consumer's live set is the heap

  predicate LiveAt(m: map<Key, Chunk>, a: Key) {
    a in m && m[a].state.Live?
  }

  /** The table and a replay of the log tell the same story of every address the log mentions. */
  lemma {:induction false} TableIsReplay(origin: nat, log: seq<Event>, before: map<Addr, nat>, a: Addr)
    requires NoNullAlloc(log)
    ensures var m, v := TableAfter(origin, log), Replay(log, before);
            if Mentioned(log, a) then (LiveAt(m, a) <==> a in v) && (LiveAt(m, a) ==> m[a].usable == v[a])
            else a !in m && (a in v <==> a in before) && (a in v ==> v[a] == before[a])
    decreases |log|
  {
    if log != [] {
      var n := |log| - 1;
      var init, e := log[..n], log[n];
      TableIsReplay(origin, init, before, a);
      if Mentioned(init, a) {
        var i :| 0 <= i < |init| && init[i].ptr == a;
        assert log[i].ptr == a;
      }
      if Mentioned(log, a) && e.ptr != a {
        var i :| 0 <= i < |log| && log[i].ptr == a;
        assert init[i].ptr == a;
      }
      if e.ptr == a {
        assert Mentioned(log, a);
      }
    }
  }

  /** The bytes of a set of blocks. */
  ghost function TotalOf(held: map<Addr, nat>): nat
    decreases |held|
  {
    if held == map[] then 0
    else
      var a :| a in held;
      assert (held - {a}).Keys == held.Keys - {a};
      held[a] + TotalOf(held - {a})
  }

  lemma {:induction false} TotalRemove(held: map<Addr, nat>, a: Addr)
    requires a in held
    ensures TotalOf(held) == held[a] + TotalOf(held - {a})
    decreases |held|
  {
    var x :| x in held && TotalOf(held) == held[x] + TotalOf(held - {x});
    if x != a {
      assert (held - {x}).Keys == held.Keys - {x} && (held - {a}).Keys == held.Keys - {a};
      TotalRemove(held - {x}, a);
      TotalRemove(held - {a}, x);
      assert held - {x} - {a} == held - {a} - {x};
    }
  }

  /** The table shows address `a` exactly as it is held. */
  predicate Shows(m: map<Key, Chunk>, held: map<Addr, nat>, a: Addr) {
    if a in held then LiveAt(m, a) && m[a].usable == held[a] else !LiveAt(m, a)
  }

  lemma {:induction false} SumsAreTotals(m: map<Key, Chunk>, held: map<Addr, nat>)
    requires forall a: Addr :: Shows(m, held, a)
    ensures Sum(m, One()) == |held| && Sum(m, Usable()) == TotalOf(held)
    decreases |m|
  {
    if m == map[] {
      forall a | a in held
        ensures false
      {
        var _ := Shows(m, held, a);
      }
      assert held == map[];
    } else {
      var k :| k in m;
      var m', held' := m - {k}, held - {k};
      SumRemove(m, k, One());
      SumRemove(m, k, Usable());
      assert m'.Keys == m.Keys - {k};
      forall a: Addr
        ensures Shows(m', held', a)
      {
        var _ := Shows(m, held, a);
      }
      SumsAreTotals(m', held');
      var _ := Shows(m, held, k);
      HeldWithout(held, k);
    }
  }

  lemma HeldWithout(held: map<Addr, nat>, k: Addr)
    ensures |held| == |held - {k}| + (if k in held then 1 else 0)
    ensures TotalOf(held) == TotalOf(held - {k}) + (if k in held then held[k] else 0)
  {
    if k in held {
      TotalRemove(held, k);
      assert (held - {k}).Keys == held.Keys - {k};
    } else {
      assert held - {k} == held;
    }
  }

  /** Whenever the target is between calls and the ring is drained, with no event dropped, the table built
      from the drained events shows only blocks the allocator really holds, with their sizes as reported, and
      misses only blocks that were there before heapviz and that no call has touched since. */
  lemma TableShowsTheHeap(log2: nat, before: map<Addr, nat>, sys: Sys, origin: nat, a: Addr)
    requires log2 < 64 && SysReachable(log2, before, sys) && sys.ring.dropped == 0 && Quiescent(sys)
    ensures var m := TableAfter(origin, sys.ring.delivered);
            && (LiveAt(m, a) ==> a in sys.held && m[a].usable == ClampU32(sys.held[a]))
            && (a in sys.held && !LiveAt(m, a) ==>
                  a in before && sys.held[a] == before[a] && !Mentioned(sys.ring.delivered, a))
  {
    QuiescentReplayIsHeap(log2, before, sys);
    DeliveriesAlternate(log2, before, sys);
    TableIsReplay(origin, sys.ring.delivered, Reported(before), a);
    ReachableUntouched(log2, before, sys, a);
    SameMentions(log2, before, sys, a);
  }

  lemma SameMentions(log2: nat, before: map<Addr, nat>, sys: Sys, a: Addr)
    requires log2 < 64 && SysReachable(log2, before, sys) && Quiescent(sys)
    ensures Mentioned(sys.ring.delivered, a) <==> Mentioned(sys.ring.claimed, a)
  {
    ReachableInv(log2, before, sys);
    var log, seen := sys.ring.claimed, sys.ring.delivered;
    assert forall i :: 0 <= i < |log| ==> seen[i] == Ring.Clean(log[i]) && seen[i].ptr == log[i].ptr;
  }

  lemma FromTheStart(log2: nat, sys: Sys, origin: nat, a: Addr)
    requires log2 < 64 && SysReachable(log2, map[], sys) && sys.ring.dropped == 0 && Quiescent(sys)
    ensures NoNullAlloc(sys.ring.delivered) && Shows(TableAfter(origin, sys.ring.delivered), Reported(sys.held), a)
  {
    assert Reported(map[]) == map[];
    DeliveriesAlternate(log2, map[], sys);
    QuiescentReplayIsHeap(log2, map[], sys);
    TableIsReplay(origin, sys.ring.delivered, map[], a);
  }

  /** Attached from the start, the consumer's live count is the target's own, whatever the block sizes.  Its
      live bytes never exceed the target's, and equal them if and only if no block is larger than 2^32 - 1
      bytes, the largest size an event can report. */
  lemma CountersAreTheHeap(log2: nat, sys: Sys, origin: nat, st: Model)
    requires log2 < 64 && SysReachable(log2, map[], sys) && sys.ring.dropped == 0 && Quiescent(sys)
    requires st.table == TableAfter(origin, sys.ring.delivered) && Counted(st, sys.ring.delivered)
    ensures st.live == |sys.held|
    ensures st.liveBytes == TotalOf(Reported(sys.held)) <= TotalOf(sys.held)
    ensures st.liveBytes == TotalOf(sys.held) <==> AllReportable(sys.held)
  {
    forall a: Addr
      ensures NoNullAlloc(sys.ring.delivered) && Shows(st.table, Reported(sys.held), a)
    {
      FromTheStart(log2, sys, origin, a);
    }
    FromTheStart(log2, sys, origin, 0);
    NoNulls(sys.ring.delivered);
    SumsAreTotals(st.table, Reported(sys.held));
    assert Reported(sys.held).Keys == sys.held.Keys;
    ReportedTotal(sys.held);
  }

  predicate AllReportable(held: map<Addr, nat>) {
    forall a :: a in held ==> held[a] <= U32_MAX
  }

  /** Reporting loses bytes exactly when some size is too large to report. */
  lemma {:induction false} ReportedTotal(held: map<Addr, nat>)
    ensures TotalOf(Reported(held)) <= TotalOf(held)
    ensures TotalOf(Reported(held)) == TotalOf(held) <==> AllReportable(held)
    decreases |held|
  {
    if held != map[] {
      var a :| a in held;
      assert (held - {a}).Keys == held.Keys - {a};
      ReportedTotal(held - {a});
      TotalRemove(held, a);
      TotalRemove(Reported(held), a);
      assert Reported(held) - {a} == Reported(held - {a});
      assert AllReportable(held) <==> held[a] <= U32_MAX && AllReportable(held - {a}) by {
        assert forall x :: x in held ==> x == a || x in held - {a};
      }
    }
  }

  lemma {:induction false} NoNulls(log: seq<Event>)
    requires NoNullAlloc(log)
    ensures NullAllocs(log) == 0 && NullBytes(log) == 0
  {
    if log != [] {
      NoNulls(log[..|log| - 1]);
    }
  }

  // ---------------------------------------------------------------- incremental equals rebuilt

  /** Every allocation is of a non-null address that is not live, every free of one that is. */
  ghost predicate Alternating(origin: nat, events: seq<Event>) {
    forall i :: 0 <= i < |events| ==> FitsAt(origin, events, i)
  }

  ghost predicate FitsAt(origin: nat, events: seq<Event>, i: nat)
    requires i < |events|
  {
    var e, m := events[i], TableAfter(origin, events[..i]);
    if IsFree(e) then LiveAt(m, e.ptr) else e.ptr != 0 && !LiveAt(m, e.ptr)
  }

  lemma AlternatingPrefix(origin: nat, events: seq<Event>, n: nat)
    requires Alternating(origin, events) && n <= |events|
    ensures Alternating(origin, events[..n])
  {
    forall i | 0 <= i < n
      ensures FitsAt(origin, events[..n], i)
    {
      assert events[..n][..i] == events[..i];
      var _ := FitsAt(origin, events, i);
    }
  }

  /** What the consumer is handed by any drop-free run of a target it has watched from the start alternates. */
  lemma RunsAlternate(log2: nat, sys: Sys, origin: nat)
    requires log2 < 64 && SysReachable(log2, map[], sys) && sys.ring.dropped == 0
    ensures Alternating(origin, sys.ring.delivered)
  {
    var log := sys.ring.delivered;
    assert Reported(map[]) == map[];
    DeliveriesAlternate(log2, map[], sys);
    forall i | 0 <= i < |log|
      ensures FitsAt(origin, log, i)
    {
      assert NoNullAlloc(log[..i]);
      TableIsReplay(origin, log[..i], map[], log[i].ptr);
    }
  }

  /** Every record carries its own key. */
  lemma {:induction false} RecordKeys(origin: nat, events: seq<Event>, k: Key)
    requires k in TableAfter(origin, events)
    ensures TableAfter(origin, events)[k].key == k && !TableAfter(origin, events)[k].state.Empty?
  {
    var n := |events| - 1;
    if k in TableAfter(origin, events[..n]) {
      RecordKeys(origin, events[..n], k);
    }
  }

  /** Folding any alternating stream, at whatever times, leaves every cell's sums and the totals in agreement
      with the table. */
  lemma {:induction false} HeatFollowsTable(v: View, origin: nat, cells: nat, events: seq<Event>)
    requires Alternating(origin, events)
    ensures SumsAgree(v, HeatAfter(v, origin, cells, events), TableAfter(origin, events))
    ensures |HeatAfter(v, origin, cells, events).cells| == cells
    decreases |events|
  {
    if events != [] {
      var n := |events| - 1;
      var init, e := events[..n], events[n];
      AlternatingPrefix(origin, events, n);
      HeatFollowsTable(v, origin, cells, init);
      var m, h := TableAfter(origin, init), HeatAfter(v, origin, cells, init);
      var ms := EventMs(origin, e.timestamp);
      var _ := FitsAt(origin, events, n);
      if e.ptr in m {
        RecordKeys(origin, init, e.ptr);
      }
      if IsFree(e) {
        FreeKeeps(v, h, m, e.ptr, ms, HeatStep(v, origin, h, m, e));
      } else {
        AllocKeeps(v, h, m, e.ptr, OnMap(m, OpOf(origin, e))[e.ptr], ms, HeatStep(v, origin, h, m, e));
      }
    }
  }

  /** So at every point of every drop-free run the heat map's sums are those of the table. */
  lemma HeatShowsTheHeap(log2: nat, sys: Sys, v: View, origin: nat, cells: nat)
    requires log2 < 64 && SysReachable(log2, map[], sys) && sys.ring.dropped == 0
    ensures SumsAgree(v, HeatAfter(v, origin, cells, sys.ring.delivered), TableAfter(origin, sys.ring.delivered))
  {
    RunsAlternate(log2, sys, origin);
    HeatFollowsTable(v, origin, cells, sys.ring.delivered);
  }

  /** The held blocks whose addresses lie in cell `i`. */
  function InCell(v: View, held: map<Addr, nat>, i: nat): map<Addr, nat> {
    map a | a in held && LiesIn(v, a, i) :: held[a]
  }

  predicate ShowsIn(v: View, m: map<Key, Chunk>, held: map<Addr, nat>, i: nat, a: Addr) {
    && (a in m ==> m[a].key == a)
    && (if a in held then LiveAt(m, a) && CellOf(v, a) == Some(i) && m[a].usable == held[a]
        else !LiveAt(m, a) || CellOf(v, a) != Some(i))
  }

  lemma {:induction false} CellSumsAreTotals(v: View, m: map<Key, Chunk>, held: map<Addr, nat>, i: nat)
    requires forall a: Addr :: ShowsIn(v, m, held, i, a)
    ensures Sum(m, Ones(v, i)) == |held| && Sum(m, Bytes(v, i)) == TotalOf(held)
    decreases |m|
  {
    if m == map[] {
      forall a | a in held
        ensures false
      {
        var _ := ShowsIn(v, m, held, i, a);
      }
      assert held == map[];
    } else {
      var k :| k in m;
      assert (m - {k}).Keys == m.Keys - {k};
      ShownWithout(v, m, held, i, k);
      CellSumsAreTotals(v, m - {k}, held - {k}, i);
      OneShown(v, m, held, i, k);
    }
  }

  lemma ShownWithout(v: View, m: map<Key, Chunk>, held: map<Addr, nat>, i: nat, k: Key)
    requires forall a: Addr :: ShowsIn(v, m, held, i, a)
    ensures var m', held' := m - {k}, held - {k};
            forall a: Addr :: ShowsIn(v, m', held', i, a)
  {
    var m', held' := m - {k}, held - {k};
    forall a: Addr
      ensures ShowsIn(v, m', held', i, a)
    {
      var _ := ShowsIn(v, m, held, i, a);
    }
  }

  lemma OneShown(v: View, m: map<Key, Chunk>, held: map<Addr, nat>, i: nat, k: Key)
    requires k in m && ShowsIn(v, m, held, i, k)
    ensures Sum(m, Ones(v, i)) - Sum(m - {k}, Ones(v, i)) == |held| - |held - {k}|
    ensures Sum(m, Bytes(v, i)) - Sum(m - {k}, Bytes(v, i)) == TotalOf(held) - TotalOf(held - {k})
  {
    SumRemove(m, k, Ones(v, i));
    SumRemove(m, k, Bytes(v, i));
    HeldWithout(held, k);
  }

  /** And when such a run is quiescent, each cell counts exactly the blocks the allocator holds in it. */
  lemma CellsShowTheHeap(log2: nat, sys: Sys, v: View, origin: nat, cells: nat, i: nat)
    requires log2 < 64 && SysReachable(log2, map[], sys) && sys.ring.dropped == 0 && Quiescent(sys)
    requires i < cells && GoodView(v)
    ensures var h := HeatAfter(v, origin, cells, sys.ring.delivered);
            && |h.cells| == cells
            && h.cells[i].nLive == |InCell(v, sys.held, i)|
            && h.cells[i].liveBytes == TotalOf(InCell(v, Reported(sys.held), i))
  {
    var log := sys.ring.delivered;
    var m, held := TableAfter(origin, log), InCell(v, Reported(sys.held), i);
    RunsAlternate(log2, sys, origin);
    HeatFollowsTable(v, origin, cells, log);
    var _ := CellSums(v, HeatAfter(v, origin, cells, log), m, i);
    forall a: Addr
      ensures ShowsIn(v, m, held, i, a)
    {
      FromTheStart(log2, sys, origin, a);
      CellOfExactly(v, a, i);
      if a in m {
        RecordKeys(origin, log, a);
      }
    }
    CellSumsAreTotals(v, m, held, i);
    assert held.Keys == InCell(v, sys.held, i).Keys;
  }

  // ---------------------------------------------------------------- stamps, kept and rebuilt

  /** The times of the allocations, or of the frees, that landed in cell `i`, in order. */
  function Times(v: View, origin: nat, events: seq<Event>, i: nat, frees: bool): seq<nat> {
    if events == [] then []
    else
      var e := events[|events| - 1];
      Times(v, origin, events[..|events| - 1], i, frees) +
      (if Lands(v, e, i, frees) then [EventMs(origin, e.timestamp)] else [])
  }

  /** The incremental stamps, for any stream at all. */
  lemma {:induction false} KeptStamps(v: View, origin: nat, cells: nat, events: seq<Event>, i: nat)
    requires i < cells
    ensures var h := HeatAfter(v, origin, cells, events);
            && |h.cells| == cells
            && h.cells[i].lastAlloc == Stamp(Times(v, origin, events, i, false))
            && h.cells[i].lastFree == Stamp(Times(v, origin, events, i, true))
  {
    if events != [] {
      var init, e := events[..|events| - 1], events[|events| - 1];
      KeptStamps(v, origin, cells, init, i);
      StampsStep(v, origin, HeatAfter(v, origin, cells, init), TableAfter(origin, init), e, i);
      TimesStep(v, origin, events, i, false);
      TimesStep(v, origin, events, i, true);
    }
  }

  predicate Lands(v: View, e: Event, i: nat, frees: bool) {
    IsFree(e) == frees && CellOf(v, e.ptr) == Some(i)
  }

  lemma StampsStep(v: View, origin: nat, h: Heat, m: map<Key, Chunk>, e: Event, i: nat)
    requires i < |h.cells|
    ensures var h', ms := HeatStep(v, origin, h, m, e), EventMs(origin, e.timestamp);
            && |h'.cells| == |h.cells|
            && h'.cells[i].lastAlloc == (if Lands(v, e, i, false) then Bump(h.cells[i].lastAlloc, ms) else h.cells[i].lastAlloc)
            && h'.cells[i].lastFree == (if Lands(v, e, i, true) then Bump(h.cells[i].lastFree, ms) else h.cells[i].lastFree)
  {
  }

  lemma TimesStep(v: View, origin: nat, events: seq<Event>, i: nat, frees: bool)
    requires events != []
    ensures var e := events[|events| - 1];
            var before := Stamp(Times(v, origin, events[..|events| - 1], i, frees));
            Stamp(Times(v, origin, events, i, frees)) ==
              if Lands(v, e, i, frees) then Bump(before, EventMs(origin, e.timestamp)) else before
  {
    var times := Times(v, origin, events[..|events| - 1], i, frees);
    StampSnoc(times, EventMs(origin, events[|events| - 1].timestamp));
    assert times + [] == times;
  }

  ghost predicate InOrder(origin: nat, events: seq<Event>) {
    forall i, j :: 0 <= i < j < |events| ==> EventMs(origin, events[i].timestamp) <= EventMs(origin, events[j].timestamp)
  }

  lemma {:induction false} TimesRise(v: View, origin: nat, events: seq<Event>, i: nat, frees: bool, bound: nat)
    requires InOrder(origin, events)
    requires forall j :: 0 <= j < |events| ==> EventMs(origin, events[j].timestamp) <= bound
    ensures var times := Times(v, origin, events, i, frees);
            Clocked(times) && Rising(times) && forall j :: 0 <= j < |times| ==> times[j] <= bound
  {
    if events != [] {
      var n := |events| - 1;
      TimesRise(v, origin, events[..n], i, frees, EventMs(origin, events[n].timestamp));
    }
  }

  predicate Here(v: View, m: map<Key, Chunk>, i: nat, k: Key) {
    k in m && CellOf(v, k) == Some(i)
  }

  /** A record carries the time of an allocation of its cell, and a freed one that of a free. */
  lemma {:induction false} RecordTimes(v: View, origin: nat, events: seq<Event>, i: nat, k: Key)
    requires Here(v, TableAfter(origin, events), i, k)
    ensures var c := TableAfter(origin, events)[k];
            && c.allocMs in Times(v, origin, events, i, false)
            && (c.state.Freed? ==> c.freeMs in Times(v, origin, events, i, true))
  {
    var init := events[..|events| - 1];
    if Here(v, TableAfter(origin, init), i, k) {
      RecordTimes(v, origin, init, i, k);
    }
  }

  /** The last allocation of a cell is still on record. */
  lemma {:induction false} LastOnRecord(v: View, origin: nat, events: seq<Event>, i: nat) returns (k: Key)
    requires Times(v, origin, events, i, false) != []
    requires forall j :: 0 <= j < |events| ==> IsFree(events[j]) || events[j].ptr != 0
    ensures var times, m := Times(v, origin, events, i, false), TableAfter(origin, events);
            Here(v, m, i, k) && m[k].allocMs == times[|times| - 1]
  {
    var init, e := events[..|events| - 1], events[|events| - 1];
    if !IsFree(e) && CellOf(v, e.ptr) == Some(i) {
      k := e.ptr;
    } else {
      k := LastOnRecord(v, origin, init, i);
    }
  }

  /** The stamps found in the slots are those of the records. */
  lemma FoundOnRecord(v: View, s: seq<Chunk>, m: map<Key, Chunk>, i: nat, t: nat)
    requires Rep(s, m)
    ensures t in AllocStamps(v, s, |s|, i) ==> exists k: Key :: Here(v, m, i, k) && m[k].allocMs == t
    ensures t in FreeStamps(v, s, |s|, i) ==> exists k: Key :: Here(v, m, i, k) && m[k].state.Freed? && m[k].freeMs == t
    ensures (exists k: Key :: Here(v, m, i, k) && m[k].allocMs == t) ==> t in AllocStamps(v, s, |s|, i)
  {
    AllocStampsAre(v, s, |s|, i, t);
    FreeStampsAre(v, s, |s|, i, t);
    if t in AllocStamps(v, s, |s|, i) {
      var x: nat :| x < |s| && HereIn(v, s, i, x) && s[x].allocMs == t;
      assert At(s, x, s[x].key) && Here(v, m, i, s[x].key);
    }
    if t in FreeStamps(v, s, |s|, i) {
      var x: nat :| x < |s| && HereIn(v, s, i, x) && s[x].state.Freed? && s[x].freeMs == t;
      assert At(s, x, s[x].key) && Here(v, m, i, s[x].key);
    }
    if k: Key :| Here(v, m, i, k) && m[k].allocMs == t {
      var x: nat :| At(s, x, k);
      assert HereIn(v, s, i, x);
    }
  }

  lemma FoundAllocs(v: View, origin: nat, events: seq<Event>, s: seq<Chunk>, i: nat)
    requires Alternating(origin, events) && Rep(s, TableAfter(origin, events))
    ensures var found, kept := AllocStamps(v, s, |s|, i), Times(v, origin, events, i, false);
            (forall t :: t in found ==> t in kept) && (kept != [] ==> kept[|kept| - 1] in found)
  {
    var m, kept := TableAfter(origin, events), Times(v, origin, events, i, false);
    forall t | t in AllocStamps(v, s, |s|, i)
      ensures t in kept
    {
      FoundOnRecord(v, s, m, i, t);
      var k: Key :| Here(v, m, i, k) && m[k].allocMs == t;
      RecordTimes(v, origin, events, i, k);
    }
    if kept != [] {
      NoNullEvents(origin, events);
      var k := LastOnRecord(v, origin, events, i);
      FoundOnRecord(v, s, m, i, kept[|kept| - 1]);
    }
  }

  lemma FoundFrees(v: View, origin: nat, events: seq<Event>, s: seq<Chunk>, i: nat)
    requires Rep(s, TableAfter(origin, events))
    ensures forall t :: t in FreeStamps(v, s, |s|, i) ==> t in Times(v, origin, events, i, true)
  {
    var m := TableAfter(origin, events);
    forall t | t in FreeStamps(v, s, |s|, i)
      ensures t in Times(v, origin, events, i, true)
    {
      FoundOnRecord(v, s, m, i, t);
      var k: Key :| Here(v, m, i, k) && m[k].state.Freed? && m[k].freeMs == t;
      RecordTimes(v, origin, events, i, k);
    }
  }

  /** Kept and rebuilt stamps of one cell, for any alternating stream with nondecreasing times, saturated ones
      included.  The last allocation is the same if and only if no record of the cell is saturated or the last
      one in slot order is.  The rebuilt last free is not the later one if and only if no free of the cell was
      saturated, no freed record is left in it, or the last one left is saturated. */
  lemma StampsMatchExactly(v: View, origin: nat, cells: nat, events: seq<Event>, s: seq<Chunk>, i: nat)
    requires Alternating(origin, events) && InOrder(origin, events) && i < cells
    requires Rep(s, TableAfter(origin, events))
    ensures |HeatAfter(v, origin, cells, events).cells| == cells
    ensures var found, kept := AllocStamps(v, s, |s|, i), HeatAfter(v, origin, cells, events).cells[i];
            Stamp(found) == kept.lastAlloc <==> NO_TIME !in found || EndsSaturated(found)
    ensures var found, kept := FreeStamps(v, s, |s|, i), HeatAfter(v, origin, cells, events).cells[i];
            NotLater(Stamp(found), kept.lastFree) <==>
              NO_TIME !in Times(v, origin, events, i, true) || found == [] || EndsSaturated(found)
  {
    KeptStamps(v, origin, cells, events, i);
    TimesRise(v, origin, events, i, false, NO_TIME);
    TimesRise(v, origin, events, i, true, NO_TIME);
    FoundAllocs(v, origin, events, s, i);
    FoundFrees(v, origin, events, s, i);
    AllocStampsCompare(Times(v, origin, events, i, false), AllocStamps(v, s, |s|, i));
    FreeStampsCompare(Times(v, origin, events, i, true), FreeStamps(v, s, |s|, i));
  }

  lemma NoNullEvents(origin: nat, events: seq<Event>)
    requires Alternating(origin, events)
    ensures forall j :: 0 <= j < |events| ==> IsFree(events[j]) || events[j].ptr != 0
  {
    forall j | 0 <= j < |events|
      ensures IsFree(events[j]) || events[j].ptr != 0
    {
      var _ := FitsAt(origin, events, j);
    }
  }

  ghost predicate Unsaturated(origin: nat, events: seq<Event>) {
    forall j :: 0 <= j < |events| ==> EventMs(origin, events[j].timestamp) < NO_TIME
  }

  lemma NothingSaturated(v: View, origin: nat, events: seq<Event>, s: seq<Chunk>, i: nat)
    requires Unsaturated(origin, events) && InOrder(origin, events) && Rep(s, TableAfter(origin, events))
    ensures NO_TIME !in AllocStamps(v, s, |s|, i) && NO_TIME !in Times(v, origin, events, i, true)
  {
    TimesRise(v, origin, events, i, false, NO_TIME - 1);
    TimesRise(v, origin, events, i, true, NO_TIME - 1);
    var m := TableAfter(origin, events);
    FoundOnRecord(v, s, m, i, NO_TIME);
    if NO_TIME in AllocStamps(v, s, |s|, i) {
      var k: Key :| Here(v, m, i, k) && m[k].allocMs == NO_TIME;
      RecordTimes(v, origin, events, i, k);
    }
  }

  /** What a rebuild from `s` has to do with the map kept while the events came in. */
  ghost predicate Matches(v: View, origin: nat, events: seq<Event>, s: seq<Chunk>, rebuilt: Heat, kept: Heat) {
    && |rebuilt.cells| == |kept.cells|
    && rebuilt.totalLive == kept.totalLive && rebuilt.totalBytes == kept.totalBytes
    && (forall i: nat :: i < |rebuilt.cells| ==> SameSums(rebuilt.cells[i], kept.cells[i]))
    && (InOrder(origin, events) ==> forall i: nat :: i < |rebuilt.cells| ==> StampsMatch(v, origin, events, s, rebuilt, kept, i))
    && (Unsaturated(origin, events) ==> forall i: nat :: i < |rebuilt.cells| ==> LatestMatch(v, origin, events, s, rebuilt, kept, i))
  }

  /** Before the clock saturates, in whatever order the times come: neither rebuilt stamp is the later one, and
      each is equal exactly when the latest allocation, or free, of the cell is still on record. */
  ghost predicate LatestMatch(v: View, origin: nat, events: seq<Event>, s: seq<Chunk>, rebuilt: Heat, kept: Heat, i: nat)
    requires i < |rebuilt.cells| == |kept.cells|
  {
    var allocs, frees := Times(v, origin, events, i, false), Times(v, origin, events, i, true);
    && NotLater(rebuilt.cells[i].lastAlloc, kept.cells[i].lastAlloc)
    && NotLater(rebuilt.cells[i].lastFree, kept.cells[i].lastFree)
    && (rebuilt.cells[i].lastAlloc == kept.cells[i].lastAlloc <==>
          allocs == [] || kept.cells[i].lastAlloc in AllocStamps(v, s, |s|, i))
    && (rebuilt.cells[i].lastFree == kept.cells[i].lastFree <==>
          frees == [] || kept.cells[i].lastFree in FreeStamps(v, s, |s|, i))
  }

  lemma {:induction false} TimesBelow(v: View, origin: nat, events: seq<Event>, i: nat, frees: bool)
    requires Unsaturated(origin, events)
    ensures var times := Times(v, origin, events, i, frees);
            Clocked(times) && NO_TIME !in times
  {
    if events != [] {
      TimesBelow(v, origin, events[..|events| - 1], i, frees);
    }
  }

  lemma LatestMatches(v: View, origin: nat, cells: nat, events: seq<Event>, s: seq<Chunk>, rebuilt: Heat, i: nat)
    requires Alternating(origin, events) && Unsaturated(origin, events) && Rep(s, TableAfter(origin, events))
    requires Restamped(v, rebuilt, s) && i < |rebuilt.cells| == cells
    ensures |HeatAfter(v, origin, cells, events).cells| == cells
    ensures LatestMatch(v, origin, events, s, rebuilt, HeatAfter(v, origin, cells, events), i)
  {
    KeptStamps(v, origin, cells, events, i);
    TimesBelow(v, origin, events, i, false);
    TimesBelow(v, origin, events, i, true);
    FoundAllocs(v, origin, events, s, i);
    FoundFrees(v, origin, events, s, i);
    LatestCompare(Times(v, origin, events, i, false), AllocStamps(v, s, |s|, i));
    LatestCompare(Times(v, origin, events, i, true), FreeStamps(v, s, |s|, i));
  }

  ghost predicate StampsMatch(v: View, origin: nat, events: seq<Event>, s: seq<Chunk>, rebuilt: Heat, kept: Heat, i: nat)
    requires i < |rebuilt.cells| == |kept.cells|
  {
    var allocs, frees := AllocStamps(v, s, |s|, i), FreeStamps(v, s, |s|, i);
    && (rebuilt.cells[i].lastAlloc == kept.cells[i].lastAlloc <==> NO_TIME !in allocs || EndsSaturated(allocs))
    && (NotLater(rebuilt.cells[i].lastFree, kept.cells[i].lastFree) <==>
          NO_TIME !in Times(v, origin, events, i, true) || frees == [] || EndsSaturated(frees))
    && (Unsaturated(origin, events) ==>
          && rebuilt.cells[i].lastAlloc == kept.cells[i].lastAlloc
          && NotLater(rebuilt.cells[i].lastFree, kept.cells[i].lastFree))
  }

  lemma RebuiltMatches(v: View, origin: nat, cells: nat, events: seq<Event>, s: seq<Chunk>, rebuilt: Heat)
    requires Alternating(origin, events) && |rebuilt.cells| == cells && Rep(s, TableAfter(origin, events))
    requires SumsAgree(v, rebuilt, TableAfter(origin, events)) && Restamped(v, rebuilt, s)
    ensures Matches(v, origin, events, s, rebuilt, HeatAfter(v, origin, cells, events))
  {
    var kept := HeatAfter(v, origin, cells, events);
    HeatFollowsTable(v, origin, cells, events);
    AgreementIsUnique(v, rebuilt, kept, TableAfter(origin, events));
    if Unsaturated(origin, events) {
      forall i: nat | i < cells
        ensures LatestMatch(v, origin, events, s, rebuilt, kept, i)
      {
        LatestMatches(v, origin, cells, events, s, rebuilt, i);
      }
    }
    if InOrder(origin, events) {
      forall i: nat | i < cells
        ensures StampsMatch(v, origin, events, s, rebuilt, kept, i)
      {
        StampsMatchExactly(v, origin, cells, events, s, i);
        if Unsaturated(origin, events) {
          NothingSaturated(v, origin, events, s, i);
        }
      }
    }
  }

  /** The incremental map after any alternating stream, against a rebuild from the real table the events were
      run through. */
  method RebuildMatches(hash: Hash, v: View, origin: nat, cells: nat, events: seq<Event>) returns (rebuilt: Heat, slots: seq<Chunk>)
    requires GoodHash(hash) && Alternating(origin, events)
    ensures Rep(slots, TableAfter(origin, events)) && |rebuilt.cells| == cells
    ensures Matches(v, origin, events, slots, rebuilt, HeatAfter(v, origin, cells, events))
  {
    var t := FillTable(hash, origin, events);
    slots := t.slots;
    rebuilt := HeatMaps.Rebuild(v, cells, slots, t.model);
    RebuiltMatches(v, origin, cells, events, slots, rebuilt);
  }

  /** The record a first allocation leaves. */
  function RecordOf(origin: nat, e: Event): Chunk {
    NewLive(e.ptr, ClampU32(e.size), e.usable, EventMs(origin, e.timestamp), Ring.TidOf(e))
  }

  lemma TwoAllocs(origin: nat, e: Event, f: Event)
    requires !IsFree(e) && !IsFree(f) && e.ptr != 0 && f.ptr != 0 && e.ptr != f.ptr
    ensures TableAfter(origin, [e]) == map[e.ptr := RecordOf(origin, e)]
    ensures TableAfter(origin, [e, f]) == map[e.ptr := RecordOf(origin, e), f.ptr := RecordOf(origin, f)]
    ensures Alternating(origin, [e, f])
  {
    var events := [e, f];
    assert events[..1] == [e] && events[..0] == [] && [e][..0] == [];
    assert FitsAt(origin, events, 0) && FitsAt(origin, events, 1);
  }

  /** Two allocations in one cell, at 5 ms and past the clock's range: the map kept reads "never", and a
      rebuild reads "never" or 5 depending on which record comes last in the slots. */
  lemma SaturationBreaks(v: View, origin: nat, cells: nat, e: Event, f: Event, i: nat)
    requires !IsFree(e) && !IsFree(f) && e.ptr != 0 && f.ptr != 0 && e.ptr != f.ptr
    requires CellOf(v, e.ptr) == CellOf(v, f.ptr) == Some(i) && i < cells
    requires EventMs(origin, e.timestamp) == 5 && EventMs(origin, f.timestamp) == NO_TIME
    ensures Alternating(origin, [e, f]) && InOrder(origin, [e, f])
    ensures var m, c, d := TableAfter(origin, [e, f]), RecordOf(origin, e), RecordOf(origin, f);
            && Rep([d, c], m) && Stamp(AllocStamps(v, [d, c], 2, i)) == 5
            && Rep([c, d], m) && Stamp(AllocStamps(v, [c, d], 2, i)) == NO_TIME
    ensures |HeatAfter(v, origin, cells, [e, f]).cells| == cells
    ensures HeatAfter(v, origin, cells, [e, f]).cells[i].lastAlloc == NO_TIME
  {
    var c, d := RecordOf(origin, e), RecordOf(origin, f);
    TwoAllocs(origin, e, f);
    TwoStamps(v, c, d, i);
    TwoStamps(v, d, c, i);
    TwoRecords(c, d);
    TwoKept(v, origin, cells, e, f, i);
  }

  lemma TwoKept(v: View, origin: nat, cells: nat, e: Event, f: Event, i: nat)
    requires Lands(v, e, i, false) && Lands(v, f, i, false) && i < cells && EventMs(origin, e.timestamp) < NO_TIME
    ensures |HeatAfter(v, origin, cells, [e, f]).cells| == cells
    ensures HeatAfter(v, origin, cells, [e, f]).cells[i].lastAlloc ==
            Bump(EventMs(origin, e.timestamp), EventMs(origin, f.timestamp))
  {
    KeptStamps(v, origin, cells, [e, f], i);
    assert [e, f][..1] == [e] && [e][..0] == [];
    TimesStep(v, origin, [e, f], i, false);
    TimesStep(v, origin, [e], i, false);
  }

  lemma TwoStamps(v: View, c: Chunk, d: Chunk, i: nat)
    requires Occ(c) && Occ(d) && CellOf(v, c.key) == CellOf(v, d.key) == Some(i)
    ensures Stamp(AllocStamps(v, [c, d], 2, i)) == Bump(c.allocMs, d.allocMs)
  {
    assert AllocStamps(v, [c, d], 1, i) == [c.allocMs];
    assert AllocStamps(v, [c, d], 2, i) == [c.allocMs, d.allocMs];
    StampSnoc([c.allocMs], d.allocMs);
    StampSnoc([], c.allocMs);
  }

  lemma TwoRecords(c: Chunk, d: Chunk)
    requires Occ(c) && Occ(d) && c.key != d.key
    ensures var m := map[c.key := c, d.key := d];
            Rep([c, d], m) && Rep([d, c], m)
  {
    assert At([c, d], 0, c.key) && At([c, d], 1, d.key);
    assert At([d, c], 1, c.key) && At([d, c], 0, d.key);
  }

  // ---------------------------------------------------------------- exactly which events the sums survive

  /** What the record under `p` adds to a sum. */
  function Share(m: map<Key, Chunk>, p: Key, f: Measure): nat {
    if p in m then f(m[p]) else 0
  }

  lemma SumMoves(origin: nat, m: map<Key, Chunk>, e: Event, f: Measure)
    ensures var m' := OnMap(m, OpOf(origin, e));
            Sum(m', f) + Share(m, e.ptr, f) == Sum(m, f) + Share(m', e.ptr, f)
  {
    var m' := OnMap(m, OpOf(origin, e));
    if e.ptr in m' {
      SumUpdate(m, e.ptr, m'[e.ptr], f);
      assert m' == m || m' == m[e.ptr := m'[e.ptr]];
    }
  }

  predicate OnGridAt(v: View, h: Heat, e: Event, i: nat) {
    CellOf(v, e.ptr) == Some(i) && i < |h.cells|
  }

  /** The bytes, and the overhead, that a free takes out of its cell. */
  function FreedBytes(m: map<Key, Chunk>, e: Event): nat {
    if e.ptr in m then m[e.ptr].usable else e.usable
  }

  function FreedOverhead(m: map<Key, Chunk>, e: Event): nat {
    if e.ptr in m then OverheadOf(m[e.ptr].size, m[e.ptr].usable) else 0
  }

  /** An allocation is of a non-null address that is not live, a free of a live one, or of anything in a cell
      that counts nothing live. */
  predicate Harmless(h: Heat, m: map<Key, Chunk>, e: Event, i: nat)
    requires i < |h.cells|
  {
    if IsFree(e) then LiveAt(m, e.ptr) || h.cells[i].nLive == 0 else e.ptr != 0 && !LiveAt(m, e.ptr)
  }

  /** Or the bytes wrongly added or taken are none. */
  predicate BytesHarmless(h: Heat, m: map<Key, Chunk>, e: Event, i: nat, sum: nat)
    requires i < |h.cells|
  {
    || Harmless(h, m, e, i)
    || (if IsFree(e) then FreedBytes(m, e) == 0 || sum == 0
        else if LiveAt(m, e.ptr) then m[e.ptr].usable == 0
        else e.usable == 0)
  }

  predicate OverheadHarmless(h: Heat, m: map<Key, Chunk>, e: Event, i: nat)
    requires i < |h.cells|
  {
    || Harmless(h, m, e, i)
    || (if IsFree(e) then FreedOverhead(m, e) == 0 || h.cells[i].overhead == 0
        else if LiveAt(m, e.ptr) then OverheadOf(m[e.ptr].size, m[e.ptr].usable) == 0
        else OverheadOf(ClampU32(e.size), e.usable) == 0)
  }

  ghost predicate Keyed(m: map<Key, Chunk>, p: Key) {
    (p in m ==> m[p].key == p) && (p == 0 ==> p !in m)
  }

  /** An event touches no other cell's figures. */
  lemma OtherCell(v: View, origin: nat, h: Heat, m: map<Key, Chunk>, e: Event, j: nat)
    requires CellSums(v, h, m, j) && Keyed(m, e.ptr) && !OnGridAt(v, h, e, j)
    ensures CellSums(v, HeatStep(v, origin, h, m, e), OnMap(m, OpOf(origin, e)), j)
  {
    SumMoves(origin, m, e, Ones(v, j));
    SumMoves(origin, m, e, Bytes(v, j));
    SumMoves(origin, m, e, Overheads(v, j));
  }

  /** In its own cell, exactly which of the three figures stay right. */
  lemma OwnCell(v: View, origin: nat, h: Heat, m: map<Key, Chunk>, e: Event, i: nat)
    requires CellSums(v, h, m, i) && Keyed(m, e.ptr) && OnGridAt(v, h, e, i)
    ensures var h', m' := HeatStep(v, origin, h, m, e), OnMap(m, OpOf(origin, e));
            && |h'.cells| == |h.cells|
            && (h'.cells[i].nLive == Sum(m', Ones(v, i)) <==> Harmless(h, m, e, i))
            && (h'.cells[i].liveBytes == Sum(m', Bytes(v, i)) <==> BytesHarmless(h, m, e, i, h.cells[i].liveBytes))
            && (h'.cells[i].overhead == Sum(m', Overheads(v, i)) <==> OverheadHarmless(h, m, e, i))
  {
    SumMoves(origin, m, e, Ones(v, i));
    SumMoves(origin, m, e, Bytes(v, i));
    SumMoves(origin, m, e, Overheads(v, i));
    if e.ptr in m {
      SumRemove(m, e.ptr, Ones(v, i));
      SumRemove(m, e.ptr, Bytes(v, i));
      SumRemove(m, e.ptr, Overheads(v, i));
    }
  }

  /** Exactly when the totals do. */
  lemma OwnTotals(v: View, origin: nat, h: Heat, m: map<Key, Chunk>, e: Event, i: nat)
    requires SumsAgree(v, h, m) && Keyed(m, e.ptr) && OnGridAt(v, h, e, i)
    ensures var h', m', n := HeatStep(v, origin, h, m, e), OnMap(m, OpOf(origin, e)), |h.cells|;
            && (h'.totalLive == Sum(m', AllOnes(v, n)) <==> Harmless(h, m, e, i))
            && (h'.totalBytes == Sum(m', AllBytes(v, n)) <==> BytesHarmless(h, m, e, i, h.totalBytes))
  {
    var _ := CellSums(v, h, m, i);
    OwnTotalLive(v, origin, h, m, e, i);
    OwnTotalBytes(v, origin, h, m, e, i);
  }

  lemma OwnTotalLive(v: View, origin: nat, h: Heat, m: map<Key, Chunk>, e: Event, i: nat)
    requires CellSums(v, h, m, i) && h.totalLive == Sum(m, AllOnes(v, |h.cells|)) && Keyed(m, e.ptr) && OnGridAt(v, h, e, i)
    ensures HeatStep(v, origin, h, m, e).totalLive == Sum(OnMap(m, OpOf(origin, e)), AllOnes(v, |h.cells|)) <==> Harmless(h, m, e, i)
  {
    SumMoves(origin, m, e, AllOnes(v, |h.cells|));
    SumLeq(m, Ones(v, i), AllOnes(v, |h.cells|));
    if e.ptr in m {
      SumRemove(m, e.ptr, Ones(v, i));
    }
  }

  lemma OwnTotalBytes(v: View, origin: nat, h: Heat, m: map<Key, Chunk>, e: Event, i: nat)
    requires CellSums(v, h, m, i) && h.totalBytes == Sum(m, AllBytes(v, |h.cells|)) && Keyed(m, e.ptr) && OnGridAt(v, h, e, i)
    ensures HeatStep(v, origin, h, m, e).totalBytes == Sum(OnMap(m, OpOf(origin, e)), AllBytes(v, |h.cells|)) <==>
            BytesHarmless(h, m, e, i, h.totalBytes)
  {
    SumMoves(origin, m, e, AllBytes(v, |h.cells|));
    if e.ptr in m {
      SumRemove(m, e.ptr, Ones(v, i));
      SumRemove(m, e.ptr, AllBytes(v, |h.cells|));
    }
  }

  lemma OffGridTotals(v: View, origin: nat, h: Heat, m: map<Key, Chunk>, e: Event)
    requires SumsAgree(v, h, m) && Keyed(m, e.ptr) && forall i :: !OnGridAt(v, h, e, i)
    ensures var h', m', n := HeatStep(v, origin, h, m, e), OnMap(m, OpOf(origin, e)), |h.cells|;
            h'.totalLive == Sum(m', AllOnes(v, n)) && h'.totalBytes == Sum(m', AllBytes(v, n)) && |h'.cells| == n
  {
    var at := CellOf(v, e.ptr);
    if at.Some? {
      assert !OnGridAt(v, h, e, at.value);
    }
    SumMoves(origin, m, e, AllOnes(v, |h.cells|));
    SumMoves(origin, m, e, AllBytes(v, |h.cells|));
  }

  /** From agreement, one event leaves everything in agreement if and only if it is off the grid or harmless:
      a double or unknown free in a cell that counts live chunks, an allocation over a live address, and one
      of a null pointer are what breaks it.  `OwnCell` and `OwnTotals` give the condition figure by figure. */
  lemma SumsSurviveExactly(v: View, origin: nat, h: Heat, m: map<Key, Chunk>, e: Event)
    requires SumsAgree(v, h, m) && Keyed(m, e.ptr)
    ensures SumsAgree(v, HeatStep(v, origin, h, m, e), OnMap(m, OpOf(origin, e))) <==>
            forall i: nat :: OnGridAt(v, h, e, i) ==> Harmless(h, m, e, i)
  {
    var h', m' := HeatStep(v, origin, h, m, e), OnMap(m, OpOf(origin, e));
    forall j: nat
      ensures CellSums(v, h', m', j) <==> (OnGridAt(v, h, e, j) ==> Harmless(h, m, e, j))
    {
      var _ := CellSums(v, h, m, j);
      if OnGridAt(v, h, e, j) {
        OwnCell(v, origin, h, m, e, j);
      } else {
        OtherCell(v, origin, h, m, e, j);
      }
    }
    if i: nat :| OnGridAt(v, h, e, i) {
      OwnTotals(v, origin, h, m, e, i);
      var _ := CellSums(v, h', m', i);
    } else {
      OffGridTotals(v, origin, h, m, e);
    }
  }

  /** One more event after an alternating stream, in a cell of the grid. */
  lemma OneMore(v: View, origin: nat, cells: nat, events: seq<Event>, e: Event, i: nat)
    requires Alternating(origin, events) && CellOf(v, e.ptr) == Some(i) && i < cells
    ensures var h, m := HeatAfter(v, origin, cells, events), TableAfter(origin, events);
            var h', m' := HeatAfter(v, origin, cells, events + [e]), TableAfter(origin, events + [e]);
            && |h.cells| == |h'.cells| == cells && h.cells[i].nLive == Sum(m, Ones(v, i))
            && (IsFree(e) && !LiveAt(m, e.ptr) && Sum(m, Ones(v, i)) > 0 ==> h'.cells[i].nLive + 1 == Sum(m', Ones(v, i)))
            && (!IsFree(e) && LiveAt(m, e.ptr) ==> h'.cells[i].nLive == Sum(m', Ones(v, i)) + 1)
  {
    var m := TableAfter(origin, events);
    HeatFollowsTable(v, origin, cells, events);
    var _ := CellSums(v, HeatAfter(v, origin, cells, events), m, i);
    Snoc(v, origin, cells, events, e);
    SumMoves(origin, m, e, Ones(v, i));
    if e.ptr in m {
      RecordKeys(origin, events, e.ptr);
    }
  }

  lemma OneAlloc(v: View, origin: nat, a: Event, i: nat)
    requires !IsFree(a) && a.ptr != 0 && CellOf(v, a.ptr) == Some(i)
    ensures var m := TableAfter(origin, [a]);
            Alternating(origin, [a]) && m == map[a.ptr := RecordOf(origin, a)] && Sum(m, Ones(v, i)) > 0
  {
    assert [a][..0] == [];
    assert FitsAt(origin, [a], 0);
    LiveCounts(v, TableAfter(origin, [a]), a.ptr, i);
  }

  /** An allocation over a live address is counted twice. */
  lemma AllocOverBreaks(v: View, origin: nat, cells: nat, a: Event, i: nat)
    requires !IsFree(a) && a.ptr != 0 && CellOf(v, a.ptr) == Some(i) && i < cells
    ensures |HeatAfter(v, origin, cells, [a, a]).cells| == cells
    ensures HeatAfter(v, origin, cells, [a, a]).cells[i].nLive == Sum(TableAfter(origin, [a, a]), Ones(v, i)) + 1
  {
    OneAlloc(v, origin, a, i);
    OneMore(v, origin, cells, [a], a, i);
    assert [a] + [a] == [a, a];
  }

  /** A free of an address never allocated takes another chunk out of the count. */
  lemma UnknownFreeBreaks(v: View, origin: nat, cells: nat, b: Event, f: Event, i: nat)
    requires !IsFree(b) && IsFree(f) && b.ptr != 0 && f.ptr != b.ptr
    requires CellOf(v, b.ptr) == CellOf(v, f.ptr) == Some(i) && i < cells
    ensures |HeatAfter(v, origin, cells, [b, f]).cells| == cells
    ensures HeatAfter(v, origin, cells, [b, f]).cells[i].nLive + 1 == Sum(TableAfter(origin, [b, f]), Ones(v, i))
  {
    OneAlloc(v, origin, b, i);
    OneMore(v, origin, cells, [b], f, i);
    assert [b] + [f] == [b, f];
  }

  /** So does the second of two frees of one address. */
  lemma DoubleFreeBreaks(v: View, origin: nat, cells: nat, a: Event, b: Event, f: Event, i: nat)
    requires !IsFree(a) && !IsFree(b) && IsFree(f) && a.ptr == f.ptr != b.ptr && a.ptr != 0 && b.ptr != 0
    requires CellOf(v, a.ptr) == CellOf(v, b.ptr) == Some(i) && i < cells
    ensures |HeatAfter(v, origin, cells, [a, b, f, f]).cells| == cells
    ensures HeatAfter(v, origin, cells, [a, b, f, f]).cells[i].nLive + 1 == Sum(TableAfter(origin, [a, b, f, f]), Ones(v, i))
  {
    ThenFreed(v, origin, a, b, f, i);
    OneMore(v, origin, cells, [a, b, f], f, i);
    assert [a, b, f] + [f] == [a, b, f, f];
  }

  lemma LiveCounts(v: View, m: map<Key, Chunk>, p: Key, i: nat)
    requires p in m && LiveIn(v, i, m[p])
    ensures Sum(m, Ones(v, i)) > 0
  {
    SumRemove(m, p, Ones(v, i));
  }

  lemma ThenFreed(v: View, origin: nat, a: Event, b: Event, f: Event, i: nat)
    requires !IsFree(a) && !IsFree(b) && IsFree(f) && a.ptr == f.ptr != b.ptr && a.ptr != 0 && b.ptr != 0
    requires CellOf(v, b.ptr) == Some(i)
    ensures var m := TableAfter(origin, [a, b, f]);
            Alternating(origin, [a, b, f]) && !LiveAt(m, a.ptr) && Sum(m, Ones(v, i)) > 0
  {
    var events := [a, b, f];
    TwoAllocs(origin, a, b);
    assert events[..2] == [a, b] && events[..1] == [a] && events[..0] == [];
    assert FitsAt(origin, events, 0) && FitsAt(origin, events, 1) && FitsAt(origin, events, 2);
    LiveCounts(v, TableAfter(origin, events), b.ptr, i);
  }

  /** A view and events those three speak of: one cell of 4096 bytes, two chunks in it. */
  lemma SuchStreamsExist() returns (v: View, a: Event, b: Event, f: Event)
    ensures !IsFree(a) && !IsFree(b) && IsFree(f) && a.ptr == f.ptr != b.ptr && a.ptr != 0 && b.ptr != 0
    ensures CellOf(v, a.ptr) == CellOf(v, b.ptr) == Some(0)
  {
    var g := Grids.Configure(4096, 8192, 1, 1);
    Grids.ConfigureIsGood(4096, 8192, 1, 1);
    Grids.CellIsRange(g, 4112, 0);
    Grids.CellIsRange(g, 4160, 0);
    v := View(g, None);
    a := Ring.Event(0, 4112, 24, 24, 0, 0, 0, 0);
    b := Ring.Event(0, 4160, 24, 24, 0, 0, 0, 0);
    f := Ring.Event(0, 4112, 0, 24, 0, 0, 0, 1);
  }
}
