/** Per-cell aggregation, `heatmap.cpp`: the same aggregates kept incrementally, event by event, and rebuilt
    from a scan of the chunk table. */
module HeatMaps {
  import opened Basics
  import opened RobinHood
  import opened Chunks
  import opened LiveSums
  import opened Grids
  import opened Regions

  const NO_TIME: nat := 0xFFFF_FFFF

  datatype Agg = Agg(liveBytes: nat, nLive: nat, overhead: nat, lastAlloc: nat, lastFree: nat)

  const EMPTY_AGG := Agg(0, 0, 0, NO_TIME, NO_TIME)

  /** Where addresses land: the grid, and the packed coordinate space when there is one. */
  datatype View = View(grid: Grid, spans: Option<seq<Span>>)

  datatype Heat = Heat(cells: seq<Agg>, totalLive: nat, totalBytes: nat)

  function Bump(slot: nat, value: nat): nat {
    if slot == NO_TIME || value > slot then value else slot
  }

  function OverheadOf(bytes: nat, usable: nat): nat {
    if usable > bytes then usable - bytes else 0
  }

  /** The guarded decrement. */
  function Less(a: nat, b: nat): nat {
    if a >= b then a - b else 0
  }

  function CellOf(v: View, ptr: nat): Option<nat> {
    match v.spans
    case None => IndexOf(v.grid, ptr)
    case Some(spans) =>
      match ToFlat(spans, ptr)
      case None => None
      case Some(f) => IndexOf(v.grid, f)
  }

  /** Coordinate `x` is one of the `cellBytes` that make up cell `i`. */
  predicate InRun(g: Grid, x: nat, i: nat) {
    g.base + i * g.cellBytes <= x < g.base + i * g.cellBytes + g.cellBytes
  }

  /** Address `a` belongs to cell `i`: directly, or through its offset in the packed space. */
  predicate LiesIn(v: View, a: nat, i: nat) {
    && v.grid.valid && i < v.grid.cols * v.grid.rows
    && match v.spans
       case None => InRun(v.grid, a, i)
       case Some(spans) => exists s :: s in spans && s.start <= a < s.end && InRun(v.grid, s.flat + (a - s.start), i)
  }

  ghost predicate GoodView(v: View) {
    Good(v.grid) && (v.spans.Some? ==> Packed(v.spans.value))
  }

  /** The translation and the shift find exactly the cell an address belongs to. */
  lemma CellOfExactly(v: View, a: nat, i: nat)
    requires GoodView(v)
    ensures CellOf(v, a) == Some(i) <==> LiesIn(v, a, i)
  {
    match v.spans
    case None =>
      if v.grid.valid {
        CellIsRange(v.grid, a, i);
      }
    case Some(spans) =>
      if v.grid.valid {
        CellOfPacked(v.grid, spans, a, i);
      }
  }

  lemma CellOfPacked(g: Grid, spans: seq<Span>, a: nat, i: nat)
    requires Good(g) && g.valid && Packed(spans)
    ensures CellOf(View(g, Some(spans)), a) == Some(i) <==> LiesIn(View(g, Some(spans)), a, i)
  {
    if ToFlat(spans, a).Some? {
      var k := FlatSpan(spans, a);
      var f := spans[k].flat + (a - spans[k].start);
      CellIsRange(g, f, i);
      assert forall s :: s in spans && s.start <= a < s.end ==> s == spans[k];
      assert spans[k] in spans;
    } else if exists s :: s in spans && s.start <= a < s.end {
      var s :| s in spans && s.start <= a < s.end;
      var k :| 0 <= k < |spans| && spans[k] == s;
      ToFlatAt(spans, k, a);
    }
  }

  /** The overhead of a chunk is what its usable size has beyond the request, if anything. */
  lemma OverheadMeans(bytes: nat, usable: nat)
    ensures bytes <= usable ==> bytes + OverheadOf(bytes, usable) == usable
    ensures usable <= bytes ==> OverheadOf(bytes, usable) == 0
  {
  }

  // ---------------------------------------------------------------- the incremental path

  function OnAlloc(v: View, h: Heat, ptr: nat, bytes: nat, usable: nat, ms: nat): Heat {
    match CellOf(v, ptr)
    case None => h
    case Some(i) =>
      if i >= |h.cells| then h
      else
        var a := h.cells[i];
        Heat(h.cells[i := Agg(a.liveBytes + usable, a.nLive + 1, a.overhead + OverheadOf(bytes, usable), Bump(a.lastAlloc, ms), a.lastFree)],
             h.totalLive + 1, h.totalBytes + usable)
  }

  function OnFree(v: View, h: Heat, ptr: nat, bytes: nat, usable: nat, ms: nat): Heat {
    match CellOf(v, ptr)
    case None => h
    case Some(i) =>
      if i >= |h.cells| then h
      else
        var a := h.cells[i];
        if a.nLive == 0 then h.(cells := h.cells[i := a.(lastFree := Bump(a.lastFree, ms))])
        else
          Heat(h.cells[i := Agg(Less(a.liveBytes, usable), a.nLive - 1, Less(a.overhead, OverheadOf(bytes, usable)), a.lastAlloc, Bump(a.lastFree, ms))],
               Less(h.totalLive, 1), Less(h.totalBytes, usable))
  }

  // ---------------------------------------------------------------- what the aggregates mean

  predicate LiveIn(v: View, i: nat, c: Chunk) {
    c.state.Live? && CellOf(v, c.key) == Some(i)
  }

  function Ones(v: View, i: nat): Measure {
    c => if LiveIn(v, i, c) then 1 else 0
  }

  function Bytes(v: View, i: nat): Measure {
    c => if LiveIn(v, i, c) then c.usable else 0
  }

  function Overheads(v: View, i: nat): Measure {
    c => if LiveIn(v, i, c) then OverheadOf(c.size, c.usable) else 0
  }

  /** Live anywhere on a grid of `n` cells. */
  predicate OnGrid(v: View, n: nat, c: Chunk) {
    c.state.Live? && CellOf(v, c.key).Some? && CellOf(v, c.key).value < n
  }

  function AllOnes(v: View, n: nat): Measure {
    c => if OnGrid(v, n, c) then 1 else 0
  }

  function AllBytes(v: View, n: nat): Measure {
    c => if OnGrid(v, n, c) then c.usable else 0
  }

  ghost predicate CellSums(v: View, h: Heat, m: map<Key, Chunk>, i: nat) {
    i < |h.cells| ==>
      var a := h.cells[i];
      && a.nLive == Sum(m, Ones(v, i))
      && a.liveBytes == Sum(m, Bytes(v, i))
      && a.overhead == Sum(m, Overheads(v, i))
  }

  /** Every cell's sums, and the totals, are those of the table's live records. */
  ghost predicate SumsAgree(v: View, h: Heat, m: map<Key, Chunk>) {
    && (forall i: nat :: CellSums(v, h, m, i))
    && h.totalLive == Sum(m, AllOnes(v, |h.cells|))
    && h.totalBytes == Sum(m, AllBytes(v, |h.cells|))
  }

  predicate SameSums(a: Agg, b: Agg) {
    a == b.(lastAlloc := a.lastAlloc, lastFree := a.lastFree)
  }

  /** Two heat maps that both agree with the same table differ at most in their stamps. */
  lemma AgreementIsUnique(v: View, h: Heat, h': Heat, m: map<Key, Chunk>)
    requires SumsAgree(v, h, m) && SumsAgree(v, h', m) && |h.cells| == |h'.cells|
    ensures h.totalLive == h'.totalLive && h.totalBytes == h'.totalBytes
    ensures forall i :: 0 <= i < |h.cells| ==> SameSums(h.cells[i], h'.cells[i])
  {
    forall i: nat | i < |h.cells|
      ensures SameSums(h.cells[i], h'.cells[i])
    {
      var _ := (CellSums(v, h, m, i), CellSums(v, h', m, i));
    }
  }

  // ---------------------------------------------------------------- one event

  lemma AllocKeeps(v: View, h: Heat, m: map<Key, Chunk>, p: Key, c: Chunk, ms: nat, h': Heat)
    requires SumsAgree(v, h, m) && c.key == p && c.state.Live?
    requires p in m ==> m[p].key == p && !m[p].state.Live?
    requires h' == OnAlloc(v, h, p, c.size, c.usable, ms)
    ensures SumsAgree(v, h', m[p := c])
  {
    var m' := m[p := c];
    forall i: nat
      ensures CellSums(v, h', m', i)
    {
      var _ := CellSums(v, h, m, i);
      SumUpdate(m, p, c, Ones(v, i));
      SumUpdate(m, p, c, Bytes(v, i));
      SumUpdate(m, p, c, Overheads(v, i));
    }
    SumUpdate(m, p, c, AllOnes(v, |h.cells|));
    SumUpdate(m, p, c, AllBytes(v, |h.cells|));
  }

  lemma FreeKeeps(v: View, h: Heat, m: map<Key, Chunk>, p: Key, ms: nat, h': Heat)
    requires SumsAgree(v, h, m) && p in m && m[p].key == p && m[p].state.Live?
    requires h' == OnFree(v, h, p, m[p].size, m[p].usable, ms)
    ensures SumsAgree(v, h', m[p := m[p].(state := Freed, freeMs := ms)])
  {
    var c := m[p].(state := Freed, freeMs := ms);
    var m' := m[p := c];
    forall i: nat
      ensures CellSums(v, h', m', i)
    {
      FreeCell(v, h, m, p, ms, h', i);
    }
    SumUpdate(m, p, c, AllOnes(v, |h.cells|));
    SumUpdate(m, p, c, AllBytes(v, |h.cells|));
    var at := CellOf(v, p);
    if at.Some? && at.value < |h.cells| {
      var _ := CellSums(v, h, m, at.value);
      SumRemove(m, p, Ones(v, at.value));
    }
  }

  lemma FreeCell(v: View, h: Heat, m: map<Key, Chunk>, p: Key, ms: nat, h': Heat, i: nat)
    requires SumsAgree(v, h, m) && p in m && m[p].key == p && m[p].state.Live?
    requires h' == OnFree(v, h, p, m[p].size, m[p].usable, ms)
    ensures CellSums(v, h', m[p := m[p].(state := Freed, freeMs := ms)], i)
  {
    var _ := CellSums(v, h, m, i);
    var c := m[p].(state := Freed, freeMs := ms);
    SumUpdate(m, p, c, Ones(v, i));
    SumUpdate(m, p, c, Bytes(v, i));
    SumUpdate(m, p, c, Overheads(v, i));
  }

  // ---------------------------------------------------------------- stamps

  /** Successive bumps of a cell that was never stamped.  The clock saturates at the very value that means
      "never", so a saturated bump wipes the stamp and the next one starts it afresh. */
  function Stamp(times: seq<nat>): nat {
    if times == [] then NO_TIME else Bump(Stamp(times[..|times| - 1]), times[|times| - 1])
  }

  ghost predicate Clocked(times: seq<nat>) {
    forall i :: 0 <= i < |times| ==> times[i] <= NO_TIME
  }

  predicate EndsSaturated(times: seq<nat>) {
    times != [] && times[|times| - 1] == NO_TIME
  }

  ghost predicate Rising(times: seq<nat>) {
    forall i, j :: 0 <= i < j < |times| ==> times[i] <= times[j]
  }

  /** A stamp reads "never" exactly when nothing was stamped or the last time was saturated. */
  lemma {:induction false} StampIsNever(times: seq<nat>)
    requires Clocked(times)
    ensures Stamp(times) <= NO_TIME
    ensures Stamp(times) == NO_TIME <==> times == [] || EndsSaturated(times)
  {
    if times != [] {
      StampIsNever(times[..|times| - 1]);
    }
  }

  /** With nothing saturated it is the latest of the times. */
  lemma {:induction false} StampIsLatest(times: seq<nat>)
    requires Clocked(times) && NO_TIME !in times && times != []
    ensures Stamp(times) in times && forall t :: t in times ==> t <= Stamp(times)
  {
    var n := |times| - 1;
    var init := times[..n];
    assert times == init + [times[n]];
    if init != [] {
      StampIsLatest(init);
    }
  }

  /** In order, it is the last of them, saturated or not. */
  lemma {:induction false} StampIsLast(times: seq<nat>)
    requires Clocked(times) && Rising(times) && times != []
    ensures Stamp(times) == times[|times| - 1]
  {
    var n := |times| - 1;
    if n > 0 {
      StampIsLast(times[..n]);
    }
  }

  lemma KeptBounds(kept: seq<nat>, found: seq<nat>)
    requires Clocked(kept) && Rising(kept) && forall t :: t in found ==> t in kept
    ensures Clocked(found) && (found != [] ==> kept != [])
    ensures kept != [] ==> forall t :: t in kept ==> t <= kept[|kept| - 1]
    ensures forall t :: t in found ==> t <= kept[|kept| - 1]
  {
    forall i | 0 <= i < |found|
      ensures found[i] <= NO_TIME && kept != []
    {
      assert found[i] in kept;
    }
    assert found != [] ==> found[0] in kept;
  }

  /** `kept` are the times of a cell's allocations in order, `found` those its records still carry, in slot
      order: the stamps are equal exactly when no record is saturated or the last one is. */
  lemma AllocStampsCompare(kept: seq<nat>, found: seq<nat>)
    requires Clocked(kept) && Rising(kept)
    requires forall t :: t in found ==> t in kept
    requires kept != [] ==> kept[|kept| - 1] in found
    ensures Stamp(found) == Stamp(kept) <==> NO_TIME !in found || EndsSaturated(found)
  {
    KeptBounds(kept, found);
    StampIsNever(found);
    if kept != [] {
      StampIsLast(kept);
      if NO_TIME !in found {
        StampIsLatest(found);
      }
    }
  }

  /** `a` is not a later stamp than `b`. */
  predicate NotLater(a: nat, b: nat) {
    a == NO_TIME || (b != NO_TIME && a <= b)
  }

  /** Whatever the order of the times, as long as none is saturated: the stamp of those found is not the later
      one, and is the same exactly when the latest of them all is among them. */
  lemma LatestCompare(kept: seq<nat>, found: seq<nat>)
    requires Clocked(kept) && NO_TIME !in kept && forall t :: t in found ==> t in kept
    ensures NotLater(Stamp(found), Stamp(kept))
    ensures Stamp(found) == Stamp(kept) <==> kept == [] || Stamp(kept) in found
  {
    forall i | 0 <= i < |found|
      ensures found[i] <= NO_TIME
    {
      assert found[i] in kept;
    }
    StampIsNever(kept);
    StampIsNever(found);
    if kept != [] {
      assert kept[|kept| - 1] in kept;
      StampIsLatest(kept);
      if found != [] {
        StampIsLatest(found);
      }
    }
    assert found != [] ==> found[0] in kept;
  }

  /** The same for frees, of which records forget some: the rebuilt stamp is not the later one exactly when no
      free was saturated, no freed record is left, or the last one left is saturated. */
  lemma FreeStampsCompare(kept: seq<nat>, found: seq<nat>)
    requires Clocked(kept) && Rising(kept)
    requires forall t :: t in found ==> t in kept
    ensures NotLater(Stamp(found), Stamp(kept)) <==> NO_TIME !in kept || found == [] || EndsSaturated(found)
  {
    KeptBounds(kept, found);
    StampIsNever(found);
    if found != [] {
      StampIsLast(kept);
      if NO_TIME !in kept {
        StampIsLatest(found);
      }
    }
  }

  // ---------------------------------------------------------------- the rebuild

  predicate HereIn(v: View, s: seq<Chunk>, i: nat, x: nat) {
    x < |s| && Occ(s[x]) && CellOf(v, s[x].key) == Some(i)
  }

  /** Allocation times of the records of cell `i` among the first `n` slots, in slot order. */
  function AllocStamps(v: View, s: seq<Chunk>, n: nat, i: nat): seq<nat>
    requires n <= |s|
  {
    if n == 0 then []
    else AllocStamps(v, s, n - 1, i) + (if HereIn(v, s, i, n - 1) then [s[n - 1].allocMs] else [])
  }

  /** Free times of its freed records. */
  function FreeStamps(v: View, s: seq<Chunk>, n: nat, i: nat): seq<nat>
    requires n <= |s|
  {
    if n == 0 then []
    else FreeStamps(v, s, n - 1, i) + (if HereIn(v, s, i, n - 1) && s[n - 1].state.Freed? then [s[n - 1].freeMs] else [])
  }

  lemma {:induction false} AllocStampsAre(v: View, s: seq<Chunk>, n: nat, i: nat, t: nat)
    requires n <= |s|
    ensures t in AllocStamps(v, s, n, i) <==> exists x: nat :: x < n && HereIn(v, s, i, x) && s[x].allocMs == t
  {
    if n > 0 {
      AllocStampsAre(v, s, n - 1, i, t);
    }
  }

  lemma {:induction false} FreeStampsAre(v: View, s: seq<Chunk>, n: nat, i: nat, t: nat)
    requires n <= |s|
    ensures t in FreeStamps(v, s, n, i) <==>
            exists x: nat :: x < n && HereIn(v, s, i, x) && s[x].state.Freed? && s[x].freeMs == t
  {
    if n > 0 {
      FreeStampsAre(v, s, n - 1, i, t);
    }
  }

  ghost predicate CellScanned(v: View, h: Heat, s: seq<Chunk>, n: nat, i: nat) {
    i < |h.cells| && n <= |s| ==>
      var a := h.cells[i];
      && a.nLive == SlotSum(s, n, Ones(v, i))
      && a.liveBytes == SlotSum(s, n, Bytes(v, i))
      && a.overhead == SlotSum(s, n, Overheads(v, i))
      && a.lastAlloc == Stamp(AllocStamps(v, s, n, i))
      && a.lastFree == Stamp(FreeStamps(v, s, n, i))
  }

  ghost predicate Scanned(v: View, h: Heat, s: seq<Chunk>, n: nat) {
    && n <= |s|
    && (forall i: nat :: CellScanned(v, h, s, n, i))
    && h.totalLive == SlotSum(s, n, AllOnes(v, |h.cells|))
    && h.totalBytes == SlotSum(s, n, AllBytes(v, |h.cells|))
  }

  /** The body of the rebuild loop: folds one record into its cell. */
  function FoldSlot(v: View, h: Heat, c: Chunk): Heat {
    if !Occ(c) then h
    else
      match CellOf(v, c.key)
      case None => h
      case Some(i) =>
        if i >= |h.cells| then h
        else
          var a := h.cells[i].(lastAlloc := Bump(h.cells[i].lastAlloc, c.allocMs));
          if c.state.Live? then
            Heat(h.cells[i := a.(nLive := a.nLive + 1, liveBytes := a.liveBytes + c.usable, overhead := a.overhead + OverheadOf(c.size, c.usable))],
                 h.totalLive + 1, h.totalBytes + c.usable)
          else h.(cells := h.cells[i := a.(lastFree := Bump(a.lastFree, c.freeMs))])
  }

  lemma StampSnoc(times: seq<nat>, t: nat)
    ensures Stamp(times + [t]) == Bump(Stamp(times), t)
  {
    assert (times + [t])[..|times|] == times;
  }

  lemma ScanStep(v: View, h: Heat, s: seq<Chunk>, n: nat)
    requires Scanned(v, h, s, n) && n < |s|
    ensures Scanned(v, FoldSlot(v, h, s[n]), s, n + 1)
  {
    var h', n' := FoldSlot(v, h, s[n]), n + 1;
    forall i: nat
      ensures CellScanned(v, h', s, n', i)
    {
      var _ := CellScanned(v, h, s, n, i);
      ScanStamps(v, s, n, i);
    }
  }

  lemma ScanStamps(v: View, s: seq<Chunk>, n: nat, i: nat)
    requires n < |s|
    ensures var t := Stamp(AllocStamps(v, s, n, i));
            Stamp(AllocStamps(v, s, n + 1, i)) == if HereIn(v, s, i, n) then Bump(t, s[n].allocMs) else t
    ensures var t := Stamp(FreeStamps(v, s, n, i));
            Stamp(FreeStamps(v, s, n + 1, i)) == if HereIn(v, s, i, n) && s[n].state.Freed? then Bump(t, s[n].freeMs) else t
  {
    StampSnoc(AllocStamps(v, s, n, i), s[n].allocMs);
    StampSnoc(FreeStamps(v, s, n, i), s[n].freeMs);
    assert AllocStamps(v, s, n, i) + [] == AllocStamps(v, s, n, i);
    assert FreeStamps(v, s, n, i) + [] == FreeStamps(v, s, n, i);
  }

  lemma {:induction false} ZeroSum(s: seq<Chunk>, n: nat, f: Measure)
    requires n <= |s| && forall c :: f(c) == 0
    ensures SlotSum(s, n, f) == 0
  {
    if n > 0 {
      ZeroSum(s, n - 1, f);
    }
  }

  lemma {:induction false} NoStamps(v: View, s: seq<Chunk>, n: nat, i: nat)
    requires n <= |s| && forall k: Key :: CellOf(v, k).None?
    ensures AllocStamps(v, s, n, i) == [] && FreeStamps(v, s, n, i) == []
  {
    if n > 0 {
      NoStamps(v, s, n - 1, i);
    }
  }

  /** A blank map over a grid where nothing lands, or before the first slot, is already scanned. */
  lemma BlankScanned(v: View, h: Heat, s: seq<Chunk>, n: nat)
    requires n <= |s| && (n == 0 || forall k: Key :: CellOf(v, k).None?)
    requires h.totalLive == 0 && h.totalBytes == 0 && forall i :: 0 <= i < |h.cells| ==> h.cells[i] == EMPTY_AGG
    ensures Scanned(v, h, s, n)
  {
    if n > 0 {
      ZeroSum(s, n, AllOnes(v, |h.cells|));
      ZeroSum(s, n, AllBytes(v, |h.cells|));
      forall i: nat
        ensures CellScanned(v, h, s, n, i)
      {
        ZeroSum(s, n, Ones(v, i));
        ZeroSum(s, n, Bytes(v, i));
        ZeroSum(s, n, Overheads(v, i));
        NoStamps(v, s, n, i);
      }
    }
  }

  lemma ScannedAgrees(v: View, h: Heat, s: seq<Chunk>, m: map<Key, Chunk>)
    requires Distinct(s) && Rep(s, m) && Scanned(v, h, s, |s|)
    ensures SumsAgree(v, h, m)
  {
    SlotSumIsSum(s, m, AllOnes(v, |h.cells|));
    SlotSumIsSum(s, m, AllBytes(v, |h.cells|));
    forall i: nat
      ensures CellSums(v, h, m, i)
    {
      var _ := CellScanned(v, h, s, |s|, i);
      SlotSumIsSum(s, m, Ones(v, i));
      SlotSumIsSum(s, m, Bytes(v, i));
      SlotSumIsSum(s, m, Overheads(v, i));
    }
  }

  /** Every stamp is that of the cell's records in slot order. */
  ghost predicate Restamped(v: View, h: Heat, slots: seq<Chunk>) {
    forall i: nat :: i < |h.cells| ==>
      && h.cells[i].lastAlloc == Stamp(AllocStamps(v, slots, |slots|, i))
      && h.cells[i].lastFree == Stamp(FreeStamps(v, slots, |slots|, i))
  }

  lemma ScannedStamps(v: View, h: Heat, s: seq<Chunk>)
    requires Scanned(v, h, s, |s|)
    ensures Restamped(v, h, s)
  {
    forall i: nat | i < |h.cells|
      ensures h.cells[i].lastAlloc == Stamp(AllocStamps(v, s, |s|, i))
      ensures h.cells[i].lastFree == Stamp(FreeStamps(v, s, |s|, i))
    {
      var _ := CellScanned(v, h, s, |s|, i);
    }
  }

  /** Recomputes every cell from the slots: whatever the table went through, the result agrees with it. */
  method Rebuild(v: View, cellCount: nat, slots: seq<Chunk>, ghost m: map<Key, Chunk>) returns (h: Heat)
    requires Distinct(slots) && Rep(slots, m)
    ensures |h.cells| == cellCount && SumsAgree(v, h, m) && Restamped(v, h, slots)
  {
    h := Heat(seq(cellCount, i => EMPTY_AGG), 0, 0);
    if !v.grid.valid {
      BlankScanned(v, h, slots, |slots|);
      ScannedAgrees(v, h, slots, m);
      ScannedStamps(v, h, slots);
      return;
    }
    BlankScanned(v, h, slots, 0);
    for n := 0 to |slots|
      invariant |h.cells| == cellCount && Scanned(v, h, slots, n)
    {
      ScanStep(v, h, slots, n);
      h := FoldSlot(v, h, slots[n]);
    }
    ScannedAgrees(v, h, slots, m);
    ScannedStamps(v, h, slots);
  }

  // ---------------------------------------------------------------- the object that keeps them

  class HeatMap {
    var view: View
    var cells: seq<Agg>
    var totalLive: nat
    var totalBytes: nat
    var rebuilds: nat

    function Value(): Heat
      reads this
    {
      Heat(cells, totalLive, totalBytes)
    }

    constructor (view: View)
      ensures this.view == view && Value() == Heat([], 0, 0) && rebuilds == 0
    {
      this.view, cells, totalLive, totalBytes, rebuilds := view, [], 0, 0, 0;
    }

    /** A new geometry empties every cell; the same one costs nothing. */
    method Configure(g: Grid) returns (changed: bool)
      modifies this
      ensures view.spans == old(view).spans && rebuilds == old(rebuilds)
      ensures var was := old(view).grid;
              changed <==> |old(cells)| != g.cols * g.rows || was.valid != g.valid || was.base != g.base ||
                           was.cellBytes != g.cellBytes || was.cols != g.cols || was.rows != g.rows
      ensures changed ==> view.grid == g && Value() == Heat(seq(g.Cells(), i => EMPTY_AGG), 0, 0)
      ensures !changed ==> view == old(view) && Value() == old(Value())
    {
      if SameGeometry(view.grid, g) && |cells| == g.Cells() {
        return false;
      }
      view := view.(grid := g);
      cells, totalLive, totalBytes := seq(g.Cells(), i => EMPTY_AGG), 0, 0;
      return true;
    }

    method Allocated(ptr: nat, bytes: nat, usable: nat, ms: nat)
      modifies this
      ensures view == old(view) && rebuilds == old(rebuilds)
      ensures Value() == OnAlloc(view, old(Value()), ptr, bytes, usable, ms)
    {
      var at := CellOf(view, ptr);
      if at.None? || at.value >= |cells| {
        return;
      }
      var cell := cells[at.value];
      cell := cell.(nLive := cell.nLive + 1);
      cell := cell.(liveBytes := cell.liveBytes + usable);
      cell := cell.(overhead := cell.overhead + OverheadOf(bytes, usable));
      cell := cell.(lastAlloc := Bump(cell.lastAlloc, ms));
      cells := cells[at.value := cell];
      totalLive, totalBytes := totalLive + 1, totalBytes + usable;
    }

    method Freed(ptr: nat, bytes: nat, usable: nat, ms: nat)
      modifies this
      ensures view == old(view) && rebuilds == old(rebuilds)
      ensures Value() == OnFree(view, old(Value()), ptr, bytes, usable, ms)
    {
      var at := CellOf(view, ptr);
      if at.None? || at.value >= |cells| {
        return;
      }
      var cell := cells[at.value];
      if cell.nLive > 0 {
        cell := cell.(nLive := cell.nLive - 1);
        cell := cell.(liveBytes := Less(cell.liveBytes, usable));
        cell := cell.(overhead := Less(cell.overhead, OverheadOf(bytes, usable)));
        totalLive := Less(totalLive, 1);
        totalBytes := Less(totalBytes, usable);
      }
      cells := cells[at.value := cell.(lastFree := Bump(cell.lastFree, ms))];
    }

    /** Whatever the cells held, afterwards they agree with the table. */
    method RebuildFrom(table: ChunkTable)
      requires table.Valid()
      modifies this
      ensures view == old(view) && rebuilds == old(rebuilds) + 1 && |cells| == |old(cells)|
      ensures SumsAgree(view, Value(), table.model) && Restamped(view, Value(), table.slots)
    {
      rebuilds := rebuilds + 1;
      var h := Rebuild(view, |cells|, table.slots, table.model);
      cells, totalLive, totalBytes := h.cells, h.totalLive, h.totalBytes;
    }
  }

  predicate SameGeometry(a: Grid, b: Grid) {
    a.valid == b.valid && a.base == b.base && a.cellBytes == b.cellBytes && a.cols == b.cols && a.rows == b.rows
  }

  /** The comparison ignores where the span ends, and may: every address still lands in the same cell. */
  lemma SameCells(a: Grid, b: Grid, addr: nat)
    requires Good(a) && Good(b) && SameGeometry(a, b)
    ensures IndexOf(a, addr) == IndexOf(b, addr)
  {
    if a.valid {
      if IndexOf(a, addr).Some? {
        CellIsRange(a, addr, IndexOf(a, addr).value);
        CellIsRange(b, addr, IndexOf(a, addr).value);
      } else if IndexOf(b, addr).Some? {
        CellIsRange(a, addr, IndexOf(b, addr).value);
        CellIsRange(b, addr, IndexOf(b, addr).value);
      }
    }
  }
}
