/** External fragmentation over the live set, `fragmentation.cpp`: an unordered minimum, maximum and sum per
    region stands for the bytes trapped between live chunks, and a sorted walk finds the largest hole. */
module Fragmentation {
  import opened Basics
  import opened RobinHood
  import opened Regions
  import opened Sorting

  /** The bytes `[start, end)` one live chunk occupies. */
  type Extent = Pair

  /** `kChunkMinOverheadBytes`, the word below the pointer. */
  const OVERHEAD := 8

  const CLOCK := 0x1_0000_0000

  datatype Acc = Acc(lo: nat, hi: nat, used: nat, chunks: nat)

  datatype Report = Report(span: nat, used: nat, gap: nat, largest: nat, chunks: nat, outside: nat,
                           regions: nat, largestKnown: bool, percent: int)

  const NOTHING := Acc(0, 0, 0, 0)

  function Size(e: Extent): nat {
    if e.0 < e.1 then e.1 - e.0 else 0
  }

  // ---------------------------------------------------------------- what is measured

  predicate Measurable(c: Chunk) {
    c.state == Live && c.key != 0
  }

  /** The footprint of a chunk, cut off at the end of the region that holds its pointer. */
  function Foot(spans: seq<Span>, c: Chunk): Option<Extent> {
    if spans == [] then None
    else if spans[0].Has(c.key) then Some((c.key, Min(c.key + c.usable + OVERHEAD, spans[0].end)))
    else Foot(spans[1..], c)
  }

  lemma {:induction false} FootAt(spans: seq<Span>, i: nat, c: Chunk)
    requires i < |spans| && spans[i].Has(c.key) && forall j :: 0 <= j < i ==> !spans[j].Has(c.key)
    ensures Foot(spans, c) == Some((c.key, Min(c.key + c.usable + OVERHEAD, spans[i].end)))
  {
    if i > 0 {
      FootAt(spans[1..], i - 1, c);
    }
  }

  lemma {:induction false} FootNone(spans: seq<Span>, c: Chunk)
    requires forall j :: 0 <= j < |spans| ==> !spans[j].Has(c.key)
    ensures Foot(spans, c) == None
  {
    if spans != [] {
      FootNone(spans[1..], c);
    }
  }

  lemma {:induction false} FootSpan(spans: seq<Span>, c: Chunk) returns (i: nat)
    requires Foot(spans, c).Some?
    ensures i < |spans| && spans[i].Has(c.key)
    ensures Foot(spans, c).value == (c.key, Min(c.key + c.usable + OVERHEAD, spans[i].end))
  {
    if spans[0].Has(c.key) {
      i := 0;
    } else {
      i := FootSpan(spans[1..], c);
      i := i + 1;
    }
  }

  /** The footprints of all live chunks in known regions, in slot order. */
  function Footprints(spans: seq<Span>, slots: seq<Chunk>): seq<Extent> {
    if slots == [] then []
    else
      var c := slots[|slots| - 1];
      Footprints(spans, slots[..|slots| - 1]) +
      (if Measurable(c) && Foot(spans, c).Some? then [Foot(spans, c).value] else [])
  }

  /** How many live chunks lie in no known region. */
  function Outside(spans: seq<Span>, slots: seq<Chunk>): nat {
    if slots == [] then 0
    else
      var c := slots[|slots| - 1];
      Outside(spans, slots[..|slots| - 1]) + (if Measurable(c) && Foot(spans, c).None? then 1 else 0)
  }

  /** Slot `i` holds a live chunk whose pointer lies in region `s`, occupying `e`: from its pointer to the end of
      its usable bytes and one word more, or to the end of the region. */
  predicate Occupies(slots: seq<Chunk>, i: nat, s: Span, e: Extent) {
    && i < |slots| && slots[i].state.Live? && slots[i].key != 0
    && s.start <= slots[i].key < s.end && e.0 == slots[i].key
    && e.1 == (if slots[i].key + slots[i].usable + 8 <= s.end then slots[i].key + slots[i].usable + 8 else s.end)
  }

  lemma FootExactly(spans: seq<Span>, c: Chunk, e: Extent)
    requires Packed(spans)
    ensures Foot(spans, c) == Some(e) <==> exists s :: s in spans && Cut(s, c, e)
  {
    if Foot(spans, c).Some? {
      var k := FootSpan(spans, c);
      assert spans[k] in spans;
      assert forall s :: s in spans && s.start <= c.key < s.end ==> s == spans[k];
    } else if exists s :: s in spans && Cut(s, c, e) {
      var s :| s in spans && Cut(s, c, e);
      var k :| 0 <= k < |spans| && spans[k] == s;
      FootAt(spans, k, c);
    }
  }

  predicate Cut(s: Span, c: Chunk, e: Extent) {
    s.start <= c.key < s.end && e.0 == c.key && e.1 == (if c.key + c.usable + 8 <= s.end then c.key + c.usable + 8 else s.end)
  }

  ghost predicate IsMeasured(spans: seq<Span>, slots: seq<Chunk>, e: Extent) {
    exists i: nat, s :: s in spans && Occupies(slots, i, s, e)
  }

  /** Exactly what is measured: the extents of the live chunks in known regions. */
  lemma {:induction false} MeasuredExactly(spans: seq<Span>, slots: seq<Chunk>, e: Extent)
    requires Packed(spans)
    ensures e in Footprints(spans, slots) <==> IsMeasured(spans, slots, e)
  {
    if slots != [] {
      var n := |slots| - 1;
      MeasuredExactly(spans, slots[..n], e);
      FootExactly(spans, slots[n], e);
      MeasuredSnoc(spans, slots, e);
    }
  }

  lemma MeasuredSnoc(spans: seq<Span>, slots: seq<Chunk>, e: Extent)
    requires slots != []
    ensures var n := |slots| - 1;
            IsMeasured(spans, slots, e) <==>
              || IsMeasured(spans, slots[..n], e)
              || (slots[n].state.Live? && slots[n].key != 0 && exists s :: s in spans && Cut(s, slots[n], e))
  {
    var n := |slots| - 1;
    if IsMeasured(spans, slots, e) {
      var i: nat, s :| s in spans && Occupies(slots, i, s, e);
      if i < n {
        assert Occupies(slots[..n], i, s, e);
      } else {
        assert Cut(s, slots[n], e);
      }
    }
    if IsMeasured(spans, slots[..n], e) {
      var i: nat, s :| s in spans && Occupies(slots[..n], i, s, e);
      assert Occupies(slots, i, s, e);
    }
    if slots[n].state.Live? && slots[n].key != 0 {
      if s :| s in spans && Cut(s, slots[n], e) {
        assert Occupies(slots, n, s, e);
      }
    }
  }

  /** The slots that hold a live chunk with a pointer. */
  ghost function LiveSlots(slots: seq<Chunk>): set<nat> {
    set i: nat | i < |slots| && slots[i].state.Live? && slots[i].key != 0
  }

  /** Every live chunk is either measured or counted as outside. */
  lemma {:induction false} AllCounted(spans: seq<Span>, slots: seq<Chunk>)
    ensures |Footprints(spans, slots)| + Outside(spans, slots) == |LiveSlots(slots)|
  {
    if slots == [] {
      assert LiveSlots(slots) == {};
    } else {
      var n := |slots| - 1;
      AllCounted(spans, slots[..n]);
      if slots[n].state.Live? && slots[n].key != 0 {
        assert LiveSlots(slots) == LiveSlots(slots[..n]) + {n};
      } else {
        assert LiveSlots(slots) == LiveSlots(slots[..n]);
      }
    }
  }

  predicate Within(s: Span, e: Extent) {
    s.Has(e.0) && e.0 < e.1 <= s.end
  }

  /** Every extent is non-empty and lies in one region. */
  ghost predicate Placed(spans: seq<Span>, ext: seq<Extent>) {
    forall e :: e in ext ==> exists i :: 0 <= i < |spans| && Within(spans[i], e)
  }

  ghost predicate DistinctStarts(ext: seq<Extent>) {
    forall i, j :: 0 <= i < j < |ext| ==> ext[i].0 != ext[j].0
  }

  lemma {:induction false} FootprintsPlaced(spans: seq<Span>, slots: seq<Chunk>)
    ensures Placed(spans, Footprints(spans, slots))
  {
    if slots != [] {
      FootprintsPlaced(spans, slots[..|slots| - 1]);
      var c := slots[|slots| - 1];
      if Foot(spans, c).Some? {
        var i := FootSpan(spans, c);
        assert Within(spans[i], Foot(spans, c).value);
      }
    }
  }

  lemma {:induction false} FootprintSource(spans: seq<Span>, slots: seq<Chunk>, e: Extent)
    requires e in Footprints(spans, slots)
    ensures exists i :: 0 <= i < |slots| && Measurable(slots[i]) && slots[i].key == e.0
  {
    var n := |slots| - 1;
    if e in Footprints(spans, slots[..n]) {
      FootprintSource(spans, slots[..n], e);
      var i :| 0 <= i < n && Measurable(slots[..n][i]) && slots[..n][i].key == e.0;
      assert Measurable(slots[i]);
    } else {
      var _ := FootSpan(spans, slots[n]);
      assert Measurable(slots[n]);
    }
  }

  lemma {:induction false} FootprintsDistinct(spans: seq<Span>, slots: seq<Chunk>)
    requires Distinct(slots)
    ensures DistinctStarts(Footprints(spans, slots))
  {
    if slots != [] {
      var n := |slots| - 1;
      FootprintsDistinct(spans, slots[..n]);
      var c := slots[n];
      var before := Footprints(spans, slots[..n]);
      if Measurable(c) && Foot(spans, c).Some? {
        var _ := FootSpan(spans, c);
        forall i | 0 <= i < |before|
          ensures before[i].0 != c.key
        {
          FootprintSource(spans, slots[..n], before[i]);
        }
      }
    }
  }

  // ---------------------------------------------------------------- the linear pass

  /** One extent folded into a region's running totals. */
  function Add(s: Span, a: Acc, e: Extent): Acc {
    if !s.Has(e.0) then a
    else if a.chunks == 0 then Acc(e.0, e.1, a.used + Size(e), 1)
    else Acc(Min(a.lo, e.0), Max(a.hi, e.1), a.used + Size(e), a.chunks + 1)
  }

  function Over(s: Span, ext: seq<Extent>): Acc {
    if ext == [] then NOTHING else Add(s, Over(s, ext[1..]), ext[0])
  }

  lemma {:induction false} OverSnoc(s: Span, ext: seq<Extent>, e: Extent)
    ensures Over(s, ext + [e]) == Add(s, Over(s, ext), e)
  {
    if ext != [] {
      OverSnoc(s, ext[1..], e);
      assert (ext + [e])[1..] == ext[1..] + [e];
    } else {
      assert ([e])[1..] == [];
    }
  }

  lemma {:induction false} OverInsert(s: Span, e: Extent, ext: seq<Extent>)
    ensures Over(s, Insert(e, ext)) == Add(s, Over(s, ext), e)
  {
    if ext == [] || Leq(e, ext[0]) {
      assert ([e] + ext)[1..] == ext;
    } else {
      OverInsert(s, e, ext[1..]);
      assert Insert(e, ext)[1..] == Insert(e, ext[1..]);
    }
  }

  /** The running totals do not depend on the order of the extents. */
  lemma {:induction false} OverSorted(s: Span, ext: seq<Extent>)
    ensures Over(s, Sorted(ext)) == Over(s, ext)
  {
    if ext != [] {
      OverSorted(s, ext[1..]);
      OverInsert(s, ext[0], Sorted(ext[1..]));
    }
  }

  function Width(a: Acc): nat {
    if a.lo <= a.hi then a.hi - a.lo else 0
  }

  function Widths(spans: seq<Span>, ext: seq<Extent>): nat {
    if spans == [] then 0 else Widths(spans[..|spans| - 1], ext) + Width(Over(spans[|spans| - 1], ext))
  }

  function UsedBytes(spans: seq<Span>, ext: seq<Extent>): nat {
    if spans == [] then 0 else UsedBytes(spans[..|spans| - 1], ext) + Over(spans[|spans| - 1], ext).used
  }

  // ---------------------------------------------------------------- the sorted walk, region by region

  /** The highest end among `reach` and the extents of the region. */
  function Top(s: Span, ext: seq<Extent>, reach: nat): nat {
    if ext == [] then reach
    else Top(s, ext[1..], if s.Has(ext[0].0) then Max(reach, ext[0].1) else reach)
  }

  /** Bytes the walk finds between the highest end so far and the next start. */
  function HolesAfter(s: Span, ext: seq<Extent>, reach: nat): nat {
    if ext == [] then 0
    else if !s.Has(ext[0].0) then HolesAfter(s, ext[1..], reach)
    else (if reach < ext[0].0 then ext[0].0 - reach else 0) + HolesAfter(s, ext[1..], Max(reach, ext[0].1))
  }

  /** Bytes of each extent that lie below the highest end so far. */
  function OverlapAfter(s: Span, ext: seq<Extent>, reach: nat): nat {
    if ext == [] then 0
    else if !s.Has(ext[0].0) then OverlapAfter(s, ext[1..], reach)
    else Size((ext[0].0, Min(reach, ext[0].1))) + OverlapAfter(s, ext[1..], Max(reach, ext[0].1))
  }

  function Holes(s: Span, ext: seq<Extent>): nat {
    if ext == [] then 0
    else if s.Has(ext[0].0) then HolesAfter(s, ext[1..], ext[0].1)
    else Holes(s, ext[1..])
  }

  function Overlap(s: Span, ext: seq<Extent>): nat {
    if ext == [] then 0
    else if s.Has(ext[0].0) then OverlapAfter(s, ext[1..], ext[0].1)
    else Overlap(s, ext[1..])
  }

  ghost predicate Proper(ext: seq<Extent>) {
    forall i :: 0 <= i < |ext| ==> ext[i].0 < ext[i].1
  }

  lemma {:induction false} Balance(s: Span, ext: seq<Extent>, reach: nat)
    requires Proper(ext)
    ensures Top(s, ext, reach) + OverlapAfter(s, ext, reach) ==
            reach + Over(s, ext).used + HolesAfter(s, ext, reach)
  {
    if ext != [] {
      Balance(s, ext[1..], if s.Has(ext[0].0) then Max(reach, ext[0].1) else reach);
    }
  }

  lemma {:induction false} TopMax(s: Span, ext: seq<Extent>, reach: nat, x: nat)
    ensures Top(s, ext, Max(reach, x)) == Max(Top(s, ext, reach), x)
  {
    if ext != [] {
      var next := if s.Has(ext[0].0) then Max(reach, ext[0].1) else reach;
      TopMax(s, ext[1..], next, x);
      assert Max(Max(reach, x), ext[0].1) == Max(Max(reach, ext[0].1), x);
    }
  }

  /** With the lowest extent added last, the totals are its start, the highest end and the summed sizes. */
  lemma {:induction false} OverFrom(s: Span, ext: seq<Extent>, e: Extent)
    requires s.Has(e.0) && forall i :: 0 <= i < |ext| ==> e.0 <= ext[i].0
    ensures Add(s, Over(s, ext), e).lo == e.0 && Add(s, Over(s, ext), e).hi == Top(s, ext, e.1)
  {
    if ext != [] {
      OverFrom(s, ext[1..], e);
      TopMax(s, ext[1..], e.1, ext[0].1);
    }
  }

  /** The identity behind the unsorted figure, whatever overlaps: first start to last end, plus what is counted
      twice, is the footprints plus the holes. */
  lemma {:induction false} SpanIdentity(s: Span, ext: seq<Extent>)
    requires Proper(ext) && InOrder(ext)
    ensures Width(Over(s, ext)) + Overlap(s, ext) == Over(s, ext).used + Holes(s, ext)
  {
    if ext != [] {
      if s.Has(ext[0].0) {
        OverFrom(s, ext[1..], ext[0]);
        Balance(s, ext[1..], ext[0].1);
      } else {
        SpanIdentity(s, ext[1..]);
      }
    }
  }

  // ---------------------------------------------------------------- stranded bytes, without any order

  predicate Below(s: Span, e: Extent, x: nat) {
    s.Has(e.0) && e.1 <= x
  }

  predicate Beyond(s: Span, e: Extent, x: nat) {
    s.Has(e.0) && x < e.0
  }

  predicate Covers(s: Span, e: Extent, x: nat) {
    s.Has(e.0) && e.0 <= x < e.1
  }

  predicate SomeBelow(s: Span, ext: seq<Extent>, x: nat) {
    exists e :: e in ext && Below(s, e, x)
  }

  predicate SomeBeyond(s: Span, ext: seq<Extent>, x: nat) {
    exists e :: e in ext && Beyond(s, e, x)
  }

  predicate Covered(s: Span, ext: seq<Extent>, x: nat) {
    exists e :: e in ext && Covers(s, e, x)
  }

  /** The addresses of a region that no chunk occupies, with a chunk of the region below and another above. */
  ghost function Stranded(s: Span, ext: seq<Extent>): set<nat> {
    set x: nat | x < s.end && SomeBelow(s, ext, x) && SomeBeyond(s, ext, x) && !Covered(s, ext, x)
  }

  ghost function StrandedBytes(spans: seq<Span>, ext: seq<Extent>): nat {
    if spans == [] then 0 else StrandedBytes(spans[..|spans| - 1], ext) + |Stranded(spans[|spans| - 1], ext)|
  }

  /** The uncovered addresses from `reach` up to the last start. */
  ghost function Bare(s: Span, ext: seq<Extent>, reach: nat): set<nat> {
    set x: nat | reach <= x < s.end && SomeBeyond(s, ext, x) && !Covered(s, ext, x)
  }

  predicate Between(a: nat, b: nat, x: nat) {
    a <= x < b
  }

  ghost function Interval(a: nat, b: nat): set<nat> {
    set x: nat | x < b && Between(a, b, x)
  }

  lemma {:induction false} IntervalSize(a: nat, b: nat)
    requires a <= b
    ensures |Interval(a, b)| == b - a
    decreases b
  {
    if a < b {
      IntervalSize(a, b - 1);
      assert Interval(a, b) == Interval(a, b - 1) + {b - 1};
    } else {
      assert Interval(a, b) == {};
    }
  }

  lemma Cons(s: Span, ext: seq<Extent>, x: nat)
    requires ext != []
    ensures SomeBelow(s, ext, x) <==> Below(s, ext[0], x) || SomeBelow(s, ext[1..], x)
    ensures SomeBeyond(s, ext, x) <==> Beyond(s, ext[0], x) || SomeBeyond(s, ext[1..], x)
    ensures Covered(s, ext, x) <==> Covers(s, ext[0], x) || Covered(s, ext[1..], x)
  {
    assert ext == [ext[0]] + ext[1..];
  }

  lemma {:induction false} BareStep(s: Span, ext: seq<Extent>, reach: nat, x: nat)
    requires ext != [] && Proper(ext) && InOrder(ext) && s.Has(ext[0].0) && x < s.end
    ensures x in Bare(s, ext, reach) <==>
            reach <= x < ext[0].0 || x in Bare(s, ext[1..], Max(reach, ext[0].1))
  {
    Cons(s, ext, x);
    if x < ext[0].0 {
      assert !Covered(s, ext[1..], x);
    } else if x < ext[0].1 {
      assert Covers(s, ext[0], x);
    }
  }

  /** The walk counts the uncovered addresses. */
  lemma {:induction false} HolesCount(s: Span, ext: seq<Extent>, reach: nat)
    requires Proper(ext) && InOrder(ext)
    ensures |Bare(s, ext, reach)| == HolesAfter(s, ext, reach)
  {
    if ext == [] {
      assert Bare(s, ext, reach) == {};
    } else {
      var e := ext[0];
      if s.Has(e.0) {
        var gap, rest := Interval(reach, Max(reach, e.0)), Bare(s, ext[1..], Max(reach, e.1));
        HolesCount(s, ext[1..], Max(reach, e.1));
        IntervalSize(reach, Max(reach, e.0));
        forall x: nat | x < s.end
          ensures x in Bare(s, ext, reach) <==> x in gap || x in rest
        {
          BareStep(s, ext, reach, x);
        }
        assert Bare(s, ext, reach) == gap + rest;
        assert gap !! rest;
      } else {
        HolesCount(s, ext[1..], reach);
        forall x: nat
          ensures x in Bare(s, ext, reach) <==> x in Bare(s, ext[1..], reach)
        {
          Cons(s, ext, x);
        }
        assert Bare(s, ext, reach) == Bare(s, ext[1..], reach);
      }
    }
  }

  lemma {:induction false} StrandedCount(s: Span, ext: seq<Extent>)
    requires Proper(ext) && InOrder(ext)
    ensures |Stranded(s, ext)| == Holes(s, ext)
  {
    if ext == [] {
      assert Stranded(s, ext) == {};
    } else if s.Has(ext[0].0) {
      var e, rest := ext[0], ext[1..];
      HolesCount(s, rest, e.1);
      forall x: nat | x < s.end
        ensures x in Stranded(s, ext) <==> x in Bare(s, rest, e.1)
      {
        Cons(s, ext, x);
      }
      assert Stranded(s, ext) == Bare(s, rest, e.1);
    } else {
      StrandedCount(s, ext[1..]);
      forall x: nat
        ensures x in Stranded(s, ext) <==> x in Stranded(s, ext[1..])
      {
        Cons(s, ext, x);
      }
      assert Stranded(s, ext) == Stranded(s, ext[1..]);
    }
  }

  lemma StrandedSorted(s: Span, ext: seq<Extent>)
    ensures Stranded(s, Sorted(ext)) == Stranded(s, ext)
  {
    forall e: Extent
      ensures e in Sorted(ext) <==> e in ext
    {
      SameElements(ext, e);
    }
  }

  // ---------------------------------------------------------------- overlap

  predicate Apart(e: Extent, f: Extent) {
    e.1 <= f.0 || f.1 <= e.0
  }

  ghost predicate Disjoint(ext: seq<Extent>) {
    forall e, f :: e in ext && f in ext && e != f ==> Apart(e, f)
  }

  ghost predicate DisjointIn(s: Span, ext: seq<Extent>) {
    forall i, j :: 0 <= i < j < |ext| && s.Has(ext[i].0) && s.Has(ext[j].0) ==> ext[i].1 <= ext[j].0
  }

  lemma {:induction false} OverlapMeans(s: Span, ext: seq<Extent>, reach: nat)
    requires Proper(ext) && InOrder(ext)
    ensures OverlapAfter(s, ext, reach) == 0 <==>
            DisjointIn(s, ext) && forall i :: 0 <= i < |ext| && s.Has(ext[i].0) ==> reach <= ext[i].0
  {
    if ext != [] {
      var rest := ext[1..];
      if s.Has(ext[0].0) {
        OverlapMeans(s, rest, Max(reach, ext[0].1));
        DisjointCons(s, ext);
        assert Size((ext[0].0, Min(reach, ext[0].1))) == 0 <==> reach <= ext[0].0;
        assert forall i :: 0 <= i < |rest| ==> rest[i] == ext[i + 1];
        assert forall i :: 1 <= i < |ext| ==> ext[i] == rest[i - 1];
      } else {
        OverlapMeans(s, rest, reach);
        DisjointCons(s, ext);
        assert forall i :: 1 <= i < |ext| ==> ext[i] == rest[i - 1];
      }
    }
  }

  lemma DisjointCons(s: Span, ext: seq<Extent>)
    requires ext != []
    ensures DisjointIn(s, ext) <==>
            && DisjointIn(s, ext[1..])
            && (s.Has(ext[0].0) ==> forall i :: 0 <= i < |ext[1..]| && s.Has(ext[1..][i].0) ==> ext[0].1 <= ext[1..][i].0)
  {
    var rest := ext[1..];
    assert forall i :: 0 <= i < |rest| ==> rest[i] == ext[i + 1];
    assert forall i :: 1 <= i < |ext| ==> ext[i] == rest[i - 1];
  }

  lemma {:induction false} NoOverlapExactly(s: Span, ext: seq<Extent>)
    requires Proper(ext) && InOrder(ext)
    ensures Overlap(s, ext) == 0 <==> DisjointIn(s, ext)
  {
    if ext != [] {
      DisjointCons(s, ext);
      if s.Has(ext[0].0) {
        OverlapMeans(s, ext[1..], ext[0].1);
      } else {
        NoOverlapExactly(s, ext[1..]);
      }
    }
  }

  lemma {:induction false} InsertDistinct(x: Extent, ext: seq<Extent>)
    requires DistinctStarts(ext) && forall i :: 0 <= i < |ext| ==> ext[i].0 != x.0
    ensures DistinctStarts(Insert(x, ext)) && forall e :: e in Insert(x, ext) ==> e == x || e in ext
  {
    if !(ext == [] || Leq(x, ext[0])) {
      var rest := Insert(x, ext[1..]);
      InsertDistinct(x, ext[1..]);
      forall i | 0 <= i < |rest|
        ensures rest[i].0 != ext[0].0
      {
        assert rest[i] == x || rest[i] in ext[1..];
      }
    }
  }

  /** What sorting leaves: strictly ascending starts, non-empty extents, the same regions. */
  lemma {:induction false} SortedDistinct(ext: seq<Extent>)
    requires DistinctStarts(ext)
    ensures DistinctStarts(Sorted(ext))
  {
    if ext != [] {
      SortedDistinct(ext[1..]);
      forall i | 0 <= i < |Sorted(ext[1..])|
        ensures Sorted(ext[1..])[i].0 != ext[0].0
      {
        SameElements(ext[1..], Sorted(ext[1..])[i]);
      }
      InsertDistinct(ext[0], Sorted(ext[1..]));
    }
  }

  ghost predicate Listed(spans: seq<Span>, ext: seq<Extent>, sorted: seq<Extent>) {
    && Placed(spans, ext) && Placed(spans, sorted) && Proper(sorted)
    && InOrder(sorted) && DistinctStarts(sorted)
    && (forall e :: e in ext <==> e in sorted)
  }

  lemma SortedListed(spans: seq<Span>, ext: seq<Extent>)
    requires Placed(spans, ext) && DistinctStarts(ext)
    ensures Listed(spans, ext, Sorted(ext))
  {
    SortedIsSort(ext);
    SortedDistinct(ext);
    forall e: Extent
      ensures e in ext <==> e in Sorted(ext)
    {
      SameElements(ext, e);
    }
    forall i | 0 <= i < |Sorted(ext)|
      ensures Sorted(ext)[i].0 < Sorted(ext)[i].1
    {
      assert Sorted(ext)[i] in ext;
    }
    assert forall e :: e in Sorted(ext) ==> e in ext;
  }

  lemma DisjointExactly(spans: seq<Span>, ext: seq<Extent>, sorted: seq<Extent>)
    requires Packed(spans) && Listed(spans, ext, sorted)
    ensures Disjoint(ext) <==> forall s :: s in spans ==> DisjointIn(s, sorted)
  {
    if Disjoint(ext) {
      DisjointInOrder(ext, sorted);
    }
    if forall s :: s in spans ==> DisjointIn(s, sorted) {
      forall e, f | e in ext && f in ext && e != f
        ensures Apart(e, f)
      {
        ApartFrom(spans, ext, sorted, e, f);
      }
    }
  }

  lemma DisjointInOrder(ext: seq<Extent>, sorted: seq<Extent>)
    requires Disjoint(ext) && Proper(sorted) && InOrder(sorted) && DistinctStarts(sorted)
    requires forall e :: e in ext <==> e in sorted
    ensures forall i, j :: 0 <= i < j < |sorted| ==> sorted[i].1 <= sorted[j].0
  {
    forall i, j | 0 <= i < j < |sorted|
      ensures sorted[i].1 <= sorted[j].0
    {
      assert Leq(sorted[i], sorted[j]);
      assert Apart(sorted[i], sorted[j]);
    }
  }

  lemma ApartFrom(spans: seq<Span>, ext: seq<Extent>, sorted: seq<Extent>, e: Extent, f: Extent)
    requires Packed(spans) && Listed(spans, ext, sorted) && e in ext && f in ext && e != f
    requires forall s :: s in spans ==> DisjointIn(s, sorted)
    ensures Apart(e, f)
  {
    var p :| 0 <= p < |spans| && Within(spans[p], e);
    var q :| 0 <= q < |spans| && Within(spans[q], f);
    if p == q {
      var i :| 0 <= i < |sorted| && sorted[i] == e;
      var j :| 0 <= j < |sorted| && sorted[j] == f;
      assert DisjointIn(spans[p], sorted);
    }
  }

  // ---------------------------------------------------------------- all regions together

  function Overlaps(spans: seq<Span>, sorted: seq<Extent>): nat {
    if spans == [] then 0 else Overlaps(spans[..|spans| - 1], sorted) + Overlap(spans[|spans| - 1], sorted)
  }

  /** The identity for one region, in terms that do not depend on the order. */
  lemma RegionIdentity(s: Span, ext: seq<Extent>)
    requires Proper(Sorted(ext))
    ensures Width(Over(s, ext)) + Overlap(s, Sorted(ext)) == Over(s, ext).used + |Stranded(s, ext)|
    ensures Overlap(s, Sorted(ext)) == 0 <==> DisjointIn(s, Sorted(ext))
  {
    SortedIsSort(ext);
    OverSorted(s, ext);
    SpanIdentity(s, Sorted(ext));
    StrandedCount(s, Sorted(ext));
    StrandedSorted(s, ext);
    NoOverlapExactly(s, Sorted(ext));
  }

  lemma {:induction false} TotalIdentity(spans: seq<Span>, ext: seq<Extent>)
    requires Proper(Sorted(ext))
    ensures Widths(spans, ext) + Overlaps(spans, Sorted(ext)) == UsedBytes(spans, ext) + StrandedBytes(spans, ext)
    ensures Overlaps(spans, Sorted(ext)) == 0 <==> forall s :: s in spans ==> DisjointIn(s, Sorted(ext))
  {
    if spans != [] {
      var n := |spans| - 1;
      TotalIdentity(spans[..n], ext);
      RegionIdentity(spans[n], ext);
      assert spans == spans[..n] + [spans[n]];
    }
  }

  /** `gap_bytes` as the source floors it. */
  function GapBytes(span: nat, used: nat): nat {
    if span > used then span - used else 0
  }

  /** The unordered pass never reports more than the stranded bytes, and reports exactly them unless chunks
      overlap in a heap that has holes. */
  lemma GapIsStranded(spans: seq<Span>, ext: seq<Extent>)
    requires Packed(spans) && Placed(spans, ext) && DistinctStarts(ext)
    ensures var gap := GapBytes(Widths(spans, ext), UsedBytes(spans, ext));
            && gap <= StrandedBytes(spans, ext)
            && (gap == StrandedBytes(spans, ext) <==> Disjoint(ext) || StrandedBytes(spans, ext) == 0)
  {
    SortedListed(spans, ext);
    TotalIdentity(spans, ext);
    DisjointExactly(spans, ext, Sorted(ext));
  }

  /** Two extents that overlap and a hole: the figure is 30, the stranded bytes are 40. */
  lemma OverlapUnderstates(spans: seq<Span>, ext: seq<Extent>)
    requires spans == [Span(0, 200, 0)] && ext == [(10, 40), (30, 60), (100, 110)]
    ensures Packed(spans) && Placed(spans, ext) && DistinctStarts(ext)
    ensures GapBytes(Widths(spans, ext), UsedBytes(spans, ext)) == 30 && StrandedBytes(spans, ext) == 40
  {
    var s := spans[0];
    assert Within(s, ext[0]) && Within(s, ext[1]) && Within(s, ext[2]);
    assert ext[1..] == [(30, 60), (100, 110)] && ext[2..] == [(100, 110)] && ext[3..] == [];
    assert ext[1..][1..] == ext[2..] && ext[2..][1..] == ext[3..];
    assert spans[..0] == [];
    StrandedCount(s, ext);
    assert Over(s, ext[3..]) == NOTHING && Over(s, ext[2..]) == Acc(100, 110, 10, 1);
    assert Over(s, ext[1..]) == Acc(30, 110, 40, 2) && Over(s, ext) == Acc(10, 110, 70, 3);
    assert HolesAfter(s, ext[2..], 60) == 40;
  }

  /** Distances between neighbours of the sorted list that share the region: the walk the identity replaces. */
  function NeighbourGaps(s: Span, sorted: seq<Extent>): nat {
    if |sorted| < 2 then 0
    else
      (if s.Has(sorted[0].0) && s.Has(sorted[1].0) then Size((sorted[0].1, sorted[1].0)) else 0) +
      NeighbourGaps(s, sorted[1..])
  }

  function AllNeighbourGaps(spans: seq<Span>, sorted: seq<Extent>): nat {
    if spans == [] then 0
    else AllNeighbourGaps(spans[..|spans| - 1], sorted) + NeighbourGaps(spans[|spans| - 1], sorted)
  }

  lemma {:induction false} HolesAreGaps(s: Span, sorted: seq<Extent>)
    requires Proper(sorted) && InOrder(sorted) && DisjointIn(s, sorted)
    ensures Holes(s, sorted) == NeighbourGaps(s, sorted)
    decreases |sorted|
  {
    if |sorted| > 0 {
      var rest := sorted[1..];
      DisjointCons(s, sorted);
      HolesAreGaps(s, rest);
      if s.Has(sorted[0].0) && rest != [] && !s.Has(rest[0].0) {
        NothingFurther(s, rest, sorted[0].1);
      }
    }
  }

  /** Once the sorted list has left a region it does not come back. */
  lemma {:induction false} NothingFurther(s: Span, ext: seq<Extent>, reach: nat)
    requires InOrder(ext) && forall i :: 0 <= i < |ext| ==> s.end <= ext[i].0
    ensures HolesAfter(s, ext, reach) == 0 && Holes(s, ext) == 0
  {
    if ext != [] {
      NothingFurther(s, ext[1..], reach);
    }
  }

  lemma {:induction false} StrandedIsGaps(spans: seq<Span>, ext: seq<Extent>)
    requires Proper(Sorted(ext)) && forall s :: s in spans ==> DisjointIn(s, Sorted(ext))
    ensures StrandedBytes(spans, ext) == AllNeighbourGaps(spans, Sorted(ext))
  {
    if spans != [] {
      var n := |spans| - 1;
      StrandedIsGaps(spans[..n], ext);
      SortedIsSort(ext);
      StrandedCount(spans[n], Sorted(ext));
      StrandedSorted(spans[n], ext);
      HolesAreGaps(spans[n], Sorted(ext));
    }
  }

  /** For disjoint extents the unordered figure is the address-ordered sum of gaps inside each region. */
  lemma GapIsSortedWalk(spans: seq<Span>, ext: seq<Extent>)
    requires Packed(spans) && Placed(spans, ext) && DistinctStarts(ext) && Disjoint(ext)
    ensures GapBytes(Widths(spans, ext), UsedBytes(spans, ext)) == AllNeighbourGaps(spans, Sorted(ext))
  {
    SortedListed(spans, ext);
    DisjointExactly(spans, ext, Sorted(ext));
    GapIsStranded(spans, ext);
    StrandedIsGaps(spans, ext);
  }

  // ---------------------------------------------------------------- the largest hole

  /** `[x, y)` is free of chunks and lies between two chunks of the region. */
  ghost predicate FreeRun(s: Span, ext: seq<Extent>, x: nat, y: nat) {
    && x < y
    && (exists e :: e in ext && s.Has(e.0) && e.1 <= x)
    && (exists e :: e in ext && s.Has(e.0) && y <= e.0)
    && (forall e :: e in ext ==> e.1 <= x || y <= e.0)
  }

  ghost predicate NoLarger(spans: seq<Span>, ext: seq<Extent>, g: nat) {
    forall s, x: nat, y: nat :: s in spans && FreeRun(s, ext, x, y) ==> y <= x + g
  }

  ghost predicate Attained(spans: seq<Span>, ext: seq<Extent>, g: nat) {
    g > 0 ==> exists s, x: nat, y: nat :: s in spans && FreeRun(s, ext, x, y) && y == x + g
  }

  predicate Neighbours(s: Span, sorted: seq<Extent>, i: nat) {
    0 < i < |sorted| && s.Has(sorted[i - 1].0) && s.Has(sorted[i].0)
  }

  /** The last extent of the sorted list that ends by `x`. */
  lemma {:induction false} LastBelow(sorted: seq<Extent>, x: nat, n: nat, i: nat) returns (j: nat)
    requires i < n <= |sorted| && sorted[i].1 <= x
    ensures i <= j < n && sorted[j].1 <= x && forall k :: j < k < n ==> sorted[k].1 > x
    decreases n
  {
    if sorted[n - 1].1 <= x {
      j := n - 1;
    } else {
      j := LastBelow(sorted, x, n - 1, i);
    }
  }

  lemma HoleAmong(s: Span, sorted: seq<Extent>, p: nat, q: nat, x: nat, y: nat) returns (j: nat)
    requires forall i, k :: 0 <= i < k < |sorted| ==> sorted[i].0 <= sorted[k].0
    requires Proper(sorted) && x < y && forall k :: 0 <= k < |sorted| ==> sorted[k].1 <= x || y <= sorted[k].0
    requires p < |sorted| && s.Has(sorted[p].0) && sorted[p].1 <= x
    requires q < |sorted| && s.Has(sorted[q].0) && y <= sorted[q].0
    ensures Neighbours(s, sorted, j) && sorted[j - 1].1 <= x && y <= sorted[j].0
  {
    j := LastBelow(sorted, x, |sorted|, p);
    assert sorted[j].0 < sorted[j].1 <= x < sorted[q].0;
    j := j + 1;
  }

  /** Every hole lies between two neighbours of the sorted list that share its region. */
  lemma HoleBetween(s: Span, ext: seq<Extent>, sorted: seq<Extent>, x: nat, y: nat) returns (j: nat)
    requires InOrder(sorted) && Proper(sorted) && (forall e :: e in ext <==> e in sorted)
    requires FreeRun(s, ext, x, y)
    ensures Neighbours(s, sorted, j) && sorted[j - 1].1 <= x && y <= sorted[j].0
  {
    var e :| e in ext && s.Has(e.0) && e.1 <= x;
    var f :| f in ext && s.Has(f.0) && y <= f.0;
    var p: nat :| p < |sorted| && sorted[p] == e;
    var q: nat :| q < |sorted| && sorted[q] == f;
    forall k | 0 <= k < |sorted|
      ensures sorted[k].1 <= x || y <= sorted[k].0
    {
      assert sorted[k] in ext;
    }
    j := HoleAmong(s, sorted, p, q, x, y);
  }

  /** The extent at `i` and the one before it lie in one region. */
  ghost predicate Shared(spans: seq<Span>, sorted: seq<Extent>, i: nat) {
    exists s :: s in spans && Neighbours(s, sorted, i)
  }

  predicate GapAtMost(sorted: seq<Extent>, i: nat, g: nat) {
    0 < i < |sorted| && sorted[i].0 <= sorted[i - 1].1 + g
  }

  predicate GapIs(sorted: seq<Extent>, i: nat, g: nat) {
    0 < i < |sorted| && sorted[i].0 == sorted[i - 1].1 + g
  }

  ghost predicate Bounded(spans: seq<Span>, sorted: seq<Extent>, n: nat, g: nat) {
    forall i: nat :: i < n && Shared(spans, sorted, i) ==> GapAtMost(sorted, i, g)
  }

  ghost predicate Met(spans: seq<Span>, sorted: seq<Extent>, n: nat, g: nat) {
    g > 0 ==> exists i: nat :: i < n && Shared(spans, sorted, i) && GapIs(sorted, i, g)
  }

  lemma BestIsLargest(spans: seq<Span>, ext: seq<Extent>, sorted: seq<Extent>, g: nat)
    requires Listed(spans, ext, sorted) && Bounded(spans, sorted, |sorted|, g)
    ensures NoLarger(spans, ext, g)
  {
    forall s, x: nat, y: nat | s in spans && FreeRun(s, ext, x, y)
      ensures y <= x + g
    {
      var j := HoleBetween(s, ext, sorted, x, y);
      assert Shared(spans, sorted, j);
    }
  }

  /** No earlier extent reaches beyond the one just below `i`. */
  ghost predicate Clear(sorted: seq<Extent>, i: nat) {
    0 < i < |sorted| && forall k :: 0 <= k < i ==> sorted[k].1 <= sorted[i - 1].1
  }

  /** Some gap of this size has nothing from below reaching into it. */
  ghost predicate ClearGap(spans: seq<Span>, sorted: seq<Extent>, g: nat) {
    g > 0 ==> exists i: nat :: Shared(spans, sorted, i) && GapIs(sorted, i, g) && Clear(sorted, i)
  }

  lemma ClearGapIsHole(spans: seq<Span>, ext: seq<Extent>, sorted: seq<Extent>, i: nat, g: nat)
    requires Listed(spans, ext, sorted) && g > 0
    requires Shared(spans, sorted, i) && GapIs(sorted, i, g) && Clear(sorted, i)
    ensures Attained(spans, ext, g)
  {
    var s :| s in spans && Neighbours(s, sorted, i);
    var a, b := sorted[i - 1], sorted[i];
    assert a in ext && b in ext;
    forall e | e in ext
      ensures e.1 <= a.1 || b.0 <= e.0
    {
      var k :| 0 <= k < |sorted| && sorted[k] == e;
      if k > i {
        assert Leq(b, e);
      }
    }
    assert FreeRun(s, ext, a.1, b.0);
  }

  lemma HoleIsClearGap(spans: seq<Span>, ext: seq<Extent>, sorted: seq<Extent>, s: Span, x: nat, g: nat)
    requires Listed(spans, ext, sorted) && Bounded(spans, sorted, |sorted|, g)
    requires s in spans && FreeRun(s, ext, x, x + g)
    ensures exists i: nat :: Shared(spans, sorted, i) && GapIs(sorted, i, g) && Clear(sorted, i)
  {
    var j := HoleBetween(s, ext, sorted, x, x + g);
    assert Shared(spans, sorted, j);
    forall k | 0 <= k < j
      ensures sorted[k].1 <= sorted[j - 1].1
    {
      assert sorted[k] in ext;
      assert k < j - 1 ==> Leq(sorted[k], sorted[j - 1]);
    }
    assert GapIs(sorted, j, g) && Clear(sorted, j);
  }

  /** Exactly when the largest gap of the walk is a real hole: one of that size has nothing from below
      reaching into it.  Overlaps elsewhere do no harm. */
  lemma AttainedExactly(spans: seq<Span>, ext: seq<Extent>, sorted: seq<Extent>, g: nat)
    requires Listed(spans, ext, sorted) && Bounded(spans, sorted, |sorted|, g)
    ensures Attained(spans, ext, g) <==> ClearGap(spans, sorted, g)
  {
    if g > 0 {
      if Attained(spans, ext, g) {
        var s, x: nat, y: nat :| s in spans && FreeRun(s, ext, x, y) && y == x + g;
        HoleIsClearGap(spans, ext, sorted, s, x, g);
      }
      if i: nat :| Shared(spans, sorted, i) && GapIs(sorted, i, g) && Clear(sorted, i) {
        ClearGapIsHole(spans, ext, sorted, i, g);
      }
    }
  }

  /** In particular it is for disjoint extents. */
  lemma DisjointIsClear(spans: seq<Span>, ext: seq<Extent>, sorted: seq<Extent>, g: nat)
    requires Listed(spans, ext, sorted) && Disjoint(ext) && Met(spans, sorted, |sorted|, g)
    ensures ClearGap(spans, sorted, g)
  {
    if g > 0 {
      var i: nat :| i < |sorted| && Shared(spans, sorted, i) && GapIs(sorted, i, g);
      forall k | 0 <= k < i
        ensures sorted[k].1 <= sorted[i - 1].1
      {
        if k < i - 1 {
          assert Leq(sorted[k], sorted[i - 1]);
          assert Apart(sorted[k], sorted[i - 1]);
        }
      }
      assert Clear(sorted, i);
    }
  }

  /** A chunk that ends inside an earlier one makes the walk see a hole where there is none. */
  lemma NestedOverstates(spans: seq<Span>, ext: seq<Extent>)
    requires spans == [Span(0, 100, 0)] && ext == [(10, 60), (20, 30), (60, 90)]
    ensures Bounded(spans, ext, 3, 30) && Met(spans, ext, 3, 30) && !Attained(spans, ext, 30)
  {
    assert spans[0] in spans && Neighbours(spans[0], ext, 2);
    assert Shared(spans, ext, 2) && GapIs(ext, 2, 30);
    assert ext[0] in ext && ext[2] in ext;
    assert forall e :: e in ext ==> 30 <= e.1 && e.0 <= 60;
    forall s, x: nat, y: nat
      ensures !FreeRun(s, ext, x, y)
    {
    }
  }

  // ---------------------------------------------------------------- the loops

  lemma FootprintsNext(spans: seq<Span>, slots: seq<Chunk>, n: nat)
    requires n < |slots|
    ensures var c, before := slots[n], Footprints(spans, slots[..n]);
            && Footprints(spans, slots[..n + 1]) ==
                 (if Measurable(c) && Foot(spans, c).Some? then before + [Foot(spans, c).value] else before)
            && Outside(spans, slots[..n + 1]) ==
                 Outside(spans, slots[..n]) + (if Measurable(c) && Foot(spans, c).None? then 1 else 0)
  {
    assert slots[..n + 1][..n] == slots[..n];
  }

  ghost predicate Tallied(spans: seq<Span>, ext: seq<Extent>, acc: seq<Acc>) {
    |acc| == |spans| && forall i :: 0 <= i < |acc| ==> acc[i] == Over(spans[i], ext)
  }

  lemma TallyOne(spans: seq<Span>, ext: seq<Extent>, acc: seq<Acc>, i: nat, e: Extent, acc': seq<Acc>)
    requires Packed(spans) && Tallied(spans, ext, acc) && i < |spans| && spans[i].Has(e.0)
    requires acc' == acc[i := Add(spans[i], acc[i], e)]
    ensures Tallied(spans, ext + [e], acc')
  {
    forall j | 0 <= j < |acc|
      ensures acc'[j] == Over(spans[j], ext + [e])
    {
      OverSnoc(spans[j], ext, e);
    }
  }

  /** One live chunk into its region's totals. */
  method Tally(acc: seq<Acc>, ri: nat, start: nat, end: nat, ghost s: Span) returns (acc': seq<Acc>)
    requires ri < |acc| && start < end && s.Has(start)
    ensures acc' == acc[ri := Add(s, acc[ri], (start, end))]
  {
    var a := acc[ri];
    var lo, hi := a.lo, a.hi;
    if a.chunks == 0 {
      lo, hi := start, end;
    } else {
      if start < lo {
        lo := start;
      }
      if end > hi {
        hi := end;
      }
    }
    acc' := acc[ri := Acc(lo, hi, a.used + (end - start), a.chunks + 1)];
  }

  /** The bytes a chunk occupies in the region its pointer lies in, if it is live and in one. */
  method Locate(regions: RegionMap, c: Chunk) returns (at: Option<nat>, start: nat, end: nat)
    requires regions.Valid() && Measurable(c)
    ensures at.None? <==> Foot(regions.spans, c).None?
    ensures at.Some? ==> at.value < |regions.spans| && Within(regions.spans[at.value], (start, end)) &&
                         Foot(regions.spans, c) == Some((start, end))
  {
    start, end := c.key, c.key + c.usable + OVERHEAD;
    at := regions.SpanAtAddr(c.key);
    if at.None? {
      FootNone(regions.spans, c);
    } else {
      FootAt(regions.spans, at.value, c);
      if end > regions.spans[at.value].end {
        end := regions.spans[at.value].end;
      }
    }
  }

  /** The linear pass: every region's totals over the footprints, in whatever order the slots hold them. */
  method Measure(regions: RegionMap, slots: seq<Chunk>, collect: bool)
    returns (acc: seq<Acc>, extents: seq<Extent>, chunks: nat, outside: nat)
    requires regions.Valid()
    ensures Tallied(regions.spans, Footprints(regions.spans, slots), acc)
    ensures extents == if collect then Footprints(regions.spans, slots) else []
    ensures chunks == |Footprints(regions.spans, slots)| && outside == Outside(regions.spans, slots)
    ensures chunks + outside == |LiveSlots(slots)|
    ensures collect ==> |extents| == chunks && forall e :: e in extents <==> IsMeasured(regions.spans, slots, e)
  {
    var spans := regions.spans;
    acc, extents, chunks, outside := seq(|spans|, _ => NOTHING), [], 0, 0;
    ghost var ext := [];
    for i := 0 to |slots|
      invariant ext == Footprints(spans, slots[..i]) && chunks == |ext| && outside == Outside(spans, slots[..i])
      invariant Tallied(spans, ext, acc)
      invariant extents == if collect then ext else []
    {
      FootprintsNext(spans, slots, i);
      if Measurable(slots[i]) {
        var at, start, end := Locate(regions, slots[i]);
        if at.None? {
          outside := outside + 1;
        } else {
          var next := Tally(acc, at.value, start, end, spans[at.value]);
          TallyOne(spans, ext, acc, at.value, (start, end), next);
          acc, ext, chunks := next, ext + [(start, end)], chunks + 1;
          if collect {
            extents := extents + [(start, end)];
          }
        }
      }
    }
    assert slots[..|slots|] == slots;
    AllCounted(spans, slots);
    forall e: Extent
      ensures e in Footprints(spans, slots) <==> IsMeasured(spans, slots, e)
    {
      MeasuredExactly(spans, slots, e);
    }
  }

  lemma {:induction false} OverProper(s: Span, ext: seq<Extent>)
    requires Proper(ext)
    ensures var a := Over(s, ext);
            && (a.chunks > 0 ==> a.lo < a.hi && a.used > 0)
            && (a.chunks == 0 ==> a == NOTHING && forall e :: e in ext ==> !s.Has(e.0))
            && (a.chunks > 0 ==> exists e :: e in ext && s.Has(e.0))
  {
    if ext != [] {
      OverProper(s, ext[1..]);
      assert ext == [ext[0]] + ext[1..];
    }
  }

  ghost function Occupied(spans: seq<Span>, ext: seq<Extent>): set<nat> {
    set i: nat | i < |spans| && exists e :: e in ext && spans[i].Has(e.0)
  }

  /** Summed over the regions that hold a live chunk. */
  method Totals(acc: seq<Acc>, ghost spans: seq<Span>, ghost ext: seq<Extent>) returns (regions: nat, span: nat, used: nat)
    requires Tallied(spans, ext, acc) && Proper(ext)
    ensures regions == |Occupied(spans, ext)| && span == Widths(spans, ext) && used == UsedBytes(spans, ext)
  {
    regions, span, used := 0, 0, 0;
    for i := 0 to |acc|
      invariant regions == |Occupied(spans[..i], ext)|
      invariant span == Widths(spans[..i], ext) && used == UsedBytes(spans[..i], ext)
    {
      assert spans[..i + 1][..i] == spans[..i];
      OverProper(spans[i], ext);
      if acc[i].chunks == 0 {
        assert Occupied(spans[..i + 1], ext) == Occupied(spans[..i], ext);
      } else {
        assert Occupied(spans[..i + 1], ext) == Occupied(spans[..i], ext) + {i};
        regions := regions + 1;
        span := span + (acc[i].hi - acc[i].lo);
        used := used + acc[i].used;
      }
    }
    assert spans[..|acc|] == spans;
  }

  /** The neighbours at `i` share a region exactly when the upper one starts before the lower one's region ends. */
  lemma SharedExactly(spans: seq<Span>, sorted: seq<Extent>, i: nat, ri: nat)
    requires Packed(spans) && Placed(spans, sorted) && 0 < i < |sorted| && ri < |spans|
    requires sorted[i - 1].0 <= sorted[i].0
    requires Passed(spans, ri, sorted[i - 1].0) && sorted[i - 1].0 < spans[ri].end
    ensures Shared(spans, sorted, i) <==> sorted[i].0 < spans[ri].end
  {
    var a := sorted[i - 1];
    assert a in sorted;
    var h :| 0 <= h < |spans| && Within(spans[h], a);
    if Shared(spans, sorted, i) {
      var s :| s in spans && Neighbours(s, sorted, i);
    }
    if sorted[i].0 < spans[ri].end {
      assert Neighbours(spans[ri], sorted, i);
    }
  }

  lemma BestNext(spans: seq<Span>, sorted: seq<Extent>, i: nat, g: nat, g': nat)
    requires 0 < i < |sorted| && Bounded(spans, sorted, i, g) && Met(spans, sorted, i, g)
    requires g' == if Shared(spans, sorted, i) then Max(g, Size((sorted[i - 1].1, sorted[i].0))) else g
    ensures Bounded(spans, sorted, i + 1, g') && Met(spans, sorted, i + 1, g')
  {
    forall k: nat | k < i + 1 && Shared(spans, sorted, k)
      ensures GapAtMost(sorted, k, g')
    {
      assert k < i ==> GapAtMost(sorted, k, g);
    }
    if g' > g {
      assert GapIs(sorted, i, g');
    }
  }

  ghost predicate Passed(spans: seq<Span>, ri: nat, a: nat) {
    forall q :: 0 <= q < ri && q < |spans| ==> spans[q].end <= a
  }

  /** Moves the region cursor to the region of the next extent. */
  method Advance(spans: seq<Span>, from: nat, a: Extent) returns (ri: nat)
    requires Passed(spans, from, a.0) && exists i :: 0 <= i < |spans| && Within(spans[i], a)
    ensures ri < |spans| && Passed(spans, ri, a.0) && a.0 < spans[ri].end
  {
    ri := from;
    ghost var h :| 0 <= h < |spans| && Within(spans[h], a);
    while ri < |spans| && spans[ri].end <= a.0
      invariant ri <= h && Passed(spans, ri, a.0)
    {
      ri := ri + 1;
    }
  }

  /** One cursor walks the sorted extents and the regions together. */
  method LargestGap(spans: seq<Span>, sorted: seq<Extent>, ghost ext: seq<Extent>) returns (largest: nat)
    requires Packed(spans) && Listed(spans, ext, sorted) && sorted != []
    ensures Bounded(spans, sorted, |sorted|, largest) && Met(spans, sorted, |sorted|, largest)
    ensures NoLarger(spans, ext, largest)
    ensures Attained(spans, ext, largest) <==> ClearGap(spans, sorted, largest)
    ensures Disjoint(ext) ==> Attained(spans, ext, largest)
  {
    largest := 0;
    var ri := 0;
    for i := 1 to |sorted|
      invariant Passed(spans, ri, sorted[i - 1].0)
      invariant Bounded(spans, sorted, i, largest) && Met(spans, sorted, i, largest)
    {
      var a, b := sorted[i - 1], sorted[i];
      ghost var best := largest;
      assert a in sorted && Leq(a, b);
      ri := Advance(spans, ri, a);
      if b.0 < spans[ri].end && b.0 > a.1 {
        var hole := b.0 - a.1;
        if hole > largest {
          largest := hole;
        }
      }
      SharedExactly(spans, sorted, i, ri);
      BestNext(spans, sorted, i, best, largest);
    }
    BestIsLargest(spans, ext, sorted, largest);
    AttainedExactly(spans, ext, sorted, largest);
    if Disjoint(ext) {
      DisjointIsClear(spans, ext, sorted, largest);
    }
  }

  // ---------------------------------------------------------------- one pass

  lemma {:induction false} SumsPositive(spans: seq<Span>, ext: seq<Extent>, e: Extent)
    requires Proper(ext) && e in ext && exists i :: 0 <= i < |spans| && Within(spans[i], e)
    ensures Widths(spans, ext) > 0 && UsedBytes(spans, ext) > 0
  {
    var n := |spans| - 1;
    OverProper(spans[n], ext);
    if !Within(spans[n], e) {
      var i :| 0 <= i < |spans| && Within(spans[i], e);
      assert spans[..n][i] == spans[i];
      SumsPositive(spans[..n], ext, e);
    }
  }

  lemma {:induction false} NothingMeasured(spans: seq<Span>)
    ensures Widths(spans, []) == 0 && UsedBytes(spans, []) == 0
  {
    if spans != [] {
      NothingMeasured(spans[..|spans| - 1]);
    }
  }

  lemma PlacedIsProper(spans: seq<Span>, ext: seq<Extent>)
    requires Placed(spans, ext)
    ensures Proper(ext) && (ext != [] <==> Widths(spans, ext) > 0) && (ext != [] ==> UsedBytes(spans, ext) > 0)
  {
    forall i | 0 <= i < |ext|
      ensures ext[i].0 < ext[i].1
    {
      assert ext[i] in ext;
    }
    if ext != [] {
      SumsPositive(spans, ext, ext[0]);
    } else {
      NothingMeasured(spans);
    }
  }

  lemma PercentInRange(gap: nat, span: nat, used: nat)
    requires span > 0 && used > 0 && gap == GapBytes(span, used)
    ensures 0 <= gap * 100 / span < 100
  {
    assert gap * 100 < span * 100;
  }

  /** What one pass concludes about a table and a region map. */
  ghost predicate Sound(spans: seq<Span>, ext: seq<Extent>, r: Report) {
    && r.chunks == |ext|
    && r.regions == |Occupied(spans, ext)|
    && r.span == Widths(spans, ext) && r.used == UsedBytes(spans, ext)
    && r.gap <= StrandedBytes(spans, ext)
    && (r.gap == StrandedBytes(spans, ext) <==> Disjoint(ext) || StrandedBytes(spans, ext) == 0)
    && (ext == [] ==> r.span == 0 && r.percent == -1)
    && (ext != [] ==> r.span > 0 && 0 <= r.percent < 100 && r.percent == r.gap * 100 / r.span)
    && (r.largestKnown ==> NoLarger(spans, ext, r.largest))
    && (r.largestKnown ==> (Attained(spans, ext, r.largest) <==> ClearGap(spans, Sorted(ext), r.largest)))
    && (r.largestKnown && Disjoint(ext) ==> Attained(spans, ext, r.largest))
    && (!r.largestKnown ==> r.largest == 0)
  }

  /** The whole pass over the table's slots; `size` is the table's record count. */
  method Pass(regions: RegionMap, slots: seq<Chunk>, size: nat, maxSorted: nat) returns (r: Report)
    requires regions.Valid() && Distinct(slots)
    ensures Sound(regions.spans, Footprints(regions.spans, slots), r)
    ensures r.outside == Outside(regions.spans, slots) && r.chunks + r.outside == |LiveSlots(slots)|
    ensures r.largestKnown <==> size <= maxSorted && Footprints(regions.spans, slots) != []
  {
    var spans := regions.spans;
    var collect := |spans| != 0 && size <= maxSorted;
    var acc, extents, chunks, outside := Measure(regions, slots, collect);
    ghost var ext := Footprints(spans, slots);
    FootprintsPlaced(spans, slots);
    FootprintsDistinct(spans, slots);
    PlacedIsProper(spans, ext);
    GapIsStranded(spans, ext);
    var held, span, used := Totals(acc, spans, ext);
    var gap := GapBytes(span, used);
    var percent: int := -1;
    if span != 0 {
      PercentInRange(gap, span, used);
      percent := gap * 100 / span;
    }
    var largest, known := 0, false;
    if collect && extents != [] {
      var sorted := Sorted(extents);
      SortedListed(spans, ext);
      largest := LargestGap(spans, sorted, ext);
      known := true;
    }
    r := Report(span, used, gap, largest, chunks, outside, held, known, percent);
  }

  class FragAnalyzer {
    var report: Report
    var interval: nat
    var lastMs: nat
    var ran: bool
    var maxSorted: nat

    constructor ()
      ensures !ran && lastMs == 0 && interval == 250 && maxSorted == 0x40000 && report.percent == -1
    {
      report, ran, lastMs := Report(0, 0, 0, 0, 0, 0, 0, false, -1), false, 0;
      interval, maxSorted := 250, 0x40000;
    }

    /** The 32-bit clock's difference wraps. */
    predicate Due(now: nat)
      reads this
    {
      !ran || (now - lastMs) % CLOCK >= interval
    }

    /** Due the first time, then when `interval` milliseconds have gone by on a clock that starts again from
        zero after 2^32. */
    lemma DueExactly(now: nat)
      requires now < 0x1_0000_0000 && lastMs < 0x1_0000_0000
      ensures Due(now) <==> !ran || (if lastMs <= now then now >= lastMs + interval else now + 0x1_0000_0000 >= lastMs + interval)
    {
      if now < lastMs {
        assert (now - lastMs + CLOCK) % CLOCK == (now - lastMs) % CLOCK;
      }
    }

    /** Runs a pass when one is due, and says whether a figure the panel shows came out different. */
    method Analyze(regions: RegionMap, slots: seq<Chunk>, size: nat, now: nat) returns (changed: bool)
      requires regions.Valid() && Distinct(slots) && now < CLOCK
      modifies this
      ensures interval == old(interval) && maxSorted == old(maxSorted)
      ensures !old(Due(now)) ==> !changed && report == old(report) && ran == old(ran) && lastMs == old(lastMs)
      ensures old(Due(now)) ==>
                && ran && lastMs == now
                && Sound(regions.spans, Footprints(regions.spans, slots), report)
                && report.outside == Outside(regions.spans, slots)
                && report.chunks + report.outside == |LiveSlots(slots)|
                && (report.largestKnown <==> size <= maxSorted && Footprints(regions.spans, slots) != [])
      ensures changed <==> report.percent != old(report).percent || report.largest != old(report).largest ||
                           report.largestKnown != old(report).largestKnown
    {
      if !Due(now) {
        return false;
      }
      lastMs, ran := now, true;
      var prev := report;
      report := Pass(regions, slots, size, maxSorted);
      return report.percent != prev.percent || report.largest != prev.largest ||
             report.largestKnown != prev.largestKnown;
    }
  }
}
