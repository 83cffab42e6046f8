/** The packing of scattered heap regions into one coordinate space, `region_map.cpp`. */
module Regions {
  import opened Basics

  datatype Region = Region(start: nat, end: nat, allocatable: bool, readable: bool)

  datatype Span = Span(start: nat, end: nat, flat: nat)
  {
    predicate Has(a: nat) {
      start <= a < end
    }
  }

  predicate Kept(r: Region) {
    r.allocatable && r.start != r.end
  }

  /** What /proc promises: every region ends after it starts, and regions ascend without overlap. */
  ghost predicate Ascending(regions: seq<Region>) {
    && (forall i :: 0 <= i < |regions| ==> regions[i].start <= regions[i].end)
    && (forall i, j :: 0 <= i < j < |regions| ==> regions[i].end <= regions[j].start)
  }

  // ---------------------------------------------------------------- the packing

  /** A fresh packing of the kept regions, end to end from offset zero. */
  function Pack(regions: seq<Region>): seq<Span> {
    if regions == [] then []
    else
      var rest, r := Pack(regions[..|regions| - 1]), regions[|regions| - 1];
      if Kept(r) then rest + [Span(r.start, r.end, Total(rest))] else rest
  }

  function Total(spans: seq<Span>): nat {
    if spans == [] then 0 else Above(spans[|spans| - 1])
  }

  ghost predicate Packed(spans: seq<Span>) {
    && (forall i :: 0 <= i < |spans| ==> spans[i].start < spans[i].end)
    && (forall i, j :: 0 <= i < j < |spans| ==> spans[i].end <= spans[j].start)
    && (forall i, j :: 0 <= i < j < |spans| ==> Above(spans[i]) <= spans[j].flat)
    && (forall i, j :: 0 <= i < j < |spans| && j == i + 1 ==> spans[j].flat == Above(spans[i]))
    && (spans != [] ==> spans[0].flat == 0)
  }

  /** One past the last offset of a span. */
  function Above(s: Span): nat {
    if s.start <= s.end then s.flat + (s.end - s.start) else s.flat
  }

  lemma PackedSnoc(rest: seq<Span>, s: Span)
    requires Packed(rest) && s.start < s.end && s.flat == Total(rest)
    requires forall i :: 0 <= i < |rest| ==> rest[i].end <= s.start
    ensures Packed(rest + [s])
  {
    var t := rest + [s];
    forall i, j | 0 <= i < j < |t|
      ensures t[i].end <= t[j].start && Above(t[i]) <= t[j].flat && (j == i + 1 ==> t[j].flat == Above(t[i]))
    {
    }
  }

  lemma {:induction false} PackIsPacked(regions: seq<Region>)
    requires Ascending(regions)
    ensures Packed(Pack(regions))
  {
    if regions != [] {
      var n := |regions| - 1;
      var rest, r := Pack(regions[..n]), regions[n];
      PackIsPacked(regions[..n]);
      if Kept(r) {
        forall i | 0 <= i < |rest|
          ensures rest[i].end <= r.start
        {
          var j := SpanRegion(regions[..n], i);
        }
        PackedSnoc(rest, Span(r.start, r.end, Total(rest)));
      }
    }
  }

  // ---------------------------------------------------------------- the two translations

  /** The reference translation: the first span that holds the address. */
  function ToFlat(spans: seq<Span>, a: nat): Option<nat> {
    if spans == [] then None
    else if spans[0].Has(a) then Some(spans[0].flat + (a - spans[0].start))
    else ToFlat(spans[1..], a)
  }

  lemma {:induction false} ToFlatAt(spans: seq<Span>, i: nat, a: nat)
    requires i < |spans| && spans[i].Has(a) && forall j :: 0 <= j < i ==> !spans[j].Has(a)
    ensures ToFlat(spans, a) == Some(spans[i].flat + (a - spans[i].start))
  {
    if i > 0 {
      ToFlatAt(spans[1..], i - 1, a);
    }
  }

  lemma {:induction false} ToFlatNone(spans: seq<Span>, a: nat)
    requires forall j :: 0 <= j < |spans| ==> !spans[j].Has(a)
    ensures ToFlat(spans, a) == None
  {
    if spans != [] {
      ToFlatNone(spans[1..], a);
    }
  }

  /** The spans part-way through an in-place repack: `done` written over the front of `before`. */
  function Overlaid(before: seq<Span>, done: seq<Span>): seq<Span> {
    done + (if |done| < |before| then before[|done|..] else [])
  }

  lemma OverlaidNext(before: seq<Span>, done: seq<Span>, s: Span)
    ensures var spans := Overlaid(before, done);
            && (|done| < |spans| <==> |done| < |before|)
            && (|done| < |spans| ==> spans[|done|] == before[|done|] && spans[|done| := s] == Overlaid(before, done + [s]))
            && (|done| >= |spans| ==> spans + [s] == Overlaid(before, done + [s]))
            && (done + [s] <= before <==> done <= before && |done| < |before| && before[|done|] == s)
  {
    if done <= before && |done| < |before| {
      assert before[..|done| + 1] == before[..|done|] + [before[|done|]];
    }
  }

  lemma PackNext(regions: seq<Region>, j: nat)
    requires j < |regions| && regions[j].start <= regions[j].end
    ensures var done, r := Pack(regions[..j]), regions[j];
            var s := Span(r.start, r.end, Total(done));
            && Pack(regions[..j + 1]) == (if Kept(r) then done + [s] else done)
            && Total(done + [s]) == Total(done) + (r.end - r.start)
  {
    assert regions[..j + 1][..j] == regions[..j];
  }

  /** The loop of `rebuild`: writes the packing over the previous one, noticing whether anything moved. */
  method Repack(before: seq<Span>, regions: seq<Region>) returns (spans: seq<Span>, total: nat, changed: bool)
    requires forall i :: 0 <= i < |regions| ==> regions[i].start <= regions[i].end
    ensures spans == Pack(regions) && total == Total(spans)
    ensures changed <==> spans != before
  {
    spans, total, changed := before, 0, false;
    var i := 0;
    ghost var done := [];
    for j := 0 to |regions|
      invariant done == Pack(regions[..j]) && i == |done| && total == Total(done)
      invariant spans == Overlaid(before, done)
      invariant changed <==> !(done <= before)
    {
      var r := regions[j];
      PackNext(regions, j);
      if Kept(r) {
        var s := Span(r.start, r.end, total);
        OverlaidNext(before, done, s);
        if i < |spans| {
          if spans[i] != s {
            changed := true;
          }
          spans := spans[i := s];
        } else {
          spans := spans + [s];
          changed := true;
        }
        total := total + (r.end - r.start);
        i := i + 1;
        done := done + [s];
      }
    }
    assert regions[..|regions|] == regions;
    if i < |spans| {
      spans := spans[..i];
      changed := true;
    }
  }

  class RegionMap {
    var spans: seq<Span>
    var total: nat
    var repacks: nat

    ghost predicate Valid()
      reads this
    {
      Packed(spans) && total == Total(spans)
    }

    constructor ()
      ensures Valid() && spans == [] && repacks == 0
    {
      spans, total, repacks := [], 0, 0;
    }

    /** Repacks in place.  The result is the fresh packing, and the return value says exactly whether any
        start, end or offset, or the number of spans, differs from before. */
    method Rebuild(regions: seq<Region>) returns (changed: bool)
      requires Ascending(regions)
      modifies this
      ensures Valid() && spans == Pack(regions)
      ensures changed <==> spans != old(spans)
      ensures repacks == old(repacks) + (if changed then 1 else 0)
    {
      spans, total, changed := Repack(spans, regions);
      PackIsPacked(regions);
      if changed {
        repacks := repacks + 1;
      }
    }

    /** The binary search over addresses finds the span of an address whenever there is one. */
    method SpanAtAddr(a: nat) returns (at: Option<nat>)
      requires Valid()
      ensures at.Some? ==> at.value < |spans| && spans[at.value].Has(a)
      ensures at.None? ==> forall i :: 0 <= i < |spans| ==> !spans[i].Has(a)
    {
      var lo, hi := 0, |spans|;
      while lo < hi
        invariant 0 <= lo <= hi <= |spans|
        invariant forall i :: 0 <= i < |spans| && spans[i].Has(a) ==> lo <= i < hi
      {
        var mid := lo + (hi - lo) / 2;
        if a < spans[mid].start {
          hi := mid;
        } else if a >= spans[mid].end {
          lo := mid + 1;
        } else {
          return Some(mid);
        }
      }
      return None;
    }

    method SpanAtFlat(f: nat) returns (at: Option<nat>)
      requires Valid()
      ensures at.Some? <==> f < total
      ensures at.Some? ==> at.value < |spans| && spans[at.value].flat <= f < Above(spans[at.value])
    {
      var lo, hi := 0, |spans|;
      if f < total {
        FlatHasSpan(spans, |spans|, f);
      }
      while lo < hi
        invariant 0 <= lo <= hi <= |spans|
        invariant forall i :: 0 <= i < |spans| && spans[i].flat <= f < Above(spans[i]) ==> lo <= i < hi
      {
        var mid := lo + (hi - lo) / 2;
        var s := spans[mid];
        if f < s.flat {
          hi := mid;
        } else if f >= Above(s) {
          lo := mid + 1;
        } else {
          return Some(mid);
        }
      }
      return None;
    }

    method Flat(a: nat) returns (f: Option<nat>)
      requires Valid()
      ensures f == ToFlat(spans, a)
    {
      var at := SpanAtAddr(a);
      if at.None? {
        ToFlatNone(spans, a);
        return None;
      }
      ToFlatAt(spans, at.value, a);
      return Some(spans[at.value].flat + (a - spans[at.value].start));
    }

    /** The inverse: defined on exactly `[0, total)`, and it returns the address packed there. */
    method Address(f: nat) returns (a: Option<nat>)
      requires Valid()
      ensures a.Some? <==> f < total
      ensures a.Some? ==> ToFlat(spans, a.value) == Some(f)
    {
      var at := SpanAtFlat(f);
      if at.None? {
        return None;
      }
      var s := spans[at.value];
      ToFlatAt(spans, at.value, s.start + (f - s.flat));
      return Some(s.start + (f - s.flat));
    }
  }

  lemma {:induction false} FlatHasSpan(spans: seq<Span>, n: nat, f: nat)
    requires Packed(spans) && n <= |spans| && n > 0 && f < Above(spans[n - 1])
    ensures exists i :: 0 <= i < n && spans[i].flat <= f < Above(spans[i])
    decreases n
  {
    if f < spans[n - 1].flat {
      assert n > 1 && spans[n - 1].flat == Above(spans[n - 2]);
      FlatHasSpan(spans, n - 1, f);
    }
  }

  /** Mutual inverses: an address has an offset exactly when it lies in a kept region, distinct addresses get
      distinct offsets, and every offset below the total is the offset of some address. */
  lemma {:induction false} FlatIsInjective(spans: seq<Span>, a: nat, b: nat)
    requires Packed(spans) && ToFlat(spans, a).Some? && ToFlat(spans, a) == ToFlat(spans, b)
    ensures a == b
  {
    var i := FlatSpan(spans, a);
    var j := FlatSpan(spans, b);
  }

  lemma {:induction false} FlatSpan(spans: seq<Span>, a: nat) returns (i: nat)
    requires ToFlat(spans, a).Some?
    ensures i < |spans| && spans[i].Has(a) && ToFlat(spans, a).value == spans[i].flat + (a - spans[i].start)
  {
    if spans[0].Has(a) {
      i := 0;
    } else {
      i := FlatSpan(spans[1..], a);
      i := i + 1;
    }
  }

  /** The domain: addresses of allocatable regions, and their offsets stay below the total. */
  lemma {:induction false} FlatDomain(regions: seq<Region>, a: nat)
    requires Ascending(regions)
    ensures ToFlat(Pack(regions), a).Some? <==>
              exists i :: 0 <= i < |regions| && regions[i].allocatable && regions[i].start <= a < regions[i].end
    ensures ToFlat(Pack(regions), a).Some? ==> ToFlat(Pack(regions), a).value < Total(Pack(regions))
  {
    var spans := Pack(regions);
    PackIsPacked(regions);
    if ToFlat(spans, a).Some? {
      var i := FlatSpan(spans, a);
      var j := SpanRegion(regions, i);
      assert regions[j].start <= a < regions[j].end;
    }
    if j: nat :| j < |regions| && regions[j].allocatable && regions[j].start <= a < regions[j].end {
      var i := RegionSpan(regions, j);
      ToFlatAt(spans, i, a);
    }
  }

  lemma {:induction false} SpanRegion(regions: seq<Region>, i: nat) returns (j: nat)
    requires i < |Pack(regions)|
    ensures j < |regions| && Kept(regions[j])
    ensures Pack(regions)[i].start == regions[j].start && Pack(regions)[i].end == regions[j].end
  {
    var n := |regions| - 1;
    if i < |Pack(regions[..n])| {
      j := SpanRegion(regions[..n], i);
    } else {
      j := n;
    }
  }

  lemma {:induction false} RegionSpan(regions: seq<Region>, j: nat) returns (i: nat)
    requires j < |regions| && Kept(regions[j])
    ensures i < |Pack(regions)|
    ensures Pack(regions)[i].start == regions[j].start && Pack(regions)[i].end == regions[j].end
  {
    var n := |regions| - 1;
    if j < n {
      i := RegionSpan(regions[..n], j);
    } else {
      i := |Pack(regions[..n])|;
    }
  }
}
