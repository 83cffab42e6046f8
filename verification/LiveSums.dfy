/** Sums over the records of a chunk table: as a map, and slot by slot. */
module LiveSums {
  import opened RobinHood
  import opened Chunks

  type Measure = Chunk -> nat

  ghost function Sum(m: map<Key, Chunk>, f: Measure): nat
    decreases |m|
  {
    if m == map[] then 0
    else
      var k :| k in m;
      assert (m - {k}).Keys == m.Keys - {k};
      f(m[k]) + Sum(m - {k}, f)
  }

  /** The order of summation does not matter. */
  lemma {:induction false} SumRemove(m: map<Key, Chunk>, k: Key, f: Measure)
    requires k in m
    ensures Sum(m, f) == f(m[k]) + Sum(m - {k}, f)
    decreases |m|
  {
    var x :| x in m && Sum(m, f) == f(m[x]) + Sum(m - {x}, f);
    if x != k {
      assert (m - {x}).Keys == m.Keys - {x} && (m - {k}).Keys == m.Keys - {k};
      SumRemove(m - {x}, k, f);
      SumRemove(m - {k}, x, f);
      assert m - {x} - {k} == m - {k} - {x};
    }
  }

  /** Replacing or adding one record. */
  lemma SumUpdate(m: map<Key, Chunk>, k: Key, c: Chunk, f: Measure)
    ensures Sum(m[k := c], f) + (if k in m then f(m[k]) else 0) == Sum(m, f) + f(c)
  {
    SumRemove(m[k := c], k, f);
    assert m[k := c] - {k} == m - {k};
    if k in m {
      SumRemove(m, k, f);
    } else {
      assert m - {k} == m;
    }
  }

  /** The slot-by-slot sum of a table scan. */
  function SlotSum(s: seq<Chunk>, n: nat, f: Measure): nat
    requires n <= |s|
  {
    if n == 0 then 0 else SlotSum(s, n - 1, f) + (if Occ(s[n - 1]) then f(s[n - 1]) else 0)
  }

  lemma {:induction false} SlotSumIsSum(s: seq<Chunk>, m: map<Key, Chunk>, f: Measure)
    requires Distinct(s) && Rep(s, m)
    ensures SlotSum(s, |s|, f) == Sum(m, f)
  {
    AllFirstMet(s, m);
    var part := PartialSum(s, m, |s|, f);
    forall k | k in m
      ensures k in part
    {
      var x: nat :| At(s, x, k);
      assert Among(s, |s|, k);
    }
    assert part == m;
  }

  lemma {:induction false} PartialSum(s: seq<Chunk>, m: map<Key, Chunk>, n: nat, f: Measure) returns (part: map<Key, Chunk>)
    requires n <= |s| && forall i: nat :: FirstMet(s, m, i)
    ensures Part(s, m, part, n) && SlotSum(s, n, f) == Sum(part, f)
  {
    if n == 0 {
      part := map[];
    } else {
      var before := PartialSum(s, m, n - 1, f);
      PartNext(s, m, before, n - 1);
      var c := s[n - 1];
      SumUpdate(before, c.key, c, f);
      part := if Occ(c) then before[c.key := c] else before;
    }
  }

  lemma {:induction false} SumLeq(m: map<Key, Chunk>, f: Measure, g: Measure)
    requires forall c :: f(c) <= g(c)
    ensures Sum(m, f) <= Sum(m, g)
    decreases |m|
  {
    if m != map[] {
      var k :| k in m;
      assert (m - {k}).Keys == m.Keys - {k};
      SumRemove(m, k, f);
      SumRemove(m, k, g);
      SumLeq(m - {k}, f, g);
    }
  }
}
