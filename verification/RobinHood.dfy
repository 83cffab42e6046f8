/** Circular Robin Hood probing over a sequence of slots: the invariant of `chunk_table.cpp` and what each
    elementary move of its probe, displacement and backward-shift loops does to it.

    The hash is any function into `[0, capacity)`; `Chunks.Fibonacci` is the source's. */
module RobinHood {

  type Key = nat

  datatype Mark = Empty | Live | Freed

  datatype Chunk = Chunk(key: Key, size: nat, usable: nat, allocMs: nat, freeMs: nat, tid: nat,
                         state: Mark, flags: nat, overheadExact: nat)

  const EMPTY_SLOT := Chunk(0, 0, 0, 0, 0, 0, Empty, 0, 0)

  type Hash = (Key, nat) -> nat

  ghost predicate GoodHash(hash: Hash) {
    forall k: Key, n: nat :: n > 0 ==> hash(k, n) < n
  }

  predicate Occ(c: Chunk) {
    !c.state.Empty?
  }

  // ---------------------------------------------------------------- circular positions

  function Succ(n: nat, i: nat): nat {
    if i + 1 < n then i + 1 else 0
  }

  function Pred(n: nat, i: nat): nat
    requires i < n
  {
    if i == 0 then n - 1 else i - 1
  }

  /** How many steps lead from `a` forward to `b`. */
  function Dist(n: nat, a: nat, b: nat): nat
    requires a < n && b < n
  {
    if a <= b then b - a else b + n - a
  }

  /** The slot `d` steps after `a`. */
  function Pos(n: nat, a: nat, d: nat): nat
    requires a < n && d < n
  {
    if a + d < n then a + d else a + d - n
  }

  // ---------------------------------------------------------------- the invariant

  /** `probe_distance`: how far slot `i`'s record sits from its home. */
  function D(hash: Hash, s: seq<Chunk>, i: nat): nat
    requires i < |s| && hash(s[i].key, |s|) < |s|
  {
    Dist(|s|, hash(s[i].key, |s|), i)
  }

  /** A record away from home has an occupied predecessor at least almost as far out. */
  ghost predicate Backed(hash: Hash, s: seq<Chunk>, i: nat)
    requires GoodHash(hash) && i < |s|
  {
    Occ(s[i]) && D(hash, s, i) > 0 ==>
      Occ(s[Pred(|s|, i)]) && D(hash, s, Pred(|s|, i)) + 1 >= D(hash, s, i)
  }

  ghost predicate Ordered(hash: Hash, s: seq<Chunk>)
    requires GoodHash(hash)
  {
    forall i :: 0 <= i < |s| ==> Backed(hash, s, i)
  }

  ghost predicate Distinct(s: seq<Chunk>) {
    forall i, j :: 0 <= i < |s| && 0 <= j < |s| && Occ(s[i]) && Occ(s[j]) && s[i].key == s[j].key ==> i == j
  }

  predicate At(s: seq<Chunk>, i: nat, k: Key) {
    i < |s| && Occ(s[i]) && s[i].key == k
  }

  /** The slots hold exactly the records of the map `m`. */
  ghost predicate Rep(s: seq<Chunk>, m: map<Key, Chunk>) {
    && (forall i :: 0 <= i < |s| && Occ(s[i]) ==> s[i].key in m && m[s[i].key] == s[i])
    && (forall k :: k in m ==> exists i: nat :: At(s, i, k))
  }

  ghost predicate Table(hash: Hash, s: seq<Chunk>, m: map<Key, Chunk>) {
    GoodHash(hash) && Ordered(hash, s) && Distinct(s) && Rep(s, m)
  }

  // ---------------------------------------------------------------- lookups

  /** An empty slot stops every probe run: no record is further from home than from the empty slot. */
  lemma {:induction false} ShortOfEmpty(hash: Hash, s: seq<Chunk>, e: nat, i: nat)
    requires GoodHash(hash) && Ordered(hash, s)
    requires e < |s| && i < |s| && !Occ(s[e]) && Occ(s[i])
    ensures D(hash, s, i) < Dist(|s|, e, i)
    decreases Dist(|s|, e, i)
  {
    var _ := Backed(hash, s, i);
    if D(hash, s, i) > 0 {
      ShortOfEmpty(hash, s, e, Pred(|s|, i));
    }
  }

  /** Every slot on the way from a record's home to the record is occupied, at least as far from home. */
  lemma {:induction false} OnTheWay(hash: Hash, s: seq<Chunk>, p: nat, d: nat)
    requires GoodHash(hash) && Ordered(hash, s)
    requires p < |s| && Occ(s[p]) && d <= D(hash, s, p)
    ensures var q := Pos(|s|, hash(s[p].key, |s|), d);
            Occ(s[q]) && D(hash, s, q) >= d
  {
    var home := hash(s[p].key, |s|);
    Back(hash, s, p, D(hash, s, p) - d);
    assert Pos(|s|, home, d) == Pos(|s|, p, (if D(hash, s, p) == d then 0 else |s| - (D(hash, s, p) - d)));
  }

  lemma {:induction false} Back(hash: Hash, s: seq<Chunk>, p: nat, m: nat)
    requires GoodHash(hash) && Ordered(hash, s)
    requires p < |s| && Occ(s[p]) && m <= D(hash, s, p)
    ensures var q := Pos(|s|, p, if m == 0 then 0 else |s| - m);
            Occ(s[q]) && D(hash, s, q) + m >= D(hash, s, p)
    decreases m
  {
    if m > 0 {
      var _ := Backed(hash, s, p);
      var q := Pred(|s|, p);
      if D(hash, s, q) >= m - 1 {
        Back(hash, s, q, m - 1);
      }
    }
  }

  // ---------------------------------------------------------------- displacement

  /** Record `rec` is `dist` steps from home on arrival at `slot`, and the slot behind it backs it. */
  ghost predicate Carried(hash: Hash, s: seq<Chunk>, rec: Chunk, slot: nat, dist: nat)
    requires GoodHash(hash)
  {
    && slot < |s|
    && Occ(rec)
    && dist == Dist(|s|, hash(rec.key, |s|), slot)
    && (dist > 0 ==> Occ(s[Pred(|s|, slot)]) && D(hash, s, Pred(|s|, slot)) + 1 >= dist)
    && (forall i :: 0 <= i < |s| && Occ(s[i]) ==> s[i].key != rec.key)
  }

  /** The slot's record is at least as far out: walk past it. */
  lemma PassBy(hash: Hash, s: seq<Chunk>, rec: Chunk, slot: nat, dist: nat, e: nat)
    requires GoodHash(hash) && Ordered(hash, s) && Carried(hash, s, rec, slot, dist)
    requires Occ(s[slot]) && D(hash, s, slot) >= dist
    requires e < |s| && !Occ(s[e])
    ensures Carried(hash, s, rec, Succ(|s|, slot), dist + 1)
    ensures Dist(|s|, Succ(|s|, slot), e) < Dist(|s|, slot, e)
  {
    ShortOfEmpty(hash, s, e, slot);
  }

  /** The slot's record is closer to home: take the slot, carry its record on. */
  lemma Displace(hash: Hash, s: seq<Chunk>, rec: Chunk, slot: nat, dist: nat, e: nat)
    requires GoodHash(hash) && Ordered(hash, s) && Distinct(s) && Carried(hash, s, rec, slot, dist)
    requires Occ(s[slot]) && D(hash, s, slot) < dist
    requires e < |s| && !Occ(s[e])
    ensures var s' := s[slot := rec];
            && Ordered(hash, s') && Distinct(s')
            && Carried(hash, s', s[slot], Succ(|s|, slot), D(hash, s, slot) + 1)
    ensures Dist(|s|, Succ(|s|, slot), e) < Dist(|s|, slot, e)
  {
    var s' := s[slot := rec];
    ShortOfEmpty(hash, s, e, slot);
    forall i | 0 <= i < |s'|
      ensures Backed(hash, s', i)
    {
      var _ := Backed(hash, s, i);
    }
  }

  /** An empty slot ends the insertion. */
  lemma Settle(hash: Hash, s: seq<Chunk>, rec: Chunk, slot: nat, dist: nat)
    requires GoodHash(hash) && Ordered(hash, s) && Distinct(s) && Carried(hash, s, rec, slot, dist)
    requires !Occ(s[slot])
    ensures Ordered(hash, s[slot := rec]) && Distinct(s[slot := rec])
  {
    var s' := s[slot := rec];
    forall i | 0 <= i < |s'|
      ensures Backed(hash, s', i)
    {
      var _ := Backed(hash, s, i);
    }
  }

  // ---------------------------------------------------------------- backward shift

  /** The slots with the hole at `i` emptied; `Ordered` everywhere except just after the hole, whose record
      can step back into it. */
  ghost predicate Hole(hash: Hash, t: seq<Chunk>, i: nat)
    requires GoodHash(hash)
  {
    && i < |t| && |t| > 1 && !Occ(t[i])
    && var j := Succ(|t|, i);
    && (forall x :: 0 <= x < |t| && x != j ==> Backed(hash, t, x))
    && (Occ(t[j]) && D(hash, t, j) > 1 ==>
          Occ(t[Pred(|t|, i)]) && D(hash, t, Pred(|t|, i)) + 2 >= D(hash, t, j))
  }

  lemma OpenHole(hash: Hash, s: seq<Chunk>, i: nat)
    requires GoodHash(hash) && Ordered(hash, s) && i < |s| && |s| > 2 && Occ(s[i])
    ensures Hole(hash, s[i := EMPTY_SLOT], i)
  {
    var t := s[i := EMPTY_SLOT];
    var j := Succ(|t|, i);
    var _ := (Backed(hash, s, i), Backed(hash, s, j));
    forall x | 0 <= x < |t| && x != j
      ensures Backed(hash, t, x)
    {
      var _ := Backed(hash, s, x);
    }
  }

  lemma ShiftBack(hash: Hash, t: seq<Chunk>, i: nat)
    requires GoodHash(hash) && Hole(hash, t, i) && |t| > 2
    requires var j := Succ(|t|, i); Occ(t[j]) && D(hash, t, j) > 0
    ensures var j := Succ(|t|, i); Hole(hash, t[i := t[j]][j := EMPTY_SLOT], j)
  {
    var j := Succ(|t|, i);
    var t' := t[i := t[j]][j := EMPTY_SLOT];
    var j' := Succ(|t|, j);
    var _ := Backed(hash, t, j');
    forall x | 0 <= x < |t'| && x != j'
      ensures Backed(hash, t', x)
    {
      var _ := Backed(hash, t, x);
    }
  }

  lemma CloseHole(hash: Hash, t: seq<Chunk>, i: nat)
    requires GoodHash(hash) && Hole(hash, t, i)
    requires var j := Succ(|t|, i); Occ(t[j]) ==> D(hash, t, j) == 0
    ensures Ordered(hash, t)
  {
    var j := Succ(|t|, i);
    assert Backed(hash, t, j);
  }

  // ---------------------------------------------------------------- contents

  lemma RepReplace(s: seq<Chunk>, m: map<Key, Chunk>, i: nat, c: Chunk)
    requires Distinct(s) && Rep(s, m) && i < |s| && Occ(s[i]) && Occ(c)
    requires forall x :: 0 <= x < |s| && Occ(s[x]) && x != i ==> s[x].key != c.key
    ensures Rep(s[i := c], (m - {s[i].key})[c.key := c])
  {
    var s', m' := s[i := c], (m - {s[i].key})[c.key := c];
    forall k | k in m'
      ensures exists x: nat :: At(s', x, k)
    {
      if k == c.key {
        assert At(s', i, k);
      } else {
        var x: nat :| At(s, x, k);
        assert At(s', x, k);
      }
    }
  }

  lemma RepAdd(s: seq<Chunk>, m: map<Key, Chunk>, i: nat, c: Chunk)
    requires Rep(s, m) && i < |s| && !Occ(s[i]) && Occ(c)
    requires forall x :: 0 <= x < |s| && Occ(s[x]) ==> s[x].key != c.key
    ensures Rep(s[i := c], m[c.key := c])
  {
    var s', m' := s[i := c], m[c.key := c];
    forall k | k in m'
      ensures exists x: nat :: At(s', x, k)
    {
      if k == c.key {
        assert At(s', i, k);
      } else {
        var x: nat :| At(s, x, k);
        assert At(s', x, k);
      }
    }
  }

  lemma RepRemove(s: seq<Chunk>, m: map<Key, Chunk>, i: nat)
    requires Distinct(s) && Rep(s, m) && i < |s| && Occ(s[i])
    ensures Rep(s[i := EMPTY_SLOT], m - {s[i].key}) && Distinct(s[i := EMPTY_SLOT])
  {
    var s', m' := s[i := EMPTY_SLOT], m - {s[i].key};
    forall k | k in m'
      ensures exists x: nat :: At(s', x, k)
    {
      var x: nat :| At(s, x, k);
      assert At(s', x, k);
    }
  }

  lemma RepMove(s: seq<Chunk>, m: map<Key, Chunk>, i: nat, j: nat)
    requires Distinct(s) && Rep(s, m) && i < |s| && j < |s| && i != j && !Occ(s[i]) && Occ(s[j])
    ensures var s' := s[i := s[j]][j := EMPTY_SLOT]; Rep(s', m) && Distinct(s')
  {
    var s' := s[i := s[j]][j := EMPTY_SLOT];
    forall k | k in m
      ensures exists x: nat :: At(s', x, k)
    {
      var x: nat :| At(s, x, k);
      assert At(s', if x == j then i else x, k);
    }
  }

  /** Fewer records than slots leave an empty slot. */
  lemma HasEmpty(s: seq<Chunk>, m: map<Key, Chunk>) returns (e: nat)
    requires Distinct(s) && Rep(s, m) && |m| < |s|
    ensures e < |s| && !Occ(s[e])
  {
    if forall i :: 0 <= i < |s| ==> Occ(s[i]) {
      var keys := KeysUpTo(s, |s|);
      assert keys <= m.Keys;
      SubsetSize(keys, m.Keys);
      assert false;
    }
    e :| e < |s| && !Occ(s[e]);
  }

  lemma {:induction false} KeysUpTo(s: seq<Chunk>, n: nat) returns (keys: set<Key>)
    requires Distinct(s) && n <= |s| && forall i :: 0 <= i < n ==> Occ(s[i])
    ensures |keys| == n && forall k :: k in keys <==> exists i: nat :: i < n && At(s, i, k)
    decreases n
  {
    if n == 0 {
      keys := {};
    } else {
      var rest := KeysUpTo(s, n - 1);
      assert At(s, n - 1, s[n - 1].key);
      keys := rest + {s[n - 1].key};
    }
  }

  lemma {:induction false} SubsetSize<T>(a: set<T>, b: set<T>)
    requires a <= b
    ensures |a| <= |b|
  {
    if a != {} {
      var x :| x in a;
      SubsetSize(a - {x}, b - {x});
    }
  }
}
