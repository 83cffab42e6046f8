/** The order `std::sort` leaves a vector of pairs in: ascending, with the same elements. */
module Sorting {

  type Pair = (nat, nat)

  predicate Leq(a: Pair, b: Pair) {
    a.0 < b.0 || (a.0 == b.0 && a.1 <= b.1)
  }

  ghost predicate InOrder(s: seq<Pair>) {
    forall i, j :: 0 <= i < j < |s| ==> Leq(s[i], s[j])
  }

  function Insert(x: Pair, s: seq<Pair>): seq<Pair> {
    if s == [] || Leq(x, s[0]) then [x] + s else [s[0]] + Insert(x, s[1..])
  }

  function Sorted(s: seq<Pair>): seq<Pair> {
    if s == [] then [] else Insert(s[0], Sorted(s[1..]))
  }

  lemma {:induction false} InsertKeeps(x: Pair, s: seq<Pair>)
    ensures multiset(Insert(x, s)) == multiset(s) + multiset{x}
  {
    if !(s == [] || Leq(x, s[0])) {
      InsertKeeps(x, s[1..]);
      assert s == [s[0]] + s[1..];
    }
  }

  lemma {:induction false} InsertAscending(x: Pair, s: seq<Pair>)
    requires InOrder(s)
    ensures InOrder(Insert(x, s))
  {
    if !(s == [] || Leq(x, s[0])) {
      var rest := Insert(x, s[1..]);
      InsertAscending(x, s[1..]);
      InsertKeeps(x, s[1..]);
      forall j | 0 <= j < |rest|
        ensures Leq(s[0], rest[j])
      {
        assert rest[j] in multiset(rest);
        assert rest[j] == x || rest[j] in s[1..];
      }
    }
  }

  /** Sorting is a permutation into ascending order. */
  lemma {:induction false} SortedIsSort(s: seq<Pair>)
    ensures InOrder(Sorted(s)) && multiset(Sorted(s)) == multiset(s) && |Sorted(s)| == |s|
  {
    if s != [] {
      SortedIsSort(s[1..]);
      InsertKeeps(s[0], Sorted(s[1..]));
      InsertAscending(s[0], Sorted(s[1..]));
      assert s == [s[0]] + s[1..];
      assert |multiset(Sorted(s))| == |multiset(s)|;
    }
  }

  lemma SameElements(s: seq<Pair>, x: Pair)
    ensures x in Sorted(s) <==> x in s
  {
    SortedIsSort(s);
    assert x in multiset(Sorted(s)) <==> x in multiset(s);
  }
}
