/** Stable sorting by a comparator, as `Array.prototype.sort` does it, and sorted listings of sets. */
module Sorting {
  /** The comparator's sign is that of a total preorder. */
  ghost predicate TotalPreorder<T(!new)>(cmp: (T, T) -> int) {
    && (forall a, b :: cmp(a, b) < 0 <==> cmp(b, a) > 0)
    && (forall a, b, c {:trigger cmp(a, b), cmp(b, c), cmp(a, c)} :: cmp(a, b) <= 0 && cmp(b, c) <= 0 ==>
          cmp(a, c) <= 0)
  }

  ghost predicate SortedBy<T>(s: seq<T>, cmp: (T, T) -> int) {
    forall i, j :: 0 <= i < j < |s| ==> cmp(s[i], s[j]) <= 0
  }

  ghost predicate Distinct<T>(s: seq<T>) {
    forall i, j :: 0 <= i < j < |s| ==> s[i] != s[j]
  }

  /** Only equal members compare as equal. */
  ghost predicate Separates<T>(cmp: (T, T) -> int, members: set<T>) {
    forall a, b :: a in members && b in members && cmp(a, b) == 0 ==> a == b
  }

  ghost function Members<T>(s: seq<T>): set<T> {
    set x | x in s
  }

  /** Put `x` before the first element it does not exceed. */
  function Insert<T>(x: T, s: seq<T>, cmp: (T, T) -> int): seq<T> {
    if s == [] then [x]
    else if cmp(x, s[0]) <= 0 then [x] + s
    else [s[0]] + Insert(x, s[1..], cmp)
  }

  function Sort<T>(s: seq<T>, cmp: (T, T) -> int): seq<T> {
    if s == [] then [] else Insert(s[0], Sort(s[1..], cmp), cmp)
  }

  lemma {:induction false} InsertPermutes<T>(x: T, s: seq<T>, cmp: (T, T) -> int)
    ensures multiset(Insert(x, s, cmp)) == multiset{x} + multiset(s)
  {
    if s != [] {
      assert s == [s[0]] + s[1..];
      InsertPermutes(x, s[1..], cmp);
    }
  }

  lemma {:induction false} SortPermutes<T>(s: seq<T>, cmp: (T, T) -> int)
    ensures multiset(Sort(s, cmp)) == multiset(s)
  {
    if s != [] {
      assert s == [s[0]] + s[1..];
      SortPermutes(s[1..], cmp);
      InsertPermutes(s[0], Sort(s[1..], cmp), cmp);
    }
  }

  lemma SortMembers<T>(s: seq<T>, cmp: (T, T) -> int)
    ensures |Sort(s, cmp)| == |s| && forall x :: x in Sort(s, cmp) <==> x in s
  {
    SortPermutes(s, cmp);
    SameMembers(Sort(s, cmp), s);
  }

  lemma SameMembers<T>(s: seq<T>, t: seq<T>)
    requires multiset(s) == multiset(t)
    ensures |s| == |t| && forall x :: x in s <==> x in t
  {
    assert |multiset(s)| == |multiset(t)|;
    forall x ensures x in s <==> x in t {
      assert x in multiset(s) <==> x in multiset(t);
    }
  }

  lemma ConsSorted<T(!new)>(x: T, s: seq<T>, cmp: (T, T) -> int)
    requires SortedBy(s, cmp) && forall y :: y in s ==> cmp(x, y) <= 0
    ensures SortedBy([x] + s, cmp)
  {
    var r := [x] + s;
    forall i, j | 0 <= i < j < |r| ensures cmp(r[i], r[j]) <= 0 {
      assert r[j] == s[j - 1];
    }
  }

  lemma {:induction false} InsertSorted<T(!new)>(x: T, s: seq<T>, cmp: (T, T) -> int)
    requires TotalPreorder(cmp) && SortedBy(s, cmp)
    ensures SortedBy(Insert(x, s, cmp), cmp)
  {
    if s != [] && cmp(x, s[0]) > 0 {
      var rest := Insert(x, s[1..], cmp);
      InsertSorted(x, s[1..], cmp);
      InsertPermutes(x, s[1..], cmp);
      forall y | y in rest ensures cmp(s[0], y) <= 0 {
        assert y in multiset(rest);
        assert y == x || y in s[1..];
      }
      ConsSorted(s[0], rest, cmp);
    } else if s != [] {
      forall y | y in s ensures cmp(x, y) <= 0 {
        assert y == s[0] || cmp(s[0], y) <= 0;
      }
      ConsSorted(x, s, cmp);
    }
  }

  lemma {:induction false} SortSorted<T(!new)>(s: seq<T>, cmp: (T, T) -> int)
    requires TotalPreorder(cmp)
    ensures SortedBy(Sort(s, cmp), cmp)
  {
    if s != [] {
      SortSorted(s[1..], cmp);
      InsertSorted(s[0], Sort(s[1..], cmp), cmp);
    }
  }

  lemma {:induction false} DistinctMultiset<T>(s: seq<T>)
    requires Distinct(s)
    ensures forall x :: multiset(s)[x] <= 1
  {
    if s != [] {
      DistinctMultiset(s[1..]);
      assert s == [s[0]] + s[1..];
      forall x ensures multiset(s)[x] <= 1 {
        assert x == s[0] ==> x !in s[1..];
      }
    }
  }

  lemma SameDistinct<T>(a: seq<T>, b: seq<T>)
    requires Distinct(a) && Distinct(b) && forall x :: x in a <==> x in b
    ensures multiset(a) == multiset(b)
  {
    DistinctMultiset(a);
    DistinctMultiset(b);
    forall x ensures multiset(a)[x] == multiset(b)[x] {
      assert x in a <==> x in multiset(a);
      assert x in b <==> x in multiset(b);
    }
  }

  lemma SortDistinct<T>(s: seq<T>, cmp: (T, T) -> int)
    requires Distinct(s)
    ensures Distinct(Sort(s, cmp))
  {
    var r := Sort(s, cmp);
    DistinctMultiset(s);
    SortPermutes(s, cmp);
    forall i, j | 0 <= i < j < |r| ensures r[i] != r[j] {
      assert r == r[..i] + [r[i]] + r[i + 1..j] + [r[j]] + r[j + 1..];
      assert multiset(r)[r[i]] <= 1;
    }
  }

  ghost predicate IsLeast<T>(m: T, members: set<T>, cmp: (T, T) -> int) {
    m in members && forall x :: x in members ==> cmp(m, x) <= 0
  }

  /** The members of a set in comparator order. */
  ghost function Listing<T(!new)>(members: set<T>, cmp: (T, T) -> int): seq<T> {
    if m :| IsLeast(m, members, cmp) then [m] + Listing(members - {m}, cmp) else []
  }

  /** A sorted sequence without repetition is the listing of its members. */
  lemma {:induction false} ListingUnique<T(!new)>(s: seq<T>, cmp: (T, T) -> int)
    requires TotalPreorder(cmp) && SortedBy(s, cmp) && Separates(cmp, Members(s))
    requires Distinct(s)
    ensures s == Listing(Members(s), cmp)
  {
    if s != [] {
      var members := Members(s);
      assert IsLeast(s[0], members, cmp) by {
        assert cmp(s[0], s[0]) <= 0;
      }
      var l := Listing(members, cmp);
      assert IsLeast(l[0], members, cmp);
      assert cmp(l[0], s[0]) <= 0 && cmp(s[0], l[0]) <= 0;
      assert l[0] == s[0];
      assert Members(s[1..]) == members - {s[0]};
      ListingUnique(s[1..], cmp);
      assert s == [s[0]] + s[1..];
    }
  }

  lemma {:induction false} HasLeast<T(!new)>(members: set<T>, cmp: (T, T) -> int) returns (m: T)
    requires TotalPreorder(cmp) && members != {}
    ensures IsLeast(m, members, cmp)
    decreases |members|
  {
    var x :| x in members;
    assert cmp(x, x) <= 0;
    m := x;
    if members != {x} {
      var rest := HasLeast(members - {x}, cmp);
      m := if cmp(x, rest) <= 0 then x else rest;
      forall y | y in members ensures cmp(m, y) <= 0 {
        assert y != x ==> y in members - {x} && cmp(rest, y) <= 0;
      }
    }
  }

  lemma {:induction false} ListingStep<T(!new)>(members: set<T>, cmp: (T, T) -> int)
    requires TotalPreorder(cmp) && members != {}
    ensures var l := Listing(members, cmp);
      l != [] && IsLeast(l[0], members, cmp) && l == [l[0]] + Listing(members - {l[0]}, cmp)
  {
    var least := HasLeast(members, cmp);
  }

  /** A listing holds exactly the members, in comparator order. */
  lemma {:induction false} ListingFacts<T(!new)>(members: set<T>, cmp: (T, T) -> int)
    requires TotalPreorder(cmp)
    ensures forall x :: x in Listing(members, cmp) <==> x in members
    ensures SortedBy(Listing(members, cmp), cmp)
    decreases |members|
  {
    if members != {} {
      ListingStep(members, cmp);
      var first := Listing(members, cmp)[0];
      ListingFacts(members - {first}, cmp);
      ConsSorted(first, Listing(members - {first}, cmp), cmp);
    }
  }

  // ---------- Sums do not depend on order ----------

  function Sum<T>(s: seq<T>, f: T -> int): int {
    if s == [] then 0 else Sum(s[..|s| - 1], f) + f(s[|s| - 1])
  }

  lemma {:induction false} SumNonNegative<T(!new)>(s: seq<T>, f: T -> int)
    requires forall x :: f(x) >= 0
    ensures Sum(s, f) >= 0
    decreases |s|
  {
    if s != [] {
      SumNonNegative(s[..|s| - 1], f);
    }
  }

  lemma {:induction false} SumAppend<T>(s: seq<T>, t: seq<T>, f: T -> int)
    ensures Sum(s + t, f) == Sum(s, f) + Sum(t, f)
    decreases |t|
  {
    if t == [] {
      assert s + t == s;
    } else {
      var n := |t| - 1;
      assert (s + t)[..|s| + n] == s + t[..n];
      SumAppend(s, t[..n], f);
    }
  }

  lemma SumCons<T>(x: T, s: seq<T>, f: T -> int)
    ensures Sum([x] + s, f) == f(x) + Sum(s, f)
  {
    assert [x][..0] == [];
    SumAppend([x], s, f);
  }

  lemma {:induction false} InsertSum<T>(x: T, s: seq<T>, cmp: (T, T) -> int, f: T -> int)
    ensures Sum(Insert(x, s, cmp), f) == f(x) + Sum(s, f)
    decreases |s|
  {
    SumCons(x, s, f);
    if s == [] {
      assert [x] + s == [x];
    } else if cmp(x, s[0]) > 0 {
      InsertSum(x, s[1..], cmp, f);
      SumCons(s[0], Insert(x, s[1..], cmp), f);
      SumCons(s[0], s[1..], f);
      assert [s[0]] + s[1..] == s;
    }
  }

  lemma {:induction false} SortSum<T>(s: seq<T>, cmp: (T, T) -> int, f: T -> int)
    ensures Sum(Sort(s, cmp), f) == Sum(s, f)
    decreases |s|
  {
    if s != [] {
      SortSum(s[1..], cmp, f);
      InsertSum(s[0], Sort(s[1..], cmp), cmp, f);
      SumCons(s[0], s[1..], f);
      assert [s[0]] + s[1..] == s;
    }
  }
}
