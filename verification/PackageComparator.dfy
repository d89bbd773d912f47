/** How packages of one batch are ordered: by listed group, by group name, and by short name. */
module PackageComparator {
  import opened Packages
  import opened Sorting

  const MAX_SAFE_INTEGER := 9007199254740991

  /** Group priorities, and the collation behind `localeCompare`. */
  datatype Ordering = Ordering(groupOrder: seq<string>, locale: (string, string) -> int)

  /** A collation is a total order in which only equal strings compare as equal. */
  ghost predicate Lawful(o: Ordering) {
    TotalPreorder(o.locale) && forall a, b :: o.locale(a, b) == 0 <==> a == b
  }

  function IndexOf(s: seq<string>, x: string): int {
    if s == [] then -1
    else if s[0] == x then 0
    else
      var i := IndexOf(s[1..], x);
      if i == -1 then -1 else i + 1
  }

  function GroupRank(o: Ordering, group: string): int {
    var i := IndexOf(o.groupOrder, group);
    if i == -1 then MAX_SAFE_INTEGER else i
  }

  function ComparePackages(o: Ordering, a: Package, b: Package): int {
    var byRank := GroupRank(o, a.group) - GroupRank(o, b.group);
    var byGroup := o.locale(a.group, b.group);
    if byRank != 0 then byRank else if byGroup != 0 then byGroup else o.locale(a.short, b.short)
  }

  function Comparator(o: Ordering): (Package, Package) -> int {
    (a, b) => ComparePackages(o, a, b)
  }

  lemma ComparatorIsTotalOrder(o: Ordering)
    requires Lawful(o)
    ensures TotalPreorder(Comparator(o))
    ensures forall a, b :: Comparator(o)(a, b) == 0 <==> a.group == b.group && a.short == b.short
  {
    var cmp := Comparator(o);
    forall a, b ensures cmp(a, b) < 0 <==> cmp(b, a) > 0 {
      assert o.locale(a.group, b.group) < 0 <==> o.locale(b.group, a.group) > 0;
      assert o.locale(a.short, b.short) < 0 <==> o.locale(b.short, a.short) > 0;
    }
    forall a, b, c | cmp(a, b) <= 0 && cmp(b, c) <= 0 ensures cmp(a, c) <= 0 {
      ComparePackagesTransitive(o, a, b, c);
    }
  }

  lemma ComparePackagesTransitive(o: Ordering, a: Package, b: Package, c: Package)
    requires Lawful(o) && ComparePackages(o, a, b) <= 0 && ComparePackages(o, b, c) <= 0
    ensures ComparePackages(o, a, c) <= 0
  {
    if a.group == b.group && b.group == c.group {
      assert o.locale(a.short, c.short) <= 0;
    }
  }

  // ---------- What the comparator means ----------

  /** `x` is listed, and `y` is not listed at or before its first place. */
  ghost predicate ListedBefore(order: seq<string>, x: string, y: string) {
    exists i :: 0 <= i < |order| && order[i] == x && y !in order[..i + 1]
  }

  /**
   * A package of an earlier listed group precedes one of a later or unlisted group; unlisted
   * groups go by name, and so do the packages of one group.
   */
  ghost predicate Precedes(o: Ordering, a: Package, b: Package) {
    || ListedBefore(o.groupOrder, a.group, b.group)
    || (a.group !in o.groupOrder && b.group !in o.groupOrder && o.locale(a.group, b.group) < 0)
    || (a.group == b.group && o.locale(a.short, b.short) < 0)
  }

  /** The list is no longer than an array can be, so its positions stay below the rank of unlisted groups. */
  ghost predicate Indexable(o: Ordering) {
    |o.groupOrder| <= MAX_SAFE_INTEGER
  }

  lemma {:induction false} FirstPlace(s: seq<string>, x: string)
    ensures IndexOf(s, x) == -1 <==> x !in s
    ensures IndexOf(s, x) != -1 ==> 0 <= IndexOf(s, x) < |s| && s[IndexOf(s, x)] == x && x !in s[..IndexOf(s, x)]
  {
    if s != [] {
      FirstPlace(s[1..], x);
      assert s == [s[0]] + s[1..];
      var i := IndexOf(s[1..], x);
      if s[0] != x && i != -1 {
        assert s[..i + 1] == [s[0]] + s[1..][..i];
      }
    }
  }

  lemma {:induction false} NotWithin(s: seq<string>, i: nat, n: nat, x: string)
    requires i < |s| && s[i] == x && n <= |s| && x !in s[..n]
    ensures n <= i
  {
    assert forall k :: 0 <= k < n ==> s[k] == s[..n][k] && s[..n][k] in s[..n];
  }

  lemma {:induction false} RankBefore(o: Ordering, x: string, y: string)
    requires Indexable(o)
    ensures GroupRank(o, x) < GroupRank(o, y) <==> ListedBefore(o.groupOrder, x, y)
  {
    var order, i, j := o.groupOrder, IndexOf(o.groupOrder, x), IndexOf(o.groupOrder, y);
    FirstPlace(order, x);
    FirstPlace(order, y);
    if GroupRank(o, x) < GroupRank(o, y) {
      assert j != -1 ==> order[..i + 1] == order[..j][..i + 1];
      assert order[i] == x && y !in order[..i + 1];
    }
    if k :| 0 <= k < |order| && order[k] == x && y !in order[..k + 1] {
      NotWithin(order, k, i, x);
      if j != -1 {
        NotWithin(order, j, k + 1, y);
      }
    }
  }

  lemma {:induction false} RankTie(o: Ordering, x: string, y: string)
    requires Indexable(o)
    ensures GroupRank(o, x) == GroupRank(o, y) <==> x == y || (x !in o.groupOrder && y !in o.groupOrder)
  {
    FirstPlace(o.groupOrder, x);
    FirstPlace(o.groupOrder, y);
  }

  lemma {:induction false} Lexicographic(o: Ordering, a: Package, b: Package)
    requires GroupRank(o, a.group) < GroupRank(o, b.group) <==> ListedBefore(o.groupOrder, a.group, b.group)
    requires GroupRank(o, a.group) == GroupRank(o, b.group) <==>
             a.group == b.group || (a.group !in o.groupOrder && b.group !in o.groupOrder)
    requires o.locale(a.group, b.group) == 0 <==> a.group == b.group
    ensures ComparePackages(o, a, b) < 0 <==> Precedes(o, a, b)
  {
  }

  /** The comparator puts a package first exactly when it precedes. */
  lemma {:induction false} ComparatorIff(o: Ordering, a: Package, b: Package)
    requires Lawful(o) && Indexable(o)
    ensures Comparator(o)(a, b) < 0 <==> Precedes(o, a, b)
  {
    RankBefore(o, a.group, b.group);
    RankTie(o, a.group, b.group);
    Lexicographic(o, a, b);
  }
}
