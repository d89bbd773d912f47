/** What the coverage coordinator relies on: nothing lost, loads near the optimum, no empty partition. */
module PartitionPlan {
  import opened BucketHeap
  import opened CoveragePartitions
  import opened PartitionBounds
  import opened Sorting

  // ---------- Conservation ----------

  function Times(file: string, files: seq<string>): nat {
    multiset(files)[file]
  }

  lemma TimesAppend(file: string, files: seq<string>, more: seq<string>)
    ensures Times(file, files + more) == Times(file, files) + Times(file, more)
  {
  }

  function TimesIn(file: string): seq<string> -> int {
    (files: seq<string>) => Times(file, files)
  }

  /** How often `file` occurs in all the lists together. */
  ghost function Copies(file: string, buckets: seq<seq<string>>): int {
    Sum(buckets, TimesIn(file))
  }

  /** The lists hold the given files, each as often as it is listed. */
  ghost predicate Splits(buckets: seq<seq<string>>, files: seq<string>) {
    forall file :: Copies(file, buckets) == Times(file, files)
  }

  lemma {:induction false} CopiesUpdate(file: string, buckets: seq<seq<string>>, k: int, files: seq<string>)
    requires 0 <= k < |buckets|
    ensures Copies(file, buckets[k := files]) + Times(file, buckets[k]) == Copies(file, buckets) + Times(file, files)
    decreases |buckets|
  {
    var n := |buckets| - 1;
    if k == n {
      assert buckets[k := files][..n] == buckets[..n];
    } else {
      assert buckets[k := files][..n] == buckets[..n][k := files];
      assert buckets[k := files][n] == buckets[n];
      CopiesUpdate(file, buckets[..n], k, files);
    }
  }

  lemma {:induction false} CopiesPositive(file: string, buckets: seq<seq<string>>)
    ensures Copies(file, buckets) >= 0
    ensures Copies(file, buckets) > 0 <==> exists k :: 0 <= k < |buckets| && file in buckets[k]
    decreases |buckets|
  {
    if buckets != [] {
      var n := |buckets| - 1;
      CopiesPositive(file, buckets[..n]);
      if k :| 0 <= k < |buckets| && file in buckets[k] {
        assert k < n ==> file in buckets[..n][k];
      }
    }
  }

  function IsFile(file: string): Item -> int {
    (x: Item) => if x.file == file then 1 else 0
  }

  ghost function CopiesOf(file: string, items: seq<Item>): int {
    Sum(items, IsFile(file))
  }

  ghost function Lists(m: nat, items: seq<Item>, a: seq<int>): (lists: seq<seq<string>>)
    requires |a| == |items|
    ensures Holds(m, items, a, lists)
  {
    seq(m, k requires 0 <= k < m => FilesIn(items, a, k))
  }

  lemma ListsStep(m: nat, items: seq<Item>, a: seq<int>)
    requires |a| == |items| > 0 && InRange(m, a)
    ensures var n := |items| - 1;
      var before := Lists(m, items[..n], a[..n]);
      0 <= a[n] < m && Lists(m, items, a) == before[a[n] := before[a[n]] + [items[n].file]]
  {
    var n := |items| - 1;
    var before := Lists(m, items[..n], a[..n]);
    forall k | 0 <= k < m
      ensures Lists(m, items, a)[k] == before[a[n] := before[a[n]] + [items[n].file]][k]
    {
      assert Lists(m, items, a)[k] == FilesIn(items, a, k) && before[k] == FilesIn(items[..n], a[..n], k);
    }
  }

  /** Placing items in buckets loses none and repeats none. */
  lemma {:induction false} PlacementConserves(file: string, m: nat, items: seq<Item>, a: seq<int>)
    requires |a| == |items| && InRange(m, a)
    ensures Copies(file, Lists(m, items, a)) == CopiesOf(file, items)
    decreases |items|
  {
    if items == [] {
      CopiesPositive(file, Lists(m, items, a));
    } else {
      var n := |items| - 1;
      var before := Lists(m, items[..n], a[..n]);
      PlacementConserves(file, m, items[..n], a[..n]);
      ListsStep(m, items, a);
      CopiesUpdate(file, before, a[n], before[a[n]] + [items[n].file]);
      TimesAppend(file, before[a[n]], [items[n].file]);
    }
  }

  lemma {:induction false} WeightedCopies(file: string, files: seq<string>, weights: map<string, real>)
    ensures CopiesOf(file, Weighted(files, weights)) == Times(file, files)
    decreases |files|
  {
    if files != [] {
      var n := |files| - 1;
      WeightedCopies(file, files[..n], weights);
      assert Weighted(files, weights)[..n] == Weighted(files[..n], weights);
      assert files == files[..n] + [files[n]];
      TimesAppend(file, files[..n], [files[n]]);
    }
  }

  lemma SortedCopies(file: string, files: seq<string>, weights: map<string, real>, locale: (string, string) -> int)
    ensures CopiesOf(file, SortedItems(files, weights, locale)) == Times(file, files)
  {
    SortSum(Weighted(files, weights), HeavierFirst(locale), IsFile(file));
    WeightedCopies(file, files, weights);
  }

  /** Every file lands in exactly one partition, as often as it was listed. */
  lemma {:induction false} PartitionsConserveFiles(files: seq<string>, weights: map<string, real>, m: nat,
                                                   locale: (string, string) -> int,
                                                   buckets: seq<seq<string>>)
    requires IsLpt(m, SortedItems(files, weights, locale), buckets)
    ensures |buckets| == m && Splits(buckets, files)
  {
    var items := SortedItems(files, weights, locale);
    var a :| Greedy(m, items, a) && Holds(m, items, a, buckets);
    GreedyInRange(m, items, a);
    assert buckets == Lists(m, items, a);
    forall file ensures Copies(file, buckets) == Times(file, files) {
      PlacementConserves(file, m, items, a);
      SortedCopies(file, files, weights, locale);
    }
  }

  /** Files of one weight, zero included, are spread evenly by number. */
  lemma {:induction false} EqualFilesSpread(files: seq<string>, weights: map<string, real>, m: nat,
                                            locale: (string, string) -> int, buckets: seq<seq<string>>,
                                            w: real, k: int, c: int)
    requires IsLpt(m, SortedItems(files, weights, locale), buckets) && 0 <= k < m && 0 <= c < m
    requires w >= 0.0 && forall file :: file in files ==> WeightOf(weights, file) == w
    ensures |buckets| == m && |buckets[k]| <= |buckets[c]| + 1
  {
    var items := SortedItems(files, weights, locale);
    var a :| Greedy(m, items, a) && Holds(m, items, a, buckets);
    SortMembers(Weighted(files, weights), HeavierFirst(locale));
    forall i | 0 <= i < |items| ensures items[i].weight == w {
      assert items[i] in Weighted(files, weights);
    }
    EvenCounts(m, items, a, w, k, c);
  }

  // ---------- Weights of file lists ----------

  /** Sum of a partition's file weights. */
  function PartitionWeight(files: seq<string>, weights: map<string, real>): real {
    if files == [] then 0.0
    else PartitionWeight(files[..|files| - 1], weights) + WeightOf(weights, files[|files| - 1])
  }

  /** Files without a recorded duration count as one each. */
  lemma {:induction false} UnmeasuredWeight(files: seq<string>, weights: map<string, real>)
    requires forall i :: 0 <= i < |files| ==> files[i] !in weights
    ensures PartitionWeight(files, weights) == |files| as real
    decreases |files|
  {
    if files != [] {
      UnmeasuredWeight(files[..|files| - 1], weights);
    }
  }

  /** Each item carries its file's weight. */
  ghost predicate Weighs(items: seq<Item>, weights: map<string, real>) {
    forall i :: 0 <= i < |items| ==> items[i].weight == WeightOf(weights, items[i].file)
  }

  /** The running sum kept in a bucket is the weight of its files. */
  lemma {:induction false} LoadIsPartitionWeight(items: seq<Item>, weights: map<string, real>, a: seq<int>, k: int)
    requires |a| == |items| && Weighs(items, weights)
    ensures Load(items, a, k, Weight()) == PartitionWeight(FilesIn(items, a, k), weights)
    decreases |items|
  {
    if items != [] {
      var n := |items| - 1;
      LoadIsPartitionWeight(items[..n], weights, a[..n], k);
      var before := FilesIn(items[..n], a[..n], k);
      if a[n] == k {
        assert FilesIn(items, a, k)[..|before|] == before;
      } else {
        assert FilesIn(items, a, k) == before;
      }
    }
  }

  lemma {:induction false} WeightAppend(files: seq<string>, more: seq<string>, weights: map<string, real>)
    ensures PartitionWeight(files + more, weights) == PartitionWeight(files, weights) + PartitionWeight(more, weights)
    decreases |more|
  {
    if more == [] {
      assert files + more == files;
    } else {
      var n := |more| - 1;
      assert (files + more)[..|files| + n] == files + more[..n];
      WeightAppend(files, more[..n], weights);
    }
  }

  lemma WeightWithout(files: seq<string>, i: int, weights: map<string, real>)
    requires 0 <= i < |files|
    ensures PartitionWeight(files, weights)
         == PartitionWeight(files[..i] + files[i + 1..], weights) + WeightOf(weights, files[i])
    ensures forall x :: Times(x, files) == Times(x, files[..i] + files[i + 1..]) + if x == files[i] then 1 else 0
  {
    assert files == files[..i] + ([files[i]] + files[i + 1..]);
    WeightAppend(files[..i], [files[i]] + files[i + 1..], weights);
    WeightAppend([files[i]], files[i + 1..], weights);
    WeightAppend(files[..i], files[i + 1..], weights);
    assert [files[i]][..0] == [];
  }

  /** `a` sends the items to buckets with the weights of the lists `other`. */
  ghost predicate SameWeights(items: seq<Item>, weights: map<string, real>, other: seq<seq<string>>, a: seq<int>) {
    && |a| == |items| && InRange(|other|, a)
    && forall k :: 0 <= k < |other| ==> Load(items, a, k, Weight()) == PartitionWeight(other[k], weights)
  }

  /** Any way of splitting the files into lists comes from an assignment of the items. */
  lemma {:induction false} SplitIsAssignment(items: seq<Item>, weights: map<string, real>, other: seq<seq<string>>)
    returns (a: seq<int>)
    requires Weighs(items, weights) && forall file :: Copies(file, other) == CopiesOf(file, items)
    ensures SameWeights(items, weights, other, a)
    decreases |items|
  {
    if items == [] {
      a := [];
      forall k | 0 <= k < |other| ensures other[k] == [] {
        if other[k] != [] {
          CopiesPositive(other[k][0], other);
        }
      }
    } else {
      var n := |items| - 1;
      var file := items[n].file;
      SumNonNegative(items[..n], IsFile(file));
      CopiesPositive(file, other);
      var c :| 0 <= c < |other| && file in other[c];
      var i :| 0 <= i < |other[c]| && other[c][i] == file;
      var without := other[c][..i] + other[c][i + 1..];
      WeightWithout(other[c], i, weights);
      forall x ensures Copies(x, other[c := without]) == CopiesOf(x, items[..n]) {
        CopiesUpdate(x, other, c, without);
      }
      var rest := SplitIsAssignment(items[..n], weights, other[c := without]);
      a := rest + [c];
      assert a[..n] == rest;
    }
  }

  lemma SortedItemsFacts(files: seq<string>, weights: map<string, real>, locale: (string, string) -> int)
    requires TotalPreorder(locale)
    ensures var items := SortedItems(files, weights, locale);
      && |items| == |files| && Weighs(items, weights) && Descending(items)
      && (forall x :: x in items <==> x in Weighted(files, weights))
  {
    var items, cmp := SortedItems(files, weights, locale), HeavierFirst(locale);
    SortMembers(Weighted(files, weights), cmp);
    forall i | 0 <= i < |items| ensures items[i].weight == WeightOf(weights, items[i].file) {
      assert items[i] in Weighted(files, weights);
    }
    HeavierFirstIsPreorder(locale);
    SortSorted(Weighted(files, weights), cmp);
    forall i, j | 0 <= i < j < |items| ensures items[i].weight >= items[j].weight {
      assert cmp(items[i], items[j]) <= 0;
    }
  }

  lemma {:induction false} SortedSplits(files: seq<string>, weights: map<string, real>, locale: (string, string) -> int,
                                        other: seq<seq<string>>)
    requires TotalPreorder(locale) && Splits(other, files)
    requires forall file :: file in files ==> WeightOf(weights, file) >= 0.0
    ensures forall file :: Copies(file, other) == CopiesOf(file, SortedItems(files, weights, locale))
    ensures var items := SortedItems(files, weights, locale);
      NonNegative(items) && Weighs(items, weights) && Descending(items)
  {
    var items := SortedItems(files, weights, locale);
    SortedItemsFacts(files, weights, locale);
    forall file ensures Copies(file, other) == CopiesOf(file, items) {
      SortedCopies(file, files, weights, locale);
    }
    forall i | 0 <= i < |items| ensures items[i].weight >= 0.0 {
      assert items[i] in Weighted(files, weights);
    }
  }

  // ---------- The order within a partition ----------

  /** Heavier, or as heavy and not later by name. */
  ghost predicate FileFirst(weights: map<string, real>, locale: (string, string) -> int, x: string, y: string) {
    WeightOf(weights, x) > WeightOf(weights, y) || (WeightOf(weights, x) == WeightOf(weights, y) && locale(x, y) <= 0)
  }

  lemma {:induction false} FilesAreItems(items: seq<Item>, a: seq<int>, k: int, file: string)
    requires |a| == |items| && file in FilesIn(items, a, k)
    ensures exists i :: 0 <= i < |items| && items[i].file == file
    decreases |items|
  {
    var n := |items| - 1;
    if file in FilesIn(items[..n], a[..n], k) {
      FilesAreItems(items[..n], a[..n], k, file);
      var i :| 0 <= i < n && items[..n][i].file == file;
      assert items[i].file == file;
    } else {
      assert items[n].file == file;
    }
  }

  lemma {:induction false} FilesInOrder(items: seq<Item>, weights: map<string, real>, locale: (string, string) -> int,
                                        a: seq<int>, k: int)
    requires |a| == |items| && Weighs(items, weights) && SortedBy(items, HeavierFirst(locale))
    ensures var files := FilesIn(items, a, k);
      forall i, j :: 0 <= i < j < |files| ==> FileFirst(weights, locale, files[i], files[j])
    decreases |items|
  {
    if items != [] {
      var n := |items| - 1;
      FilesInOrder(items[..n], weights, locale, a[..n], k);
      var before := FilesIn(items[..n], a[..n], k);
      forall i | 0 <= i < |before| ensures FileFirst(weights, locale, before[i], items[n].file) {
        FilesAreItems(items[..n], a[..n], k, before[i]);
        var x :| 0 <= x < n && items[..n][x].file == before[i];
        assert HeavierFirst(locale)(items[x], items[n]) <= 0;
      }
    }
  }

  /** Every partition lists its files heaviest first, and equally heavy ones by name. */
  lemma {:induction false} PartitionsInOrder(files: seq<string>, weights: map<string, real>, m: nat,
                                             locale: (string, string) -> int, buckets: seq<seq<string>>,
                                             k: int, i: nat, j: nat)
    requires TotalPreorder(locale) && IsLpt(m, SortedItems(files, weights, locale), buckets)
    requires 0 <= k < m
    ensures |buckets| == m && (i < j < |buckets[k]| ==> FileFirst(weights, locale, buckets[k][i], buckets[k][j]))
  {
    var items := SortedItems(files, weights, locale);
    var a :| Greedy(m, items, a) && Holds(m, items, a, buckets);
    SortedWeighs(files, weights, locale);
    HeavierFirstIsPreorder(locale);
    SortSorted(Weighted(files, weights), HeavierFirst(locale));
    FilesInOrder(items, weights, locale, a, k);
    assert buckets[k] == FilesIn(items, a, k);
  }

  // ---------- How good the partitions are ----------

  /** Against any other split of the files, no partition is heavier than 4/3 - 1/(3m) times its heaviest part. */
  lemma {:induction false} PartitionsNearOptimal(files: seq<string>, weights: map<string, real>, m: nat,
                                                 locale: (string, string) -> int, buckets: seq<seq<string>>,
                                                 other: seq<seq<string>>, bound: real, k: int)
    requires TotalPreorder(locale) && IsLpt(m, SortedItems(files, weights, locale), buckets)
    requires forall file :: file in files ==> WeightOf(weights, file) >= 0.0
    requires |other| == m && Splits(other, files)
    requires forall c :: 0 <= c < m ==> PartitionWeight(other[c], weights) <= bound
    requires 0 <= k < m
    ensures |buckets| == m && PartitionWeight(buckets[k], weights) <= Ratio(m) * bound
  {
    var items := SortedItems(files, weights, locale);
    var a :| Greedy(m, items, a) && Holds(m, items, a, buckets);
    var cap := Ratio(m) * bound;
    assert Load(items, a, k, Weight()) <= cap by {
      SortedNearOptimal(files, weights, locale, a, other, bound, k);
    }
    SortedWeighs(files, weights, locale);
    PlacedWithin(m, items, weights, a, buckets, k, cap);
  }

  lemma {:induction false} SortedNearOptimal(files: seq<string>, weights: map<string, real>,
                                             locale: (string, string) -> int,
                                             a: seq<int>, other: seq<seq<string>>, bound: real, k: int)
    requires TotalPreorder(locale) && Greedy(|other|, SortedItems(files, weights, locale), a)
    requires forall file :: file in files ==> WeightOf(weights, file) >= 0.0
    requires Splits(other, files) && forall c :: 0 <= c < |other| ==> PartitionWeight(other[c], weights) <= bound
    requires 0 <= k < |other|
    ensures Load(SortedItems(files, weights, locale), a, k, Weight()) <= Ratio(|other|) * bound
  {
    SortedSplits(files, weights, locale, other);
    PlacementNearOptimal(SortedItems(files, weights, locale), weights, a, other, bound, k);
  }

  lemma {:induction false} SortedWeighs(files: seq<string>, weights: map<string, real>, locale: (string, string) -> int)
    requires TotalPreorder(locale)
    ensures Weighs(SortedItems(files, weights, locale), weights)
  {
    SortedItemsFacts(files, weights, locale);
  }

  lemma {:induction false} PlacedWithin(m: nat, items: seq<Item>, weights: map<string, real>, a: seq<int>,
                                        buckets: seq<seq<string>>, k: int, cap: real)
    requires Weighs(items, weights) && Holds(m, items, a, buckets) && 0 <= k < m
    requires Load(items, a, k, Weight()) <= cap
    ensures PartitionWeight(buckets[k], weights) <= cap
  {
    LoadIsPartitionWeight(items, weights, a, k);
  }

  lemma {:induction false} PlacementNearOptimal(items: seq<Item>, weights: map<string, real>, a: seq<int>,
                                                other: seq<seq<string>>, bound: real, k: int)
    requires Weighs(items, weights) && Descending(items) && NonNegative(items) && Greedy(|other|, items, a)
    requires forall file :: Copies(file, other) == CopiesOf(file, items)
    requires forall c :: 0 <= c < |other| ==> PartitionWeight(other[c], weights) <= bound
    requires 0 <= k < |other|
    ensures Load(items, a, k, Weight()) <= Ratio(|other|) * bound
  {
    var alt := SplitIsAssignment(items, weights, other);
    forall c | 0 <= c < |other| ensures Load(items, alt, c, Weight()) <= bound {
      assert PartitionWeight(other[c], weights) <= bound;
    }
    GrahamBound(|other|, items, a, alt, bound, k);
  }

  // ---------- Which inventories fill every partition ----------

  /** Fewer choices than buckets leave some bucket unused. */
  lemma UnusedExists(m: nat, a: seq<int>) returns (k: nat)
    requires |a| < m
    ensures k < m && k !in a
  {
    if forall k :: 0 <= k < m ==> k in a {
      var at := FirstUses(m, a);
      FewDistinct(at, |a|);
    }
    k :| 0 <= k < m && k !in a;
  }

  lemma {:induction false} FirstUses(m: nat, a: seq<int>) returns (at: seq<int>)
    requires forall k :: 0 <= k < m ==> k in a
    ensures |at| == m && forall k :: 0 <= k < m ==> 0 <= at[k] < |a| && a[at[k]] == k
    decreases m
  {
    at := [];
    if m > 0 {
      at := FirstUses(m - 1, a);
      assert (m - 1) in a;
      var i :| 0 <= i < |a| && a[i] == m - 1;
      at := at + [i];
    }
  }

  lemma {:induction false} UsedIffNonEmpty(items: seq<Item>, a: seq<int>, k: int)
    requires |a| == |items|
    ensures k in a <==> FilesIn(items, a, k) != []
    ensures k !in a ==> Load(items, a, k, Weight()) == 0.0
    decreases |items|
  {
    if items != [] {
      var n := |items| - 1;
      UsedIffNonEmpty(items[..n], a[..n], k);
      assert a == a[..n] + [a[n]];
    }
  }

  /** While a bucket is empty and none is below zero, the next item goes to an empty one. */
  lemma NextIsFresh(m: nat, items: seq<Item>, a: seq<int>, k: int)
    requires |a| == |items| < m && NonNegative(items) && Lightest(State(m, items, a), k)
    ensures k !in a
  {
    var s := State(m, items, a);
    var e := UnusedExists(m, a);
    UsedIffNonEmpty(items, a, e);
    UsedIffNonEmpty(items, a, k);
    LoadNonNegative(items, a, k);
    assert s[e] == Bucket(0.0, []) && NoHeavier(s[k], s[e]);
  }

  /** Up to one item per bucket, and all but the last non-negative: every item gets its own bucket. */
  lemma {:induction false} SpreadsOut(m: nat, items: seq<Item>, a: seq<int>)
    requires Greedy(m, items, a) && |items| <= m
    requires forall i :: 0 <= i < |items| - 1 ==> items[i].weight >= 0.0
    ensures Distinct(a)
    decreases |items|
  {
    if items != [] {
      var n := |items| - 1;
      SpreadsOut(m, items[..n], a[..n]);
      NextIsFresh(m, items[..n], a[..n], a[n]);
      forall i, j | 0 <= i < j < |a| ensures a[i] != a[j] {
        assert a[i] == a[..n][i];
        assert j < n ==> a[j] == a[..n][j];
      }
    }
  }

  lemma {:induction false} GreedyPrefix(m: nat, items: seq<Item>, a: seq<int>, n: nat)
    requires Greedy(m, items, a) && n <= |items|
    ensures Greedy(m, items[..n], a[..n])
    decreases |items|
  {
    if n < |items| {
      GreedyPrefix(m, items[..|items| - 1], a[..|items| - 1], n);
      assert items[..|items| - 1][..n] == items[..n] && a[..|items| - 1][..n] == a[..n];
    } else {
      assert items[..n] == items && a[..n] == a;
    }
  }

  /** Enough files with non-negative weights reach every bucket. */
  lemma Fills(m: nat, items: seq<Item>, a: seq<int>, k: int)
    requires Greedy(m, items, a) && |items| >= m && 0 <= k < m
    requires forall i :: 0 <= i < m - 1 ==> items[i].weight >= 0.0
    ensures k in a
  {
    GreedyPrefix(m, items, a, m);
    SpreadsOut(m, items[..m], a[..m]);
    GreedyInRange(m, items[..m], a[..m]);
    Surjective(a[..m], k);
  }

  /** Bucket `j` is below zero and every other bucket is not. */
  ghost predicate OnlyNegative(m: nat, items: seq<Item>, a: seq<int>, j: int)
    requires |a| == |items|
  {
    && 0 <= j < m && Load(items, a, j, Weight()) < 0.0
    && forall k :: 0 <= k < m && k != j ==> Load(items, a, k, Weight()) >= 0.0
  }

  /** The first negative item starts a bucket, and every later one joins it. */
  lemma {:induction false} PilesUp(m: nat, items: seq<Item>, a: seq<int>, p: nat)
    requires Greedy(m, items, a) && p < |items| && p < m
    requires forall i :: 0 <= i < p ==> items[i].weight >= 0.0
    requires forall i :: p <= i < |items| ==> items[i].weight < 0.0
    ensures OnlyNegative(m, items, a, a[p])
    ensures forall i :: p <= i < |items| ==> a[i] == a[p]
    decreases |items|
  {
    var n := |items| - 1;
    if n == p {
      NextIsFresh(m, items[..n], a[..n], a[n]);
      UsedIffNonEmpty(items[..n], a[..n], a[n]);
      forall k | 0 <= k < m && k != a[n] ensures Load(items, a, k, Weight()) >= 0.0 {
        LoadNonNegative(items[..n], a[..n], k);
      }
    } else {
      PilesUp(m, items[..n], a[..n], p);
      LightestIsLeast(m, items[..n], a[..n], a[n], a[p]);
      assert a[n] == a[p];
      forall i | p <= i < |items| ensures a[i] == a[p] {
        assert i < n ==> a[i] == a[..n][i];
      }
      forall k | 0 <= k < m && k != a[p] ensures Load(items, a, k, Weight()) >= 0.0 {
        assert Load(items[..n], a[..n], k, Weight()) >= 0.0;
      }
    }
  }

  /** With two or more negative files too early, some bucket stays empty. */
  lemma LeavesOneEmpty(m: nat, items: seq<Item>, a: seq<int>, p: nat) returns (k: nat)
    requires Greedy(m, items, a) && p < |items| && p + 1 < m
    requires forall i :: 0 <= i < p ==> items[i].weight >= 0.0
    requires forall i :: p <= i < |items| ==> items[i].weight < 0.0
    ensures k < m && k !in a
  {
    PilesUp(m, items, a, p);
    k := UnusedExists(m, a[..p + 1]);
    forall i | 0 <= i < |a| ensures a[i] != k {
      assert a[i] == a[..p + 1][if i < p then i else p];
    }
  }

  function IsNonNegative(): Item -> int {
    (x: Item) => if x.weight >= 0.0 then 1 else 0
  }

  function CountNonNegative(items: seq<Item>): int {
    Sum(items, IsNonNegative())
  }

  lemma {:induction false} CountIsBoundary(items: seq<Item>)
    requires Descending(items)
    ensures 0 <= CountNonNegative(items) <= |items|
    ensures forall i :: 0 <= i < |items| ==> (items[i].weight >= 0.0 <==> i < CountNonNegative(items))
    decreases |items|
  {
    if items != [] {
      var n := |items| - 1;
      CountIsBoundary(items[..n]);
      forall i | 0 <= i < n ensures items[i] == items[..n][i] && items[i].weight >= items[n].weight {
      }
    }
  }

  /** Every bucket is used exactly when the files suffice and at most one needed file is negative. */
  lemma FullIff(m: nat, items: seq<Item>, a: seq<int>)
    requires Greedy(m, items, a) && Descending(items)
    ensures (forall k :: 0 <= k < m ==> k in a) <==> |items| >= m && CountNonNegative(items) >= m - 1
  {
    var p := CountNonNegative(items);
    CountIsBoundary(items);
    if |items| >= m && p >= m - 1 {
      forall k | 0 <= k < m ensures k in a {
        Fills(m, items, a, k);
      }
    } else if |items| < m {
      var k := UnusedExists(m, a);
    } else {
      var k := LeavesOneEmpty(m, items, a, p);
    }
  }

  // ---------- The coordinator ----------

  /** The coordinator's partitions, or its complaint about the first empty one (counted from one). */
  datatype Plan = BadCount | EmptyPartition(position: nat) | Planned(partitions: seq<seq<string>>)

  function HeaviestFirst(weights: map<string, real>): (seq<string>, seq<string>) -> int {
    (a: seq<string>, b: seq<string>) =>
      var left, right := PartitionWeight(a, weights), PartitionWeight(b, weights);
      if right > left then 1 else if right < left then -1 else 0
  }

  ghost predicate FirstEmpty(lists: seq<seq<string>>, i: int) {
    0 <= i < |lists| && lists[i] == [] && forall j :: 0 <= j < i ==> lists[j] != []
  }

  /** Split an inventory over partitions, heaviest partition first, and refuse an empty one. */
  method PlanPartitions(files: seq<string>, weights: map<string, real>, partitions: int,
                        locale: (string, string) -> int)
    returns (r: Plan, ghost buckets: seq<seq<string>>)
    requires TotalPreorder(locale)
    ensures r.BadCount? <==> partitions < 2
    ensures r.Planned? <==>
      partitions >= 2 && |files| >= partitions && CountNonNegative(Weighted(files, weights)) >= partitions - 1
    ensures partitions >= 2 ==> IsLpt(partitions, SortedItems(files, weights, locale), buckets)
    ensures r.Planned? ==>
      multiset(r.partitions) == multiset(buckets) && r.partitions == Sort(buckets, HeaviestFirst(weights))
    ensures r.Planned? ==> |r.partitions| == partitions && Splits(r.partitions, files)
    ensures r.Planned? ==> forall i, j :: 0 <= i < j < partitions ==>
      PartitionWeight(r.partitions[i], weights) >= PartitionWeight(r.partitions[j], weights)
    ensures r.Planned? ==> forall i :: 0 <= i < partitions ==> r.partitions[i] != []
    ensures r.EmptyPartition? ==> FirstEmpty(Sort(buckets, HeaviestFirst(weights)), r.position - 1)
  {
    buckets := [];
    if partitions < 2 {
      return BadCount, buckets;
    }
    var assignment := AssignWeightedPartitions(files, weights, partitions, locale);
    var lists := Sort(assignment.buckets, HeaviestFirst(weights));
    buckets := assignment.buckets;
    PartitionsConserveFiles(files, weights, partitions, locale, buckets);
    SortMembers(buckets, HeaviestFirst(weights));
    FullBuckets(files, weights, partitions, locale, buckets);
    for i := 0 to |lists|
      invariant forall j :: 0 <= j < i ==> lists[j] != []
    {
      if lists[i] == [] {
        assert lists[i] in buckets;
        return EmptyPartition(i + 1), buckets;
      }
    }
    SortedPlan(files, weights, buckets);
    assert forall b :: b in buckets ==> b in lists;
    r := Planned(lists);
  }

  /** All buckets hold a file exactly when the inventory suffices. */
  lemma {:induction false} FullBuckets(files: seq<string>, weights: map<string, real>, m: nat,
                                       locale: (string, string) -> int,
                                       buckets: seq<seq<string>>)
    requires TotalPreorder(locale) && IsLpt(m, SortedItems(files, weights, locale), buckets)
    ensures (forall b :: b in buckets ==> b != []) <==>
      |files| >= m && CountNonNegative(Weighted(files, weights)) >= m - 1
  {
    var items := SortedItems(files, weights, locale);
    var a :| Greedy(m, items, a) && Holds(m, items, a, buckets);
    SortedItemsFacts(files, weights, locale);
    SortSum(Weighted(files, weights), HeavierFirst(locale), IsNonNegative());
    FullIff(m, items, a);
    forall k | 0 <= k < m ensures k in a <==> buckets[k] != [] {
      UsedIffNonEmpty(items, a, k);
    }
    if forall b :: b in buckets ==> b != [] {
      forall k | 0 <= k < m ensures k in a {
        assert buckets[k] in buckets;
      }
    }
  }

  lemma {:induction false} AllNegative(items: seq<Item>)
    requires forall i :: 0 <= i < |items| ==> items[i].weight < 0.0
    ensures CountNonNegative(items) == 0
    decreases |items|
  {
    if items != [] {
      AllNegative(items[..|items| - 1]);
    }
  }

  /** Three files of weight -1 over three partitions: a file for each, yet some partition stays empty. */
  lemma EnoughFilesMayNotFill(locale: (string, string) -> int, buckets: seq<seq<string>>)
    requires TotalPreorder(locale)
    requires IsLpt(3, SortedItems(["a", "b", "c"], map["a" := -1.0, "b" := -1.0, "c" := -1.0], locale), buckets)
    ensures exists b :: b in buckets && b == []
  {
    var files, weights := ["a", "b", "c"], map["a" := -1.0, "b" := -1.0, "c" := -1.0];
    forall i | 0 <= i < |files| ensures Weighted(files, weights)[i].weight < 0.0 {
      assert files[i] in weights;
    }
    AllNegative(Weighted(files, weights));
    FullBuckets(files, weights, 3, locale, buckets);
  }

  lemma {:induction false} SortedPlan(files: seq<string>, weights: map<string, real>, buckets: seq<seq<string>>)
    requires Splits(buckets, files)
    ensures var lists := Sort(buckets, HeaviestFirst(weights));
      && multiset(lists) == multiset(buckets) && Splits(lists, files)
      && forall i, j :: 0 <= i < j < |lists| ==>
           PartitionWeight(lists[i], weights) >= PartitionWeight(lists[j], weights)
  {
    var cmp := HeaviestFirst(weights);
    var lists := Sort(buckets, cmp);
    SortPermutes(buckets, cmp);
    SortSorted(buckets, cmp);
    forall file ensures Copies(file, lists) == Times(file, files) {
      SortSum(buckets, cmp, TimesIn(file));
      assert Copies(file, buckets) == Times(file, files);
    }
    forall i, j | 0 <= i < j < |lists|
      ensures PartitionWeight(lists[i], weights) >= PartitionWeight(lists[j], weights)
    {
      assert cmp(lists[i], lists[j]) <= 0;
    }
  }
}
