/** How good, how complete and how full a longest-first greedy assignment is. */
module PartitionBounds {
  import opened BucketHeap
  import opened CoveragePartitions

  // ---------- Sums over buckets ----------

  ghost function Total(items: seq<Item>, f: Item -> real): real {
    if items == [] then 0.0 else Total(items[..|items| - 1], f) + f(items[|items| - 1])
  }

  /** The loads of the first `m` buckets together. */
  ghost function LoadsOf(m: nat, items: seq<Item>, a: seq<int>, f: Item -> real): real
    requires |a| == |items|
  {
    if m == 0 then 0.0 else LoadsOf(m - 1, items, a, f) + Load(items, a, m - 1, f)
  }

  lemma {:induction false} LoadsStep(m: nat, items: seq<Item>, a: seq<int>, f: Item -> real)
    requires |a| == |items| > 0
    ensures var n := |items| - 1;
      LoadsOf(m, items, a, f) == LoadsOf(m, items[..n], a[..n], f) + if 0 <= a[n] < m then f(items[n]) else 0.0
    decreases m
  {
    if m > 0 {
      LoadsStep(m - 1, items, a, f);
    }
  }

  lemma {:induction false} LoadsAreTotal(m: nat, items: seq<Item>, a: seq<int>, f: Item -> real)
    requires |a| == |items| && InRange(m, a)
    ensures LoadsOf(m, items, a, f) == Total(items, f)
    decreases |items|
  {
    var n := |items| - 1;
    if items == [] {
      LoadsOfNothing(m, f);
    } else {
      LoadsStep(m, items, a, f);
      LoadsAreTotal(m, items[..n], a[..n], f);
    }
  }

  lemma {:induction false} LoadsOfNothing(m: nat, f: Item -> real)
    ensures LoadsOf(m, [], [], f) == 0.0
  {
    if m > 0 {
      LoadsOfNothing(m - 1, f);
    }
  }

  lemma {:induction false} LoadsAtMost(m: nat, items: seq<Item>, a: seq<int>, f: Item -> real, bound: real)
    requires |a| == |items| && forall k :: 0 <= k < m ==> Load(items, a, k, f) <= bound
    ensures LoadsOf(m, items, a, f) <= m as real * bound
    decreases m
  {
    if m > 0 {
      LoadsAtMost(m - 1, items, a, f, bound);
    }
  }

  lemma {:induction false} LoadsAtLeast(m: nat, items: seq<Item>, a: seq<int>, f: Item -> real, bound: real)
    requires |a| == |items| && forall k :: 0 <= k < m ==> Load(items, a, k, f) >= bound
    ensures LoadsOf(m, items, a, f) >= m as real * bound
    decreases m
  {
    if m > 0 {
      LoadsAtLeast(m - 1, items, a, f, bound);
    }
  }

  /** `bound` is at least the largest load of the assignment `a`. */
  ghost predicate Within(m: nat, items: seq<Item>, a: seq<int>, bound: real) {
    |a| == |items| && InRange(m, a) && forall k :: 0 <= k < m ==> Load(items, a, k, Weight()) <= bound
  }

  lemma WithinPrefix(m: nat, items: seq<Item>, a: seq<int>, bound: real)
    requires items != [] && NonNegative(items) && Within(m, items, a, bound)
    ensures Within(m, items[..|items| - 1], a[..|items| - 1], bound)
  {
    var n := |items| - 1;
    forall k | 0 <= k < m ensures Load(items[..n], a[..n], k, Weight()) <= bound {
      assert Load(items, a, k, Weight()) <= bound;
    }
  }

  lemma {:induction false} LoadNonNegative(items: seq<Item>, a: seq<int>, k: int)
    requires |a| == |items| && NonNegative(items)
    ensures Load(items, a, k, Weight()) >= 0.0
    decreases |items|
  {
    if items != [] {
      LoadNonNegative(items[..|items| - 1], a[..|items| - 1], k);
    }
  }

  // ---------- Heavy items ----------

  /** Two for an item that cannot share a bucket of capacity `bound` with one of weight `w`, else one. */
  ghost function Slots(w: real, bound: real): Item -> real {
    (x: Item) => if x.weight + w > bound then 2.0 else 1.0
  }

  /** With items heavier than a third of the capacity, a bucket within capacity takes at most two slots. */
  lemma {:induction false} FewSlots(items: seq<Item>, a: seq<int>, k: int, w: real, bound: real)
    requires |a| == |items| && (forall i :: 0 <= i < |items| ==> items[i].weight >= w >= 0.0)
    requires 3.0 * w > bound && Load(items, a, k, Weight()) <= bound
    ensures Load(items, a, k, Slots(w, bound)) in {0.0, 1.0, 2.0}
    ensures Load(items, a, k, Slots(w, bound)) == 0.0 ==> Load(items, a, k, Weight()) == 0.0
    ensures Load(items, a, k, Slots(w, bound)) == 1.0 ==> Load(items, a, k, Weight()) >= w
    ensures Load(items, a, k, Slots(w, bound)) == 2.0 ==> Load(items, a, k, Weight()) + w > bound
    decreases |items|
  {
    if items != [] {
      var n := |items| - 1;
      assert items[n].weight >= w;
      FewSlots(items[..n], a[..n], k, w, bound);
    }
  }

  /** A bucket that `w` would overfill has at least two slots taken. */
  lemma {:induction false} ManySlots(items: seq<Item>, a: seq<int>, k: int, w: real, bound: real)
    requires |a| == |items| && w <= bound
    ensures Load(items, a, k, Slots(w, bound)) >= 0.0
    ensures Load(items, a, k, Slots(w, bound)) < 1.0 ==> Load(items, a, k, Weight()) == 0.0
    ensures Load(items, a, k, Slots(w, bound)) < 2.0 ==> Load(items, a, k, Weight()) + w <= bound
    decreases |items|
  {
    if items != [] {
      var n := |items| - 1;
      ManySlots(items[..n], a[..n], k, w, bound);
    }
  }

  /** A heavy last item fits beside a lightest bucket within any achievable capacity. */
  lemma HeavyFits(m: nat, items: seq<Item>, a: seq<int>, alt: seq<int>, bound: real)
    requires items != [] && Descending(items) && NonNegative(items) && Greedy(m, items, a)
    requires Within(m, items, alt, bound) && 3.0 * items[|items| - 1].weight > bound
    ensures Load(items, a, a[|items| - 1], Weight()) <= bound
  {
    var n := |items| - 1;
    var w, before := items[n].weight, items[..n];
    var f := Slots(w, bound);
    LoadNonNegative(items[..n], alt[..n], alt[n]);
    assert Load(items, alt, alt[n], Weight()) <= bound;
    assert w <= bound;
    if Load(items, a, a[n], Weight()) > bound {
      forall k | 0 <= k < m ensures Load(before, a[..n], k, f) >= 2.0 {
        LightestIsLeast(m, before, a[..n], a[n], k);
        ManySlots(before, a[..n], k, w, bound);
      }
      GreedyInRange(m, before, a[..n]);
      LoadsAtLeast(m, before, a[..n], f, 2.0);
      LoadsAreTotal(m, before, a[..n], f);
      forall k | 0 <= k < m ensures Load(items, alt, k, f) <= 2.0 {
        FewSlots(items, alt, k, w, bound);
      }
      LoadsAtMost(m, items, alt, f, 2.0);
      LoadsAreTotal(m, items, alt, f);
    }
  }

  // ---------- Light items ----------

  lemma LightestIsLeast(m: nat, items: seq<Item>, a: seq<int>, k: int, c: int)
    requires |a| == |items| && Lightest(State(m, items, a), k) && 0 <= c < m
    ensures Load(items, a, k, Weight()) <= Load(items, a, c, Weight())
  {
    var s := State(m, items, a);
    assert NoHeavier(s[k], s[c]);
  }

  /** The lightest bucket holds at most an even share. */
  lemma LightestShare(m: nat, items: seq<Item>, a: seq<int>, k: int, load: real)
    requires |a| == |items| && InRange(m, a) && Lightest(State(m, items, a), k) && load == Load(items, a, k, Weight())
    ensures m as real * load <= Total(items, Weight())
  {
    forall c | 0 <= c < m ensures Load(items, a, c, Weight()) >= load {
      LightestIsLeast(m, items, a, k, c);
    }
    LoadsAtLeast(m, items, a, Weight(), load);
    LoadsAreTotal(m, items, a, Weight());
  }

  /** The lightest bucket before the last item, shared out with that item, stays within any achievable capacity. */
  lemma {:induction false} LastShare(m: nat, items: seq<Item>, a: seq<int>, alt: seq<int>, bound: real)
    requires m >= 1 && items != [] && Greedy(m, items, a) && Within(m, items, alt, bound)
    ensures var n := |items| - 1;
      m as real * Load(items[..n], a[..n], a[n], Weight()) + items[n].weight <= m as real * bound
  {
    var n := |items| - 1;
    GreedyInRange(m, items[..n], a[..n]);
    LightestShare(m, items[..n], a[..n], a[n], Load(items[..n], a[..n], a[n], Weight()));
    LoadsAtMost(m, items, alt, Weight(), bound);
    LoadsAreTotal(m, items, alt, Weight());
  }

  /** The bucket that took the last item exceeds any achievable capacity by at most a fraction of that item. */
  lemma {:induction false} LastBucket(m: nat, items: seq<Item>, a: seq<int>, alt: seq<int>, bound: real)
    requires m >= 1 && items != [] && Greedy(m, items, a) && Within(m, items, alt, bound)
    ensures m as real * Load(items, a, a[|items| - 1], Weight())
         <= m as real * bound + (m as real - 1.0) * items[|items| - 1].weight
  {
    var n := |items| - 1;
    LastShare(m, items, a, alt, bound);
    Exceeds(m as real, Load(items[..n], a[..n], a[n], Weight()), items[n].weight, bound);
  }

  lemma Exceeds(m: real, load: real, w: real, bound: real)
    requires m * load + w <= m * bound
    ensures m * (load + w) <= m * bound + (m - 1.0) * w
  {
    assert m * (load + w) == m * load + m * w;
    assert (m - 1.0) * w == m * w - w;
  }

  /** Graham's ratio for longest-first scheduling, 4/3 - 1/(3m). */
  ghost function Ratio(m: nat): real
    requires m >= 1
  {
    (4.0 * m as real - 1.0) / (3.0 * m as real)
  }

  lemma Divide(m: nat, load: real, bound: real)
    requires m >= 1 && 3.0 * m as real * load <= (4.0 * m as real - 1.0) * bound
    ensures load <= Ratio(m) * bound
  {
    var d, n := 3.0 * m as real, 4.0 * m as real - 1.0;
    assert d * (n / d * bound) == n * bound;
  }

  /** No bucket exceeds 4/3 - 1/(3m) times the largest load of any assignment. */
  lemma {:induction false} GrahamBound(m: nat, items: seq<Item>, a: seq<int>, alt: seq<int>, bound: real, k: int)
    requires m >= 1 && Descending(items) && NonNegative(items) && Greedy(m, items, a)
    requires Within(m, items, alt, bound) && 0 <= k < m
    ensures Load(items, a, k, Weight()) <= Ratio(m) * bound
    decreases |items|
  {
    var r := m as real;
    assert 0.0 <= bound by {
      LoadNonNegative(items, alt, 0);
      assert Load(items, alt, 0, Weight()) <= bound;
    }
    if items == [] {
      HeavyCase(r, 0.0, bound);
      Divide(m, 0.0, bound);
    } else {
      var n := |items| - 1;
      if a[n] != k {
        WithinPrefix(m, items, alt, bound);
        GrahamBound(m, items[..n], a[..n], alt[..n], bound, k);
      } else if 3.0 * items[n].weight > bound {
        HeavyFits(m, items, a, alt, bound);
        HeavyCase(r, Load(items, a, k, Weight()), bound);
        Divide(m, Load(items, a, k, Weight()), bound);
      } else {
        LastBucket(m, items, a, alt, bound);
        LightCase(r, Load(items, a, k, Weight()), items[n].weight, bound);
        Divide(m, Load(items, a, k, Weight()), bound);
      }
    }
  }

  lemma ScaleMonotone(r: real, x: real, y: real)
    requires r >= 0.0 && x <= y
    ensures r * x <= r * y
  {
  }

  lemma HeavyCase(r: real, load: real, bound: real)
    requires r >= 1.0 && load <= bound && bound >= 0.0
    ensures 3.0 * r * load <= (4.0 * r - 1.0) * bound
  {
    ScaleMonotone(3.0 * r, load, bound);
    ScaleMonotone(bound, 3.0 * r, 4.0 * r - 1.0);
  }

  lemma LightCase(r: real, load: real, w: real, bound: real)
    requires r >= 1.0 && 3.0 * w <= bound && r * load <= r * bound + (r - 1.0) * w
    ensures 3.0 * r * load <= (4.0 * r - 1.0) * bound
  {
    ScaleMonotone(r - 1.0, 3.0 * w, bound);
    assert (r - 1.0) * (3.0 * w) == 3.0 * ((r - 1.0) * w);
    assert 3.0 * r * load == 3.0 * (r * load);
    assert (4.0 * r - 1.0) * bound == 3.0 * (r * bound) + (r - 1.0) * bound;
  }

  /** No two buckets differ by more than the heaviest item. */
  lemma {:induction false} Balanced(m: nat, items: seq<Item>, a: seq<int>, heaviest: real, k: int, c: int)
    requires NonNegative(items) && Greedy(m, items, a) && 0 <= k < m && 0 <= c < m
    requires heaviest >= 0.0 && forall i :: 0 <= i < |items| ==> items[i].weight <= heaviest
    ensures Load(items, a, k, Weight()) <= Load(items, a, c, Weight()) + heaviest
    decreases |items|
  {
    if items != [] {
      var n := |items| - 1;
      assert 0.0 <= items[n].weight <= heaviest;
      Balanced(m, items[..n], a[..n], heaviest, k, c);
      LightestIsLeast(m, items[..n], a[..n], a[n], c);
    }
  }

  // ---------- Equal items ----------

  /** The weight of `n` items of weight `w`. */
  ghost function Repeated(n: nat, w: real): real {
    if n == 0 then 0.0 else Repeated(n - 1, w) + w
  }

  lemma {:induction false} EqualLoads(items: seq<Item>, a: seq<int>, k: int, w: real)
    requires |a| == |items| && forall i :: 0 <= i < |items| ==> items[i].weight == w
    ensures Load(items, a, k, Weight()) == Repeated(|FilesIn(items, a, k)|, w)
    decreases |items|
  {
    if items != [] {
      var n := |items| - 1;
      EqualLoads(items[..n], a[..n], k, w);
      assert items[n].weight == w;
    }
  }

  lemma {:induction false} MoreTimes(x: nat, y: nat, w: real)
    requires w > 0.0 && x > y
    ensures Repeated(x, w) > Repeated(y, w)
    decreases x
  {
    if x - 1 > y {
      MoreTimes(x - 1, y, w);
    }
  }

  lemma {:induction false} ZeroTimes(n: nat)
    ensures Repeated(n, 0.0) == 0.0
  {
    if n > 0 {
      ZeroTimes(n - 1);
    }
  }

  /** The bucket that takes the next of equally heavy items has no more files than any other. */
  lemma {:induction false} NextIsLeanest(m: nat, items: seq<Item>, a: seq<int>, w: real, k: int, c: int)
    requires |a| == |items| && w >= 0.0 && forall i :: 0 <= i < |items| ==> items[i].weight == w
    requires Lightest(State(m, items, a), k) && 0 <= c < m
    ensures |FilesIn(items, a, k)| <= |FilesIn(items, a, c)|
  {
    var s := State(m, items, a);
    assert NoHeavier(s[k], s[c]);
    EqualLoads(items, a, k, w);
    EqualLoads(items, a, c, w);
    if w > 0.0 && |FilesIn(items, a, k)| > |FilesIn(items, a, c)| {
      MoreTimes(|FilesIn(items, a, k)|, |FilesIn(items, a, c)|, w);
    } else if w == 0.0 {
      ZeroTimes(|FilesIn(items, a, k)|);
      ZeroTimes(|FilesIn(items, a, c)|);
    }
  }

  /** Items of one weight, zero included, are spread evenly by number. */
  lemma {:induction false} EvenCounts(m: nat, items: seq<Item>, a: seq<int>, w: real, k: int, c: int)
    requires Greedy(m, items, a) && 0 <= k < m && 0 <= c < m
    requires w >= 0.0 && forall i :: 0 <= i < |items| ==> items[i].weight == w
    ensures |FilesIn(items, a, k)| <= |FilesIn(items, a, c)| + 1
    decreases |items|
  {
    if items != [] {
      var n := |items| - 1;
      EvenCounts(m, items[..n], a[..n], w, k, c);
      NextIsLeanest(m, items[..n], a[..n], w, a[n], c);
    }
  }
}
