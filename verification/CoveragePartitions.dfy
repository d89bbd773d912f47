/**
 * Longest-processing-time assignment of test files to coverage partitions: heavier
 * files first, each into a currently lightest bucket. Durations are reals here.
 */
module CoveragePartitions {
  import opened BucketHeap
  import opened Sorting

  const UNKNOWN_FILE_WEIGHT := 1.0

  datatype Item = Item(file: string, weight: real)

  function WeightOf(weights: map<string, real>, file: string): real {
    if file in weights then weights[file] else UNKNOWN_FILE_WEIGHT
  }

  function Weighted(files: seq<string>, weights: map<string, real>): (items: seq<Item>)
    ensures |items| == |files|
    ensures forall i :: 0 <= i < |files| ==> items[i] == Item(files[i], WeightOf(weights, files[i]))
  {
    seq(|files|, i requires 0 <= i < |files| => Item(files[i], WeightOf(weights, files[i])))
  }

  /** Heavier items first, then by file name. */
  function HeavierFirst(locale: (string, string) -> int): (Item, Item) -> int {
    (a: Item, b: Item) => if b.weight > a.weight then 1 else if b.weight < a.weight then -1 else locale(a.file, b.file)
  }

  lemma HeavierFirstIsPreorder(locale: (string, string) -> int)
    requires TotalPreorder(locale)
    ensures TotalPreorder(HeavierFirst(locale))
  {
    var cmp := HeavierFirst(locale);
    forall a, b ensures cmp(a, b) < 0 <==> cmp(b, a) > 0 {
      assert locale(a.file, b.file) < 0 <==> locale(b.file, a.file) > 0;
    }
    forall a, b, c | cmp(a, b) <= 0 && cmp(b, c) <= 0 ensures cmp(a, c) <= 0 {
      assert locale(a.file, b.file) <= 0 && locale(b.file, c.file) <= 0 ==> locale(a.file, c.file) <= 0;
    }
  }

  // ---------- Placements ----------

  /** The sum of `f` over the items placed in bucket `k`. */
  ghost function Load(items: seq<Item>, a: seq<int>, k: int, f: Item -> real): real
    requires |a| == |items|
  {
    if items == [] then 0.0
    else
      var n := |items| - 1;
      Load(items[..n], a[..n], k, f) + if a[n] == k then f(items[n]) else 0.0
  }

  /** The files placed in bucket `k`, in placement order. */
  ghost function FilesIn(items: seq<Item>, a: seq<int>, k: int): seq<string>
    requires |a| == |items|
  {
    if items == [] then []
    else
      var n := |items| - 1;
      FilesIn(items[..n], a[..n], k) + if a[n] == k then [items[n].file] else []
  }

  ghost function Weight(): Item -> real {
    (x: Item) => x.weight
  }

  /** All `m` buckets after placing `items` according to `a`. */
  ghost function State(m: nat, items: seq<Item>, a: seq<int>): (s: seq<Bucket>)
    requires |a| == |items|
    ensures |s| == m && forall k :: 0 <= k < m ==> s[k] == Bucket(Load(items, a, k, Weight()), FilesIn(items, a, k))
  {
    seq(m, k requires 0 <= k < m => Bucket(Load(items, a, k, Weight()), FilesIn(items, a, k)))
  }

  ghost predicate InRange(m: nat, a: seq<int>) {
    forall i :: 0 <= i < |a| ==> 0 <= a[i] < m
  }

  /** Every item went into a bucket that was lightest at the time. */
  ghost predicate Greedy(m: nat, items: seq<Item>, a: seq<int>) {
    && |a| == |items|
    && (items == [] ||
        var n := |items| - 1;
        Greedy(m, items[..n], a[..n]) && Lightest(State(m, items[..n], a[..n]), a[n]))
  }

  ghost predicate Descending(items: seq<Item>) {
    forall i, j :: 0 <= i <= j < |items| ==> items[i].weight >= items[j].weight
  }

  ghost predicate NonNegative(items: seq<Item>) {
    forall i :: 0 <= i < |items| ==> items[i].weight >= 0.0
  }

  lemma {:induction false} GreedyInRange(m: nat, items: seq<Item>, a: seq<int>)
    requires Greedy(m, items, a)
    ensures InRange(m, a)
    decreases |items|
  {
    if items != [] {
      GreedyInRange(m, items[..|items| - 1], a[..|items| - 1]);
      forall i | 0 <= i < |a| ensures 0 <= a[i] < m {
        assert i < |items| - 1 ==> a[i] == a[..|items| - 1][i];
      }
    }
  }

  function Grown(bucket: Bucket, x: Item): Bucket {
    Bucket(bucket.sum + x.weight, bucket.files + [x.file])
  }

  /** Placing one more item changes only the bucket it goes to. */
  lemma StateStep(m: nat, items: seq<Item>, a: seq<int>, x: Item, k: int)
    requires |a| == |items| && 0 <= k < m
    ensures State(m, items + [x], a + [k]) == State(m, items, a)[k := Grown(State(m, items, a)[k], x)]
  {
    var s, t := State(m, items, a), State(m, items + [x], a + [k]);
    assert (items + [x])[..|items|] == items && (a + [k])[..|a|] == a;
    forall c | 0 <= c < m ensures t[c] == s[k := Grown(s[k], x)][c] {
    }
  }

  lemma GreedyStep(m: nat, items: seq<Item>, a: seq<int>, x: Item, k: int)
    requires Greedy(m, items, a) && Lightest(State(m, items, a), k)
    ensures Greedy(m, items + [x], a + [k])
  {
    assert (items + [x])[..|items|] == items && (a + [k])[..|a|] == a;
  }

  /** No buckets for a non-empty inventory is the one error. */
  datatype Assignment = Assigned(buckets: seq<seq<string>>) | NoBuckets

  ghost predicate Holds(m: nat, items: seq<Item>, a: seq<int>, buckets: seq<seq<string>>) {
    |a| == |items| && |buckets| == m && forall k :: 0 <= k < m ==> buckets[k] == FilesIn(items, a, k)
  }

  /** The result of some run that always picks a lightest bucket, heaviest item first. */
  ghost predicate IsLpt(m: nat, items: seq<Item>, buckets: seq<seq<string>>) {
    exists a: seq<int> :: Greedy(m, items, a) && Holds(m, items, a, buckets)
  }

  function SortedItems(files: seq<string>, weights: map<string, real>, locale: (string, string) -> int): seq<Item> {
    Sort(Weighted(files, weights), HeavierFirst(locale))
  }

  /** Put one item into the bucket at the heap's root. */
  method PlaceOne(buckets: array<Bucket>, heap: array<int>, x: Item, ghost items: seq<Item>, ghost a: seq<int>)
    requires 0 < heap.Length == buckets.Length
    requires Indexes(buckets[..], heap[..]) && HeapOrdered(buckets[..], heap[..])
    requires Greedy(heap.Length, items, a) && buckets[..] == State(heap.Length, items, a)
    modifies buckets, heap
    ensures Indexes(buckets[..], heap[..]) && HeapOrdered(buckets[..], heap[..])
    ensures Greedy(heap.Length, items + [x], a + [old(heap[0])])
    ensures buckets[..] == State(heap.Length, items + [x], a + [old(heap[0])])
  {
    var top := heap[0];
    ghost var before := buckets[..];
    RootIsLightest(before, heap[..]);
    GreedyStep(heap.Length, items, a, x, top);
    StateStep(heap.Length, items, a, x, top);
    GrownRoot(before, heap[..], Grown(before[top], x));
    buckets[top] := Grown(buckets[top], x);
    assert buckets[..] == before[top := Grown(before[top], x)];
    SiftDown(buckets, heap, 0);
  }

  method AssignWeightedPartitions(files: seq<string>, weights: map<string, real>, partitions: nat,
                                  locale: (string, string) -> int) returns (r: Assignment)
    requires TotalPreorder(locale)
    ensures r.NoBuckets? <==> partitions == 0 && files != []
    ensures r.Assigned? ==> IsLpt(partitions, SortedItems(files, weights, locale), r.buckets)
  {
    var weighted := SortedItems(files, weights, locale);
    SortMembers(Weighted(files, weights), HeavierFirst(locale));
    if files == [] {
      var none := seq(partitions, _ => []);
      assert Greedy(partitions, weighted, []) && Holds(partitions, weighted, [], none);
      return Assigned(none);
    }
    if partitions == 0 {
      return NoBuckets;
    }
    var buckets := new Bucket[partitions](_ => Bucket(0.0, []));
    var heap := new int[partitions](i => i);
    ghost var a: seq<int> := [];
    assert weighted[..0] == [];
    assert buckets[..] == State(partitions, [], []);
    for i := 0 to |weighted|
      invariant heap.Length == buckets.Length == partitions
      invariant Indexes(buckets[..], heap[..]) && HeapOrdered(buckets[..], heap[..])
      invariant Greedy(partitions, weighted[..i], a) && buckets[..] == State(partitions, weighted[..i], a)
    {
      assert weighted[..i + 1] == weighted[..i] + [weighted[i]];
      ghost var top := heap[0];
      PlaceOne(buckets, heap, weighted[i], weighted[..i], a);
      a := a + [top];
    }
    assert weighted[..|weighted|] == weighted;
    var lists := seq(partitions, k requires 0 <= k < buckets.Length reads buckets => buckets[k].files);
    assert Holds(partitions, weighted, a, lists);
    r := Assigned(lists);
  }

  /** Changing the root's bucket can break heap order only below the root. */
  lemma GrownRoot(buckets: seq<Bucket>, heap: seq<int>, grown: Bucket)
    requires Indexes(buckets, heap) && HeapOrdered(buckets, heap) && heap != []
    ensures Indexes(buckets[heap[0] := grown], heap) && OrderedBut(buckets[heap[0] := grown], heap, 0)
  {
    forall j | 1 <= j < |heap| && Parent(j) != 0 ensures InOrder(buckets[heap[0] := grown], heap, Parent(j), j) {
      assert InOrder(buckets, heap, Parent(j), j);
    }
  }
}
