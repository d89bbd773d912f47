/** The min-heap of bucket indices behind the coverage partition scheduler. */
module BucketHeap {

  /** One partition while it is being filled. */
  datatype Bucket = Bucket(sum: real, files: seq<string>)

  /** Lighter first, and among equal sums the one with fewer files. */
  predicate BucketLess(left: Bucket, right: Bucket) {
    if left.sum != right.sum then left.sum < right.sum else |left.files| < |right.files|
  }

  /** Less in sum, or as much with no more files. */
  ghost predicate NoHeavier(a: Bucket, b: Bucket) {
    a.sum < b.sum || (a.sum == b.sum && |a.files| <= |b.files|)
  }

  /** No bucket has a smaller sum than the one at `k`, nor the same sum with fewer files. */
  ghost predicate Lightest(buckets: seq<Bucket>, k: int) {
    0 <= k < |buckets| && forall c :: 0 <= c < |buckets| ==> NoHeavier(buckets[k], buckets[c])
  }

  /** The heap lists every bucket index once. */
  ghost predicate Indexes(buckets: seq<Bucket>, heap: seq<int>) {
    && |heap| == |buckets|
    && (forall i :: 0 <= i < |heap| ==> 0 <= heap[i] < |buckets|)
    && (forall i, j :: 0 <= i < j < |heap| ==> heap[i] != heap[j])
  }

  /** The bucket at position `j` does not precede the one at position `i`. */
  ghost predicate InOrder(buckets: seq<Bucket>, heap: seq<int>, i: int, j: int) {
    0 <= i < |heap| && 0 <= j < |heap| && 0 <= heap[i] < |buckets| && 0 <= heap[j] < |buckets| ==>
      !BucketLess(buckets[heap[j]], buckets[heap[i]])
  }

  function Parent(j: int): int {
    (j - 1) / 2
  }

  /** Heap order everywhere except below position `hole`. */
  ghost predicate OrderedBut(buckets: seq<Bucket>, heap: seq<int>, hole: int) {
    && (forall j :: 1 <= j < |heap| && Parent(j) != hole ==> InOrder(buckets, heap, Parent(j), j))
    && (forall j :: 1 <= j < |heap| && Parent(j) == hole && 1 <= hole ==> InOrder(buckets, heap, Parent(hole), j))
  }

  ghost predicate HeapOrdered(buckets: seq<Bucket>, heap: seq<int>) {
    forall j :: 1 <= j < |heap| ==> InOrder(buckets, heap, Parent(j), j)
  }

  /** Exchange the entries at two positions. */
  function Swap(heap: seq<int>, i: int, j: int): seq<int>
    requires 0 <= i < |heap| && 0 <= j < |heap|
  {
    heap[i := heap[j]][j := heap[i]]
  }

  lemma SwapIndexes(buckets: seq<Bucket>, heap: seq<int>, i: int, j: int)
    requires Indexes(buckets, heap) && 0 <= i < j < |heap|
    ensures Indexes(buckets, Swap(heap, i, j))
  {
  }

  /** Moving the smaller child up moves the hole down to that child. */
  lemma SwapOrdered(buckets: seq<Bucket>, heap: seq<int>, i: int, child: int)
    requires Indexes(buckets, heap) && OrderedBut(buckets, heap, i)
    requires 0 <= i < |heap| && 1 <= child < |heap| && Parent(child) == i
    requires !InOrder(buckets, heap, i, child)
    requires forall j :: 1 <= j < |heap| && Parent(j) == i ==> InOrder(buckets, heap, child, j)
    ensures OrderedBut(buckets, Swap(heap, i, child), child)
  {
    var h := Swap(heap, i, child);
    forall j | 1 <= j < |h| && Parent(j) != child ensures InOrder(buckets, h, Parent(j), j) {
      assert Parent(j) == i ==> InOrder(buckets, heap, child, j);
      assert Parent(j) != i ==> InOrder(buckets, heap, Parent(j), j);
      if j == i {
        assert InOrder(buckets, heap, Parent(i), child);
      }
    }
    forall j | 1 <= j < |h| && Parent(j) == child ensures InOrder(buckets, h, Parent(child), j) {
      assert InOrder(buckets, heap, Parent(j), j);
    }
  }

  /** Restore heap order after the bucket at `start` grew. */
  method SiftDown(buckets: array<Bucket>, heap: array<int>, start: nat)
    requires start < heap.Length && Indexes(buckets[..], heap[..]) && OrderedBut(buckets[..], heap[..], start)
    modifies heap
    ensures Indexes(buckets[..], heap[..]) && HeapOrdered(buckets[..], heap[..])
  {
    var size, index := heap.Length, start;
    ghost var b := buckets[..];
    while true
      invariant 0 <= index < size && buckets[..] == b
      invariant Indexes(b, heap[..]) && OrderedBut(b, heap[..], index)
      decreases size - index
    {
      var left, right := 2 * index + 1, 2 * index + 2;
      var smallest := index;
      if left < size && BucketLess(buckets[heap[left]], buckets[heap[smallest]]) {
        smallest := left;
      }
      if right < size && BucketLess(buckets[heap[right]], buckets[heap[smallest]]) {
        smallest := right;
      }
      ghost var h := heap[..];
      ChildrenFound(b, h, index, smallest);
      if smallest == index {
        return;
      }
      SwapIndexes(b, h, index, smallest);
      SwapOrdered(b, h, index, smallest);
      heap[index], heap[smallest] := heap[smallest], heap[index];
      assert heap[..] == Swap(h, index, smallest);
      index := smallest;
    }
  }

  /** What the two comparisons with the children establish. */
  lemma ChildrenFound(buckets: seq<Bucket>, heap: seq<int>, i: int, smallest: int)
    requires Indexes(buckets, heap) && OrderedBut(buckets, heap, i) && 0 <= i < |heap|
    requires smallest == i || smallest == 2 * i + 1 || smallest == 2 * i + 2
    requires 0 <= smallest < |heap|
    requires 2 * i + 1 < |heap| ==> InOrder(buckets, heap, smallest, 2 * i + 1)
    requires 2 * i + 2 < |heap| ==> InOrder(buckets, heap, smallest, 2 * i + 2)
    requires smallest != i ==> !InOrder(buckets, heap, i, smallest)
    ensures smallest == i ==> HeapOrdered(buckets, heap)
    ensures smallest != i ==> Parent(smallest) == i
    ensures forall j :: 1 <= j < |heap| && Parent(j) == i ==> InOrder(buckets, heap, smallest, j)
  {
    forall j | 1 <= j < |heap| && Parent(j) == i ensures j == 2 * i + 1 || j == 2 * i + 2 {
    }
  }

  /** Distinct indices below `|heap|` are all of them. */
  lemma Surjective(heap: seq<int>, k: int)
    requires forall i :: 0 <= i < |heap| ==> 0 <= heap[i] < |heap|
    requires forall i, j :: 0 <= i < j < |heap| ==> heap[i] != heap[j]
    requires 0 <= k < |heap|
    ensures k in heap
  {
    if k !in heap {
      // Renaming the largest index to `k` squeezes the others below it.
      var n := |heap| - 1;
      FewDistinct(seq(|heap|, i requires 0 <= i < |heap| => if heap[i] == n then k else heap[i]), n);
    }
  }

  /** At most `n` distinct values lie below `n`. */
  lemma {:induction false} FewDistinct(s: seq<int>, n: nat)
    requires forall i :: 0 <= i < |s| ==> 0 <= s[i] < n
    requires forall i, j :: 0 <= i < j < |s| ==> s[i] != s[j]
    ensures |s| <= n
    decreases n
  {
    if s != [] {
      var last := s[|s| - 1];
      FewDistinct(seq(|s| - 1, i requires 0 <= i < |s| - 1 => if s[i] == n - 1 then last else s[i]), n - 1);
    }
  }

  lemma {:induction false} RootPrecedes(buckets: seq<Bucket>, heap: seq<int>, i: nat)
    requires Indexes(buckets, heap) && HeapOrdered(buckets, heap) && i < |heap|
    ensures InOrder(buckets, heap, 0, i)
    decreases i
  {
    if i > 0 {
      RootPrecedes(buckets, heap, Parent(i));
      assert InOrder(buckets, heap, Parent(i), i);
    }
  }

  /** The heap's root is a lightest bucket. */
  lemma RootIsLightest(buckets: seq<Bucket>, heap: seq<int>)
    requires Indexes(buckets, heap) && HeapOrdered(buckets, heap) && heap != []
    ensures Lightest(buckets, heap[0])
  {
    forall c | 0 <= c < |buckets| ensures NoHeavier(buckets[heap[0]], buckets[c]) {
      Surjective(heap, c);
      var i :| 0 <= i < |heap| && heap[i] == c;
      RootPrecedes(buckets, heap, i);
    }
  }
}
