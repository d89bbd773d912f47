/** Dependency-first package ordering: layers of ready packages, and one sink cycle when none is ready. */
module PackageOrder {
  import opened Digraphs
  import opened Packages
  import opened PackageComparator
  import opened Components
  import opened Cycles
  import opened Sorting

  // ---------- The order as a function of the package map alone ----------

  ghost function Restrict(g: PackageMap, rem: set<string>): PackageMap {
    map k | k in g && k in rem :: g[k]
  }

  ghost predicate IsReady(g: PackageMap, rem: set<string>, k: string) {
    k in g && k in rem && forall d :: d in g[k].deps ==> d !in rem
  }

  ghost function Ready(g: PackageMap, rem: set<string>): set<string> {
    set k | k in rem && IsReady(g, rem, k)
  }

  /** `u` is no later than any package of `s`. */
  ghost predicate Heads(o: Ordering, g: PackageMap, u: string, s: set<string>) {
    u in g && forall v :: v in s && v in g ==> ComparePackages(o, g[u], g[v]) <= 0
  }

  /** The sink cycle whose earliest package precedes every package of every sink cycle. */
  ghost predicate IsFirstCycle(o: Ordering, g: PackageMap, rem: set<string>, s: set<string>) {
    && IsSinkCycle(DependencyGraph(Restrict(g, rem)), s)
    && exists u :: u in s && HeadsAll(o, g, rem, u)
  }

  ghost predicate HeadsAll(o: Ordering, g: PackageMap, rem: set<string>, u: string) {
    forall t :: IsSinkCycle(DependencyGraph(Restrict(g, rem)), t) ==> Heads(o, g, u, t)
  }

  ghost function NextBatch(o: Ordering, g: PackageMap, rem: set<string>): set<string> {
    if Ready(g, rem) != {} then Ready(g, rem)
    else if s :| IsFirstCycle(o, g, rem, s) then s
    else {}
  }

  ghost function PackagesOf(g: PackageMap, names: set<string>): set<Package> {
    set k | k in names && k in g :: g[k]
  }

  /** The packages named in `rem`, one batch after another, each batch in comparator order. */
  ghost function DependencyOrder(o: Ordering, g: PackageMap, rem: set<string>): seq<Package>
    decreases rem
  {
    var batch := NextBatch(o, g, rem);
    if rem * batch == {} then []
    else Listing(PackagesOf(g, batch), Comparator(o)) + DependencyOrder(o, g, rem - batch)
  }

  // ---------- Insertion-ordered maps ----------

  /** `p` is the last package listed under the name. */
  ghost predicate IsLast(packages: seq<Package>, short: string, p: Package) {
    exists i :: 0 <= i < |packages| && packages[i] == p && forall j :: i < j < |packages| ==> packages[j].short != short
  }

  /** The entries of `packages` keyed by short name; a later entry replaces an earlier one. */
  function ByName(packages: seq<Package>): (m: PackageMap)
    ensures KeyedByName(m)
    ensures forall p :: p in packages ==> p.short in m
    ensures forall k :: k in m ==> m[k] in packages && IsLast(packages, k, m[k])
  {
    if packages == [] then map[]
    else
      var last := packages[|packages| - 1];
      assert packages == packages[..|packages| - 1] + [last];
      ByName(packages[..|packages| - 1])[last.short := last]
  }

  /** The map's keys in insertion order. */
  function KeyOrder(packages: seq<Package>): (order: seq<string>)
    ensures Distinct(order) && forall k :: k in order <==> k in ByName(packages)
  {
    if packages == [] then []
    else
      var last, order := packages[|packages| - 1], KeyOrder(packages[..|packages| - 1]);
      if last.short in order then order else order + [last.short]
  }

  /** The keys still in the map, in insertion order. */
  function Present(order: seq<string>, remaining: PackageMap): (keys: seq<string>)
    ensures forall k :: k in keys <==> k in order && k in remaining
    ensures Distinct(order) ==> Distinct(keys)
  {
    if order == [] then []
    else
      assert order == [order[0]] + order[1..];
      (if order[0] in remaining then [order[0]] else []) + Present(order[1..], remaining)
  }

  function Lookup(names: seq<string>, packages: PackageMap): (r: seq<Package>)
    requires AllIn(names, packages)
    ensures |r| == |names| && forall i :: 0 <= i < |r| ==> r[i] == packages[names[i]]
  {
    seq(|names|, i requires 0 <= i < |names| => assert names[i] in names; packages[names[i]])
  }

  predicate AllPlaced(deps: seq<string>, placed: set<string>) {
    forall d :: d in deps ==> d in placed
  }

  /** The listed packages whose dependencies have all been placed. */
  function ReadyNames(keys: seq<string>, remaining: PackageMap, placed: set<string>): (r: seq<string>)
    requires forall k :: k in keys ==> k in remaining
    ensures forall k :: k in r <==> k in keys && AllPlaced(remaining[k].deps, placed)
    ensures Distinct(keys) ==> Distinct(r)
  {
    if keys == [] then []
    else
      assert keys == [keys[0]] + keys[1..];
      (if AllPlaced(remaining[keys[0]].deps, placed) then [keys[0]] else []) + ReadyNames(keys[1..], remaining, placed)
  }

  // ---------- One batch ----------

  /** A batch as the loop appends it: distinct packages of the map in comparator order. */
  ghost predicate IsBatch(o: Ordering, g: PackageMap, names: set<string>, batch: seq<Package>) {
    && (forall i :: 0 <= i < |batch| ==>
          batch[i].short in names && batch[i].short in g && g[batch[i].short] == batch[i])
    && (forall k :: k in names ==> k in g && g[k] in batch)
    && (forall i, j :: 0 <= i < j < |batch| ==> batch[i].short != batch[j].short)
    && SortedBy(batch, Comparator(o))
  }

  /** Sorting the packages of a set of names gives that set's batch. */
  lemma SortIsBatch(o: Ordering, g: PackageMap, names: seq<string>)
    requires Lawful(o) && KeyedByName(g) && Distinct(names) && AllIn(names, g)
    ensures IsBatch(o, g, Members(names), Sort(Lookup(names, g), Comparator(o)))
  {
    var raw := Lookup(names, g);
    var batch := Sort(raw, Comparator(o));
    assert SortedBy(batch, Comparator(o)) by {
      ComparatorIsTotalOrder(o);
      SortSorted(raw, Comparator(o));
    }
    SortMembers(raw, Comparator(o));
    forall i | 0 <= i < |batch| ensures batch[i].short in names && g[batch[i].short] == batch[i] {
      assert batch[i] in raw;
    }
    forall k | k in names ensures g[k] in batch {
      var i :| 0 <= i < |names| && names[i] == k;
      assert raw[i] == g[k];
    }
    SortDistinct(raw, Comparator(o));
    forall i, j | 0 <= i < j < |batch| ensures batch[i].short != batch[j].short {
      assert batch[i] != batch[j];
    }
  }

  lemma BatchIsListing(o: Ordering, g: PackageMap, names: set<string>, batch: seq<Package>)
    requires Lawful(o) && KeyedByName(g) && IsBatch(o, g, names, batch)
    ensures batch == Listing(PackagesOf(g, names), Comparator(o))
  {
    assert Members(batch) == PackagesOf(g, names);
    ComparatorIsTotalOrder(o);
    ListingUnique(batch, Comparator(o));
  }

  /** Cycle candidates compare by their first packages. */
  function CompareHeads(o: Ordering): (seq<Package>, seq<Package>) -> int {
    (a, b) =>
      if a == [] || b == [] then |a| - |b| else ComparePackages(o, a[0], b[0])
  }

  lemma CompareHeadsIsPreorder(o: Ordering)
    requires Lawful(o)
    ensures TotalPreorder(CompareHeads(o))
  {
    ComparatorIsTotalOrder(o);
    var cmp, heads := Comparator(o), CompareHeads(o);
    forall a, b ensures heads(a, b) < 0 <==> heads(b, a) > 0 {
      if a != [] && b != [] {
        assert heads(a, b) == cmp(a[0], b[0]) && heads(b, a) == cmp(b[0], a[0]);
      }
    }
    forall a, b, c | heads(a, b) <= 0 && heads(b, c) <= 0 ensures heads(a, c) <= 0 {
      if a != [] && b != [] && c != [] {
        ComparePackagesTransitive(o, a[0], b[0], c[0]);
      }
    }
  }

  /** Each component's packages in comparator order. */
  function SortEach(o: Ordering, components: seq<seq<string>>, packages: PackageMap): seq<seq<Package>>
    requires forall i :: 0 <= i < |components| ==> Inside(packages, components[i])
  {
    seq(|components|, i requires 0 <= i < |components| && Inside(packages, components[i]) =>
      Sort(Lookup(components[i], packages), Comparator(o)))
  }

  /** The batch of a stuck step: the sink cycle that sorts first. */
  method NextCycle(o: Ordering, remaining: PackageMap, keys: seq<string>, ghost g: PackageMap, ghost rem: set<string>)
    returns (cycle: seq<Package>)
    requires Lawful(o) && KeyedByName(g) && remaining == Restrict(g, rem)
    requires Stuck(remaining) && forall k :: k in keys <==> k in remaining
    ensures exists s :: IsFirstCycle(o, g, rem, s) && IsBatch(o, g, s, cycle)
  {
    var cycles := SinkCycles(remaining, keys);
    CyclesAreInside(remaining, cycles);
    var components := SortEach(o, cycles, remaining);
    var sorted := Sort(components, CompareHeads(o));
    SortMembers(components, CompareHeads(o));
    cycle := sorted[0];
    assert cycle in sorted;
    ghost var i :| 0 <= i < |components| && components[i] == cycle;
    forall j | 0 <= j < |cycles|
      ensures IsBatch(o, g, Members(cycles[j]), components[j])
      ensures CompareHeads(o)(cycle, components[j]) <= 0
    {
      SortIsBatch(o, remaining, cycles[j]);
      BatchInLarger(o, g, rem, Members(cycles[j]), components[j]);
      FirstIsLeast(o, components, components[j]);
    }
    LeastHeads(o, g, rem, cycles, components, i);
    assert IsBatch(o, g, Members(cycles[i]), cycle);
  }

  lemma CyclesAreInside(remaining: PackageMap, cycles: seq<seq<string>>)
    requires forall i :: 0 <= i < |cycles| ==> IsScc(DependencyGraph(remaining), Members(cycles[i]))
    ensures forall i :: 0 <= i < |cycles| ==> Inside(remaining, cycles[i])
  {
    forall i | 0 <= i < |cycles| ensures Inside(remaining, cycles[i]) {
      assert forall x :: x in cycles[i] ==> x in Members(cycles[i]);
    }
  }

  lemma BatchInLarger(o: Ordering, g: PackageMap, rem: set<string>, names: set<string>, batch: seq<Package>)
    requires IsBatch(o, Restrict(g, rem), names, batch)
    ensures IsBatch(o, g, names, batch)
  {
  }

  lemma FirstIsLeast(o: Ordering, components: seq<seq<Package>>, c: seq<Package>)
    requires Lawful(o) && c in components
    ensures Sort(components, CompareHeads(o)) != []
    ensures CompareHeads(o)(Sort(components, CompareHeads(o))[0], c) <= 0
  {
    var sorted := Sort(components, CompareHeads(o));
    CompareHeadsIsPreorder(o);
    SortSorted(components, CompareHeads(o));
    SortMembers(components, CompareHeads(o));
    var j :| 0 <= j < |sorted| && sorted[j] == c;
    assert CompareHeads(o)(c, c) <= 0;
  }

  /** The candidate that compares first holds the first cycle. */
  lemma LeastHeads(o: Ordering, g: PackageMap, rem: set<string>, cycles: seq<seq<string>>,
                   components: seq<seq<Package>>, i: nat)
    requires Lawful(o) && |components| == |cycles| && i < |cycles|
    requires IsSinkCycle(DependencyGraph(Restrict(g, rem)), Members(cycles[i]))
    requires forall j :: 0 <= j < |cycles| ==> IsBatch(o, g, Members(cycles[j]), components[j])
    requires forall s :: IsSinkCycle(DependencyGraph(Restrict(g, rem)), s) ==> Among(cycles, s)
    requires forall j :: 0 <= j < |cycles| ==> CompareHeads(o)(components[i], components[j]) <= 0
    ensures IsFirstCycle(o, g, rem, Members(cycles[i]))
  {
    var s := Members(cycles[i]);
    assert IsBatch(o, g, s, components[i]);
    var k :| k in s;
    BatchHeadIsLeast(o, g, s, components[i], k);
    var u := components[i][0].short;
    forall t | IsSinkCycle(DependencyGraph(Restrict(g, rem)), t) ensures Heads(o, g, u, t) {
      var j :| 0 <= j < |cycles| && Members(cycles[j]) == t;
      assert IsBatch(o, g, Members(cycles[j]), components[j]);
      HeadsOther(o, g, s, components[i], t, components[j]);
    }
    assert HeadsAll(o, g, rem, u);
  }

  lemma HeadsOther(o: Ordering, g: PackageMap, s: set<string>, first: seq<Package>, t: set<string>, other: seq<Package>)
    requires Lawful(o) && IsBatch(o, g, s, first) && IsBatch(o, g, t, other)
    requires first != [] && CompareHeads(o)(first, other) <= 0
    ensures Heads(o, g, first[0].short, t)
  {
    forall v | v in t && v in g ensures ComparePackages(o, first[0], g[v]) <= 0 {
      BatchHeadIsLeast(o, g, t, other, v);
      ComparePackagesTransitive(o, first[0], other[0], g[v]);
    }
  }

  lemma BatchHeadIsLeast(o: Ordering, g: PackageMap, names: set<string>, batch: seq<Package>, v: string)
    requires Lawful(o) && IsBatch(o, g, names, batch) && v in names
    ensures batch != [] && v in g && ComparePackages(o, batch[0], g[v]) <= 0
  {
    assert g[v] in batch;
    var j :| 0 <= j < |batch| && batch[j] == g[v];
    if j == 0 {
      ComparatorIsTotalOrder(o);
    } else {
      assert Comparator(o)(batch[0], batch[j]) <= 0;
    }
  }

  lemma FirstCycleUnique(o: Ordering, g: PackageMap, rem: set<string>, s: set<string>, t: set<string>)
    requires Lawful(o) && KeyedByName(g) && IsFirstCycle(o, g, rem, s) && IsFirstCycle(o, g, rem, t)
    ensures s == t
  {
    var u :| u in s && HeadsAll(o, g, rem, u);
    var v :| v in t && HeadsAll(o, g, rem, v);
    assert Heads(o, g, u, t) && Heads(o, g, v, s);
    assert Comparator(o)(g[u], g[v]) <= 0 && Comparator(o)(g[v], g[u]) <= 0;
    ComparatorIsTotalOrder(o);
    assert Comparator(o)(g[u], g[v]) == 0;
    SccsAgree(DependencyGraph(Restrict(g, rem)), s, t, u);
  }

  // ---------- The ordering loop ----------

  /** `d` stands before position `i`, or on a common dependency cycle with the package there. */
  ghost predicate ComesFirst(g: Digraph<string>, out: seq<Package>, i: nat, d: string)
    requires i < |out|
  {
    exists j :: 0 <= j < |out| && out[j].short == d && (j < i || Mutual(g, out[i].short, d))
  }

  ghost predicate DependenciesFirst(g: Digraph<string>, out: seq<Package>) {
    forall i, d {:trigger ComesFirst(g, out, i, d)} :: 0 <= i < |out| && d in out[i].deps ==> ComesFirst(g, out, i, d)
  }

  /** `out` holds exactly the packages named in `placed`, each once. */
  ghost predicate Lists(g: PackageMap, out: seq<Package>, placed: set<string>) {
    && (forall i :: 0 <= i < |out| ==> out[i].short in placed && out[i].short in g && g[out[i].short] == out[i])
    && (forall k :: k in placed ==> k in g && g[k] in out)
    && (forall i, j :: 0 <= i < j < |out| ==> out[i].short != out[j].short)
  }

  lemma ListsMore(o: Ordering, g: PackageMap, rem: set<string>, out: seq<Package>, names: set<string>,
                  batch: seq<Package>)
    requires Lists(g, out, g.Keys - rem) && IsBatch(o, g, names, batch) && names <= rem
    ensures Lists(g, out + batch, g.Keys - (rem - names))
  {
  }

  /** Dependencies among `names` that are not placed yet are mutual. */
  ghost predicate Entangled(g: PackageMap, rem: set<string>, names: set<string>)
    requires names <= g.Keys
  {
    forall k, d {:trigger d in g[k].deps} :: k in names && d in g[k].deps && d in rem ==>
      d in names && Mutual(DependencyGraph(g), k, d)
  }

  /** Appending a batch keeps dependencies first when its own are placed or mutually dependent. */
  lemma AppendKeepsFirst(o: Ordering, g: PackageMap, rem: set<string>, out: seq<Package>, names: set<string>,
                         batch: seq<Package>)
    requires KeyedByName(g) && Complete(g) && Lists(g, out, g.Keys - rem) && IsBatch(o, g, names, batch)
    requires DependenciesFirst(DependencyGraph(g), out)
    requires names <= g.Keys && Entangled(g, rem, names)
    ensures DependenciesFirst(DependencyGraph(g), out + batch)
  {
    var dg, all := DependencyGraph(g), out + batch;
    forall i, d | 0 <= i < |all| && d in all[i].deps ensures ComesFirst(dg, all, i, d) {
      if i < |out| {
        assert ComesFirst(dg, out, i, d);
        var j :| 0 <= j < |out| && out[j].short == d && (j < i || Mutual(dg, out[i].short, d));
        assert all[j].short == d;
      } else {
        var p := batch[i - |out|];
        assert p.short in names && g[p.short] == p;
        if d !in rem {
          assert g[d] in out;
          var j :| 0 <= j < |out| && out[j] == g[d];
          assert all[j].short == d;
        } else {
          assert g[d] in batch;
          var j :| 0 <= j < |batch| && batch[j] == g[d];
          assert all[|out| + j].short == d;
        }
      }
    }
  }

  /** Inside a sink cycle of the remaining graph, remaining dependencies are mutual. */
  lemma CycleDependencies(g: PackageMap, rem: set<string>, s: set<string>, k: string, d: string)
    requires IsSinkCycle(DependencyGraph(Restrict(g, rem)), s) && k in s && k in g
    requires d in g[k].deps && d in g && d in rem
    ensures d in s && Mutual(DependencyGraph(g), k, d)
  {
    var small, full := DependencyGraph(Restrict(g, rem)), DependencyGraph(g);
    assert Edge(small, k, d);
    assert Mutual(small, k, d);
    forall x, y | Edge(small, x, y) ensures Edge(full, x, y) {
    }
    ReachMonotone(small, full, k, d);
    ReachMonotone(small, full, d, k);
  }

  /** What the loop has placed, and that the rest of the order is still to come. */
  ghost predicate Progress(o: Ordering, g: PackageMap, rem: set<string>, out: seq<Package>)
  {
    && rem <= g.Keys
    && Lists(g, out, g.Keys - rem)
    && DependenciesFirst(DependencyGraph(g), out)
    && out + DependencyOrder(o, g, rem) == DependencyOrder(o, g, g.Keys)
  }

  /** Every dependency names a package of the map. */
  ghost predicate Complete(g: PackageMap) {
    forall k, d {:trigger d in g[k].deps} :: k in g && d in g[k].deps ==> d in g
  }

  lemma ReadyProgress(o: Ordering, g: PackageMap, rem: set<string>, out: seq<Package>, batch: seq<Package>)
    requires Lawful(o) && KeyedByName(g) && Complete(g) && Progress(o, g, rem, out)
    requires Ready(g, rem) != {} && IsBatch(o, g, Ready(g, rem), batch)
    ensures Progress(o, g, rem - Ready(g, rem), out + batch)
  {
    BatchProgress(o, g, rem, out, Ready(g, rem), batch);
  }

  lemma CycleProgress(o: Ordering, g: PackageMap, rem: set<string>, out: seq<Package>, s: set<string>,
                      batch: seq<Package>)
    requires Lawful(o) && KeyedByName(g) && Complete(g) && Progress(o, g, rem, out)
    requires Ready(g, rem) == {} && IsFirstCycle(o, g, rem, s) && IsBatch(o, g, s, batch)
    ensures s <= rem && s != {} && Progress(o, g, rem - s, out + batch)
  {
    CycleIsNext(o, g, rem, s);
    BatchProgress(o, g, rem, out, s, batch);
  }

  lemma CycleIsNext(o: Ordering, g: PackageMap, rem: set<string>, s: set<string>)
    requires Lawful(o) && KeyedByName(g) && Complete(g) && rem <= g.Keys
    requires Ready(g, rem) == {} && IsFirstCycle(o, g, rem, s)
    ensures s <= rem && s != {} && s == NextBatch(o, g, rem)
    ensures Entangled(g, rem, s)
  {
    FirstCycleUnique(o, g, rem, s, NextBatch(o, g, rem));
    forall k, d | k in s && d in g[k].deps && d in rem ensures d in s && Mutual(DependencyGraph(g), k, d) {
      CycleDependencies(g, rem, s, k, d);
    }
  }

  lemma BatchProgress(o: Ordering, g: PackageMap, rem: set<string>, out: seq<Package>, names: set<string>,
                      batch: seq<Package>)
    requires Lawful(o) && KeyedByName(g) && Complete(g) && Progress(o, g, rem, out)
    requires names != {} && names <= rem && names == NextBatch(o, g, rem) && IsBatch(o, g, names, batch)
    requires names <= g.Keys && Entangled(g, rem, names)
    ensures Progress(o, g, rem - names, out + batch)
  {
    ListsMore(o, g, rem, out, names, batch);
    AppendKeepsFirst(o, g, rem, out, names, batch);
    OrderStep(o, g, rem, out, names, batch);
  }

  lemma OrderStep(o: Ordering, g: PackageMap, rem: set<string>, out: seq<Package>, names: set<string>,
                  batch: seq<Package>)
    requires Lawful(o) && KeyedByName(g)
    requires names != {} && names <= rem && names == NextBatch(o, g, rem) && IsBatch(o, g, names, batch)
    ensures out + DependencyOrder(o, g, rem) == (out + batch) + DependencyOrder(o, g, rem - names)
  {
    BatchIsListing(o, g, names, batch);
    assert rem * names == names;
    assert DependencyOrder(o, g, rem) == batch + DependencyOrder(o, g, rem - names);
  }

  // ---------- Priorities show in the order ----------

  ghost predicate StandsBefore(s: seq<Package>, p: Package, q: Package) {
    exists i, j :: 0 <= i < j < |s| && s[i] == p && s[j] == q
  }

  /** `p` precedes `q`, needs nothing that `q` does not, and `q` waits for no cycle of its own. */
  ghost predicate Sooner(o: Ordering, g: Digraph<string>, p: Package, q: Package) {
    Precedes(o, p, q) && (forall d :: d in p.deps ==> d in q.deps) && !OnCycle(g, q.short)
  }

  /** Wherever two packages stand, one that is due sooner stands first. */
  ghost predicate ByPriority(o: Ordering, g: Digraph<string>, out: seq<Package>) {
    forall i, j :: 0 <= i < |out| && 0 <= j < |out| && Sooner(o, g, out[i], out[j]) ==> i < j
  }

  lemma {:induction false} NextIsReadyOrCycle(o: Ordering, g: PackageMap, rem: set<string>, k: string)
    requires k in NextBatch(o, g, rem) && rem <= g.Keys
    ensures k in rem && (NextBatch(o, g, rem) == Ready(g, rem) || OnCycle(DependencyGraph(g), k))
  {
    if Ready(g, rem) == {} {
      var small, full := DependencyGraph(Restrict(g, rem)), DependencyGraph(g);
      assert OnCycle(small, k);
      var v :| Edge(small, k, v) && Reach(small, v, k);
      forall x, y | Edge(small, x, y) ensures Edge(full, x, y) {
      }
      ReachMonotone(small, full, v, k);
    }
  }

  /** Within one batch the preceding package stands first. */
  lemma {:induction false} BatchByPriority(o: Ordering, g: PackageMap, batch: set<string>, p: Package, q: Package)
    requires Lawful(o) && Indexable(o) && Precedes(o, p, q)
    requires p.short in batch && p.short in g && g[p.short] == p && q.short in batch && q.short in g && g[q.short] == q
    ensures StandsBefore(Listing(PackagesOf(g, batch), Comparator(o)), p, q)
  {
    var cmp, l := Comparator(o), Listing(PackagesOf(g, batch), Comparator(o));
    ComparatorIsTotalOrder(o);
    ListingFacts(PackagesOf(g, batch), cmp);
    ComparatorIff(o, p, q);
    assert p in l && q in l;
    var i :| 0 <= i < |l| && l[i] == p;
    var j :| 0 <= j < |l| && l[j] == q;
    assert cmp(q, p) > 0;
    assert i != j && !(j < i);
  }

  lemma {:induction false} BeforeBehind(a: seq<Package>, b: seq<Package>, p: Package, q: Package)
    requires StandsBefore(a, p, q) || (p in a && q in b) || StandsBefore(b, p, q)
    ensures StandsBefore(a + b, p, q)
  {
    if StandsBefore(a, p, q) {
      var i, j :| 0 <= i < j < |a| && a[i] == p && a[j] == q;
      assert (a + b)[i] == p && (a + b)[j] == q;
    } else if p in a && q in b {
      var i :| 0 <= i < |a| && a[i] == p;
      var j :| 0 <= j < |b| && b[j] == q;
      assert (a + b)[i] == p && (a + b)[|a| + j] == q;
    } else {
      var i, j :| 0 <= i < j < |b| && b[i] == p && b[j] == q;
      assert (a + b)[|a| + i] == p && (a + b)[|a| + j] == q;
    }
  }

  lemma {:induction false} OrderByPriority(o: Ordering, g: PackageMap, rem: set<string>, p: Package, q: Package)
    requires Lawful(o) && Indexable(o) && KeyedByName(g) && rem <= g.Keys
    requires p.short in rem && g[p.short] == p && q.short in rem && g[q.short] == q
    requires Sooner(o, DependencyGraph(g), p, q) && q in DependencyOrder(o, g, rem)
    ensures StandsBefore(DependencyOrder(o, g, rem), p, q)
    decreases rem
  {
    var batch := NextBatch(o, g, rem);
    var first, rest := Listing(PackagesOf(g, batch), Comparator(o)), DependencyOrder(o, g, rem - batch);
    assert DependencyOrder(o, g, rem) == first + rest;
    ComparatorIsTotalOrder(o);
    ListingFacts(PackagesOf(g, batch), Comparator(o));
    if q.short in batch {
      NextIsReadyOrCycle(o, g, rem, q.short);
      assert p.short in Ready(g, rem);
      BatchByPriority(o, g, batch, p, q);
    } else {
      assert q in rest;
      if p.short in batch {
        assert p in PackagesOf(g, batch);
      } else {
        OrderByPriority(o, g, rem - batch, p, q);
      }
    }
    BeforeBehind(first, rest, p, q);
  }

  /** In a complete order, packages stand by priority. */
  lemma {:induction false} PrioritiesShow(o: Ordering, g: PackageMap, out: seq<Package>)
    requires Lawful(o) && Indexable(o) && KeyedByName(g) && Lists(g, out, g.Keys)
    requires out == DependencyOrder(o, g, g.Keys)
    ensures ByPriority(o, DependencyGraph(g), out)
  {
    forall i, j | 0 <= i < |out| && 0 <= j < |out| && Sooner(o, DependencyGraph(g), out[i], out[j]) ensures i < j {
      OrderByPriority(o, g, g.Keys, out[i], out[j]);
      var k, l :| 0 <= k < l < |out| && out[k] == out[i] && out[l] == out[j];
      assert k == i && l == j;
    }
  }

  datatype Sorted = Ordered(packages: seq<Package>) | MissingPeer(name: string, dependency: string)

  /** Position `at` holds the first package with a missing dependency, and `dep` is the first one it misses. */
  ghost predicate FirstMissing(packages: seq<Package>, byName: PackageMap, at: nat, dep: nat) {
    && at < |packages| && dep < |packages[at].deps| && packages[at].deps[dep] !in byName
    && (forall i :: 0 <= i < at ==> AllIn(packages[i].deps, byName)) && AllIn(packages[at].deps[..dep], byName)
  }

  method FindMissing(packages: seq<Package>, byName: PackageMap) returns (found: bool, at: nat, dep: nat)
    ensures found ==> FirstMissing(packages, byName, at, dep)
    ensures !found ==> forall i :: 0 <= i < |packages| ==> AllIn(packages[i].deps, byName)
  {
    found, at, dep := false, 0, 0;
    for i := 0 to |packages|
      invariant forall k :: 0 <= k < i ==> AllIn(packages[k].deps, byName)
    {
      var deps := packages[i].deps;
      for j := 0 to |deps|
        invariant AllIn(deps[..j], byName)
      {
        if deps[j] !in byName {
          return true, i, j;
        }
      }
      assert deps[..|deps|] == deps;
    }
  }

  /** Order packages after their dependencies, except for back edges inside a dependency cycle. */
  method TopoSort(packages: seq<Package>, o: Ordering) returns (r: Sorted)
    requires Lawful(o)
    ensures r.Ordered? <==> forall i :: 0 <= i < |packages| ==> AllIn(packages[i].deps, ByName(packages))
    ensures r.MissingPeer? ==> exists at: nat, dep: nat ::
      FirstMissing(packages, ByName(packages), at, dep) && r == MissingPeer(packages[at].name, packages[at].deps[dep])
    ensures r.Ordered? ==> Lists(ByName(packages), r.packages, ByName(packages).Keys)
    ensures r.Ordered? ==> DependenciesFirst(DependencyGraph(ByName(packages)), r.packages)
    ensures r.Ordered? ==> r.packages == DependencyOrder(o, ByName(packages), ByName(packages).Keys)
    ensures r.Ordered? && Indexable(o) ==> ByPriority(o, DependencyGraph(ByName(packages)), r.packages)
  {
    var byName, order := ByName(packages), KeyOrder(packages);
    var found, at, dep := FindMissing(packages, byName);
    if found {
      assert !AllIn(packages[at].deps, byName);
      return MissingPeer(packages[at].name, packages[at].deps[dep]);
    }
    NothingMissing(packages, byName);
    var out := PlaceAll(o, byName, order);
    assert out + DependencyOrder(o, byName, {}) == out;
    if Indexable(o) {
      PrioritiesShow(o, byName, out);
    }
    r := Ordered(out);
  }

  lemma NothingMissing(packages: seq<Package>, byName: PackageMap)
    requires byName == ByName(packages) && forall i :: 0 <= i < |packages| ==> AllIn(packages[i].deps, byName)
    ensures Complete(byName)
  {
    forall k, d | k in byName && d in byName[k].deps ensures d in byName {
      var i :| 0 <= i < |packages| && packages[i] == byName[k];
    }
  }

  /** What the placing loop keeps: what is left, what is placed, and how far the order has come. */
  ghost predicate Placing(o: Ordering, g: PackageMap, remaining: PackageMap, placed: set<string>, out: seq<Package>) {
    && remaining == Restrict(g, remaining.Keys) && placed == g.Keys - remaining.Keys
    && Progress(o, g, remaining.Keys, out)
  }

  method PlaceAll(o: Ordering, byName: PackageMap, order: seq<string>) returns (out: seq<Package>)
    requires Lawful(o) && KeyedByName(byName) && Complete(byName)
    requires Distinct(order) && forall k :: k in order <==> k in byName
    ensures Progress(o, byName, {}, out)
  {
    var remaining := byName;
    var placed := {};
    out := [];
    PlacingStarts(o, byName);
    while remaining != map[]
      invariant Placing(o, byName, remaining, placed, out)
      decreases remaining.Keys
    {
      out, placed, remaining := PlaceNext(o, byName, order, remaining, placed, out);
    }
    PlacingEnds(o, byName, remaining, placed, out);
  }

  lemma PlacingEnds(o: Ordering, g: PackageMap, remaining: PackageMap, placed: set<string>, out: seq<Package>)
    requires Placing(o, g, remaining, placed, out) && remaining == map[]
    ensures Progress(o, g, {}, out)
  {
    assert remaining.Keys == {};
  }

  lemma PlacingStarts(o: Ordering, g: PackageMap)
    ensures Placing(o, g, g, {}, [])
  {
    assert [] + DependencyOrder(o, g, g.Keys) == DependencyOrder(o, g, g.Keys);
  }

  /** One round of the loop. */
  method PlaceNext(o: Ordering, byName: PackageMap, order: seq<string>, remaining0: PackageMap, placed0: set<string>,
                   out0: seq<Package>)
    returns (out: seq<Package>, placed: set<string>, remaining: PackageMap)
    requires Lawful(o) && KeyedByName(byName) && Complete(byName)
    requires Distinct(order) && forall k :: k in order <==> k in byName
    requires remaining0 != map[] && Placing(o, byName, remaining0, placed0, out0)
    ensures Placing(o, byName, remaining, placed, out) && remaining.Keys < remaining0.Keys
  {
    var batch, names := NextPlaced(o, byName, order, remaining0, placed0, out0);
    RestrictLess(byName, remaining0, placed0, names);
    out, placed, remaining := Place(batch, out0, placed0, remaining0);
  }

  lemma RestrictLess(g: PackageMap, remaining: PackageMap, placed: set<string>, names: set<string>)
    requires remaining == Restrict(g, remaining.Keys) && placed == g.Keys - remaining.Keys && names <= remaining.Keys
    ensures (remaining - names).Keys == remaining.Keys - names
    ensures remaining - names == Restrict(g, (remaining - names).Keys)
    ensures placed + names == g.Keys - (remaining - names).Keys
  {
  }

  method Place(batch: seq<Package>, out0: seq<Package>, placed0: set<string>, remaining0: PackageMap)
    returns (out: seq<Package>, placed: set<string>, remaining: PackageMap)
    ensures out == out0 + batch
    ensures placed == placed0 + Shorts(batch) && remaining == remaining0 - Shorts(batch)
  {
    out, placed, remaining := out0, placed0, remaining0;
    for i := 0 to |batch|
      invariant out == out0 + batch[..i]
      invariant placed == placed0 + Shorts(batch[..i]) && remaining == remaining0 - Shorts(batch[..i])
    {
      ShortsGrow(batch, i);
      out := out + [batch[i]];
      placed := placed + {batch[i].short};
      remaining := remaining - {batch[i].short};
    }
    assert batch[..|batch|] == batch;
  }

  ghost function Shorts(packages: seq<Package>): set<string> {
    set p | p in packages :: p.short
  }

  lemma ShortsGrow(packages: seq<Package>, i: nat)
    requires i < |packages|
    ensures Shorts(packages[..i + 1]) == Shorts(packages[..i]) + {packages[i].short}
  {
    assert packages[..i + 1] == packages[..i] + [packages[i]];
  }

  /** Choose what to place next: every ready package, or the first sink cycle. */
  method NextPlaced(o: Ordering, byName: PackageMap, order: seq<string>, remaining: PackageMap, placed: set<string>,
                    ghost out: seq<Package>) returns (batch: seq<Package>, ghost names: set<string>)
    requires Lawful(o) && KeyedByName(byName) && Complete(byName)
    requires Distinct(order) && forall k :: k in order <==> k in byName
    requires remaining != map[] && remaining == Restrict(byName, remaining.Keys)
    requires placed == byName.Keys - remaining.Keys
    requires Progress(o, byName, remaining.Keys, out)
    ensures names != {} && names <= remaining.Keys && Shorts(batch) == names
    ensures Progress(o, byName, remaining.Keys - names, out + batch)
  {
    ghost var rem := remaining.Keys;
    var keys := Present(order, remaining);
    var ready := ReadyNames(keys, remaining, placed);
    batch := Sort(Lookup(ready, remaining), Comparator(o));
    names := Members(ready);
    assert names == Ready(byName, rem) by {
      ReadyIsReady(byName, rem, remaining, placed, ready);
    }
    SortMembers(Lookup(ready, remaining), Comparator(o));
    if batch == [] {
      NothingReady(byName, rem, remaining);
      batch, names := CycleBatch(o, byName, keys, remaining, out);
    } else {
      assert ready[0] in names;
      ReadyPlaced(o, byName, rem, remaining, ready, out, batch);
    }
    BatchShorts(o, byName, names, batch);
  }

  method CycleBatch(o: Ordering, ghost byName: PackageMap, keys: seq<string>, remaining: PackageMap,
                    ghost out: seq<Package>)
    returns (batch: seq<Package>, ghost names: set<string>)
    requires Lawful(o) && KeyedByName(byName) && Complete(byName)
    requires Stuck(remaining) && remaining == Restrict(byName, remaining.Keys)
    requires forall k :: k in keys <==> k in remaining
    requires Progress(o, byName, remaining.Keys, out) && Ready(byName, remaining.Keys) == {}
    ensures names != {} && names <= remaining.Keys && names <= byName.Keys && IsBatch(o, byName, names, batch)
    ensures Progress(o, byName, remaining.Keys - names, out + batch)
  {
    batch := NextCycle(o, remaining, keys, byName, remaining.Keys);
    names :| IsFirstCycle(o, byName, remaining.Keys, names) && IsBatch(o, byName, names, batch);
    CycleProgress(o, byName, remaining.Keys, out, names, batch);
  }

  lemma ReadyPlaced(o: Ordering, g: PackageMap, rem: set<string>, remaining: PackageMap, ready: seq<string>,
                    out: seq<Package>, batch: seq<Package>)
    requires Lawful(o) && KeyedByName(g) && Complete(g) && remaining == Restrict(g, rem) && Progress(o, g, rem, out)
    requires Distinct(ready) && ready != [] && Members(ready) == Ready(g, rem) && rem <= g.Keys
    requires AllIn(ready, remaining) && batch == Sort(Lookup(ready, remaining), Comparator(o))
    ensures IsBatch(o, g, Members(ready), batch) && Progress(o, g, rem - Members(ready), out + batch)
  {
    SortIsBatch(o, remaining, ready);
    BatchInLarger(o, g, rem, Members(ready), batch);
    assert ready[0] in Members(ready);
    ReadyProgress(o, g, rem, out, batch);
  }

  lemma ReadyIsReady(g: PackageMap, rem: set<string>, remaining: PackageMap, placed: set<string>, ready: seq<string>)
    requires remaining == Restrict(g, rem) && rem <= g.Keys && placed == g.Keys - rem && Complete(g)
    requires forall k :: k in ready <==> k in remaining && AllPlaced(remaining[k].deps, placed)
    ensures Members(ready) == Ready(g, rem)
  {
    forall k | k in rem ensures IsReady(g, rem, k) <==> AllPlaced(g[k].deps, placed) {
    }
  }

  lemma NothingReady(g: PackageMap, rem: set<string>, remaining: PackageMap)
    requires remaining == Restrict(g, rem) && rem <= g.Keys && rem != {} && Complete(g) && Ready(g, rem) == {}
    ensures Stuck(remaining)
  {
    assert remaining.Keys == rem;
    forall p | p in remaining ensures Waits(remaining, p) {
      assert p !in Ready(g, rem);
      var d :| d in g[p].deps && d in rem;
      assert d in remaining[p].deps;
    }
  }

  lemma BatchShorts(o: Ordering, g: PackageMap, names: set<string>, batch: seq<Package>)
    requires KeyedByName(g) && IsBatch(o, g, names, batch)
    ensures Shorts(batch) == names
  {
    forall k | k in names ensures k in Shorts(batch) {
      assert g[k] in batch && g[k].short == k;
    }
  }

  // ---------- What the order promises ----------

  /** Listing the same packages in another order does not change the result. */
  lemma OrderIgnoresInputOrder(o: Ordering, a: seq<Package>, b: seq<Package>)
    requires multiset(a) == multiset(b)
    requires forall i, j :: 0 <= i < j < |a| ==> a[i].short != a[j].short
    ensures ByName(a) == ByName(b)
    ensures DependencyOrder(o, ByName(a), ByName(a).Keys) == DependencyOrder(o, ByName(b), ByName(b).Keys)
  {
    SameMembers(a, b);
    forall p, q | p in a && q in a && p.short == q.short ensures p == q {
      var i :| 0 <= i < |a| && a[i] == p;
      var j :| 0 <= j < |a| && a[j] == q;
    }
  }

  /** When short names are distinct the result is a rearrangement of the input. */
  lemma ListsIsPermutation(packages: seq<Package>, out: seq<Package>)
    requires forall i, j :: 0 <= i < j < |packages| ==> packages[i].short != packages[j].short
    requires Lists(ByName(packages), out, ByName(packages).Keys)
    ensures multiset(out) == multiset(packages)
  {
    forall p ensures p in out <==> p in packages {
      ListedIff(packages, out, p);
    }
    assert forall i, j :: 0 <= i < j < |out| ==> out[i].short != out[j].short;
    SameDistinct(out, packages);
  }

  lemma ListedIff(packages: seq<Package>, out: seq<Package>, p: Package)
    requires forall i, j :: 0 <= i < j < |packages| ==> packages[i].short != packages[j].short
    requires Lists(ByName(packages), out, ByName(packages).Keys)
    ensures p in out <==> p in packages
  {
    var g := ByName(packages);
    if p in packages {
      var i :| 0 <= i < |packages| && packages[i] == p;
      assert g[p.short] in packages && g[p.short].short == p.short;
      assert g[p.short] == p;
      assert p in out;
    }
  }

  /** Without dependency cycles every dependency stands strictly before its dependent. */
  lemma AcyclicIsStrict(g: PackageMap, out: seq<Package>, i: nat, d: string)
    requires KeyedByName(g) && Complete(g) && Lists(g, out, g.Keys) && DependenciesFirst(DependencyGraph(g), out)
    requires forall u :: !OnCycle(DependencyGraph(g), u)
    requires i < |out| && d in out[i].deps
    ensures exists j :: 0 <= j < i && out[j].short == d
  {
    assert ComesFirst(DependencyGraph(g), out, i, d);
    assert Edge(DependencyGraph(g), out[i].short, d);
    assert !OnCycle(DependencyGraph(g), out[i].short);
  }
}
