/** The breadth-first search for benchmark candidates reachable from the published target package. */
module BenchmarkCandidates {
  import opened Digraphs
  import opened Sorting

  const TARGET_PACKAGE := "@deepseek-ai/dsh"
  const CORDIS := "@deepseek-ai/cordis"

  /** The dependency names of one published version; `optionalPeers` are marked optional. */
  datatype Manifest = Manifest(dependencies: seq<string>, optionalDependencies: seq<string>,
                               peerDependencies: seq<string>, optionalPeers: set<string>)

  /** Published manifests by name and version, and the current version of each workspace package. */
  datatype Registry = Registry(index: map<string, map<string, Manifest>>, versions: map<string, string>) {
    predicate Has(name: string) {
      name in versions && name in index && versions[name] in index[name]
    }

    function At(name: string): Manifest
      requires Has(name)
    {
      index[name][versions[name]]
    }
  }

  // ---------- Installed dependencies ----------

  /** `names` without those already in `keys`, without repetition, appended to `keys`. */
  function Merge(keys: seq<string>, names: seq<string>): (r: seq<string>)
    requires Distinct(keys)
    ensures Distinct(r) && forall n :: n in r <==> n in keys || n in names
    decreases |names|
  {
    if names == [] then keys
    else
      assert names == [names[0]] + names[1..];
      Merge(if names[0] in keys then keys else keys + [names[0]], names[1..])
  }

  function RequiredPeers(m: Manifest, peers: seq<string>): (r: seq<string>)
    ensures forall n :: n in r <==> n in peers && n !in m.optionalPeers
  {
    if peers == [] then []
    else
      assert peers == [peers[0]] + peers[1..];
      (if peers[0] in m.optionalPeers then [] else [peers[0]]) + RequiredPeers(m, peers[1..])
  }

  /** The merged key list of dependencies, optional dependencies and non-optional peers. */
  function Installed(m: Manifest): (r: seq<string>)
    ensures forall n :: n in r <==>
      n in m.dependencies || n in m.optionalDependencies || (n in m.peerDependencies && n !in m.optionalPeers)
  {
    Merge(Merge(Merge([], m.dependencies), m.optionalDependencies), RequiredPeers(m, m.peerDependencies))
  }

  /** From every package with a manifest to what installing it brings in. */
  ghost function InstallGraph(r: Registry): Digraph<string> {
    map name | name in r.index && r.Has(name) :: set n | n in Installed(r.At(name))
  }

  // ---------- The search ----------

  ghost predicate SearchInv(r: Registry, queue: seq<string>, cursor: nat, reached: seq<string>) {
    && cursor <= |queue| && queue != [] && queue[0] == TARGET_PACKAGE
    && Distinct(reached)
    && (forall i :: 0 <= i < |queue| ==> Reach(InstallGraph(r), TARGET_PACKAGE, queue[i]))
    && (forall n :: n in reached ==> n in queue && r.Has(n))
    && (forall i :: 0 <= i < cursor && r.Has(queue[i]) ==> queue[i] in reached)
    && (forall n, d {:trigger Edge(InstallGraph(r), n, d)} ::
          n in reached && Edge(InstallGraph(r), n, d) ==> d in reached || d in queue)
  }

  /** The dependencies not reached yet, in order. */
  function NotReached(names: seq<string>, reached: seq<string>): (r: seq<string>)
    ensures forall n :: n in r <==> n in names && n !in reached
  {
    if names == [] then []
    else
      assert names == [names[0]] + names[1..];
      (if names[0] in reached then [] else [names[0]]) + NotReached(names[1..], reached)
  }

  lemma VisitKeeps(r: Registry, queue: seq<string>, cursor: nat, reached: seq<string>, more: seq<string>)
    requires SearchInv(r, queue, cursor, reached) && cursor < |queue|
    requires r.Has(queue[cursor]) && queue[cursor] !in reached
    requires forall d :: d in more <==> d in Installed(r.At(queue[cursor])) && d !in reached + [queue[cursor]]
    ensures SearchInv(r, queue + more, cursor + 1, reached + [queue[cursor]])
  {
    var name, g := queue[cursor], InstallGraph(r);
    forall i | 0 <= i < |queue + more| ensures Reach(g, TARGET_PACKAGE, (queue + more)[i]) {
      if i >= |queue| {
        var d := more[i - |queue|];
        assert d in more;
        assert Edge(g, name, d);
        ReachStep(g, TARGET_PACKAGE, name, d);
      }
    }
    forall n, d | n in reached + [name] && Edge(g, n, d) ensures d in reached + [name] || d in queue + more {
      if n in reached {
        assert d in reached || d in queue;
      }
    }
  }

  /** All and only the reachable packages with a manifest. */
  ghost predicate IsReachable(r: Registry, reached: seq<string>) {
    Distinct(reached) && forall n :: n in reached <==> r.Has(n) && Reach(InstallGraph(r), TARGET_PACKAGE, n)
  }

  lemma SearchEnds(r: Registry, queue: seq<string>, reached: seq<string>)
    requires SearchInv(r, queue, |queue|, reached)
    ensures IsReachable(r, reached)
  {
    var g := InstallGraph(r);
    var all := set n | n in queue;
    forall n, d | n in all && Edge(g, n, d) ensures d in all {
      var i :| 0 <= i < |queue| && queue[i] == n;
      assert n in reached;
    }
    forall n | r.Has(n) && Reach(g, TARGET_PACKAGE, n) ensures n in reached {
      assert IsSink(g, all) && TARGET_PACKAGE in all;
      var i :| 0 <= i < |queue| && queue[i] == n;
    }
    forall n | n in reached ensures Reach(g, TARGET_PACKAGE, n) {
      var i :| 0 <= i < |queue| && queue[i] == n;
    }
  }

  method FindReachable(r: Registry, cmp: (string, string) -> int) returns (reached: seq<string>)
    ensures IsReachable(r, reached)
  {
    reached := [];
    var queue := [TARGET_PACKAGE];
    var cursor := 0;
    ReachRefl(InstallGraph(r), TARGET_PACKAGE);
    while cursor < |queue|
      invariant SearchInv(r, queue, cursor, reached)
      decreases r.index.Keys - Members(reached), |queue| - cursor
    {
      var name := queue[cursor];
      if name !in reached && r.Has(name) {
        var installed := Sort(Installed(r.At(name)), cmp);
        SortMembers(Installed(r.At(name)), cmp);
        var more := NotReached(installed, reached + [name]);
        VisitKeeps(r, queue, cursor, reached, more);
        assert name in r.index.Keys - Members(reached) && name !in r.index.Keys - Members(reached + [name]);
        reached := reached + [name];
        queue := queue + more;
      }
      cursor := cursor + 1;
    }
    SearchEnds(r, queue, reached);
  }

  // ---------- The candidates ----------

  /** A released package outside the policy with a peer other than Cordis. */
  predicate IsCandidate(r: Registry, release: set<string>, policy: set<string>, name: string) {
    && name !in policy && name in release
    && r.Has(name) && exists peer :: peer in r.At(name).peerDependencies && peer != CORDIS
  }

  function Candidates(r: Registry, release: set<string>, policy: set<string>, names: seq<string>): (c: seq<string>)
    ensures forall n :: n in c <==> n in names && IsCandidate(r, release, policy, n)
    ensures Distinct(names) ==> Distinct(c)
  {
    if names == [] then []
    else
      assert names == [names[0]] + names[1..];
      (if IsCandidate(r, release, policy, names[0]) then [names[0]] else [])
      + Candidates(r, release, policy, names[1..])
  }

  ghost function ReachableCandidates(r: Registry, release: set<string>, policy: set<string>): set<string> {
    set n | n in r.index && IsCandidate(r, release, policy, n) && Reach(InstallGraph(r), TARGET_PACKAGE, n)
  }

  /** The reachable candidates in sorted order, whatever order the search met them in. */
  method DiscoverCandidates(r: Registry, release: set<string>, policy: set<string>, cmp: (string, string) -> int)
    returns (candidates: seq<string>)
    requires TotalPreorder(cmp) && forall a, b :: cmp(a, b) == 0 ==> a == b
    ensures candidates == Listing(ReachableCandidates(r, release, policy), cmp)
    ensures Distinct(candidates) && SortedBy(candidates, cmp)
    ensures forall n :: n in candidates <==>
      && n in release && n !in policy && r.Has(n) && Reach(InstallGraph(r), "@deepseek-ai/dsh", n)
      && exists peer :: peer in r.At(n).peerDependencies && peer != "@deepseek-ai/cordis"
  {
    var reached := FindReachable(r, cmp);
    var kept := Candidates(r, release, policy, reached);
    candidates := Sort(kept, cmp);
    SortMembers(kept, cmp);
    SortSorted(kept, cmp);
    SortDistinct(kept, cmp);
    assert Members(candidates) == ReachableCandidates(r, release, policy);
    ListingUnique(candidates, cmp);
  }
}
