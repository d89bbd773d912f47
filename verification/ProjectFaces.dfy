/** Compiler-face isolation: references into a split Host/Client project must name the leaf of the source's face. */
module ProjectFaces {
  import opened Options
  import opened Digraphs

  /** An absolute path, as its segments. */
  type FilePath = seq<string>

  datatype Face = Host | Client

  /** A config file: the local config it extends, if any, and the configs its references name. */
  datatype Config = Config(parent: Option<FilePath>, references: seq<FilePath>)

  /** The configs that exist, the repository root, and the split projects, longest path first. */
  datatype Workspace = Workspace(root: FilePath, configs: map<FilePath, Config>, splitRoots: seq<FilePath>)

  function LeafName(face: Face): string {
    if face == Host then "tsconfig.host.json" else "tsconfig.client.json"
  }

  function Leaf(root: FilePath, face: Face): FilePath {
    root + [LeafName(face)]
  }

  // ---------- Split projects ----------

  /** How many characters the path is written with: each segment behind a separator. */
  function WrittenLength(path: FilePath): nat {
    if path == [] then 0 else WrittenLength(path[..|path| - 1]) + 1 + |path[|path| - 1]|
  }

  /** Sorted by decreasing length of the written path. */
  ghost predicate LongestFirst(roots: seq<FilePath>) {
    forall i, j :: 0 <= i < j < |roots| ==> WrittenLength(roots[i]) >= WrittenLength(roots[j])
  }

  lemma {:induction false} DeeperIsLonger(a: FilePath, b: FilePath)
    requires a < b
    ensures WrittenLength(a) < WrittenLength(b)
    decreases |b|
  {
    var n := |b| - 1;
    if |a| < n {
      DeeperIsLonger(a, b[..n]);
    } else {
      assert a == b[..n];
    }
  }

  /** The first listed root that contains the target. */
  function ContainingSplitRoot(roots: seq<FilePath>, target: FilePath): (r: Option<FilePath>)
    ensures r.None? <==> forall i :: 0 <= i < |roots| ==> !(roots[i] <= target)
    ensures r.Some? ==> r.value in roots && r.value <= target
  {
    if roots == [] then None
    else if roots[0] <= target then Some(roots[0])
    else ContainingSplitRoot(roots[1..], target)
  }

  /** With the longest roots listed first, nested split projects resolve to the innermost one. */
  lemma {:induction false} InnermostRoot(roots: seq<FilePath>, target: FilePath, other: FilePath)
    requires LongestFirst(roots) && other in roots && other <= target
    ensures ContainingSplitRoot(roots, target).Some? && other <= ContainingSplitRoot(roots, target).value
    decreases |roots|
  {
    if roots[0] <= target {
      var i :| 0 <= i < |roots| && roots[i] == other;
      assert other == target[..|other|] && roots[0] == target[..|roots[0]|];
      if |other| > |roots[0]| {
        DeeperIsLonger(roots[0], other);
      }
    } else {
      InnermostRoot(roots[1..], target, other);
    }
  }

  // ---------- The face of a config ----------

  /** The face a path has by its own name or as a base config. */
  function OwnFace(w: Workspace, path: FilePath): Option<Face> {
    if path != [] && path[|path| - 1] == LeafName(Host) then Some(Host)
    else if path != [] && path[|path| - 1] == LeafName(Client) then Some(Client)
    else if path == w.root + ["tsconfig.base.json"] then Some(Host)
    else if path == w.root + ["tsconfig.base.client.json"] then Some(Client)
    else None
  }

  /** The existing config that a faceless config extends. */
  function ParentOf(w: Workspace, path: FilePath): Option<FilePath> {
    if OwnFace(w, path).None? && path in w.configs && w.configs[path].parent.Some?
       && w.configs[path].parent.value in w.configs
    then w.configs[path].parent else None
  }

  ghost function ExtendsGraph(w: Workspace): Digraph<FilePath> {
    map path | path in w.configs :: if ParentOf(w, path).Some? then {ParentOf(w, path).value} else {}
  }

  ghost predicate Shows(w: Workspace, path: FilePath, face: Face) {
    exists q :: Reach(ExtendsGraph(w), path, q) && OwnFace(w, q) == Some(face)
  }

  /** The face found on the chain of extended configs, which ends at the first config that has one. */
  ghost function FaceOf(w: Workspace, path: FilePath): Option<Face> {
    if Shows(w, path, Host) then Some(Host) else if Shows(w, path, Client) then Some(Client) else None
  }

  /** What following `extends` has left behind: faceless configs that lead to each other or to `path`. */
  ghost predicate LeftBehind(w: Workspace, seen: set<FilePath>, path: FilePath) {
    && (forall p :: p in seen ==> OwnFace(w, p).None?)
    && (forall p, q {:trigger Edge(ExtendsGraph(w), p, q)} :: p in seen && Edge(ExtendsGraph(w), p, q) ==>
          q in seen || q == path)
  }

  /** Follow `extends` to the first config with a face, giving up on a cycle. */
  method ProjectFace(w: Workspace, path: FilePath, seen: set<FilePath>) returns (face: Option<Face>)
    requires path in w.configs && LeftBehind(w, seen, path)
    ensures face == FaceOf(w, path)
    decreases w.configs.Keys - seen
  {
    face := OwnFace(w, path);
    if face.Some? {
      OwnFaceStops(w, path);
    } else if path in seen {
      FacelessChain(w, seen, path);
    } else if ParentOf(w, path).None? {
      FacelessChain(w, {path}, path);
    } else {
      ParentFace(w, path);
      face := ProjectFace(w, ParentOf(w, path).value, seen + {path});
    }
  }

  lemma OwnFaceStops(w: Workspace, path: FilePath)
    requires OwnFace(w, path).Some?
    ensures FaceOf(w, path) == OwnFace(w, path)
  {
    ReachRefl(ExtendsGraph(w), path);
    assert IsSink(ExtendsGraph(w), {path});
    assert forall q :: Reach(ExtendsGraph(w), path, q) ==> q in {path};
  }

  lemma FacelessChain(w: Workspace, chain: set<FilePath>, path: FilePath)
    requires path in chain && IsSink(ExtendsGraph(w), chain) && forall p :: p in chain ==> OwnFace(w, p).None?
    ensures FaceOf(w, path).None?
  {
    assert forall q :: Reach(ExtendsGraph(w), path, q) ==> q in chain;
  }

  lemma ParentFace(w: Workspace, path: FilePath)
    requires path in w.configs && OwnFace(w, path).None? && ParentOf(w, path).Some?
    ensures FaceOf(w, path) == FaceOf(w, ParentOf(w, path).value)
  {
    var g, parent := ExtendsGraph(w), ParentOf(w, path).value;
    assert Edge(g, path, parent);
    ReachEdge(g, path, parent);
    forall q ensures Reach(g, path, q) <==> q == path || Reach(g, parent, q) {
      ReachRefl(g, path);
      if Reach(g, parent, q) {
        ReachTrans(g, path, parent, q);
      } else if Reach(g, path, q) && q != path {
        var x, y := FirstExit(g, {path}, path, q);
      }
    }
  }

  /** Leaf configs have the face they are named for, and the two base configs at the root have one each. */
  lemma {:induction false} NamedFaces(w: Workspace, dir: FilePath)
    ensures FaceOf(w, dir + ["tsconfig.host.json"]) == Some(Host)
    ensures FaceOf(w, dir + ["tsconfig.client.json"]) == Some(Client)
    ensures FaceOf(w, w.root + ["tsconfig.base.json"]) == Some(Host)
    ensures FaceOf(w, w.root + ["tsconfig.base.client.json"]) == Some(Client)
  {
    assert |"tsconfig.host.json"| == |"tsconfig.base.json"| == 18 && |"tsconfig.client.json"| == 20;
    assert "tsconfig.base.json"[9] == 'b' && "tsconfig.host.json"[9] == 'h' && |"tsconfig.base.client.json"| == 25;
    OwnFaceStops(w, dir + ["tsconfig.host.json"]);
    OwnFaceStops(w, dir + ["tsconfig.client.json"]);
    OwnFaceStops(w, w.root + ["tsconfig.base.json"]);
    OwnFaceStops(w, w.root + ["tsconfig.base.client.json"]);
  }

  /** Any other config has the face of the existing config that it extends, or none. */
  lemma {:induction false} ExtendedFace(w: Workspace, path: FilePath)
    requires path in w.configs
    requires path == [] || path[|path| - 1] !in ["tsconfig.host.json", "tsconfig.client.json"]
    requires path != w.root + ["tsconfig.base.json"] && path != w.root + ["tsconfig.base.client.json"]
    ensures var parent := w.configs[path].parent;
      FaceOf(w, path) == if parent.Some? && parent.value in w.configs then FaceOf(w, parent.value) else None
  {
    if ParentOf(w, path).Some? {
      ParentFace(w, path);
    } else {
      FacelessChain(w, {path}, path);
    }
  }

  // ---------- The gate ----------

  /** The edge stays outside split projects, or names the leaf of the source's face. */
  ghost predicate Allowed(w: Workspace, source: FilePath, target: FilePath) {
    var splitRoot := ContainingSplitRoot(w.splitRoots, target);
    splitRoot.None? || (FaceOf(w, source).Some? && target == Leaf(splitRoot.value, FaceOf(w, source).value))
  }

  /** Into a split project, a Host config may name the Host leaf and a Client config the Client leaf. */
  lemma {:induction false} AllowedIff(w: Workspace, source: FilePath, target: FilePath, root: FilePath)
    requires ContainingSplitRoot(w.splitRoots, target) == Some(root)
    ensures Allowed(w, source, target) <==>
      || (FaceOf(w, source) == Some(Host) && target == root + ["tsconfig.host.json"])
      || (FaceOf(w, source) == Some(Client) && target == root + ["tsconfig.client.json"])
  {
  }

  ghost function ReferenceGraph(w: Workspace): Digraph<FilePath> {
    map c | c in w.configs :: set t | t in w.configs[c].references
  }

  /** Only the edges that the gate follows. */
  ghost function AllowedGraph(w: Workspace): Digraph<FilePath> {
    map c | c in w.configs :: set t | t in w.configs[c].references && Allowed(w, c, t)
  }

  function Aggregate(w: Workspace, face: Face): FilePath {
    Leaf(w.root, face)
  }

  ghost predicate ReachedIn(w: Workspace, g: Digraph<FilePath>, c: FilePath) {
    Reach(g, Aggregate(w, Host), c) || Reach(g, Aggregate(w, Client), c)
  }

  /** A reference edge that the gate reports. */
  datatype Violation = Violation(source: FilePath, target: FilePath)

  ghost predicate IsViolation(w: Workspace, v: Violation) {
    v.source in w.configs && v.target in w.configs[v.source].references && !Allowed(w, v.source, v.target)
  }

  ghost predicate GateInv(w: Workspace, pending: seq<FilePath>, visited: set<FilePath>, violations: seq<Violation>) {
    && visited <= w.configs.Keys
    && (forall c :: c in visited ==> ReachedIn(w, AllowedGraph(w), c))
    && (forall i :: 0 <= i < |pending| ==> ReachedIn(w, AllowedGraph(w), pending[i]))
    && (forall face :: Aggregate(w, face) in w.configs ==>
          Aggregate(w, face) in visited || Aggregate(w, face) in pending)
    && (forall c, t {:trigger Edge(AllowedGraph(w), c, t)} ::
          c in visited && Edge(AllowedGraph(w), c, t) && t in w.configs ==> t in visited || t in pending)
    && (forall v :: v in violations <==> v.source in visited && IsViolation(w, v))
  }

  /** Check one config's references: report the forbidden ones, queue the others. */
  method CheckConfig(w: Workspace, c: FilePath) returns (queued: seq<FilePath>, found: seq<Violation>)
    requires c in w.configs
    ensures forall t :: t in queued <==> t in w.configs[c].references && Allowed(w, c, t)
    ensures forall v :: v in found <==> v.source == c && IsViolation(w, v)
  {
    var face := ProjectFace(w, c, {});
    var references := w.configs[c].references;
    queued, found := [], [];
    for i := 0 to |references|
      invariant forall t :: t in queued <==> t in references[..i] && Allowed(w, c, t)
      invariant forall v :: v in found <==> v.source == c && v.target in references[..i] && !Allowed(w, c, v.target)
    {
      var target := references[i];
      assert references[..i + 1] == references[..i] + [target];
      var splitRoot := ContainingSplitRoot(w.splitRoots, target);
      if splitRoot.Some? && (face.None? || target != Leaf(splitRoot.value, face.value)) {
        found := found + [Violation(c, target)];
      } else {
        queued := queued + [target];
      }
    }
    assert references[..|references|] == references;
  }

  lemma VisitKeeps(w: Workspace, pending: seq<FilePath>, visited: set<FilePath>, violations: seq<Violation>,
                   c: FilePath, queued: seq<FilePath>, found: seq<Violation>)
    requires GateInv(w, pending + [c], visited, violations) && c in w.configs && c !in visited
    requires forall t :: t in queued <==> t in w.configs[c].references && Allowed(w, c, t)
    requires forall v :: v in found <==> v.source == c && IsViolation(w, v)
    ensures GateInv(w, pending + queued, visited + {c}, violations + found)
  {
    var g := AllowedGraph(w);
    assert (pending + [c])[|pending|] == c;
    forall i | 0 <= i < |pending + queued| ensures ReachedIn(w, g, (pending + queued)[i]) {
      if i < |pending| {
        assert (pending + [c])[i] == pending[i];
      } else {
        var t := queued[i - |pending|];
        assert t in queued && Edge(g, c, t);
        var start := if Reach(g, Aggregate(w, Host), c) then Aggregate(w, Host) else Aggregate(w, Client);
        ReachStep(g, start, c, t);
      }
    }
    forall x, t | x in visited + {c} && Edge(g, x, t) && t in w.configs
      ensures t in visited + {c} || t in pending + queued
    {
      if x in visited {
        assert t in visited || t in pending + [c];
      }
    }
  }

  lemma SkipKeeps(w: Workspace, pending: seq<FilePath>, visited: set<FilePath>, violations: seq<Violation>, c: FilePath)
    requires GateInv(w, pending + [c], visited, violations) && (c in visited || c !in w.configs)
    ensures GateInv(w, pending, visited, violations)
  {
    forall i | 0 <= i < |pending| ensures ReachedIn(w, AllowedGraph(w), pending[i]) {
      assert (pending + [c])[i] == pending[i];
    }
  }

  /** Every reference edge of every config reachable from the aggregates is allowed. */
  ghost predicate Isolated(w: Workspace) {
    forall c, t :: c in w.configs && ReachedIn(w, ReferenceGraph(w), c) && t in w.configs[c].references ==>
      Allowed(w, c, t)
  }

  /** The reported edges are the forbidden ones out of configs reachable by allowed edges, and there
      are none exactly when the whole reachable graph is isolated. */
  method CollectViolations(w: Workspace) returns (violations: seq<Violation>)
    ensures forall v :: v in violations <==> ReachedIn(w, AllowedGraph(w), v.source) && IsViolation(w, v)
    ensures violations == [] <==> Isolated(w)
  {
    violations := [];
    var pending := [Aggregate(w, Host), Aggregate(w, Client)];
    var visited := {};
    ReachRefl(AllowedGraph(w), Aggregate(w, Host));
    ReachRefl(AllowedGraph(w), Aggregate(w, Client));
    while pending != []
      invariant GateInv(w, pending, visited, violations)
      decreases w.configs.Keys - visited, |pending|
    {
      var c := pending[|pending| - 1];
      assert pending == pending[..|pending| - 1] + [c];
      pending := pending[..|pending| - 1];
      if c !in visited && c in w.configs {
        var queued, found := CheckConfig(w, c);
        VisitKeeps(w, pending, visited, violations, c, queued, found);
        visited := visited + {c};
        violations := violations + found;
        pending := pending + queued;
      } else {
        SkipKeeps(w, pending, visited, violations, c);
      }
    }
    VisitedAll(w, visited, violations);
    NoneIffIsolated(w, visited, violations);
  }

  lemma VisitedAll(w: Workspace, visited: set<FilePath>, violations: seq<Violation>)
    requires GateInv(w, [], visited, violations)
    ensures forall c :: c in visited <==> c in w.configs && ReachedIn(w, AllowedGraph(w), c)
  {
    var g := AllowedGraph(w);
    var all := visited + (Nodes(g) - w.configs.Keys) + ({Aggregate(w, Host), Aggregate(w, Client)} - w.configs.Keys);
    forall c, t | c in all && Edge(g, c, t) ensures t in all {
      assert t in Nodes(g);
    }
    assert IsSink(g, all);
  }

  lemma NoneIffIsolated(w: Workspace, visited: set<FilePath>, violations: seq<Violation>)
    requires forall v :: v in violations <==> v.source in visited && IsViolation(w, v)
    requires forall c :: c in visited <==> c in w.configs && ReachedIn(w, AllowedGraph(w), c)
    ensures violations == [] <==> Isolated(w)
  {
    var g, full := AllowedGraph(w), ReferenceGraph(w);
    if violations != [] {
      var v := violations[0];
      assert v in violations;
      forall a, b | Edge(g, a, b) ensures Edge(full, a, b) {
      }
      AllowedReachesLess(w, v.source);
    } else {
      forall c | c in w.configs && ReachedIn(w, full, c) ensures ReachedIn(w, g, c) {
        FullReachesNoMore(w, visited, c);
      }
      forall c, t | c in w.configs && ReachedIn(w, full, c) && t in w.configs[c].references ensures Allowed(w, c, t) {
        assert Violation(c, t) !in violations;
      }
    }
  }

  lemma AllowedReachesLess(w: Workspace, c: FilePath)
    requires ReachedIn(w, AllowedGraph(w), c)
    ensures ReachedIn(w, ReferenceGraph(w), c)
  {
    var start := if Reach(AllowedGraph(w), Aggregate(w, Host), c) then Aggregate(w, Host) else Aggregate(w, Client);
    ReachMonotone(AllowedGraph(w), ReferenceGraph(w), start, c);
  }

  /** When no visited config has a forbidden edge, pruning removes nothing reachable. */
  lemma FullReachesNoMore(w: Workspace, visited: set<FilePath>, c: FilePath)
    requires forall c :: c in visited <==> c in w.configs && ReachedIn(w, AllowedGraph(w), c)
    requires forall v: Violation :: v.source in visited ==> !IsViolation(w, v)
    requires ReachedIn(w, ReferenceGraph(w), c)
    ensures ReachedIn(w, AllowedGraph(w), c)
  {
    var g, full := AllowedGraph(w), ReferenceGraph(w);
    var start := if Reach(full, Aggregate(w, Host), c) then Aggregate(w, Host) else Aggregate(w, Client);
    ReachRefl(g, start);
    var all := set x | x in Nodes(full) + {start} && ReachedIn(w, g, x);
    forall x, t | x in all && Edge(full, x, t) ensures t in all {
      assert !IsViolation(w, Violation(x, t));
      assert Edge(g, x, t);
      var from := if Reach(g, Aggregate(w, Host), x) then Aggregate(w, Host) else Aggregate(w, Client);
      ReachStep(g, from, x, t);
      assert t in Nodes(full);
    }
    assert IsSink(full, all);
  }

  // ---------- The documented reading ----------

  /** An edge into a split project, from a config reached from the aggregate of `face`. */
  ghost predicate Enters(w: Workspace, face: Face, c: FilePath, t: FilePath) {
    && Reach(ReferenceGraph(w), Aggregate(w, face), c) && c in w.configs && t in w.configs[c].references
    && ContainingSplitRoot(w.splitRoots, t).Some?
  }

  /** Every edge into a split project names the leaf of the aggregate the traversal began from. */
  ghost predicate MatchesAggregate(w: Workspace, face: Face) {
    forall c, t :: Enters(w, face, c, t) ==> t == Leaf(ContainingSplitRoot(w.splitRoots, t).value, face)
  }

  /** Configs reached from the aggregate that enter a split project have the aggregate's face. */
  ghost predicate EntersWithOwnFace(w: Workspace, face: Face) {
    forall c, t :: Enters(w, face, c, t) ==> FaceOf(w, c) == Some(face)
  }

  /** A clean gate gives the documented reading exactly when what enters a split project has the aggregate's face. */
  lemma CleanGateMatchesIff(w: Workspace, face: Face)
    requires Isolated(w)
    ensures MatchesAggregate(w, face) <==> EntersWithOwnFace(w, face)
  {
    forall c, t | Enters(w, face, c, t)
      ensures t == Leaf(ContainingSplitRoot(w.splitRoots, t).value, face) <==> FaceOf(w, c) == Some(face)
    {
      assert Allowed(w, c, t);
      LeafInjective(ContainingSplitRoot(w.splitRoots, t).value, face, FaceOf(w, c).value);
    }
  }

  lemma LeafInjective(root: FilePath, a: Face, b: Face)
    ensures Leaf(root, a) == Leaf(root, b) <==> a == b
  {
    assert Leaf(root, a)[|root|] == LeafName(a) && Leaf(root, b)[|root|] == LeafName(b);
    assert "tsconfig.host.json"[9] != "tsconfig.client.json"[9];
  }

  ghost predicate IsProjectDir(root: FilePath, dir: FilePath) {
    root <= dir &&
    var rel := dir[|root|..];
    (|rel| == 3 && rel[0] == "packages") || (|rel| == 2 && rel[0] in {"apps", "vendor"})
  }

  /** Split roots are project directories with both leaf configs. */
  ghost predicate SplitRootsExist(w: Workspace) {
    forall r :: r in w.splitRoots ==>
      IsProjectDir(w.root, r) && Leaf(r, Host) in w.configs && Leaf(r, Client) in w.configs
  }

  const SPLIT: FilePath := ["packages", "g", "p"]
  const NEUTRAL: FilePath := ["apps", "n", "tsconfig.json"]
  const CLIENT_BASE: FilePath := ["tsconfig.base.client.json"]
  const HOST_AGGREGATE: FilePath := ["tsconfig.host.json"]

  /** A host aggregate that refers to a config on the client base, which refers to a split project. */
  ghost function Detour(): Workspace {
    Workspace(
      [],
      map[HOST_AGGREGATE := Config(None, [NEUTRAL]),
          NEUTRAL := Config(Some(CLIENT_BASE), [Leaf(SPLIT, Client)]),
          CLIENT_BASE := Config(None, []),
          Leaf(SPLIT, Host) := Config(None, []),
          Leaf(SPLIT, Client) := Config(None, [])],
      [SPLIT])
  }

  /** The gate is clean, yet the host aggregate leads into the client leaf. */
  lemma DocumentedReadingCanFail()
    ensures SplitRootsExist(Detour()) && Isolated(Detour()) && !MatchesAggregate(Detour(), Host)
  {
    var w := Detour();
    DetourAllowed();
    assert Edge(ReferenceGraph(w), HOST_AGGREGATE, NEUTRAL);
    ReachEdge(ReferenceGraph(w), HOST_AGGREGATE, NEUTRAL);
    LeafInjective(SPLIT, Host, Client);
    assert Enters(w, Host, NEUTRAL, Leaf(SPLIT, Client));
  }

  lemma DetourPaths()
    ensures |Leaf(SPLIT, Host)| == 4 && |Leaf(SPLIT, Client)| == 4 && Leaf(SPLIT, Host) != Leaf(SPLIT, Client)
    ensures HOST_AGGREGATE != CLIENT_BASE && Aggregate(Detour(), Host) == HOST_AGGREGATE
    ensures Detour().configs[NEUTRAL] == Config(Some(CLIENT_BASE), [Leaf(SPLIT, Client)])
    ensures Detour().configs[HOST_AGGREGATE] == Config(None, [NEUTRAL])
  {
    LeafInjective(SPLIT, Host, Client);
    assert |HOST_AGGREGATE[0]| == 18 && |CLIENT_BASE[0]| == 25;
  }

  /** Both references of the detour are allowed, and the second enters the split project. */
  lemma DetourAllowed()
    ensures SplitRootsExist(Detour()) && Isolated(Detour())
    ensures Aggregate(Detour(), Host) == HOST_AGGREGATE && Detour().configs[HOST_AGGREGATE].references == [NEUTRAL]
    ensures ContainingSplitRoot(Detour().splitRoots, Leaf(SPLIT, Client)) == Some(SPLIT)
    ensures Detour().configs[NEUTRAL].references == [Leaf(SPLIT, Client)]
  {
    var w := Detour();
    DetourPaths();
    assert NEUTRAL[0] == "apps" && SPLIT[0] == "packages" && |"apps"| == 4 && |"packages"| == 8;
    assert ContainingSplitRoot(w.splitRoots, NEUTRAL) == None;
    assert SPLIT <= Leaf(SPLIT, Client) && ContainingSplitRoot(w.splitRoots, Leaf(SPLIT, Client)) == Some(SPLIT);
    DetourFace();
    assert Allowed(w, HOST_AGGREGATE, NEUTRAL) && Allowed(w, NEUTRAL, Leaf(SPLIT, Client));
    assert SPLIT[|w.root|..] == SPLIT;
  }

  lemma DetourFace()
    ensures FaceOf(Detour(), NEUTRAL) == Some(Client)
  {
    var w := Detour();
    DetourPaths();
    assert |LeafName(Host)| == 18 && |LeafName(Client)| == 20 && |NEUTRAL[2]| == 13 && |CLIENT_BASE[0]| == 25;
    assert |"tsconfig.base.json"| == 18;
    assert (w.root + ["tsconfig.base.json"])[0] == "tsconfig.base.json";
    assert w.root + ["tsconfig.base.client.json"] == CLIENT_BASE;
    assert OwnFace(w, NEUTRAL) == None && OwnFace(w, CLIENT_BASE) == Some(Client);
    ParentFace(w, NEUTRAL);
    OwnFaceStops(w, CLIENT_BASE);
  }
}
