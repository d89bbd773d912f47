/** Resolving a type name through imports and chains of re-exports. */
module ConfigExports {
  import opened Options
  import opened Digraphs
  import opened Sorting

  /** A name looked for in a file. */
  type Query = (string, string)

  /** `export * from` a file, or `export { original as exported, … } from` it. */
  datatype Export = Star(target: string) | Named(elements: seq<(string, string)>, target: string)

  /** Where an import leads; no file when it is external, lacks the extension, or is unreadable. */
  datatype Import = Import(imported: string, target: Option<string>)

  datatype Files = Files(
    locals: map<Query, nat>,
    reexports: map<string, seq<Export>>,
    imports: map<Query, Import>)

  /** The first element that is exported as `name` has `original` for its own name. */
  ghost predicate FirstAs(elements: seq<(string, string)>, original: string, name: string) {
    exists i :: 0 <= i < |elements| && elements[i] == (original, name)
      && forall j :: 0 <= j < i ==> elements[j].1 != name
  }

  /** The original name behind the first element exported as `name`. */
  function OriginalOf(elements: seq<(string, string)>, name: string): (r: Option<string>)
    ensures r.Some? ==> FirstAs(elements, r.value, name)
    ensures r.None? ==> forall i :: 0 <= i < |elements| ==> elements[i].1 != name
  {
    if elements == [] then None
    else if elements[0].1 == name then
      assert elements[0] == (elements[0].0, name);
      Some(elements[0].0)
    else
      var r := OriginalOf(elements[1..], name);
      assert forall i :: 1 <= i < |elements| ==> elements[i] == elements[1..][i - 1];
      assert r.Some? ==> FirstAs(elements, r.value, name) by {
        if r.Some? {
          FirstAsBehind(elements, r.value, name);
        }
      }
      r
  }

  lemma {:induction false} FirstAsBehind(elements: seq<(string, string)>, original: string, name: string)
    requires elements != [] && elements[0].1 != name && FirstAs(elements[1..], original, name)
    ensures FirstAs(elements, original, name)
  {
    var i :| 0 <= i < |elements[1..]| && elements[1..][i] == (original, name)
      && forall j :: 0 <= j < i ==> elements[1..][j].1 != name;
    assert elements[i + 1] == (original, name);
    assert forall j :: 1 <= j < i + 1 ==> elements[j] == elements[1..][j - 1];
  }

  lemma {:induction false} OriginalOfIff(elements: seq<(string, string)>, name: string, original: string)
    ensures OriginalOf(elements, name) == Some(original) <==> FirstAs(elements, original, name)
  {
    if FirstAs(elements, original, name) {
      var found := OriginalOf(elements, name);
      var i :| 0 <= i < |elements| && elements[i] == (original, name)
        && forall j :: 0 <= j < i ==> elements[j].1 != name;
      var k :| 0 <= k < |elements| && elements[k] == (found.value, name)
        && forall j :: 0 <= j < k ==> elements[j].1 != name;
      assert i == k;
    }
  }

  function LooksFor(e: Export, name: string): Option<string> {
    match e
    case Star(_) => Some(name)
    case Named(elements, _) => OriginalOf(elements, name)
  }

  function ExportsOf(fs: Files, file: string): seq<Export> {
    if file in fs.reexports then fs.reexports[file] else []
  }

  // ---------- The graph of re-exports ----------

  /** The names that following re-exports from `name` can look for. */
  ghost function Names(fs: Files, name: string): set<string> {
    {name} + set file, i, j | file in fs.reexports && 0 <= i < |fs.reexports[file]| && fs.reexports[file][i].Named?
                              && 0 <= j < |fs.reexports[file][i].elements| :: fs.reexports[file][i].elements[j].0
  }

  ghost function Successors(fs: Files, q: Query): set<Query> {
    set i | 0 <= i < |ExportsOf(fs, q.0)| && LooksFor(ExportsOf(fs, q.0)[i], q.1).Some? ::
      (ExportsOf(fs, q.0)[i].target, LooksFor(ExportsOf(fs, q.0)[i], q.1).value)
  }

  ghost function Universe(fs: Files, name: string): set<Query> {
    set file, n | file in fs.reexports && n in Names(fs, name) :: (file, n)
  }

  /** Re-export edges between the queries that can arise from looking for `name`. */
  ghost function ExportGraph(fs: Files, name: string): Digraph<Query> {
    map q | q in Universe(fs, name) :: Successors(fs, q)
  }

  lemma ExportEdge(fs: Files, root: string, q: Query, i: nat)
    requires q.1 in Names(fs, root) && i < |ExportsOf(fs, q.0)| && LooksFor(ExportsOf(fs, q.0)[i], q.1).Some?
    ensures var e := ExportsOf(fs, q.0)[i];
      var next := (e.target, LooksFor(e, q.1).value);
      Edge(ExportGraph(fs, root), q, next) && next.1 in Names(fs, root) && q in Universe(fs, root)
  {
    var e := ExportsOf(fs, q.0)[i];
    assert q == (q.0, q.1) && q in Universe(fs, root);
    if e.Named? {
      var j :| 0 <= j < |e.elements| && LooksFor(e, q.1).value == e.elements[j].0;
      assert fs.reexports[q.0][i].elements[j].0 in Names(fs, root);
    }
  }

  /** A re-export statement passes the name on to a query in its target file. */
  ghost predicate Passes(e: Export, name: string, next: Query) {
    && e.target == next.0
    && match e
       case Star(_) => next.1 == name
       case Named(elements, _) => FirstAs(elements, next.1, name)
  }

  /** Some re-export of the file passes the name on. */
  ghost predicate LeadsTo(fs: Files, q: Query, next: Query) {
    q.0 in fs.reexports && exists i :: 0 <= i < |fs.reexports[q.0]| && Passes(fs.reexports[q.0][i], q.1, next)
  }

  lemma {:induction false} PassesIff(e: Export, name: string, next: Query)
    ensures Passes(e, name, next) <==> e.target == next.0 && LooksFor(e, name) == Some(next.1)
  {
    if e.Named? {
      OriginalOfIff(e.elements, name, next.1);
    }
  }

  /** The edges of the export graph are what the re-export statements say. */
  lemma {:induction false} ExportEdgeIff(fs: Files, root: string, q: Query, next: Query)
    requires q.1 in Names(fs, root)
    ensures Edge(ExportGraph(fs, root), q, next) <==> LeadsTo(fs, q, next)
    ensures LeadsTo(fs, q, next) ==> next.1 in Names(fs, root)
  {
    assert q == (q.0, q.1) && next == (next.0, next.1);
    if Edge(ExportGraph(fs, root), q, next) {
      var i :| 0 <= i < |ExportsOf(fs, q.0)| && LooksFor(ExportsOf(fs, q.0)[i], q.1).Some?
        && next == (ExportsOf(fs, q.0)[i].target, LooksFor(ExportsOf(fs, q.0)[i], q.1).value);
      PassesIff(fs.reexports[q.0][i], q.1, next);
    }
    if LeadsTo(fs, q, next) {
      var i :| 0 <= i < |fs.reexports[q.0]| && Passes(fs.reexports[q.0][i], q.1, next);
      PassesIff(fs.reexports[q.0][i], q.1, next);
      ExportEdge(fs, root, q, i);
    }
  }

  /** Following re-exports through the queries of `path` leads from `q` to `at`. */
  ghost predicate Chain(fs: Files, q: Query, path: seq<Query>, at: Query)
    decreases |path|
  {
    if path == [] then q == at else LeadsTo(fs, q, path[0]) && Chain(fs, path[0], path[1..], at)
  }

  lemma {:induction false} ChainIsPath(fs: Files, root: string, q: Query, path: seq<Query>, at: Query)
    requires q.1 in Names(fs, root)
    ensures Chain(fs, q, path, at) <==> Path(ExportGraph(fs, root), q, path, at)
    decreases |path|
  {
    if path != [] {
      ExportEdgeIff(fs, root, q, path[0]);
      if LeadsTo(fs, q, path[0]) {
        ChainIsPath(fs, root, path[0], path[1..], at);
      }
    }
  }

  /** A chain of re-exports leads to a declaration. */
  ghost predicate Exported(fs: Files, q: Query, decl: nat) {
    exists path, at :: Chain(fs, q, path, at) && at in fs.locals && fs.locals[at] == decl
  }

  lemma {:induction false} ReachExports(fs: Files, root: string, q: Query, at: Query)
    requires q.1 in Names(fs, root) && Reach(ExportGraph(fs, root), q, at) && at in fs.locals
    ensures Exported(fs, q, fs.locals[at])
  {
    ReachHasPath(ExportGraph(fs, root), q, at);
    var path :| Path(ExportGraph(fs, root), q, path, at);
    ChainIsPath(fs, root, q, path, at);
  }

  lemma {:induction false} ExportReaches(fs: Files, root: string, q: Query, decl: nat) returns (at: Query)
    requires q.1 in Names(fs, root) && Exported(fs, q, decl)
    ensures Reach(ExportGraph(fs, root), q, at) && at in fs.locals && fs.locals[at] == decl
  {
    var path;
    path, at :| Chain(fs, q, path, at) && at in fs.locals && fs.locals[at] == decl;
    ChainIsPath(fs, root, q, path, at);
    PathReaches(ExportGraph(fs, root), q, path, at);
  }

  // ---------- The order of the search ----------

  /** The queries that a depth-first search in statement order comes by, each once, leaving out those already seen. */
  ghost function Order(fs: Files, root: string, q: Query, seen: set<Query>): seq<Query>
    requires q.1 in Names(fs, root)
    decreases Universe(fs, root) - seen, 1
  {
    if q in seen then []
    else if ExportsOf(fs, q.0) == [] then [q]
    else
      assert q == (q.0, q.1) && q in Universe(fs, root);
      [q] + OrderFrom(fs, root, q, 0, seen + {q})
  }

  ghost function OrderFrom(fs: Files, root: string, q: Query, i: nat, seen: set<Query>): seq<Query>
    requires q.1 in Names(fs, root) && q in seen && q in Universe(fs, root) && i <= |ExportsOf(fs, q.0)|
    decreases Universe(fs, root) - seen + {q}, 0, |ExportsOf(fs, q.0)| - i
  {
    if i == |ExportsOf(fs, q.0)| then []
    else
      var lookFor := LooksFor(ExportsOf(fs, q.0)[i], q.1);
      if lookFor.None? then OrderFrom(fs, root, q, i + 1, seen)
      else
        ExportEdge(fs, root, q, i);
        var below := Order(fs, root, (ExportsOf(fs, q.0)[i].target, lookFor.value), seen);
        below + OrderFrom(fs, root, q, i + 1, seen + Members(below))
  }

  /** The declaration of the first query that has one. */
  ghost function FirstDeclared(fs: Files, queries: seq<Query>): Option<nat> {
    if queries == [] then None
    else if queries[0] in fs.locals then Some(fs.locals[queries[0]])
    else FirstDeclared(fs, queries[1..])
  }

  ghost predicate Undeclared(fs: Files, queries: seq<Query>) {
    forall i :: 0 <= i < |queries| ==> queries[i] !in fs.locals
  }

  lemma {:induction false} FirstBehind(fs: Files, a: seq<Query>, b: seq<Query>)
    ensures FirstDeclared(fs, a).Some? ==> FirstDeclared(fs, a + b) == FirstDeclared(fs, a)
    ensures FirstDeclared(fs, a).None? ==> Undeclared(fs, a) && FirstDeclared(fs, a + b) == FirstDeclared(fs, b)
    decreases |a|
  {
    if a == [] {
      assert a + b == b;
    } else {
      FirstBehind(fs, a[1..], b);
      assert (a + b)[1..] == a[1..] + b;
      assert forall i :: 1 <= i < |a| ==> a[i] == a[1..][i - 1];
    }
  }

  /** The first `i` re-exports are behind the search, without a declaration in what it has passed. */
  ghost predicate Passing(fs: Files, root: string, q: Query, before: set<Query>, i: nat, seen: set<Query>,
                          passed: seq<Query>)
    requires q.1 in Names(fs, root) && i <= |ExportsOf(fs, q.0)|
  {
    && FirstDeclared(fs, passed).None? && seen == before + Members(passed) && q in seen
    && if ExportsOf(fs, q.0) == [] then Order(fs, root, q, before) == passed
       else q in Universe(fs, root) && Order(fs, root, q, before) == passed + OrderFrom(fs, root, q, i, seen)
  }

  lemma {:induction false} PassFirst(fs: Files, root: string, q: Query, before: set<Query>)
    requires q.1 in Names(fs, root) && q !in before && q !in fs.locals
    ensures Passing(fs, root, q, before, 0, before + {q}, [q])
  {
    assert [q][1..] == [] && q == (q.0, q.1);
  }

  /** Passing one re-export passes what lies below it. */
  lemma {:induction false} PassNext(fs: Files, root: string, q: Query, before: set<Query>, i: nat, seen: set<Query>,
                                    passed: seq<Query>, next: Query)
    requires q.1 in Names(fs, root) && next.1 in Names(fs, root) && i < |ExportsOf(fs, q.0)|
    requires Passing(fs, root, q, before, i, seen, passed)
    requires LooksFor(ExportsOf(fs, q.0)[i], q.1) == Some(next.1) && next.0 == ExportsOf(fs, q.0)[i].target
    ensures var below := Order(fs, root, next, seen);
      if FirstDeclared(fs, below).Some? then FirstDeclared(fs, Order(fs, root, q, before)) == FirstDeclared(fs, below)
      else Passing(fs, root, q, before, i + 1, seen + Members(below), passed + below)
  {
    var below := Order(fs, root, next, seen);
    var rest := OrderFrom(fs, root, q, i + 1, seen + Members(below));
    assert passed + (below + rest) == (passed + below) + rest;
    FirstBehind(fs, passed, below);
    FirstBehind(fs, passed + below, rest);
    assert Members(passed + below) == Members(passed) + Members(below);
  }

  // ---------- The search ----------

  /** The queries entered by a failed search: none has a declaration, and every edge from them stays among the seen. */
  ghost predicate DeadEnds(fs: Files, g: Digraph<Query>, before: set<Query>, seen: set<Query>) {
    && before <= seen
    && (forall q :: q in seen && q !in before ==> q !in fs.locals)
    && (forall q, r {:trigger Edge(g, q, r)} :: q in seen && q !in before && Edge(g, q, r) ==> r in seen)
  }

  /** What the first `i` re-exports lead to has been seen. */
  ghost predicate Followed(fs: Files, q: Query, i: nat, seen: set<Query>) {
    forall j :: 0 <= j < i && j < |ExportsOf(fs, q.0)| && LooksFor(ExportsOf(fs, q.0)[j], q.1).Some? ==>
      (ExportsOf(fs, q.0)[j].target, LooksFor(ExportsOf(fs, q.0)[j], q.1).value) in seen
  }

  lemma DeadFurther(fs: Files, g: Digraph<Query>, a: set<Query>, b: set<Query>, c: set<Query>)
    requires DeadEnds(fs, g, a, b) && DeadEnds(fs, g, b, c)
    ensures DeadEnds(fs, g, a, c)
  {
    forall q, r | q in c && q !in a && Edge(g, q, r) ensures r in c {
      if q in b {
        assert r in b;
      }
    }
  }

  lemma DeadAll(fs: Files, root: string, q: Query, before: set<Query>, seen: set<Query>)
    requires DeadEnds(fs, ExportGraph(fs, root), before + {q}, seen) && q !in fs.locals
    requires Followed(fs, q, |ExportsOf(fs, q.0)|, seen)
    ensures DeadEnds(fs, ExportGraph(fs, root), before, seen)
  {
    var g := ExportGraph(fs, root);
    forall p, r | p in seen && p !in before && Edge(g, p, r) ensures r in seen {
      if p == q {
        assert r in Successors(fs, q);
      }
    }
  }

  /** The search gives the first declaration in its order, and a search that fails has entered all of the order. */
  ghost predicate Searched(fs: Files, order: seq<Query>, before: set<Query>, hit: Option<nat>, seen: set<Query>) {
    hit == FirstDeclared(fs, order) && (hit.None? ==> seen == before + Members(order))
  }

  method FindExported(fs: Files, q: Query, before: set<Query>, ghost root: string)
    returns (hit: Option<nat>, seen: set<Query>, ghost at: Query)
    requires q.1 in Names(fs, root)
    ensures Searched(fs, Order(fs, root, q, before), before, hit, seen)
    ensures hit.Some? ==> at in fs.locals && hit.value == fs.locals[at] && Reach(ExportGraph(fs, root), q, at)
    ensures hit.None? ==> DeadEnds(fs, ExportGraph(fs, root), before, seen) && q in seen
    decreases Universe(fs, root) - before, 1
  {
    ghost var g := ExportGraph(fs, root);
    at := q;
    if q in before {
      return None, before, q;
    }
    seen := before + {q};
    if q in fs.locals {
      ReachRefl(g, q);
      return Some(fs.locals[q]), seen, q;
    }
    var exports := ExportsOf(fs, q.0);
    ghost var passed := [q];
    PassFirst(fs, root, q, before);
    for i := 0 to |exports|
      invariant DeadEnds(fs, g, before + {q}, seen) && Followed(fs, q, i, seen)
      invariant Passing(fs, root, q, before, i, seen, passed)
    {
      var lookFor := LooksFor(exports[i], q.1);
      if lookFor.Some? {
        ExportEdge(fs, root, q, i);
        var next := (exports[i].target, lookFor.value);
        PassNext(fs, root, q, before, i, seen, passed, next);
        passed := passed + Order(fs, root, next, seen);
        ghost var was := seen;
        hit, seen, at := FindExported(fs, next, seen, root);
        if hit.Some? {
          ReachEdge(g, q, next);
          ReachTrans(g, q, next, at);
          return;
        }
        DeadFurther(fs, g, before + {q}, was, seen);
      }
    }
    assert passed + [] == passed;
    DeadAll(fs, root, q, before, seen);
    hit := None;
  }

  // ---------- Earlier statements win ----------

  lemma {:induction false} OrderReaches(fs: Files, root: string, q: Query, seen: set<Query>, x: Query)
    requires q.1 in Names(fs, root) && x in Order(fs, root, q, seen)
    ensures Reach(ExportGraph(fs, root), q, x) && x !in seen
    decreases Universe(fs, root) - seen, 1
  {
    ReachRefl(ExportGraph(fs, root), q);
    if x != q {
      assert q == (q.0, q.1) && q in Universe(fs, root);
      OrderFromReaches(fs, root, q, 0, seen + {q}, x);
    }
  }

  lemma {:induction false} OrderFromReaches(fs: Files, root: string, q: Query, i: nat, seen: set<Query>, x: Query)
    requires q.1 in Names(fs, root) && q in seen && q in Universe(fs, root) && i <= |ExportsOf(fs, q.0)|
    requires x in OrderFrom(fs, root, q, i, seen)
    ensures Reach(ExportGraph(fs, root), q, x) && x !in seen
    decreases Universe(fs, root) - seen + {q}, 0, |ExportsOf(fs, q.0)| - i
  {
    var lookFor := LooksFor(ExportsOf(fs, q.0)[i], q.1);
    if lookFor.None? {
      OrderFromReaches(fs, root, q, i + 1, seen, x);
    } else {
      ExportEdge(fs, root, q, i);
      var next := (ExportsOf(fs, q.0)[i].target, lookFor.value);
      var below := Order(fs, root, next, seen);
      if x in below {
        OrderReaches(fs, root, next, seen, x);
        ReachEdge(ExportGraph(fs, root), q, next);
        ReachTrans(ExportGraph(fs, root), q, next, x);
      } else {
        OrderFromReaches(fs, root, q, i + 1, seen + Members(below), x);
      }
    }
  }

  lemma {:induction false} FirstIsDeclared(fs: Files, queries: seq<Query>)
    ensures FirstDeclared(fs, queries).None? <==> Undeclared(fs, queries)
  {
    if queries != [] {
      FirstIsDeclared(fs, queries[1..]);
      assert forall i :: 1 <= i < |queries| ==> queries[i] == queries[1..][i - 1];
    }
  }

  /** Looking where no chain leads to a declaration finds none. */
  lemma {:induction false} DeadOrder(fs: Files, root: string, q: Query, seen: set<Query>)
    requires q.1 in Names(fs, root) && forall decl :: !Exported(fs, q, decl)
    ensures Undeclared(fs, Order(fs, root, q, seen))
  {
    var order := Order(fs, root, q, seen);
    forall i | 0 <= i < |order| ensures order[i] !in fs.locals {
      OrderReaches(fs, root, q, seen, order[i]);
      if order[i] in fs.locals {
        ReachExports(fs, root, q, order[i]);
      }
    }
  }

  /** The first `i` re-exports that `q` may follow lead to no declaration. */
  ghost predicate DeadUntil(fs: Files, q: Query, i: nat) {
    q.0 in fs.reexports && i <= |fs.reexports[q.0]| && forall j, next, decl ::
      0 <= j < i && Passes(fs.reexports[q.0][j], q.1, next) ==> !Exported(fs, next, decl)
  }

  lemma {:induction false} SkipDead(fs: Files, root: string, q: Query, j: nat, i: nat, seen: set<Query>, next: Query)
    requires q.1 in Names(fs, root) && q in seen && q in Universe(fs, root)
    requires j <= i && DeadUntil(fs, q, i) && i < |fs.reexports[q.0]|
    requires forall x :: x in seen ==> x !in fs.locals
    requires Passes(fs.reexports[q.0][i], q.1, next) && next in fs.locals
    ensures FirstDeclared(fs, OrderFrom(fs, root, q, j, seen)) == Some(fs.locals[next])
    decreases i - j
  {
    var e := ExportsOf(fs, q.0)[j];
    var lookFor := LooksFor(e, q.1);
    if lookFor.Some? {
      var to := (e.target, lookFor.value);
      PassesIff(e, q.1, to);
      ExportEdge(fs, root, q, j);
      var below := Order(fs, root, to, seen);
      var rest := OrderFrom(fs, root, q, j + 1, seen + Members(below));
      FirstBehind(fs, below, rest);
      if j < i {
        DeadOrder(fs, root, to, seen);
        FirstIsDeclared(fs, below);
        SkipDead(fs, root, q, j + 1, i, seen + Members(below), next);
      } else {
        PassesIff(e, q.1, next);
      }
    } else {
      PassesIff(e, q.1, next);
      SkipDead(fs, root, q, j + 1, i, seen, next);
    }
  }

  /** A file's own declaration wins; after that, the first re-export that leads to a declaration does. */
  lemma {:induction false} EarlierStatementWins(fs: Files, q: Query, i: nat, next: Query)
    requires q !in fs.locals && DeadUntil(fs, q, i) && i < |fs.reexports[q.0]|
    requires Passes(fs.reexports[q.0][i], q.1, next) && next in fs.locals
    ensures FirstDeclared(fs, Order(fs, q.1, q, {})) == Some(fs.locals[next])
  {
    assert q == (q.0, q.1) && q in Universe(fs, q.1);
    SkipDead(fs, q.1, q, 0, i, {q}, next);
    assert {} + {q} == {q};
    var rest := OrderFrom(fs, q.1, q, 0, {q});
    assert ([q] + rest)[1..] == rest;
  }

  lemma {:induction false} NothingExported(fs: Files, q: Query, seen: set<Query>)
    requires DeadEnds(fs, ExportGraph(fs, q.1), {}, seen) && q in seen
    ensures forall decl :: !Exported(fs, q, decl)
  {
    var g := ExportGraph(fs, q.1);
    assert IsSink(g, seen);
    forall decl ensures !Exported(fs, q, decl) {
      if Exported(fs, q, decl) {
        var at := ExportReaches(fs, q.1, q, decl);
      }
    }
  }

  /** Resolve a referenced type name to the first declaration within reach, exactly when there is one. */
  method DeclForTypeName(fs: Files, file: string, name: string) returns (r: Option<nat>)
    ensures (file, name) in fs.locals ==> r == Some(fs.locals[(file, name)])
    ensures (file, name) !in fs.locals ==>
      if (file, name) !in fs.imports || fs.imports[(file, name)].target.None? then r == None
      else
        var q := (fs.imports[(file, name)].target.value, fs.imports[(file, name)].imported);
        && r == FirstDeclared(fs, Order(fs, q.1, q, {}))
        && if r.Some? then Exported(fs, q, r.value) else forall decl :: !Exported(fs, q, decl)
  {
    if (file, name) in fs.locals {
      return Some(fs.locals[(file, name)]);
    }
    if (file, name) !in fs.imports || fs.imports[(file, name)].target.None? {
      return None;
    }
    var imp := fs.imports[(file, name)];
    var q := (imp.target.value, imp.imported);
    var hit, seen, at := FindExported(fs, q, {}, q.1);
    r := hit;
    if hit.Some? {
      ReachExports(fs, q.1, q, at);
    } else {
      NothingExported(fs, q, seen);
    }
  }
}
