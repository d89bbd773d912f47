/** Finite directed graphs, reachability and strongly connected sets. */
module Digraphs {

  /** A finite graph: every key is a node that may have outgoing edges. */
  type Digraph<!T> = map<T, set<T>>

  ghost predicate Edge<T>(g: Digraph<T>, u: T, v: T) {
    u in g && v in g[u]
  }

  /** No edge leads out of `s`. */
  ghost predicate IsSink<T(!new)>(g: Digraph<T>, s: set<T>) {
    forall u, v {:trigger Edge(g, u, v)} :: u in s && Edge(g, u, v) ==> v in s
  }

  /** `v` is in everything closed under edges that holds `u`; `ReachIffPath` relates this to walks. */
  ghost predicate Reach<T(!new)>(g: Digraph<T>, u: T, v: T) {
    forall s: set<T> {:trigger IsSink(g, s)} :: IsSink(g, s) && u in s ==> v in s
  }

  /** Following the nodes of `p` one edge at a time leads from `u` to `v`. */
  ghost predicate Path<T>(g: Digraph<T>, u: T, p: seq<T>, v: T) {
    if p == [] then u == v else Edge(g, u, p[0]) && Path(g, p[0], p[1..], v)
  }

  ghost predicate Mutual<T(!new)>(g: Digraph<T>, u: T, v: T) {
    Reach(g, u, v) && Reach(g, v, u)
  }

  /** `u` lies on a cycle of one or more edges. */
  ghost predicate OnCycle<T(!new)>(g: Digraph<T>, u: T) {
    exists v :: Edge(g, u, v) && Reach(g, v, u)
  }

  /** `s` is a maximal strongly connected set of nodes. */
  ghost predicate IsScc<T(!new)>(g: Digraph<T>, s: set<T>) {
    && s != {} && s <= g.Keys
    && forall u, v {:trigger Mutual(g, u, v)} :: u in s ==> (v in s <==> Mutual(g, u, v))
  }

  lemma ReachRefl<T(!new)>(g: Digraph<T>, u: T)
    ensures Reach(g, u, u)
  {
  }

  lemma ReachEdge<T(!new)>(g: Digraph<T>, u: T, v: T)
    requires Edge(g, u, v)
    ensures Reach(g, u, v)
  {
  }

  lemma ReachTrans<T(!new)>(g: Digraph<T>, u: T, v: T, w: T)
    requires Reach(g, u, v) && Reach(g, v, w)
    ensures Reach(g, u, w)
  {
  }

  lemma ReachStep<T(!new)>(g: Digraph<T>, u: T, v: T, w: T)
    requires Reach(g, u, v) && Edge(g, v, w)
    ensures Reach(g, u, w)
  {
    ReachEdge(g, v, w);
    ReachTrans(g, u, v, w);
  }

  lemma {:induction false} PathAppend<T(!new)>(g: Digraph<T>, u: T, p: seq<T>, v: T, w: T)
    requires Path(g, u, p, v) && Edge(g, v, w)
    ensures Path(g, u, p + [w], w)
    decreases |p|
  {
    if p == [] {
      assert p + [w] == [w] && [w][1..] == [];
    } else {
      PathAppend(g, p[0], p[1..], v, w);
      assert (p + [w])[1..] == p[1..] + [w];
    }
  }

  lemma {:induction false} PathStays<T(!new)>(g: Digraph<T>, s: set<T>, u: T, p: seq<T>, v: T)
    requires Path(g, u, p, v) && IsSink(g, s) && u in s
    ensures v in s
    decreases |p|
  {
    if p != [] {
      PathStays(g, s, p[0], p[1..], v);
    }
  }

  ghost function Nodes<T(!new)>(g: Digraph<T>): set<T> {
    g.Keys + set u, v | u in g && v in g[u] :: v
  }

  lemma PathReaches<T(!new)>(g: Digraph<T>, u: T, p: seq<T>, v: T)
    requires Path(g, u, p, v)
    ensures Reach(g, u, v)
  {
    forall s: set<T> | IsSink(g, s) && u in s ensures v in s {
      PathStays(g, s, u, p, v);
    }
  }

  lemma ReachHasPath<T(!new)>(g: Digraph<T>, u: T, v: T)
    requires Reach(g, u, v)
    ensures exists p :: Path(g, u, p, v)
  {
    var s := set x | x in Nodes(g) + {u} && exists p :: Path(g, u, p, x);
    forall x, y | x in s && Edge(g, x, y) ensures y in s {
      var p :| Path(g, u, p, x);
      PathAppend(g, u, p, x, y);
    }
    assert Path(g, u, [], u);
    assert IsSink(g, s) && u in s;
  }

  /** Reachability is the existence of a walk. */
  lemma ReachIffPath<T(!new)>(g: Digraph<T>, u: T, v: T)
    ensures Reach(g, u, v) <==> exists p :: Path(g, u, p, v)
  {
    if Reach(g, u, v) {
      ReachHasPath(g, u, v);
    } else if p :| Path(g, u, p, v) {
      PathReaches(g, u, p, v);
    }
  }

  /** A walk that starts inside `s` and ends outside it leaves `s` by some edge. */
  lemma FirstExit<T(!new)>(g: Digraph<T>, s: set<T>, u: T, w: T) returns (x: T, y: T)
    requires u in s && w !in s && Reach(g, u, w)
    ensures x in s && y !in s && Edge(g, x, y)
    ensures Reach(g, u, x) && Reach(g, y, w)
  {
    ReachHasPath(g, u, w);
    var p :| Path(g, u, p, w);
    x, y := PathExit(g, s, u, p, w);
  }

  lemma {:induction false} PathExit<T(!new)>(g: Digraph<T>, s: set<T>, u: T, p: seq<T>, w: T) returns (x: T, y: T)
    requires u in s && w !in s && Path(g, u, p, w)
    ensures x in s && y !in s && Edge(g, x, y)
    ensures Reach(g, u, x) && Reach(g, y, w)
    decreases |p|
  {
    if p[0] !in s {
      x, y := u, p[0];
      PathReaches(g, y, p[1..], w);
    } else {
      x, y := PathExit(g, s, p[0], p[1..], w);
      ReachEdge(g, u, p[0]);
      ReachTrans(g, u, p[0], x);
    }
  }

  /** Reachability survives when edges are added. */
  lemma ReachMonotone<T(!new)>(g: Digraph<T>, h: Digraph<T>, u: T, v: T)
    requires forall x, y :: Edge(g, x, y) ==> Edge(h, x, y)
    requires Reach(g, u, v)
    ensures Reach(h, u, v)
  {
    forall s: set<T> | IsSink(h, s) && u in s ensures v in s {
      assert IsSink(g, s);
    }
  }

  /** Strongly connected components that share a node are equal. */
  lemma SccsAgree<T(!new)>(g: Digraph<T>, s: set<T>, t: set<T>, u: T)
    requires IsScc(g, s) && IsScc(g, t) && u in s && u in t
    ensures s == t
  {
    assert forall v :: v in s <==> Mutual(g, u, v);
  }
}
