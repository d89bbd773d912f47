/** The components that a stuck ordering may place next: cycles that nothing leaves. */
module Cycles {
  import opened Digraphs
  import opened Packages
  import opened Sorting
  import opened Components

  /** A component with a cycle inside it and no edge to the rest of the graph. */
  ghost predicate IsSinkCycle(g: Digraph<string>, s: set<string>) {
    IsScc(g, s) && IsSink(g, s) && forall u {:trigger OnCycle(g, u)} :: u in s ==> OnCycle(g, u)
  }

  predicate AllIn(names: seq<string>, packages: PackageMap) {
    forall x :: x in names ==> x in packages
  }

  predicate Inside(remaining: PackageMap, component: seq<string>) {
    component != [] && AllIn(component, remaining)
  }

  /** The filter's test of one emitted component. */
  predicate Keeps(remaining: PackageMap, component: seq<string>)
    requires Inside(remaining, component)
  {
    && (|component| > 1 || component[0] in remaining[component[0]].deps)
    && forall p :: p in component ==> StaysIn(remaining, p, component)
  }

  predicate StaysIn(remaining: PackageMap, p: string, component: seq<string>)
    requires p in remaining
  {
    forall d :: d in remaining[p].deps ==> d !in remaining || d in component
  }

  /** Some dependency of `p` has not been placed yet. */
  predicate Waits(remaining: PackageMap, p: string)
    requires p in remaining
  {
    exists d :: d in remaining[p].deps && d in remaining
  }

  ghost predicate Stuck(remaining: PackageMap) {
    remaining != map[] && forall p {:trigger Waits(remaining, p)} :: p in remaining ==> Waits(remaining, p)
  }

  function Filter(remaining: PackageMap, components: seq<seq<string>>): (kept: seq<seq<string>>)
    requires forall i :: 0 <= i < |components| ==> Inside(remaining, components[i])
    ensures forall c :: c in kept ==> c in components && Inside(remaining, c) && Keeps(remaining, c)
    ensures forall i :: 0 <= i < |components| && Keeps(remaining, components[i]) ==> components[i] in kept
  {
    if components == [] then []
    else (if Keeps(remaining, components[0]) then [components[0]] else []) + Filter(remaining, components[1..])
  }

  /** No two of the sequences share a member. */
  ghost predicate Apart(components: seq<seq<string>>) {
    forall i, j :: 0 <= i < j < |components| ==> Members(components[i]) !! Members(components[j])
  }

  lemma {:induction false} FilterApart(remaining: PackageMap, components: seq<seq<string>>)
    requires (forall i :: 0 <= i < |components| ==> Inside(remaining, components[i])) && Apart(components)
    ensures Apart(Filter(remaining, components))
  {
    if components != [] {
      var first, rest := components[0], Filter(remaining, components[1..]);
      FilterApart(remaining, components[1..]);
      if Keeps(remaining, first) {
        forall j | 0 <= j < |rest| ensures Members(first) !! Members(rest[j]) {
          assert rest[j] in components[1..];
        }
      }
    }
  }

  method SinkCycles(remaining: PackageMap, order: seq<string>) returns (cycles: seq<seq<string>>)
    requires forall x :: x in order <==> x in remaining
    ensures forall i :: 0 <= i < |cycles| ==>
      Distinct(cycles[i]) && IsSinkCycle(DependencyGraph(remaining), Members(cycles[i]))
    ensures forall s :: IsSinkCycle(DependencyGraph(remaining), s) ==> Among(cycles, s)
    ensures Apart(cycles)
    ensures Stuck(remaining) ==> cycles != []
  {
    var components := FindComponents(remaining, order);
    ghost var g := DependencyGraph(remaining);
    DependencyEdge(remaining);
    ComponentsAreInside(remaining, g, components);
    cycles := Filter(remaining, components);
    assert Apart(components) by {
      forall i, j | 0 <= i < j < |components| ensures Members(components[i]) !! Members(components[j]) {
        assert forall x :: x in components[i] ==> x !in components[j];
      }
    }
    FilterApart(remaining, components);
    forall i | 0 <= i < |cycles| ensures Distinct(cycles[i]) && IsSinkCycle(g, Members(cycles[i])) {
      assert cycles[i] in components && Keeps(remaining, cycles[i]);
      KeptIsSinkCycle(remaining, g, cycles[i]);
    }
    forall s | IsSinkCycle(g, s) ensures Among(cycles, s) {
      var i := ComponentOf(g, components, s);
      SinkCycleIsKept(remaining, g, components[i]);
      assert components[i] in cycles;
    }
    if Stuck(remaining) {
      FirstIsKept(remaining, g, components);
    }
  }

  lemma ComponentsAreInside(remaining: PackageMap, g: Digraph<string>, components: seq<seq<string>>)
    requires Emitted(g, components, g.Keys) && g.Keys == remaining.Keys
    ensures forall i :: 0 <= i < |components| ==> Inside(remaining, components[i])
  {
    forall i | 0 <= i < |components| ensures components[i] != [] {
      assert Members(components[i]) != {};
    }
  }

  lemma OnCycleInside(g: Digraph<string>, s: set<string>, u: string, v: string)
    requires IsScc(g, s) && u in s && v in s && u != v
    ensures OnCycle(g, u)
  {
    assert Mutual(g, u, v);
    var x, y := FirstExit(g, {u}, u, v);
    ReachTrans(g, y, v, u);
  }

  lemma KeptIsSinkCycle(remaining: PackageMap, g: Digraph<string>, c: seq<string>)
    requires Mirrors(g, remaining) && Inside(remaining, c)
    requires Distinct(c) && IsScc(g, Members(c)) && Keeps(remaining, c)
    ensures IsSinkCycle(g, Members(c))
  {
    forall u | u in Members(c) ensures OnCycle(g, u) {
      if |c| > 1 {
        var v := if c[0] == u then c[1] else c[0];
        OnCycleInside(g, Members(c), u, v);
      } else {
        assert u == c[0] && Edge(g, u, u);
        ReachRefl(g, u);
      }
    }
  }

  lemma SinkCycleIsKept(remaining: PackageMap, g: Digraph<string>, c: seq<string>)
    requires Mirrors(g, remaining) && Inside(remaining, c)
    requires IsSinkCycle(g, Members(c))
    ensures Keeps(remaining, c)
  {
    if |c| == 1 {
      assert c[0] in Members(c) && OnCycle(g, c[0]);
      var v :| Edge(g, c[0], v) && Reach(g, v, c[0]);
    }
    forall p | p in c ensures StaysIn(remaining, p, c) {
      forall d | d in remaining[p].deps && d in remaining ensures d in c {
        assert p in Members(c) && Edge(g, p, d);
      }
    }
  }

  /** When every remaining package waits for a remaining one, the first component emitted is a sink cycle. */
  lemma FirstIsKept(remaining: PackageMap, g: Digraph<string>, components: seq<seq<string>>)
    requires Mirrors(g, remaining) && Emitted(g, components, g.Keys) && Stuck(remaining)
    requires forall i :: 0 <= i < |components| ==> Inside(remaining, components[i])
    ensures components != [] && Keeps(remaining, components[0])
  {
    var p :| p in remaining;
    assert Gathered(components, p);
    var c := components[0];
    forall x, d | x in c && Edge(g, x, d) ensures d in c {
      assert Gathered(components[..0 + 1], d);
    }
    forall x | x in c ensures StaysIn(remaining, x, c) {
      forall d | d in remaining[x].deps && d in remaining ensures d in c {
        assert Edge(g, x, d);
      }
    }
    assert Waits(remaining, c[0]);
    var d :| d in remaining[c[0]].deps && d in remaining;
    assert Edge(g, c[0], d);
  }
}
