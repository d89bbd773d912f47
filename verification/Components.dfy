/**
 * The strongly-connected-component traversal behind `sinkCycles`: one depth-first
 * pass with visit indices, low links and an explicit stack.
 */
module Components {
  import opened Digraphs
  import opened Packages
  import opened Sorting

  // ---------- The traversal's state and what every step keeps ----------

  /** Visit indices, and the nodes still on the stack. */
  datatype Search = Search(nextIndex: nat, indices: map<string, nat>, stacked: set<string>) {
    /** The nodes of emitted components. */
    ghost function Done(): set<string> {
      indices.Keys - stacked
    }
  }

  ghost predicate Numbered(g: Digraph<string>, s: Search) {
    && s.stacked <= s.indices.Keys <= g.Keys
    && (forall x :: x in s.indices ==> s.indices[x] < s.nextIndex)
  }

  /** A node whose visit has returned has only indexed successors; an emitted one, only emitted ones. */
  ghost predicate Explored(g: Digraph<string>, s: Search, active: set<string>) {
    && (forall x, y {:trigger Edge(g, x, y)} :: x in s.indices && x !in active && Edge(g, x, y) ==> y in s.indices)
    && IsSink(g, s.Done())
  }

  /** Active nodes reach all that is stacked after them. */
  ghost predicate Downward(g: Digraph<string>, s: Search, active: set<string>) {
    forall a, y {:trigger Reach(g, a, y)} ::
      a in active && y in s.stacked && a in s.indices && y in s.indices && s.indices[a] <= s.indices[y] ==>
      Reach(g, a, y)
  }

  /** Everything stacked reaches an active node stacked no later. */
  ghost predicate Upward(g: Digraph<string>, s: Search, active: set<string>) {
    && active <= s.stacked
    && forall y {:trigger HasAnchor(g, s, active, y)} :: y in s.stacked ==> HasAnchor(g, s, active, y)
  }

  ghost predicate HasAnchor(g: Digraph<string>, s: Search, active: set<string>, y: string) {
    exists a :: Anchored(g, s, active, y, a)
  }

  ghost predicate Anchored(g: Digraph<string>, s: Search, active: set<string>, y: string, a: string) {
    a in active && a in s.indices && y in s.indices && s.indices[a] <= s.indices[y] && Reach(g, y, a)
  }

  ghost predicate Inv(g: Digraph<string>, s: Search, active: set<string>) {
    Numbered(g, s) && Explored(g, s, active) && Downward(g, s, active) && Upward(g, s, active)
  }

  // ---------- Entering a node ----------

  ghost function Push(s: Search, x: string): Search {
    Search(s.nextIndex + 1, s.indices[x := s.nextIndex], s.stacked + {x})
  }

  lemma PushKeeps(g: Digraph<string>, s: Search, active: set<string>, x: string)
    requires Inv(g, s, active) && x in g && x !in s.indices
    requires forall a :: a in active ==> Reach(g, a, x)
    ensures Inv(g, Push(s, x), active + {x})
  {
    var t := Push(s, x);
    ReachRefl(g, x);
    forall y | y in t.stacked ensures HasAnchor(g, t, active + {x}, y) {
      if y == x {
        assert Anchored(g, t, active + {x}, y, x);
      } else {
        assert HasAnchor(g, s, active, y);
        var a :| Anchored(g, s, active, y, a);
        assert Anchored(g, t, active + {x}, y, a);
      }
    }
  }

  // ---------- Leaving a node ----------

  /** An edge from a node stacked at or after `x` to one stacked before it. */
  ghost predicate Crosses(g: Digraph<string>, s: Search, x: string, u: string, v: string) {
    && Edge(g, u, v) && u in s.stacked && v in s.stacked
    && x in s.indices && u in s.indices && v in s.indices
    && s.indices[v] < s.indices[x] <= s.indices[u]
  }

  /** `low` bounds the index of every stacked node before `x` entered by an edge from `x` or a later one. */
  ghost predicate Covers(g: Digraph<string>, s: Search, x: string, low: nat) {
    forall u, v :: Crosses(g, s, x, u, v) ==> low <= s.indices[v]
  }

  /** `low` is the index of a stacked node that `x` reaches. */
  ghost predicate Attained(g: Digraph<string>, s: Search, x: string, low: nat) {
    exists y :: y in s.stacked && y in s.indices && s.indices[y] == low && Reach(g, x, y)
  }

  /** A node with a lower low link stays on the stack. */
  lemma ReturnKeeps(g: Digraph<string>, s: Search, active: set<string>, x: string, low: nat)
    requires Inv(g, s, active + {x}) && x !in active
    requires forall y :: Edge(g, x, y) ==> y in s.indices
    requires low < s.indices[x] && Attained(g, s, x, low)
    ensures Inv(g, s, active)
  {
    var z :| z in s.stacked && z in s.indices && s.indices[z] == low && Reach(g, x, z);
    assert HasAnchor(g, s, active + {x}, z);
    var b :| Anchored(g, s, active + {x}, z, b);
    ReachTrans(g, x, z, b);
    forall y | y in s.stacked ensures HasAnchor(g, s, active, y) {
      assert HasAnchor(g, s, active + {x}, y);
      var a :| Anchored(g, s, active + {x}, y, a);
      if a == x {
        ReachTrans(g, y, x, b);
        assert Anchored(g, s, active, y, b);
      } else {
        assert Anchored(g, s, active, y, a);
      }
    }
  }

  /** The nodes stacked at or after `x`. */
  ghost function Segment(s: Search, x: string): set<string>
    requires x in s.indices && s.stacked <= s.indices.Keys
  {
    set y | y in s.stacked && s.indices[x] <= s.indices[y]
  }

  ghost function Pop(s: Search, x: string): Search
    requires x in s.indices && s.stacked <= s.indices.Keys
  {
    s.(stacked := s.stacked - Segment(s, x))
  }

  /** `x` is the innermost active node, fully explored, with low link equal to its index. */
  ghost predicate Ripe(g: Digraph<string>, s: Search, active: set<string>, x: string) {
    && Inv(g, s, active) && x in active
    && (forall a :: a in active && a != x ==> s.indices[a] < s.indices[x])
    && (forall y :: Edge(g, x, y) ==> y in s.indices)
    && Covers(g, s, x, s.indices[x])
  }

  /** Edges leaving the segment lead back into it or into emitted components. */
  lemma SegmentEdge(g: Digraph<string>, s: Search, active: set<string>, x: string, u: string, v: string)
    requires Ripe(g, s, active, x) && u in Segment(s, x) && Edge(g, u, v)
    ensures v in Segment(s, x) || v in s.Done()
  {
    assert v in s.indices && !Crosses(g, s, x, u, v);
  }

  lemma SegmentMutual(g: Digraph<string>, s: Search, active: set<string>, x: string, u: string)
    requires Ripe(g, s, active, x) && u in Segment(s, x)
    ensures Mutual(g, x, u)
  {
    assert HasAnchor(g, s, active, u);
    var a :| Anchored(g, s, active, u, a);
    ReachTrans(g, u, a, x);
  }

  /** Nothing outside the segment is mutually reachable with it. */
  lemma SegmentMaximal(g: Digraph<string>, s: Search, active: set<string>, x: string, u: string, w: string)
    requires Ripe(g, s, active, x) && u in Segment(s, x) && Mutual(g, u, w)
    ensures w in Segment(s, x)
  {
    if w !in Segment(s, x) {
      var a, b := FirstExit(g, Segment(s, x), u, w);
      SegmentEdge(g, s, active, x, a, b);
      ReachTrans(g, b, w, u);
    }
  }

  lemma SegmentIsScc(g: Digraph<string>, s: Search, active: set<string>, x: string)
    requires Ripe(g, s, active, x)
    ensures IsScc(g, Segment(s, x))
  {
    var c := Segment(s, x);
    assert x in c;
    forall u, v | u in c ensures v in c <==> Mutual(g, u, v) {
      if v in c {
        SegmentMutual(g, s, active, x, u);
        SegmentMutual(g, s, active, x, v);
        ReachTrans(g, u, x, v);
        ReachTrans(g, v, x, u);
      } else if Mutual(g, u, v) {
        SegmentMaximal(g, s, active, x, u, v);
      }
    }
  }

  lemma PopKeeps(g: Digraph<string>, s: Search, active: set<string>, x: string)
    requires Ripe(g, s, active, x)
    ensures Inv(g, Pop(s, x), active - {x})
  {
    var t := Pop(s, x);
    forall u, v | u in t.Done() && Edge(g, u, v) ensures v in t.Done() {
      if u in Segment(s, x) {
        SegmentEdge(g, s, active, x, u, v);
      }
    }
    forall y | y in t.stacked ensures HasAnchor(g, t, active - {x}, y) {
      assert HasAnchor(g, s, active, y);
      var a :| Anchored(g, s, active, y, a);
      assert Anchored(g, t, active - {x}, y, a);
    }
  }

  // ---------- The stack and the emitted components as sequences ----------

  /** The stack lists the stacked nodes in visit order. */
  ghost predicate StackOrder(stack: seq<string>, s: Search) {
    && (forall i :: 0 <= i < |stack| ==> stack[i] in s.stacked)
    && (forall x {:trigger x in stack} :: x in s.stacked ==> x in stack)
    && forall i, j :: 0 <= i < j < |stack| && stack[i] in s.indices && stack[j] in s.indices ==>
         s.indices[stack[i]] < s.indices[stack[j]]
  }

  /** One of the sequences holds exactly the members of `s`. */
  ghost predicate Among(components: seq<seq<string>>, s: set<string>) {
    exists i :: 0 <= i < |components| && Members(components[i]) == s
  }

  ghost predicate Gathered(components: seq<seq<string>>, x: string) {
    exists i :: 0 <= i < |components| && x in components[i]
  }

  /** Whole components that together hold `done`, each depending only on itself and earlier ones. */
  ghost predicate Emitted(g: Digraph<string>, components: seq<seq<string>>, done: set<string>) {
    && (forall i :: 0 <= i < |components| ==> Distinct(components[i]) && IsScc(g, Members(components[i])))
    && (forall i, x, y {:trigger x in components[i], Edge(g, x, y)} ::
          0 <= i < |components| && x in components[i] && Edge(g, x, y) ==> Gathered(components[..i + 1], y))
    && (forall i, x {:trigger x in components[i]} :: 0 <= i < |components| && x in components[i] ==> x in done)
    && (forall x {:trigger Gathered(components, x)} :: x in done ==> Gathered(components, x))
    && (forall i, j, x {:trigger x in components[i], x in components[j]} ::
          0 <= i < j < |components| && x in components[i] ==> x !in components[j])
  }

  lemma EmitOne(g: Digraph<string>, components: seq<seq<string>>, done: set<string>, component: seq<string>)
    requires Emitted(g, components, done) && Distinct(component) && IsScc(g, Members(component))
    requires IsSink(g, done + Members(component)) && done !! Members(component)
    ensures Emitted(g, components + [component], done + Members(component))
  {
    var n, all := |components|, components + [component];
    forall i, j, x | 0 <= i < j <= n && x in all[i] ensures x !in all[j] {
      assert x in components[i];
      assert x in done && x !in Members(component);
    }
    forall x | x in done + Members(component) ensures Gathered(all, x) {
      if x in done {
        assert Gathered(components, x);
        var i :| 0 <= i < n && x in components[i];
        assert x in all[i];
      } else {
        assert x in all[n];
      }
    }
    forall i, x, y | 0 <= i <= n && x in all[i] && Edge(g, x, y) ensures Gathered(all[..i + 1], y) {
      if i < n {
        assert all[i] == components[i] && all[..i + 1] == components[..i + 1];
        assert Gathered(components[..i + 1], y);
      } else {
        assert all[..n + 1] == all;
        assert x in Members(component);
      }
    }
  }

  /** How one visit changes the search: it only adds nodes, and later ones get later indices. */
  ghost predicate Grew(s: Search, t: Search) {
    && s.nextIndex <= t.nextIndex && s.stacked <= t.stacked && s.Done() <= t.Done()
    && (forall x :: x in s.indices ==> x in t.indices && t.indices[x] == s.indices[x])
    && (forall x :: x in t.indices && x !in s.indices ==> s.nextIndex <= t.indices[x])
  }

  lemma GrewTwice(s: Search, t: Search, u: Search)
    requires Grew(s, t) && Grew(t, u)
    ensures Grew(s, u)
  {
  }

  /** What a finished visit of `x` records as its low link. */
  ghost predicate LowLink(g: Digraph<string>, s: Search, x: string, low: nat) {
    && x in s.indices && low <= s.indices[x]
    && Covers(g, s, x, low)
    && (low == s.indices[x] || Attained(g, s, x, low))
  }

  /** The low link of `x` while only the first of its dependencies have been scanned. */
  ghost predicate Scanned(g: Digraph<string>, s: Search, x: string, low: nat, seen: set<string>) {
    && x in s.indices && low <= s.indices[x] && Attained(g, s, x, low)
    && (forall u, v :: u != x && Crosses(g, s, x, u, v) ==> low <= s.indices[v])
    && (forall v :: v in seen && v in g ==>
          v in s.indices && (v in s.stacked && s.indices[v] < s.indices[x] ==> low <= s.indices[v]))
  }

  function Min(a: nat, b: nat): nat {
    if a <= b then a else b
  }

  lemma ScanStarts(g: Digraph<string>, s: Search, x: string)
    requires Numbered(g, s) && x !in s.indices
    ensures Scanned(g, Push(s, x), x, s.nextIndex, {})
  {
    ReachRefl(g, x);
  }

  /** Scanning a dependency that is already indexed. */
  lemma ScanIndexed(g: Digraph<string>, s: Search, x: string, low: nat, seen: set<string>, d: string)
    requires Scanned(g, s, x, low, seen) && Edge(g, x, d) && d in s.indices
    ensures Scanned(g, s, x, if d in s.stacked then Min(low, s.indices[d]) else low, seen + {d})
  {
    ReachEdge(g, x, d);
  }

  /** Scanning a dependency by visiting it. */
  lemma ScanVisited(g: Digraph<string>, s: Search, t: Search, x: string, low: nat, seen: set<string>,
                    d: string, lowOfD: nat)
    requires Scanned(g, s, x, low, seen) && Edge(g, x, d)
    requires Numbered(g, s) && Numbered(g, t) && Grew(s, t)
    requires d !in s.indices && d in t.indices
    requires t.indices[d] == s.nextIndex && LowLink(g, t, d, lowOfD)
    ensures Scanned(g, t, x, Min(low, lowOfD), seen + {d})
  {
    var low' := Min(low, lowOfD);
    assert s.indices[x] < t.indices[d];
    assert Attained(g, t, x, low') by {
      if low' == low {
        var y :| y in s.stacked && y in s.indices && s.indices[y] == low && Reach(g, x, y);
        assert y in t.stacked && t.indices[y] == low;
      } else {
        var y :| y in t.stacked && y in t.indices && t.indices[y] == lowOfD && Reach(g, d, y);
        ReachEdge(g, x, d);
        ReachTrans(g, x, d, y);
      }
    }
    forall u, v | u != x && Crosses(g, t, x, u, v) ensures low' <= t.indices[v] {
      assert v in s.indices && v in s.stacked;
      if u in s.indices {
        assert u in s.stacked && Crosses(g, s, x, u, v);
      } else {
        assert Crosses(g, t, d, u, v);
      }
    }
    forall v | v in seen + {d} && v in g
      ensures v in t.indices && (v in t.stacked && t.indices[v] < t.indices[x] ==> low' <= t.indices[v])
    {
      if v in s.indices && v in t.stacked {
        assert v in s.stacked;
      }
    }
  }

  /** A dependency outside the map adds no edge. */
  lemma ScanAbsent(g: Digraph<string>, s: Search, x: string, low: nat, seen: set<string>, d: string)
    requires Scanned(g, s, x, low, seen) && d !in g
    ensures Scanned(g, s, x, low, seen + {d})
  {
  }

  lemma ScanEnds(g: Digraph<string>, s: Search, x: string, low: nat, seen: set<string>)
    requires Scanned(g, s, x, low, seen) && forall y :: Edge(g, x, y) ==> y in seen && y in g
    ensures LowLink(g, s, x, low) && forall y :: Edge(g, x, y) ==> y in s.indices
  {
  }

  lemma MembersGrow(s: seq<string>, i: nat)
    requires i < |s|
    ensures Members(s[..i + 1]) == Members(s[..i]) + {s[i]}
  {
  }

  lemma DropLast(s: seq<string>)
    requires s != [] && Distinct(s)
    ensures Members(s[..|s| - 1]) == Members(s) - {s[|s| - 1]}
  {
    forall x | x in s && x != s[|s| - 1] ensures x in s[..|s| - 1] {
      var i :| 0 <= i < |s| && s[i] == x;
      assert s[..|s| - 1][i] == x;
    }
  }

  lemma StackDistinct(stack: seq<string>, s: Search)
    requires StackOrder(stack, s) && s.stacked <= s.indices.Keys
    ensures Distinct(stack)
  {
  }

  lemma PushOrder(g: Digraph<string>, stack: seq<string>, s: Search, x: string)
    requires Numbered(g, s) && StackOrder(stack, s) && x !in s.indices
    ensures StackOrder(stack + [x], Push(s, x))
  {
  }

  lemma SegmentIsSuffix(stack: seq<string>, s: Search, k: nat, component: seq<string>)
    requires StackOrder(stack, s) && s.stacked <= s.indices.Keys && k < |stack|
    requires |component| == |stack| - k
    requires forall i :: 0 <= i < |component| ==> component[i] == stack[|stack| - 1 - i]
    ensures stack[k] in s.indices
    ensures Members(component) == Segment(s, stack[k]) && Distinct(component)
    ensures Members(stack[..k]) == s.stacked - Segment(s, stack[k])
  {
    forall y ensures y in component <==> y in Segment(s, stack[k]) {
      if y in Segment(s, stack[k]) {
        assert y in stack;
        var i :| 0 <= i < |stack| && stack[i] == y;
        assert component[|stack| - 1 - i] == y;
      }
    }
    forall y | y in s.stacked && y !in Segment(s, stack[k]) ensures y in stack[..k] {
      assert y in stack;
      var i :| 0 <= i < |stack| && stack[i] == y;
      assert i < k;
      assert stack[..k][i] == y;
    }
  }

  // ---------- The traversal ----------

  /** The variables shared by the recursive visits. */
  datatype Traversal = Traversal(
    nextIndex: nat,
    indices: map<string, nat>,
    lowLinks: map<string, nat>,
    stack: seq<string>,
    stacked: set<string>,
    components: seq<seq<string>>)

  ghost function View(t: Traversal): Search {
    Search(t.nextIndex, t.indices, t.stacked)
  }

  ghost predicate Valid(g: Digraph<string>, t: Traversal, active: set<string>) {
    && Inv(g, View(t), active)
    && StackOrder(t.stack, View(t))
    && Emitted(g, t.components, View(t).Done())
    && t.lowLinks.Keys == t.indices.Keys
  }

  /** Pop the stack down to and including `pkg`, which sits at position `k`. */
  method PopComponent(pkg: string, oldStack: seq<string>, oldStacked: set<string>, ghost k: nat)
    returns (component: seq<string>, stack: seq<string>, stacked: set<string>)
    requires k < |oldStack| && oldStack[k] == pkg && Distinct(oldStack) && oldStacked == Members(oldStack)
    ensures stack == oldStack[..k] && stacked == Members(stack)
    ensures |component| == |oldStack| - k
    ensures forall i :: 0 <= i < |component| ==> component[i] == oldStack[|oldStack| - 1 - i]
  {
    stack, stacked := oldStack, oldStacked;
    var member := stack[|stack| - 1];
    DropLast(stack);
    stack, stacked := stack[..|stack| - 1], stacked - {member};
    component := [member];
    while member != pkg
      invariant k <= |stack| < |oldStack| && stack == oldStack[..|stack|] && member == oldStack[|stack|]
      invariant |component| == |oldStack| - |stack|
      invariant forall i :: 0 <= i < |component| ==> component[i] == oldStack[|oldStack| - 1 - i]
      invariant stacked == Members(stack)
      decreases |stack|
    {
      member := stack[|stack| - 1];
      DropLast(stack);
      stack, stacked := stack[..|stack| - 1], stacked - {member};
      component := component + [member];
    }
  }

  method Visit(remaining: PackageMap, ghost g: Digraph<string>, before: Traversal, pkg: string,
               ghost active: set<string>)
    returns (t: Traversal)
    requires Mirrors(g, remaining)
    requires Valid(g, before, active) && pkg in remaining && pkg !in before.indices
    requires forall a :: a in active ==> Reach(g, a, pkg)
    ensures Valid(g, t, active)
    ensures Grew(View(before), View(t)) && before.stack <= t.stack
    ensures forall x :: x in before.indices ==> t.lowLinks[x] == before.lowLinks[x]
    ensures pkg in t.indices && t.indices[pkg] == before.nextIndex
    ensures LowLink(g, View(t), pkg, t.lowLinks[pkg])
    decreases remaining.Keys - before.indices.Keys, 1
  {
    t := Explore(remaining, g, before, pkg, active);
    assert t.stack[..|before.stack|] == before.stack;
    assert (active + {pkg}) - {pkg} == active;
    t := Leave(g, t, pkg, active + {pkg}, |before.stack|);
  }

  /** Index `pkg` and fold everything it depends on into its low link. */
  method Explore(remaining: PackageMap, ghost g: Digraph<string>, before: Traversal, pkg: string,
                 ghost active: set<string>)
    returns (t: Traversal)
    requires Mirrors(g, remaining)
    requires Valid(g, before, active) && pkg in remaining && pkg !in before.indices
    requires forall a :: a in active ==> Reach(g, a, pkg)
    ensures Valid(g, t, active + {pkg})
    ensures Grew(View(before), View(t)) && before.stack + [pkg] <= t.stack
    ensures forall x :: x in before.indices ==> t.lowLinks[x] == before.lowLinks[x]
    ensures pkg in t.indices && t.indices[pkg] == before.nextIndex
    ensures LowLink(g, View(t), pkg, t.lowLinks[pkg])
    ensures forall y :: Edge(g, pkg, y) ==> y in t.indices
    decreases remaining.Keys - before.indices.Keys, 0
  {
    t := Enter(g, before, pkg, active);
    ghost var entered := t;
    t := Scan(remaining, g, t, pkg, active + {pkg});
    GrewTwice(View(before), View(entered), View(t));
  }

  /** Index `pkg` and push it. */
  method Enter(ghost g: Digraph<string>, before: Traversal, pkg: string, ghost active: set<string>)
    returns (t: Traversal)
    requires Valid(g, before, active) && pkg in g && pkg !in before.indices
    requires forall a :: a in active ==> Reach(g, a, pkg)
    ensures Valid(g, t, active + {pkg})
    ensures Grew(View(before), View(t)) && t.stack == before.stack + [pkg]
    ensures t.lowLinks == before.lowLinks[pkg := before.nextIndex]
    ensures pkg in t.indices && t.indices[pkg] == before.nextIndex
    ensures Scanned(g, View(t), pkg, t.lowLinks[pkg], {})
  {
    PushKeeps(g, View(before), active, pkg);
    ScanStarts(g, View(before), pkg);
    PushOrder(g, before.stack, View(before), pkg);
    var index := before.nextIndex;
    t := Traversal(
      index + 1,
      before.indices[pkg := index],
      before.lowLinks[pkg := index],
      before.stack + [pkg],
      before.stacked + {pkg},
      before.components);
    assert View(t) == Push(View(before), pkg);
  }

  /** Fold every dependency of `pkg` into its low link. */
  method Scan(remaining: PackageMap, ghost g: Digraph<string>, before: Traversal, pkg: string,
              ghost active: set<string>)
    returns (t: Traversal)
    requires Mirrors(g, remaining) && pkg in remaining
    requires Valid(g, before, active) && pkg in active
    requires forall a :: a in active ==> Reach(g, a, pkg)
    requires Scanned(g, View(before), pkg, before.lowLinks[pkg], {})
    ensures Valid(g, t, active)
    ensures Grew(View(before), View(t)) && before.stack <= t.stack
    ensures forall x :: x in before.indices && x != pkg ==> t.lowLinks[x] == before.lowLinks[x]
    ensures LowLink(g, View(t), pkg, t.lowLinks[pkg])
    ensures forall y :: Edge(g, pkg, y) ==> y in t.indices
    decreases remaining.Keys - before.indices.Keys, 3
  {
    var deps := remaining[pkg].deps;
    t := before;
    for i := 0 to |deps|
      invariant Valid(g, t, active)
      invariant Grew(View(before), View(t)) && before.stack <= t.stack
      invariant forall x :: x in before.indices && x != pkg ==> t.lowLinks[x] == before.lowLinks[x]
      invariant Scanned(g, View(t), pkg, t.lowLinks[pkg], Members(deps[..i]))
    {
      ghost var here := t;
      t := Follow(remaining, g, t, pkg, deps[i], active, Members(deps[..i]));
      GrewTwice(View(before), View(here), View(t));
      MembersGrow(deps, i);
    }
    ScanEnds(g, View(t), pkg, t.lowLinks[pkg], Members(deps[..|deps|]));
  }

  /** Fold one dependency of `pkg` into its low link, visiting it first when it is new. */
  method Follow(remaining: PackageMap, ghost g: Digraph<string>, before: Traversal, pkg: string, dependency: string,
                ghost active: set<string>, ghost seen: set<string>) returns (t: Traversal)
    requires Mirrors(g, remaining) && pkg in remaining && dependency in remaining[pkg].deps
    requires Valid(g, before, active) && pkg in active
    requires forall a :: a in active ==> Reach(g, a, pkg)
    requires Scanned(g, View(before), pkg, before.lowLinks[pkg], seen)
    ensures Valid(g, t, active)
    ensures Grew(View(before), View(t)) && before.stack <= t.stack
    ensures forall x :: x in before.indices && x != pkg ==> t.lowLinks[x] == before.lowLinks[x]
    ensures Scanned(g, View(t), pkg, t.lowLinks[pkg], seen + {dependency})
    decreases remaining.Keys - before.indices.Keys, 2
  {
    t := before;
    var low := t.lowLinks[pkg];
    if dependency !in remaining {
      ScanAbsent(g, View(t), pkg, low, seen, dependency);
    } else if dependency !in t.indices {
      forall a | a in active ensures Reach(g, a, dependency) {
        ReachStep(g, a, pkg, dependency);
      }
      t := Visit(remaining, g, t, dependency, active);
      low := Min(t.lowLinks[pkg], t.lowLinks[dependency]);
      ScanVisited(g, View(before), View(t), pkg, t.lowLinks[pkg], seen, dependency, t.lowLinks[dependency]);
    } else {
      low := if dependency in t.stacked then Min(low, t.indices[dependency]) else low;
      ScanIndexed(g, View(t), pkg, t.lowLinks[pkg], seen, dependency);
    }
    t := t.(lowLinks := t.lowLinks[pkg := low]);
  }

  /** Finish `pkg`: keep it stacked, or emit the component it roots. */
  method Leave(ghost g: Digraph<string>, before: Traversal, pkg: string, ghost active: set<string>, ghost k: nat)
    returns (t: Traversal)
    requires Valid(g, before, active) && pkg in active && k < |before.stack| && before.stack[k] == pkg
    requires forall a :: a in active && a != pkg ==> before.indices[a] < before.indices[pkg]
    requires forall y :: Edge(g, pkg, y) ==> y in before.indices
    requires LowLink(g, View(before), pkg, before.lowLinks[pkg])
    ensures Valid(g, t, active - {pkg})
    ensures t.indices == before.indices && t.lowLinks == before.lowLinks && t.nextIndex == before.nextIndex
    ensures before.stack[..k] <= t.stack
    ensures (forall x :: x in before.stack[..k] ==> x in t.stacked) && View(before).Done() <= View(t).Done()
    ensures LowLink(g, View(t), pkg, t.lowLinks[pkg])
  {
    t := before;
    if t.lowLinks[pkg] != t.indices[pkg] {
      assert active == (active - {pkg}) + {pkg};
      ReturnKeeps(g, View(t), active - {pkg}, pkg, t.lowLinks[pkg]);
      return;
    }
    t := Emit(g, t, pkg, active, k);
  }

  /** Move the component rooted at `pkg` from the stack to the emitted ones. */
  method Emit(ghost g: Digraph<string>, before: Traversal, pkg: string, ghost active: set<string>, ghost k: nat)
    returns (t: Traversal)
    requires Valid(g, before, active) && Ripe(g, View(before), active, pkg)
    requires k < |before.stack| && before.stack[k] == pkg
    ensures Valid(g, t, active - {pkg})
    ensures t == before.(stack := t.stack, stacked := t.stacked, components := t.components)
    ensures t.stack == before.stack[..k] && View(t) == Pop(View(before), pkg)
  {
    t := before;
    PopKeeps(g, View(t), active, pkg);
    SegmentIsScc(g, View(t), active, pkg);
    StackDistinct(t.stack, View(t));
    var component, stack, stacked := PopComponent(pkg, t.stack, t.stacked, k);
    SegmentIsSuffix(t.stack, View(t), k, component);
    EmitOne(g, t.components, View(t).Done(), component);
    t := t.(stack := stack, stacked := stacked, components := t.components + [component]);
    assert View(t) == Pop(View(before), pkg);
  }

  /** The traversal, from an unvisited graph to every component. */
  method FindComponents(remaining: PackageMap, order: seq<string>) returns (components: seq<seq<string>>)
    requires forall x :: x in order <==> x in remaining
    ensures Emitted(DependencyGraph(remaining), components, remaining.Keys)
    ensures forall s :: IsScc(DependencyGraph(remaining), s) ==> Among(components, s)
  {
    ghost var g := DependencyGraph(remaining);
    DependencyEdge(remaining);
    var t := Traversal(0, map[], map[], [], {}, []);
    for i := 0 to |order|
      invariant Valid(g, t, {})
      invariant Members(order[..i]) <= t.indices.Keys
    {
      MembersGrow(order, i);
      if order[i] !in t.indices {
        t := Visit(remaining, g, t, order[i], {});
      }
    }
    assert order[..|order|] == order;
    assert t.indices.Keys == remaining.Keys;
    components := t.components;
    EverythingEmitted(g, t);
  }

  lemma EverythingEmitted(g: Digraph<string>, t: Traversal)
    requires Valid(g, t, {}) && t.indices.Keys == g.Keys
    ensures Emitted(g, t.components, g.Keys)
    ensures forall s :: IsScc(g, s) ==> Among(t.components, s)
  {
    NothingStacked(g, View(t));
    forall s | IsScc(g, s) ensures Among(t.components, s) {
      var i := ComponentOf(g, t.components, s);
    }
  }

  lemma NothingStacked(g: Digraph<string>, s: Search)
    requires Upward(g, s, {})
    ensures s.stacked == {}
  {
    forall y ensures y !in s.stacked {
      assert !HasAnchor(g, s, {}, y);
    }
  }

  lemma ComponentOf(g: Digraph<string>, components: seq<seq<string>>, s: set<string>) returns (i: nat)
    requires Emitted(g, components, g.Keys) && IsScc(g, s)
    ensures i < |components| && Members(components[i]) == s
  {
    var u :| u in s;
    assert Gathered(components, u);
    i :| 0 <= i < |components| && u in components[i];
    SccsAgree(g, s, Members(components[i]), u);
  }
}
