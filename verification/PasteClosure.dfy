/** The worklist that pastes a config type together with every package-local declaration it uses. */
module PasteClosure {
  import opened Digraphs

  /** A type name used in a file. */
  type Use = (string, string)

  /** What an import brings in: the module and the name it exports. */
  datatype TypeRef = TypeRef(imported: string, specifier: string)

  /** What a use denotes: nothing known, an import from another package, or a declaration of this package. */
  datatype Resolution = Unresolved | Imported(ref: TypeRef) | Declared(key: string)

  /** A property of a declaration: whether it has documentation, and the properties of literals in its type. */
  datatype Field = Field(documented: bool, nested: seq<Field>)

  datatype Decl = Decl(file: string, names: seq<string>, fields: seq<Field>)

  /** How many properties lack documentation, at any depth. */
  function Undocumented(fields: seq<Field>): nat {
    if fields == [] then 0
    else (if fields[0].documented then 0 else 1) + Undocumented(fields[0].nested) + Undocumented(fields[1..])
  }

  ghost predicate Documented(fields: seq<Field>) {
    forall i :: 0 <= i < |fields| ==> fields[i].documented && Documented(fields[i].nested)
  }

  lemma {:induction false} UndocumentedIff(fields: seq<Field>)
    ensures Undocumented(fields) == 0 <==> Documented(fields)
  {
    if fields != [] {
      UndocumentedIff(fields[0].nested);
      UndocumentedIff(fields[1..]);
      assert Documented(fields) <==>
        fields[0].documented && Documented(fields[0].nested) && Documented(fields[1..]) by {
        assert forall i :: 1 <= i < |fields| ==> fields[i] == fields[1..][i - 1];
      }
    }
  }

  /** A package: what each use denotes, and each declaration's file and type names. */
  datatype Package = Package(uses: map<Use, Resolution>, decls: map<string, Decl>, globals: set<string>) {
    function Resolve(use: Use): (r: Resolution)
      ensures r.Declared? ==> r.key in decls && use in uses
    {
      if use !in uses || (uses[use].Declared? && uses[use].key !in decls) then Unresolved else uses[use]
    }

    /** The uses that pasting a declaration queues. */
    ghost function UsesOf(key: string): set<Use>
      requires key in decls
    {
      set n | n in decls[key].names && n !in globals :: (decls[key].file, n)
    }

    /** From each use of a declaration to the uses inside that declaration. */
    ghost function Graph(): Digraph<Use> {
      map use | use in uses :: if Resolve(use).Declared? then UsesOf(Resolve(use).key) else {}
    }
  }

  /** Every use reached from the root is admissible, and equal names denote equal things. */
  ghost predicate Consistent(p: Package, root: Use) {
    && (forall u :: Reach(p.Graph(), root, u) ==> Admissible(p, root, u))
    && (forall u, v {:trigger Reach(p.Graph(), root, u), Reach(p.Graph(), root, v)} ::
          Reach(p.Graph(), root, u) && Reach(p.Graph(), root, v) && u.1 == v.1 ==> p.Resolve(u) == p.Resolve(v))
  }

  /** The use resolves, to a documented declaration or to an import under another name than the root's. */
  ghost predicate Admissible(p: Package, root: Use, u: Use) {
    match p.Resolve(u)
    case Unresolved => false
    case Imported(_) => u.1 != root.1
    case Declared(key) => Documented(p.decls[key].fields)
  }

  // ---------- The worklist's state ----------

  datatype State = State(
    queue: seq<Use>,
    pasted: map<string, string>,
    order: seq<string>,
    refs: map<string, TypeRef>,
    violations: nat)

  /** What the recorded tables say a name denotes. */
  ghost predicate Recorded(p: Package, s: State, u: Use) {
    match p.Resolve(u)
    case Unresolved => false
    case Imported(ref) => u.1 in s.refs && s.refs[u.1] == ref
    case Declared(key) => u.1 in s.pasted && s.pasted[u.1] == key
  }

  /** The pasted names in order, each once. */
  ghost predicate Ordered(s: State) {
    && (forall n :: n in s.order <==> n in s.pasted)
    && (forall i, j :: 0 <= i < j < |s.order| ==> s.order[i] != s.order[j])
  }

  /** Every table entry stems from a processed use. */
  ghost predicate Witnessed(p: Package, s: State, done: set<Use>) {
    && s.pasted.Keys !! s.refs.Keys
    && (forall n :: n in s.pasted ==> exists u :: u in done && u.1 == n && p.Resolve(u) == Declared(s.pasted[n]))
    && (forall n :: n in s.refs ==> exists u :: u in done && u.1 == n && p.Resolve(u) == Imported(s.refs[n]))
  }

  /** As long as nothing is wrong, processed uses are recorded and what they lead to is processed or queued. */
  ghost predicate Expanded(p: Package, s: State, root: Use, done: set<Use>) {
    && (root in done || root in s.queue)
    && (forall u :: u in done ==> Recorded(p, s, u) && Admissible(p, root, u))
    && (forall u, v {:trigger Edge(p.Graph(), u, v)} :: u in done && Edge(p.Graph(), u, v) ==>
          v in done || v in s.queue)
  }

  ghost predicate Reached(p: Package, s: State, root: Use, done: set<Use>) {
    && (forall u :: u in done ==> Reach(p.Graph(), root, u))
    && (forall i :: 0 <= i < |s.queue| ==> Reach(p.Graph(), root, s.queue[i]))
  }

  ghost predicate Inv(p: Package, s: State, root: Use, done: set<Use>) {
    && Ordered(s) && Witnessed(p, s, done) && Reached(p, s, root, done)
    && (s.violations == 0 ==> Expanded(p, s, root, done))
    && (s.violations > 0 ==> !Consistent(p, root))
  }

  ghost function AllNames(p: Package): set<string> {
    set u | u in p.uses :: u.1
  }

  // ---------- One item ----------

  function Without(names: seq<string>, globals: set<string>): (r: seq<string>)
    ensures forall n :: n in r <==> n in names && n !in globals
  {
    if names == [] then []
    else
      assert names == [names[0]] + names[1..];
      (if names[0] in globals then [] else [names[0]]) + Without(names[1..], globals)
  }

  function QueueOf(file: string, names: seq<string>): (r: seq<Use>)
    ensures |r| == |names| && forall i :: 0 <= i < |r| ==> r[i] == (file, names[i])
  {
    seq(|names|, i requires 0 <= i < |names| => (file, names[i]))
  }

  /** The state after taking the head of the queue. */
  function Step(p: Package, s: State, root: string): State
    requires s.queue != []
  {
    var use, rest := s.queue[0], s.(queue := s.queue[1..]);
    var wrong := rest.(violations := s.violations + 1);
    match p.Resolve(use)
    case Unresolved => wrong
    case Imported(ref) =>
      if use.1 == root || use.1 in s.pasted || (use.1 in s.refs && s.refs[use.1] != ref) then wrong
      else rest.(refs := s.refs[use.1 := ref])
    case Declared(key) =>
      if use.1 in s.pasted then if s.pasted[use.1] == key then rest else wrong
      else if use.1 in s.refs then wrong
      else
        rest.(pasted := s.pasted[use.1 := key],
              order := s.order + [use.1],
              violations := s.violations + Undocumented(p.decls[key].fields),
              queue := rest.queue + QueueOf(p.decls[key].file, Without(p.decls[key].names, p.globals)))
  }

  lemma StepReaches(p: Package, s: State, root: Use, done: set<Use>)
    requires s.queue != [] && Reached(p, s, root, done)
    ensures Reached(p, Step(p, s, root.1), root, done + {s.queue[0]})
  {
    var use, t := s.queue[0], Step(p, s, root.1);
    forall i | 0 <= i < |t.queue| ensures Reach(p.Graph(), root, t.queue[i]) {
      if i < |s.queue| - 1 {
        assert t.queue[i] == s.queue[i + 1];
      } else {
        var key := p.Resolve(use).key;
        assert t.queue[i] in p.UsesOf(key);
        assert Edge(p.Graph(), use, t.queue[i]);
        ReachStep(p.Graph(), root, use, t.queue[i]);
      }
    }
  }

  lemma StepWitnessed(p: Package, s: State, root: Use, done: set<Use>)
    requires s.queue != [] && Ordered(s) && Witnessed(p, s, done)
    ensures Ordered(Step(p, s, root.1)) && Witnessed(p, Step(p, s, root.1), done + {s.queue[0]})
  {
    var use, t, more := s.queue[0], Step(p, s, root.1), done + {s.queue[0]};
    forall n | n in t.pasted ensures exists u :: u in more && u.1 == n && p.Resolve(u) == Declared(t.pasted[n]) {
      if n in s.pasted {
        var u :| u in done && u.1 == n && p.Resolve(u) == Declared(s.pasted[n]);
        assert u in more;
      } else {
        assert use in more;
      }
    }
    forall n | n in t.refs ensures exists u :: u in more && u.1 == n && p.Resolve(u) == Imported(t.refs[n]) {
      if n in s.refs {
        var u :| u in done && u.1 == n && p.Resolve(u) == Imported(s.refs[n]);
        assert u in more;
      } else {
        assert use in more;
      }
    }
  }

  /** A violation is raised only for an inconsistent package. */
  lemma WrongIsInconsistent(p: Package, s: State, root: Use, done: set<Use>)
    requires s.queue != [] && Witnessed(p, s, done) && Reached(p, s, root, done)
    requires Step(p, s, root.1).violations > s.violations
    ensures !Consistent(p, root)
  {
    var use := s.queue[0];
    assert Reach(p.Graph(), root, use);
    if Admissible(p, root, use) {
      if p.Resolve(use).Declared? {
        UndocumentedIff(p.decls[p.Resolve(use).key].fields);
      }
      if use.1 in s.pasted {
        var u :| u in done && u.1 == use.1 && p.Resolve(u) == Declared(s.pasted[use.1]);
        assert Reach(p.Graph(), root, u);
      } else {
        var u :| u in done && u.1 == use.1 && p.Resolve(u) == Imported(s.refs[use.1]);
        assert Reach(p.Graph(), root, u);
      }
    }
  }

  lemma StepExpands(p: Package, s: State, root: Use, done: set<Use>)
    requires s.queue != [] && Expanded(p, s, root, done) && Witnessed(p, s, done)
    requires Step(p, s, root.1).violations == s.violations
    ensures Expanded(p, Step(p, s, root.1), root, done + {s.queue[0]})
  {
    var use, t := s.queue[0], Step(p, s, root.1);
    forall u | u in done + {use} ensures Recorded(p, t, u) && Admissible(p, root, u) {
      StepRecords(p, s, root, done, u);
    }
    forall u, v | u in done + {use} && Edge(p.Graph(), u, v) ensures v in done + {use} || v in t.queue {
      if u in done {
        if v in s.queue && v != use {
          StepLeaves(p, s, root.1, v);
        }
      } else {
        StepQueues(p, s, root, done, v);
      }
    }
    if root in s.queue && root != use {
      StepLeaves(p, s, root.1, root);
    }
  }

  lemma StepRecords(p: Package, s: State, root: Use, done: set<Use>, u: Use)
    requires s.queue != [] && Expanded(p, s, root, done) && Step(p, s, root.1).violations == s.violations
    requires u in done || u == s.queue[0]
    requires Witnessed(p, s, done)
    ensures Recorded(p, Step(p, s, root.1), u) && Admissible(p, root, u)
  {
    var use := s.queue[0];
    if u == use && p.Resolve(use).Declared? {
      UndocumentedIff(p.decls[p.Resolve(use).key].fields);
      if use.1 in s.pasted {
        var v :| v in done && v.1 == use.1 && p.Resolve(v) == Declared(s.pasted[use.1]);
        assert Admissible(p, root, v);
      }
    }
  }

  lemma StepLeaves(p: Package, s: State, root: string, v: Use)
    requires s.queue != [] && v in s.queue && v != s.queue[0]
    ensures v in Step(p, s, root).queue
  {
    var i :| 0 <= i < |s.queue| && s.queue[i] == v;
    assert Step(p, s, root).queue[i - 1] == v;
  }

  /** What the head's declaration uses is queued when it is pasted, or was when it was pasted before. */
  lemma StepQueues(p: Package, s: State, root: Use, done: set<Use>, v: Use)
    requires s.queue != [] && Expanded(p, s, root, done) && Witnessed(p, s, done) && Edge(p.Graph(), s.queue[0], v)
    requires Step(p, s, root.1).violations == s.violations
    ensures v in done + {s.queue[0]} || v in Step(p, s, root.1).queue
  {
    var use, t := s.queue[0], Step(p, s, root.1);
    var key := p.Resolve(use).key;
    if use.1 !in s.pasted {
      var names := Without(p.decls[key].names, p.globals);
      var i :| 0 <= i < |names| && v == (p.decls[key].file, names[i]);
      assert t.queue[|s.queue| - 1 + i] == v;
    } else {
      var u :| u in done && u.1 == use.1 && p.Resolve(u) == Declared(s.pasted[use.1]);
      assert Edge(p.Graph(), u, v);
      assert s.queue == [use] + s.queue[1..];
    }
  }

  // ---------- The order of the pastes ----------

  /** The uses in a declaration's file of the names it mentions, but for globals, in order of mention. */
  ghost function Mentioned(file: string, names: seq<string>, globals: set<string>): seq<Use> {
    if names == [] then []
    else
      var n := |names| - 1;
      Mentioned(file, names[..n], globals) + if names[n] in globals then [] else [(file, names[n])]
  }

  ghost function MentionedBy(p: Package, u: Use): seq<Use> {
    if !p.Resolve(u).Declared? then []
    else
      var decl := p.decls[p.Resolve(u).key];
      Mentioned(decl.file, decl.names, p.globals)
  }

  /** What several uses mention, one use after another. */
  ghost function AllMentioned(p: Package, uses: seq<Use>): seq<Use> {
    if uses == [] then [] else AllMentioned(p, uses[..|uses| - 1]) + MentionedBy(p, uses[|uses| - 1])
  }

  ghost function NamesOf(uses: seq<Use>): seq<string> {
    if uses == [] then [] else NamesOf(uses[..|uses| - 1]) + [uses[|uses| - 1].1]
  }

  /** The uses of declarations, each name where it first comes up. */
  ghost function FirstUses(p: Package, uses: seq<Use>): seq<Use> {
    if uses == [] then []
    else
      var n := |uses| - 1;
      var before := FirstUses(p, uses[..n]);
      if p.Resolve(uses[n]).Declared? && uses[n].1 !in NamesOf(before) then before + [uses[n]] else before
  }

  /**
   * The uses taken up are the root and then whatever the pasted declarations mention, declaration by
   * declaration; the pastes are the names among them, each where it first comes up.
   */
  ghost predicate TakenInOrder(p: Package, root: Use, taken: seq<Use>, left: seq<Use>, order: seq<string>) {
    taken + left == [root] + AllMentioned(p, FirstUses(p, taken)) && order == NamesOf(FirstUses(p, taken))
  }

  ghost predicate BreadthFirst(p: Package, root: Use, order: seq<string>) {
    exists taken :: TakenInOrder(p, root, taken, [], order)
  }

  lemma {:induction false} MentionedFirst(file: string, name: string, names: seq<string>, globals: set<string>)
    ensures Mentioned(file, [name] + names, globals)
         == (if name in globals then [] else [(file, name)]) + Mentioned(file, names, globals)
    decreases |names|
  {
    if names == [] {
      assert ([name] + names)[..0] == [];
    } else {
      var n := |names| - 1;
      MentionedFirst(file, name, names[..n], globals);
      assert ([name] + names)[..n + 1] == [name] + names[..n];
    }
  }

  lemma {:induction false} QueueFirst(file: string, name: string, names: seq<string>)
    ensures QueueOf(file, [name] + names) == [(file, name)] + QueueOf(file, names)
  {
  }

  lemma {:induction false} QueueIsMentioned(file: string, names: seq<string>, globals: set<string>)
    ensures QueueOf(file, Without(names, globals)) == Mentioned(file, names, globals)
    decreases |names|
  {
    if names != [] {
      var name, rest := names[0], names[1..];
      QueueIsMentioned(file, rest, globals);
      assert names == [name] + rest;
      MentionedFirst(file, name, rest, globals);
      if name in globals {
        assert [] + Without(rest, globals) == Without(rest, globals);
      } else {
        QueueFirst(file, name, Without(rest, globals));
      }
    }
  }

  lemma {:induction false} TakeOne(p: Package, taken: seq<Use>, u: Use)
    ensures FirstUses(p, taken + [u]) ==
      if p.Resolve(u).Declared? && u.1 !in NamesOf(FirstUses(p, taken)) then FirstUses(p, taken) + [u]
      else FirstUses(p, taken)
  {
    assert (taken + [u])[..|taken|] == taken;
  }

  lemma {:induction false} OpenOne(p: Package, uses: seq<Use>, u: Use)
    ensures AllMentioned(p, uses + [u]) == AllMentioned(p, uses) + MentionedBy(p, u)
    ensures NamesOf(uses + [u]) == NamesOf(uses) + [u.1]
  {
    assert (uses + [u])[..|uses|] == uses;
  }

  lemma {:induction false} Regrouped(a: seq<Use>, u: Use, b: seq<Use>, c: seq<Use>, d: seq<Use>, more: seq<Use>)
    requires a + ([u] + b) == c + d
    ensures (a + [u]) + (b + more) == c + (d + more)
  {
    assert (a + [u]) + (b + more) == (a + ([u] + b)) + more;
  }

  lemma {:induction false} TakePasted(p: Package, root: Use, taken: seq<Use>, u: Use, rest: seq<Use>,
                                      order: seq<string>)
    requires TakenInOrder(p, root, taken, [u] + rest, order) && p.Resolve(u).Declared? && u.1 !in order
    ensures TakenInOrder(p, root, taken + [u], rest + MentionedBy(p, u), order + [u.1])
  {
    var first, more := FirstUses(p, taken), MentionedBy(p, u);
    TakeOne(p, taken, u);
    OpenOne(p, first, u);
    Regrouped(taken, u, rest, [root], AllMentioned(p, first), more);
  }

  lemma {:induction false} TakeOther(p: Package, root: Use, taken: seq<Use>, u: Use, rest: seq<Use>,
                                     order: seq<string>)
    requires TakenInOrder(p, root, taken, [u] + rest, order) && (p.Resolve(u).Declared? ==> u.1 in order)
    ensures TakenInOrder(p, root, taken + [u], rest, order)
  {
    TakeOne(p, taken, u);
    assert taken + [u] + rest == taken + ([u] + rest);
  }

  lemma {:induction false} StepQueue(p: Package, s: State, root: string)
    requires s.queue != [] && Step(p, s, root).violations == s.violations
    ensures var u, t := s.queue[0], Step(p, s, root);
      if p.Resolve(u).Declared? && u.1 !in s.pasted then
        t.queue == s.queue[1..] + MentionedBy(p, u) && t.order == s.order + [u.1]
      else t.queue == s.queue[1..] && t.order == s.order
  {
    var u := s.queue[0];
    if p.Resolve(u).Declared? {
      var decl := p.decls[p.Resolve(u).key];
      QueueIsMentioned(decl.file, decl.names, p.globals);
    }
  }

  /** A step that raises nothing keeps the order. */
  lemma {:induction false} StepInOrder(p: Package, s: State, root: Use, taken: seq<Use>)
    requires s.queue != [] && Ordered(s) && TakenInOrder(p, root, taken, s.queue, s.order)
    requires Step(p, s, root.1).violations == s.violations
    ensures var t := Step(p, s, root.1); TakenInOrder(p, root, taken + [s.queue[0]], t.queue, t.order)
  {
    var u := s.queue[0];
    StepQueue(p, s, root.1);
    assert s.queue == [u] + s.queue[1..];
    if p.Resolve(u).Declared? && u.1 !in s.pasted {
      TakePasted(p, root, taken, u, s.queue[1..], s.order);
    } else {
      TakeOther(p, root, taken, u, s.queue[1..], s.order);
    }
  }

  // ---------- The whole worklist ----------

  lemma StepKeeps(p: Package, s: State, root: Use, done: set<Use>)
    requires s.queue != [] && Inv(p, s, root, done)
    ensures Inv(p, Step(p, s, root.1), root, done + {s.queue[0]})
  {
    StepReaches(p, s, root, done);
    StepWitnessed(p, s, root, done);
    if Step(p, s, root.1).violations > s.violations {
      WrongIsInconsistent(p, s, root, done);
    } else if s.violations == 0 {
      StepExpands(p, s, root, done);
    }
  }

  /** Each step pastes a new name or shortens the queue, and appends to what was pasted. */
  lemma StepAdvances(p: Package, s: State, root: string)
    requires s.queue != [] && Ordered(s) && s.pasted.Keys <= AllNames(p)
    ensures var t := Step(p, s, root);
      && t.pasted.Keys <= AllNames(p)
      && (AllNames(p) - t.pasted.Keys < AllNames(p) - s.pasted.Keys
          || (t.pasted.Keys == s.pasted.Keys && |t.queue| < |s.queue|))
      && s.order <= t.order && s.violations <= t.violations
  {
    var use, t := s.queue[0], Step(p, s, root);
    if p.Resolve(use).Declared? {
      assert use.1 in AllNames(p);
      if t.pasted.Keys != s.pasted.Keys {
        assert use.1 in AllNames(p) - s.pasted.Keys && use.1 !in AllNames(p) - t.pasted.Keys;
      }
    }
  }

  function Start(root: Use): State {
    State([root], map[], [], map[], 0)
  }

  lemma FirstPaste(p: Package, root: Use)
    ensures var t := Step(p, Start(root), root.1); t.violations == 0 ==> t.order == [root.1]
  {
  }

  /** The pasted declarations and references are exactly what the root reaches. */
  ghost predicate ClosureOf(p: Package, root: Use, s: State) {
    && Ordered(s) && s.pasted.Keys !! s.refs.Keys
    && (forall u :: Reach(p.Graph(), root, u) ==> Recorded(p, s, u))
    && (forall n :: n in s.pasted ==> exists u ::
          Reach(p.Graph(), root, u) && u.1 == n && p.Resolve(u) == Declared(s.pasted[n]))
    && (forall n :: n in s.refs ==> exists u ::
          Reach(p.Graph(), root, u) && u.1 == n && p.Resolve(u) == Imported(s.refs[n]))
  }

  lemma DrainedIsClosure(p: Package, s: State, root: Use, done: set<Use>)
    requires Inv(p, s, root, done) && s.queue == [] && s.violations == 0
    ensures Consistent(p, root) && ClosureOf(p, root, s)
  {
    assert IsSink(p.Graph(), done);
    assert forall u :: Reach(p.Graph(), root, u) <==> u in done;
    forall n | n in s.pasted
      ensures exists u :: Reach(p.Graph(), root, u) && u.1 == n && p.Resolve(u) == Declared(s.pasted[n])
    {
      var u :| u in done && u.1 == n && p.Resolve(u) == Declared(s.pasted[n]);
      assert Reach(p.Graph(), root, u);
    }
    forall n | n in s.refs
      ensures exists u :: Reach(p.Graph(), root, u) && u.1 == n && p.Resolve(u) == Imported(s.refs[n])
    {
      var u :| u in done && u.1 == n && p.Resolve(u) == Imported(s.refs[n]);
      assert Reach(p.Graph(), root, u);
    }
    forall u, v | Reach(p.Graph(), root, u) && Reach(p.Graph(), root, v) && u.1 == v.1
      ensures p.Resolve(u) == p.Resolve(v)
    {
      assert Recorded(p, s, u) && Recorded(p, s, v);
    }
  }

  /** A violation is raised exactly for an inconsistent package; otherwise the pastes are the closure, root first. */
  method CollectPastes(p: Package, root: Use) returns (s: State)
    ensures s.violations == 0 <==> Consistent(p, root)
    ensures s.violations == 0 ==> ClosureOf(p, root, s)
    ensures s.violations == 0 ==> s.order != [] && s.order[0] == root.1
    ensures s.violations == 0 ==> BreadthFirst(p, root, s.order)
  {
    s := Start(root);
    ghost var taken: seq<Use> := [];
    ghost var done: set<Use> := {};
    ReachRefl(p.Graph(), root);
    FirstPaste(p, root);
    while s.queue != []
      invariant Inv(p, s, root, done)
      invariant s == Start(root) || (s.violations == 0 ==> s.order != [] && s.order[0] == root.1)
      invariant s.violations == 0 ==> TakenInOrder(p, root, taken, s.queue, s.order)
      invariant s.pasted.Keys <= AllNames(p)
      decreases AllNames(p) - s.pasted.Keys, |s.queue|
    {
      StepKeeps(p, s, root, done);
      StepAdvances(p, s, root.1);
      if Step(p, s, root.1).violations == 0 {
        StepInOrder(p, s, root, taken);
      }
      done, taken := done + {s.queue[0]}, taken + [s.queue[0]];
      s := Step(p, s, root.1);
    }
    if s.violations == 0 {
      DrainedIsClosure(p, s, root, done);
    }
  }
}
