/** When the path walk ends: whenever no cycle of references passes through an indexed access. */
module ConfigLookupEnds {
  import opened Options
  import opened ConfigTypes
  import opened ConfigLookup

  // ---------- A walk that has ended stays as it is when allowed to go deeper ----------

  lemma {:induction false} LookupDeeper(w: World, n: nat, k: nat, file: string, t: Type, steps: seq<Step>,
                                        seen: set<Key>)
    requires n <= k && Lookup(w, n, file, t, steps, seen).Done?
    ensures Lookup(w, k, file, t, steps, seen) == Lookup(w, n, file, t, steps, seen)
    decreases n, 1, t, 1
  {
    if steps != [] {
      match t
      case Literal(members) =>
        if steps[0].Member? {
          MembersDeeper(w, n, k, file, members, steps, seen);
        }
      case Paren(inner) => LookupDeeper(w, n, k, file, inner, steps, seen);
      case Intersection(parts) => AllDeeper(w, n, k, file, parts, steps, seen);
      case Union(first, rest) =>
        LookupDeeper(w, n, k, file, first, steps, seen);
        AllDeeper(w, n, k, file, rest, steps, Lookup(w, n, file, first, steps, seen).seen);
      case ArrayOf(element) =>
        if steps[0].Element? {
          LookupDeeper(w, n, k, file, element, steps[1..], seen);
        }
      case Operated(_, operand) => LookupDeeper(w, n, k, file, operand, steps, seen);
      case Indexed(target, index) =>
        if index.Some? {
          LookupDeeper(w, n, k, file, target, [Member(index.value)] + steps, seen);
        }
      case Reference(head, qualified, arguments) =>
        if IsPassthrough(head) && arguments != [] {
          LookupDeeper(w, n, k, file, arguments[0], steps, seen);
        } else if IsArrayName(head) && arguments != [] {
          if steps[0].Element? {
            LookupDeeper(w, n, k, file, arguments[0], steps[1..], seen);
          }
        } else if !qualified && w.Resolve(file, head).Some? {
          DeclDeeper(w, n, k, w.Resolve(file, head).value, steps, seen);
        }
      case Opaque =>
    }
  }

  lemma {:induction false} AllDeeper(w: World, n: nat, k: nat, file: string, ts: seq<Type>, steps: seq<Step>,
                                     seen: set<Key>)
    requires n <= k && LookupAll(w, n, file, ts, steps, seen).AllDone?
    ensures LookupAll(w, k, file, ts, steps, seen) == LookupAll(w, n, file, ts, steps, seen)
    decreases n, 1, ts, 0
  {
    if ts != [] {
      LookupDeeper(w, n, k, file, ts[0], steps, seen);
      AllDeeper(w, n, k, file, ts[1..], steps, Lookup(w, n, file, ts[0], steps, seen).seen);
    }
  }

  lemma {:induction false} MembersDeeper(w: World, n: nat, k: nat, file: string, members: seq<TypeMember>,
                                         steps: seq<Step>,
                                         seen: set<Key>)
    requires n <= k && steps != [] && steps[0].Member?
    requires var direct := IntoMembers(w, n, file, members, steps, seen); direct.None? || direct.value.Done?
    ensures IntoMembers(w, k, file, members, steps, seen) == IntoMembers(w, n, file, members, steps, seen)
    decreases n, 1, members, 0
  {
    var i := FirstWritten(members, steps[0].name);
    if i < |members| && |steps| > 1 && members[i].type_.Some? {
      LookupDeeper(w, n, k, file, members[i].type_.value, steps[1..], seen);
    }
  }

  lemma {:induction false} DeclDeeper(w: World, n: nat, k: nat, id: nat, steps: seq<Step>, seen: set<Key>)
    requires n <= k && id in w.decls && LookupDecl(w, n, id, steps, seen).Done?
    ensures LookupDecl(w, k, id, steps, seen) == LookupDecl(w, n, id, steps, seen)
    decreases n, 0
  {
    if steps != [] && !w.decls[id].Enum? && (id, |steps|) !in seen {
      var entered := seen + {(id, |steps|)};
      match w.decls[id]
      case Alias(file, t) => LookupDeeper(w, n - 1, k - 1, file, t, steps, entered);
      case Interface(file, members, bases) =>
        if steps[0].Member? {
          MembersDeeper(w, n - 1, k - 1, file, members, steps, entered);
          if IntoMembers(w, n - 1, file, members, steps, entered).None? {
            BasesDeeper(w, n - 1, k - 1, file, bases, steps, entered);
          }
        }
    }
  }

  lemma {:induction false} BaseDeeper(w: World, n: nat, k: nat, file: string, base: Base, steps: seq<Step>,
                                      seen: set<Key>)
    requires n <= k && LookupBase(w, n, file, base, steps, seen).Done?
    ensures LookupBase(w, k, file, base, steps, seen) == LookupBase(w, n, file, base, steps, seen)
    decreases n, 1, base, 0
  {
    if base.NamedBase? && w.Resolve(file, base.name).Some? {
      DeclDeeper(w, n, k, w.Resolve(file, base.name).value, steps, seen);
    }
  }

  lemma {:induction false} BasesDeeper(w: World, n: nat, k: nat, file: string, bases: seq<Base>, steps: seq<Step>,
                                       seen: set<Key>)
    requires n <= k && LookupBases(w, n, file, bases, steps, seen).AllDone?
    ensures LookupBases(w, k, file, bases, steps, seen) == LookupBases(w, n, file, bases, steps, seen)
    decreases n, 1, bases, 0
  {
    if bases != [] {
      BaseDeeper(w, n, k, file, bases[0], steps, seen);
      BasesDeeper(w, n, k, file, bases[1..], steps, LookupBase(w, n, file, bases[0], steps, seen).seen);
    }
  }

  // ---------- Ranked declarations ----------

  /** What the type refers to is ranked below `top`, and below one less inside each indexed access. */
  ghost predicate RankedType(w: World, rank: map<nat, nat>, file: string, t: Type, top: nat) {
    match t
    case Literal(members) => forall i :: 0 <= i < |members| ==> RankedMember(w, rank, file, members[i], top)
    case Paren(inner) => RankedType(w, rank, file, inner, top)
    case Intersection(parts) => forall i :: 0 <= i < |parts| ==> RankedType(w, rank, file, parts[i], top)
    case Union(first, rest) =>
      RankedType(w, rank, file, first, top) && forall i :: 0 <= i < |rest| ==> RankedType(w, rank, file, rest[i], top)
    case ArrayOf(element) => RankedType(w, rank, file, element, top)
    case Operated(_, operand) => RankedType(w, rank, file, operand, top)
    case Indexed(target, _) => RankedType(w, rank, file, target, if top == 0 then 0 else top - 1)
    case Reference(head, _, arguments) =>
      && RankedName(w, rank, file, head, top)
      && forall i :: 0 <= i < |arguments| ==> RankedType(w, rank, file, arguments[i], top)
    case Opaque => true
  }

  ghost predicate RankedName(w: World, rank: map<nat, nat>, file: string, name: string, top: nat) {
    var resolved := w.Resolve(file, name);
    resolved.Some? ==> resolved.value in rank && rank[resolved.value] < top
  }

  ghost predicate RankedBase(w: World, rank: map<nat, nat>, file: string, base: Base, top: nat) {
    base.NamedBase? ==> RankedName(w, rank, file, base.name, top)
  }

  ghost predicate RankedMember(w: World, rank: map<nat, nat>, file: string, m: TypeMember, top: nat) {
    m.Property? && m.type_.Some? ==> RankedType(w, rank, file, m.type_.value, top)
  }

  /** A declaration refers to none of higher rank, and inside an indexed access only to lower ones. */
  ghost predicate RankedDecl(w: World, rank: map<nat, nat>, id: nat)
    requires id in w.decls && id in rank
  {
    match w.decls[id]
    case Alias(file, t) => RankedType(w, rank, file, t, rank[id] + 1)
    case Interface(file, members, bases) =>
      && (forall i :: 0 <= i < |members| ==> RankedMember(w, rank, file, members[i], rank[id] + 1))
      && forall i :: 0 <= i < |bases| ==> RankedBase(w, rank, file, bases[i], rank[id] + 1)
    case Enum(_) => true
  }

  /** `rank` covers declarations that refer to none outside it, with no cycle through an indexed access. */
  ghost predicate Ranked(w: World, rank: map<nat, nat>) {
    forall id :: id in rank ==> id in w.decls && RankedDecl(w, rank, id)
  }

  /** The guard entries for declarations ranked just below `top`, with at most `length` steps left. */
  ghost function KeysBelow(rank: map<nat, nat>, top: nat, length: nat): set<Key> {
    set id, n | id in rank.Keys && rank[id] + 1 == top && 1 <= n <= length :: (id, n)
  }

  ghost function Room(rank: map<nat, nat>, top: nat, length: nat, seen: set<Key>): nat {
    |KeysBelow(rank, top, length) - seen|
  }

  lemma {:induction false} SmallerSet(a: set<Key>, b: set<Key>)
    requires a <= b
    ensures |a| <= |b|
    decreases a
  {
    if a != {} {
      var x :| x in a;
      SmallerSet(a - {x}, b - {x});
    }
  }

  lemma RoomShrinks(rank: map<nat, nat>, top: nat, length: nat, seen: set<Key>, more: set<Key>)
    requires seen <= more
    ensures Room(rank, top, length, more) <= Room(rank, top, length, seen)
  {
    SmallerSet(KeysBelow(rank, top, length) - more, KeysBelow(rank, top, length) - seen);
  }

  lemma EntryTakesRoom(rank: map<nat, nat>, top: nat, length: nat, seen: set<Key>, key: Key)
    requires key in KeysBelow(rank, top, length) && key !in seen
    ensures Room(rank, top, length, seen + {key}) < Room(rank, top, length, seen)
  {
    var keys := KeysBelow(rank, top, length);
    SmallerSet(keys - (seen + {key}), keys - seen - {key});
  }

  // ---------- Ending ----------

  function Max(a: nat, b: nat): nat {
    if a < b then b else a
  }

  lemma {:induction false} LookupEnds(w: World, rank: map<nat, nat>, top: nat, length: nat, file: string, t: Type,
                                      steps: seq<Step>, seen: set<Key>) returns (depth: nat)
    requires Ranked(w, rank) && RankedType(w, rank, file, t, top) && |steps| <= length
    ensures var o := Lookup(w, depth, file, t, steps, seen); o.Done? && seen <= o.seen
    decreases top, Room(rank, top, length, seen), 1, t, 1
  {
    depth := 0;
    if steps != [] {
      match t
      case Literal(members) =>
        if steps[0].Member? {
          depth := MembersEnd(w, rank, top, length, file, members, steps, seen);
        }
      case Paren(inner) => depth := LookupEnds(w, rank, top, length, file, inner, steps, seen);
      case Intersection(parts) => depth := AllEnd(w, rank, top, length, file, parts, steps, seen);
      case Union(first, rest) => depth := UnionEnds(w, rank, top, length, file, t, steps, seen);
      case ArrayOf(element) =>
        if steps[0].Element? {
          depth := LookupEnds(w, rank, top, length, file, element, steps[1..], seen);
        }
      case Operated(_, operand) => depth := LookupEnds(w, rank, top, length, file, operand, steps, seen);
      case Indexed(target, index) =>
        if index.Some? {
          depth := IndexedEnds(w, rank, top, length, file, t, steps, seen);
        }
      case Reference(_, _, _) => depth := ReferenceEnds(w, rank, top, length, file, t, steps, seen);
      case Opaque =>
    }
  }

  lemma {:induction false} IndexedEnds(w: World, rank: map<nat, nat>, top: nat, length: nat, file: string, t: Type,
                                       steps: seq<Step>, seen: set<Key>) returns (depth: nat)
    requires Ranked(w, rank) && RankedType(w, rank, file, t, top) && |steps| <= length
    requires t.Indexed? && t.index.Some? && steps != []
    ensures var o := Lookup(w, depth, file, t, steps, seen); o.Done? && seen <= o.seen
    decreases top, Room(rank, top, length, seen), 1, t, 0
  {
    var more := [Member(t.index.value)] + steps;
    if top == 0 {
      assert KeysBelow(rank, 0, length + 1) - seen == {} && KeysBelow(rank, 0, length) - seen == {};
      depth := LookupEnds(w, rank, 0, length + 1, file, t.target, more, seen);
    } else {
      depth := LookupEnds(w, rank, top - 1, length + 1, file, t.target, more, seen);
    }
  }

  lemma {:induction false} UnionEnds(w: World, rank: map<nat, nat>, top: nat, length: nat, file: string, t: Type,
                                     steps: seq<Step>, seen: set<Key>) returns (depth: nat)
    requires Ranked(w, rank) && RankedType(w, rank, file, t, top) && |steps| <= length
    requires t.Union? && steps != []
    ensures var o := Lookup(w, depth, file, t, steps, seen); o.Done? && seen <= o.seen
    decreases top, Room(rank, top, length, seen), 1, t, 0
  {
    var n := LookupEnds(w, rank, top, length, file, t.first, steps, seen);
    var one := Lookup(w, n, file, t.first, steps, seen);
    RoomShrinks(rank, top, length, seen, one.seen);
    var k := AllEnd(w, rank, top, length, file, t.rest, steps, one.seen);
    depth := Max(n, k);
    LookupDeeper(w, n, depth, file, t.first, steps, seen);
    AllDeeper(w, k, depth, file, t.rest, steps, one.seen);
  }

  lemma {:induction false} ReferenceEnds(w: World, rank: map<nat, nat>, top: nat, length: nat, file: string, t: Type,
                                         steps: seq<Step>, seen: set<Key>) returns (depth: nat)
    requires Ranked(w, rank) && RankedType(w, rank, file, t, top) && |steps| <= length
    requires t.Reference? && steps != []
    ensures var o := Lookup(w, depth, file, t, steps, seen); o.Done? && seen <= o.seen
    decreases top, Room(rank, top, length, seen), 1, t, 0
  {
    depth := 0;
    if IsPassthrough(t.head) && t.arguments != [] {
      depth := LookupEnds(w, rank, top, length, file, t.arguments[0], steps, seen);
    } else if IsArrayName(t.head) && t.arguments != [] {
      if steps[0].Element? {
        depth := LookupEnds(w, rank, top, length, file, t.arguments[0], steps[1..], seen);
      }
    } else if !t.qualified && w.Resolve(file, t.head).Some? {
      depth := DeclEnds(w, rank, top, length, w.Resolve(file, t.head).value, steps, seen);
    }
  }

  lemma {:induction false} AllEnd(w: World, rank: map<nat, nat>, top: nat, length: nat, file: string, ts: seq<Type>,
                                  steps: seq<Step>, seen: set<Key>) returns (depth: nat)
    requires Ranked(w, rank) && (forall i :: 0 <= i < |ts| ==> RankedType(w, rank, file, ts[i], top))
    requires |steps| <= length
    ensures var all := LookupAll(w, depth, file, ts, steps, seen); all.AllDone? && seen <= all.seen
    decreases top, Room(rank, top, length, seen), 1, ts, 0
  {
    depth := 0;
    if ts != [] {
      var n := LookupEnds(w, rank, top, length, file, ts[0], steps, seen);
      var one := Lookup(w, n, file, ts[0], steps, seen);
      RoomShrinks(rank, top, length, seen, one.seen);
      var k := AllEnd(w, rank, top, length, file, ts[1..], steps, one.seen);
      depth := Max(n, k);
      LookupDeeper(w, n, depth, file, ts[0], steps, seen);
      AllDeeper(w, k, depth, file, ts[1..], steps, one.seen);
    }
  }

  lemma {:induction false} MembersEnd(w: World, rank: map<nat, nat>, top: nat, length: nat, file: string,
                                      members: seq<TypeMember>, steps: seq<Step>, seen: set<Key>) returns (depth: nat)
    requires Ranked(w, rank) && (forall i :: 0 <= i < |members| ==> RankedMember(w, rank, file, members[i], top))
    requires steps != [] && steps[0].Member? && |steps| <= length
    ensures var direct := IntoMembers(w, depth, file, members, steps, seen);
      direct.Some? ==> direct.value.Done? && seen <= direct.value.seen
    decreases top, Room(rank, top, length, seen), 1, members, 0
  {
    depth := 0;
    var i := FirstWritten(members, steps[0].name);
    if i < |members| && |steps| > 1 && members[i].type_.Some? {
      assert RankedMember(w, rank, file, members[i], top);
      depth := LookupEnds(w, rank, top, length, file, members[i].type_.value, steps[1..], seen);
    }
  }

  lemma {:induction false} DeclEnds(w: World, rank: map<nat, nat>, top: nat, length: nat, id: nat, steps: seq<Step>,
                                    seen: set<Key>) returns (depth: nat)
    requires Ranked(w, rank) && id in rank && rank[id] < top && |steps| <= length
    ensures var o := LookupDecl(w, depth, id, steps, seen); o.Done? && seen <= o.seen
    decreases top, Room(rank, top, length, seen), 0
  {
    depth := 0;
    if steps != [] && !w.decls[id].Enum? && (id, |steps|) !in seen {
      var below := rank[id] + 1;
      if below == top {
        EntryTakesRoom(rank, top, length, seen, (id, |steps|));
      }
      match w.decls[id]
      case Alias(_, _) => depth := AliasEnds(w, rank, below, length, id, steps, seen);
      case Interface(_, _, _) =>
        depth := 1;
        if steps[0].Member? {
          depth := InterfaceEnds(w, rank, below, length, id, steps, seen);
        }
    }
  }

  lemma {:induction false} AliasEnds(w: World, rank: map<nat, nat>, top: nat, length: nat, id: nat, steps: seq<Step>,
                                     seen: set<Key>) returns (depth: nat)
    requires Ranked(w, rank) && id in rank && rank[id] + 1 == top && |steps| <= length && w.decls[id].Alias?
    requires steps != [] && (id, |steps|) !in seen
    ensures var o := LookupDecl(w, depth, id, steps, seen); o.Done? && seen <= o.seen
    decreases top, Room(rank, top, length, seen + {(id, |steps|)}), 2
  {
    assert RankedDecl(w, rank, id);
    var n := LookupEnds(w, rank, top, length, w.decls[id].file, w.decls[id].type_, steps, seen + {(id, |steps|)});
    depth := n + 1;
  }

  lemma {:induction false} InterfaceEnds(w: World, rank: map<nat, nat>, top: nat, length: nat, id: nat,
                                         steps: seq<Step>,
                                         seen: set<Key>) returns (depth: nat)
    requires Ranked(w, rank) && id in rank && rank[id] + 1 == top && |steps| <= length && w.decls[id].Interface?
    requires steps != [] && steps[0].Member? && (id, |steps|) !in seen
    ensures var o := LookupDecl(w, depth, id, steps, seen); o.Done? && seen <= o.seen
    decreases top, Room(rank, top, length, seen + {(id, |steps|)}), 2
  {
    var file, members, bases := w.decls[id].file, w.decls[id].members, w.decls[id].bases;
    var entered := seen + {(id, |steps|)};
    assert RankedDecl(w, rank, id);
    var n := MembersEnd(w, rank, top, length, file, members, steps, entered);
    depth := n + 1;
    if IntoMembers(w, n, file, members, steps, entered).None? {
      var k := BasesEnd(w, rank, top, length, file, bases, steps, entered);
      depth := k + 1;
    }
  }

  lemma {:induction false} BaseEnds(w: World, rank: map<nat, nat>, top: nat, length: nat, file: string, base: Base,
                                    steps: seq<Step>, seen: set<Key>) returns (depth: nat)
    requires Ranked(w, rank) && |steps| <= length
    requires RankedBase(w, rank, file, base, top)
    ensures var o := LookupBase(w, depth, file, base, steps, seen); o.Done? && seen <= o.seen
    decreases top, Room(rank, top, length, seen), 1, base, 0
  {
    depth := 0;
    if base.NamedBase? && w.Resolve(file, base.name).Some? {
      depth := DeclEnds(w, rank, top, length, w.Resolve(file, base.name).value, steps, seen);
    }
  }

  lemma {:induction false} BasesJoin(w: World, n: nat, k: nat, file: string, bases: seq<Base>, steps: seq<Step>,
                                     seen: set<Key>)
    requires bases != [] && LookupBase(w, n, file, bases[0], steps, seen).Done?
    requires var one := LookupBase(w, n, file, bases[0], steps, seen);
      var others := LookupBases(w, k, file, bases[1..], steps, one.seen);
      others.AllDone? && seen <= one.seen <= others.seen
    ensures var all := LookupBases(w, Max(n, k), file, bases, steps, seen); all.AllDone? && seen <= all.seen
  {
    BaseDeeper(w, n, Max(n, k), file, bases[0], steps, seen);
    BasesDeeper(w, k, Max(n, k), file, bases[1..], steps, LookupBase(w, n, file, bases[0], steps, seen).seen);
  }

  lemma {:induction false} BasesEnd(w: World, rank: map<nat, nat>, top: nat, length: nat, file: string,
                                    bases: seq<Base>,
                                    steps: seq<Step>, seen: set<Key>) returns (depth: nat)
    requires Ranked(w, rank) && |steps| <= length
    requires forall i :: 0 <= i < |bases| ==> RankedBase(w, rank, file, bases[i], top)
    ensures var all := LookupBases(w, depth, file, bases, steps, seen); all.AllDone? && seen <= all.seen
    decreases top, Room(rank, top, length, seen), 1, bases, 0
  {
    depth := 0;
    if bases != [] {
      var n := BaseEnds(w, rank, top, length, file, bases[0], steps, seen);
      var one := LookupBase(w, n, file, bases[0], steps, seen);
      RoomShrinks(rank, top, length, seen, one.seen);
      var k := BasesEnd(w, rank, top, length, file, bases[1..], steps, one.seen);
      depth := Max(n, k);
      BasesJoin(w, n, k, file, bases, steps, seen);
    }
  }

  /** However recursive the declarations, a walk ends when no cycle of references passes through an indexed access. */
  lemma WalkEnds(w: World, rank: map<nat, nat>, id: nat, steps: seq<Step>, seen: set<Key>) returns (depth: nat)
    requires Ranked(w, rank) && id in rank
    ensures LookupDecl(w, depth, id, steps, seen).Done?
    ensures forall n :: n >= depth ==> LookupDecl(w, n, id, steps, seen) == LookupDecl(w, depth, id, steps, seen)
  {
    depth := DeclEnds(w, rank, rank[id] + 1, |steps|, id, steps, seen);
    forall n | n >= depth ensures LookupDecl(w, n, id, steps, seen) == LookupDecl(w, depth, id, steps, seen) {
      DeclDeeper(w, depth, n, id, steps, seen);
    }
  }

  // ---------- A walk that never ends ----------

  /** `type A = A['x']`. */
  ghost function Spiral(): World {
    World(map[0 := Alias("f", Indexed(Reference("A", false, []), Some("x")))], map[("f", "A") := 0])
  }

  /** Each turn of an indexed self-reference adds a step, so the guard never stops the walk. */
  lemma {:induction false} SpiralNeverEnds(depth: nat, steps: seq<Step>, seen: set<Key>)
    requires steps != [] && forall k :: k in seen ==> k.1 < |steps|
    ensures LookupDecl(Spiral(), depth, 0, steps, seen).TooDeep?
    decreases depth
  {
    if depth > 0 {
      var entered, more := seen + {(0, |steps|)}, [Member("x")] + steps;
      SpiralNeverEnds(depth - 1, more, entered);
      assert Spiral().Resolve("f", "A") == Some(0);
      assert Lookup(Spiral(), depth - 1, "f", Reference("A", false, []), more, entered).TooDeep?;
      assert Lookup(Spiral(), depth - 1, "f", Spiral().decls[0].type_, steps, entered).TooDeep?;
    }
  }

  /** No ranking covers that declaration. */
  lemma SpiralIsUnranked(rank: map<nat, nat>)
    ensures 0 in rank ==> !Ranked(Spiral(), rank)
  {
    if 0 in rank {
      assert Spiral().Resolve("f", "A") == Some(0);
      assert !RankedType(Spiral(), rank, "f", Reference("A", false, []), rank[0]);
      assert !RankedType(Spiral(), rank, "f", Spiral().decls[0].type_, rank[0] + 1);
      assert !RankedDecl(Spiral(), rank, 0);
    }
  }
}
