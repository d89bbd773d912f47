/** What the path walk finds out: without its guard all there is to tell, and with it the same or nothing. */
module ConfigLookupExact {
  import opened Options
  import opened ConfigTypes
  import opened ConfigReadings
  import opened ConfigLookup
  import opened ConfigFaults
  import opened ConfigLookupBare
  import opened ConfigLookupSound

  // ---------- Without the guard everything is told ----------

  /** What every reading declares is found, unless overlooked; what none declares is missing, unless misread. */
  ghost predicate Told(verdict: Verdict, strict: bool, open: bool, misreads: bool, overlooks: bool) {
    (strict ==> verdict == Found || overlooks) && (!open ==> verdict == Missing || misreads)
  }

  ghost predicate TypeTold(w: World, depth: nat, file: string, t: Type, steps: seq<Step>, verdict: Verdict) {
    Told(verdict, Declares(w, depth, false, file, t, steps), Declares(w, depth, true, file, t, steps),
         Misreads(w, depth, file, t, steps), Overlooks(w, depth, file, t, steps))
  }

  ghost predicate DeclTold(w: World, depth: nat, id: nat, steps: seq<Step>, verdict: Verdict)
    requires id in w.decls
  {
    Told(verdict, DeclDeclares(w, depth, false, id, steps), DeclDeclares(w, depth, true, id, steps),
         DeclMisreads(w, depth, id, steps), DeclOverlooks(w, depth, id, steps))
  }

  ghost predicate BaseTold(w: World, depth: nat, file: string, base: Base, steps: seq<Step>, verdict: Verdict) {
    Told(verdict, BaseDeclares(w, depth, false, file, base, steps), BaseDeclares(w, depth, true, file, base, steps),
         BaseMisreads(w, depth, file, base, steps), BaseOverlooks(w, depth, file, base, steps))
  }

  ghost predicate DeclExact(w: World, depth: nat, id: nat, steps: seq<Step>, verdict: Verdict)
    requires id in w.decls
  {
    DeclJustified(w, depth, id, steps, verdict) && DeclTold(w, depth, id, steps, verdict)
  }

  lemma {:induction false} BareTold(w: World, depth: nat, file: string, t: Type, steps: seq<Step>)
    ensures TypeTold(w, depth, file, t, steps, Bare(w, depth, file, t, steps))
    decreases depth, 1, t, 1
  {
    if steps != [] {
      match t
      case Literal(members) =>
        if steps[0].Member? {
          BareMembersTold(w, depth, file, members, steps);
        }
      case Paren(inner) => BareTold(w, depth, file, inner, steps);
      case Intersection(parts) =>
        BareAllTold(w, depth, file, parts, steps);
        if Declares(w, depth, false, file, t, steps) {
          StrictImpliesOpen(w, depth, depth, file, t, steps);
        }
      case Union(_, _) => BareUnionTold(w, depth, file, t, steps);
      case ArrayOf(element) =>
        if steps[0].Element? {
          BareTold(w, depth, file, element, steps[1..]);
        }
      case Operated(_, operand) => BareTold(w, depth, file, operand, steps);
      case Indexed(target, index) =>
        if index.Some? {
          BareTold(w, depth, file, target, [Member(index.value)] + steps);
        }
      case Reference(head, qualified, arguments) =>
        if IsPassthrough(head) && arguments != [] {
          BareTold(w, depth, file, arguments[0], steps);
        } else if IsArrayName(head) && arguments != [] {
          if steps[0].Element? {
            BareTold(w, depth, file, arguments[0], steps[1..]);
          }
        } else if !qualified && w.Resolve(file, head).Some? {
          BareDeclTold(w, depth, w.Resolve(file, head).value, steps);
        }
      case Opaque =>
    }
  }

  lemma {:induction false} BareUnionTold(w: World, depth: nat, file: string, t: Type, steps: seq<Step>)
    requires t.Union? && steps != []
    ensures TypeTold(w, depth, file, t, steps, Bare(w, depth, file, t, steps))
    decreases depth, 1, t, 0
  {
    BareTold(w, depth, file, t.first, steps);
    BareAllTold(w, depth, file, t.rest, steps);
    var one, others := Bare(w, depth, file, t.first, steps), BareAll(w, depth, file, t.rest, steps);
    assert one in [one] + others && forall i :: 0 <= i < |others| ==> others[i] in [one] + others;
  }

  lemma {:induction false} BareAllTold(w: World, depth: nat, file: string, ts: seq<Type>, steps: seq<Step>)
    ensures var verdicts := BareAll(w, depth, file, ts, steps);
      forall i :: 0 <= i < |ts| ==> TypeTold(w, depth, file, ts[i], steps, verdicts[i])
    decreases depth, 1, ts, 0
  {
    if ts != [] {
      BareTold(w, depth, file, ts[0], steps);
      BareAllTold(w, depth, file, ts[1..], steps);
    }
  }

  lemma {:induction false} BareMembersTold(w: World, depth: nat, file: string, members: seq<TypeMember>,
                                           steps: seq<Step>)
    requires steps != [] && steps[0].Member?
    ensures Told(BareMembers(w, depth, file, members, steps), MembersDeclare(w, depth, false, file, members, steps),
                 MembersDeclare(w, depth, true, file, members, steps),
                 MembersMisread(w, depth, file, members, steps), MembersOverlook(w, depth, file, members, steps))
    decreases depth, 1, members, 0
  {
    DisguisedIff(w, depth, file, members, steps);
    if MembersDeclare(w, depth, false, file, members, steps) {
      StrictMembers(w, depth, depth, file, members, steps);
    }
    var i := FirstWritten(members, steps[0].name);
    if i < |members| && |steps| > 1 && members[i].type_.Some? {
      BareTold(w, depth, file, members[i].type_.value, steps[1..]);
    }
  }

  lemma {:induction false} BareDeclTold(w: World, depth: nat, id: nat, steps: seq<Step>)
    requires id in w.decls
    ensures DeclTold(w, depth, id, steps, BareDecl(w, depth, id, steps))
    decreases depth, 0
  {
    if steps != [] && !w.decls[id].Enum? && depth > 0 {
      match w.decls[id]
      case Alias(file, t) => BareTold(w, depth - 1, file, t, steps);
      case Interface(file, members, bases) =>
        if steps[0].Member? {
          if DeclDeclares(w, depth, false, id, steps) {
            StrictDecl(w, depth, depth, id, steps);
          }
          DisguisedIff(w, depth - 1, file, members, steps);
          BareMembersTold(w, depth - 1, file, members, steps);
          BareBasesTold(w, depth - 1, file, bases, steps);
          CombinedTold(w, depth - 1, file, bases, steps, BareBases(w, depth - 1, file, bases, steps));
        }
    }
  }

  lemma {:induction false} BareBasesTold(w: World, depth: nat, file: string, bases: seq<Base>, steps: seq<Step>)
    ensures var verdicts := BareBases(w, depth, file, bases, steps);
      forall i :: 0 <= i < |bases| ==> BaseTold(w, depth, file, bases[i], steps, verdicts[i])
    decreases depth, 1, bases, 0
  {
    if bases != [] {
      if bases[0].NamedBase? && w.Resolve(file, bases[0].name).Some? {
        BareDeclTold(w, depth, w.Resolve(file, bases[0].name).value, steps);
      }
      BareBasesTold(w, depth, file, bases[1..], steps);
    }
  }

  lemma {:induction false} CombinedTold(w: World, depth: nat, file: string, bases: seq<Base>, steps: seq<Step>,
                                        verdicts: seq<Verdict>)
    requires |verdicts| == |bases|
    requires forall i :: 0 <= i < |bases| ==> BaseTold(w, depth, file, bases[i], steps, verdicts[i])
    ensures Told(Combine(verdicts),
                 exists i :: 0 <= i < |bases| && BaseDeclares(w, depth, false, file, bases[i], steps),
                 exists i :: 0 <= i < |bases| && BaseDeclares(w, depth, true, file, bases[i], steps),
                 exists i :: 0 <= i < |bases| && BaseMisreads(w, depth, file, bases[i], steps),
                 exists i :: 0 <= i < |bases| && BaseOverlooks(w, depth, file, bases[i], steps))
  {
  }

  // ---------- What a walk would enter ----------

  /** The guard entries that a walk without a guard would make. */
  ghost function Visits(w: World, depth: nat, file: string, t: Type, steps: seq<Step>): set<Key>
    decreases depth, 1, t, 1
  {
    if steps == [] then {}
    else
      match t
      case Literal(members) => if steps[0].Element? then {} else MemberVisits(w, depth, file, members, steps)
      case Paren(inner) => Visits(w, depth, file, inner, steps)
      case Intersection(parts) => AllVisits(w, depth, file, parts, steps)
      case Union(first, rest) => Visits(w, depth, file, first, steps) + AllVisits(w, depth, file, rest, steps)
      case ArrayOf(element) => if steps[0].Element? then Visits(w, depth, file, element, steps[1..]) else {}
      case Operated(_, operand) => Visits(w, depth, file, operand, steps)
      case Indexed(target, index) =>
        if index.Some? then Visits(w, depth, file, target, [Member(index.value)] + steps) else {}
      case Reference(head, qualified, arguments) =>
        if IsPassthrough(head) && arguments != [] then Visits(w, depth, file, arguments[0], steps)
        else if IsArrayName(head) && arguments != [] then
          if steps[0].Element? then Visits(w, depth, file, arguments[0], steps[1..]) else {}
        else
          var resolved := w.Resolve(file, head);
          if qualified || resolved.None? then {} else DeclVisits(w, depth, resolved.value, steps)
      case Opaque => {}
  }

  ghost function AllVisits(w: World, depth: nat, file: string, ts: seq<Type>, steps: seq<Step>): set<Key>
    decreases depth, 1, ts, 0
  {
    if ts == [] then {} else Visits(w, depth, file, ts[0], steps) + AllVisits(w, depth, file, ts[1..], steps)
  }

  ghost function MemberVisits(w: World, depth: nat, file: string, members: seq<TypeMember>, steps: seq<Step>): set<Key>
    requires steps != [] && steps[0].Member?
    decreases depth, 1, members, 0
  {
    var i := FirstWritten(members, steps[0].name);
    if i < |members| && members[i].type_.Some? then Visits(w, depth, file, members[i].type_.value, steps[1..]) else {}
  }

  ghost function DeclVisits(w: World, depth: nat, id: nat, steps: seq<Step>): set<Key>
    requires id in w.decls
    decreases depth, 0
  {
    if steps == [] || w.decls[id].Enum? then {} else {(id, |steps|)} + Inside(w, depth, id, steps)
  }

  /** The entries made once a declaration is entered. */
  ghost function Inside(w: World, depth: nat, id: nat, steps: seq<Step>): set<Key>
    requires id in w.decls && steps != []
    decreases depth, 0, 0
  {
    if depth == 0 then {}
    else
      match w.decls[id]
      case Alias(file, t) => Visits(w, depth - 1, file, t, steps)
      case Interface(file, members, bases) =>
        if steps[0].Element? then {}
        else if FirstWritten(members, steps[0].name) < |members| then MemberVisits(w, depth - 1, file, members, steps)
        else BaseVisits(w, depth - 1, file, bases, steps)
      case Enum(_) => {}
  }

  ghost function BaseVisits(w: World, depth: nat, file: string, bases: seq<Base>, steps: seq<Step>): set<Key>
    decreases depth, 1, bases, 0
  {
    if bases == [] then {}
    else OneBaseVisits(w, depth, file, bases[0], steps) + BaseVisits(w, depth, file, bases[1..], steps)
  }

  ghost function OneBaseVisits(w: World, depth: nat, file: string, base: Base, steps: seq<Step>): set<Key>
    decreases depth, 1, base, 0
  {
    var resolved := if base.NamedBase? then w.Resolve(file, base.name) else None;
    if resolved.None? then {} else DeclVisits(w, depth, resolved.value, steps)
  }

  /** No entry would be made twice: branches enter different declarations, and none leads back to itself. */
  ghost predicate Unrepeated(w: World, depth: nat, file: string, t: Type, steps: seq<Step>)
    decreases depth, 1, t, 1
  {
    steps == [] ||
    match t
    case Literal(members) => steps[0].Element? || MemberUnrepeated(w, depth, file, members, steps)
    case Paren(inner) => Unrepeated(w, depth, file, inner, steps)
    case Intersection(parts) => AllUnrepeated(w, depth, file, parts, steps)
    case Union(first, rest) =>
      && Unrepeated(w, depth, file, first, steps) && AllUnrepeated(w, depth, file, rest, steps)
      && Visits(w, depth, file, first, steps) !! AllVisits(w, depth, file, rest, steps)
    case ArrayOf(element) => steps[0].Element? ==> Unrepeated(w, depth, file, element, steps[1..])
    case Operated(_, operand) => Unrepeated(w, depth, file, operand, steps)
    case Indexed(target, index) => index.Some? ==> Unrepeated(w, depth, file, target, [Member(index.value)] + steps)
    case Reference(head, qualified, arguments) =>
      if IsPassthrough(head) && arguments != [] then Unrepeated(w, depth, file, arguments[0], steps)
      else if IsArrayName(head) && arguments != [] then
        steps[0].Element? ==> Unrepeated(w, depth, file, arguments[0], steps[1..])
      else
        var resolved := w.Resolve(file, head);
        qualified || resolved.None? || DeclUnrepeated(w, depth, resolved.value, steps)
    case Opaque => true
  }

  ghost predicate AllUnrepeated(w: World, depth: nat, file: string, ts: seq<Type>, steps: seq<Step>)
    decreases depth, 1, ts, 0
  {
    ts == [] ||
    (&& Unrepeated(w, depth, file, ts[0], steps) && AllUnrepeated(w, depth, file, ts[1..], steps)
     && Visits(w, depth, file, ts[0], steps) !! AllVisits(w, depth, file, ts[1..], steps))
  }

  ghost predicate MemberUnrepeated(w: World, depth: nat, file: string, members: seq<TypeMember>, steps: seq<Step>)
    requires steps != [] && steps[0].Member?
    decreases depth, 1, members, 0
  {
    var i := FirstWritten(members, steps[0].name);
    i < |members| && members[i].type_.Some? ==> Unrepeated(w, depth, file, members[i].type_.value, steps[1..])
  }

  ghost predicate DeclUnrepeated(w: World, depth: nat, id: nat, steps: seq<Step>)
    requires id in w.decls
    decreases depth, 0
  {
    steps == [] || w.decls[id].Enum? || depth == 0 ||
    (&& (id, |steps|) !in Inside(w, depth, id, steps)
     && match w.decls[id]
        case Alias(file, t) => Unrepeated(w, depth - 1, file, t, steps)
        case Interface(file, members, bases) =>
          if steps[0].Element? then true
          else if FirstWritten(members, steps[0].name) < |members| then
            MemberUnrepeated(w, depth - 1, file, members, steps)
          else BasesUnrepeated(w, depth - 1, file, bases, steps)
        case Enum(_) => true)
  }

  ghost predicate BasesUnrepeated(w: World, depth: nat, file: string, bases: seq<Base>, steps: seq<Step>)
    decreases depth, 1, bases, 0
  {
    bases == [] ||
    (&& OneBaseUnrepeated(w, depth, file, bases[0], steps) && BasesUnrepeated(w, depth, file, bases[1..], steps)
     && OneBaseVisits(w, depth, file, bases[0], steps) !! BaseVisits(w, depth, file, bases[1..], steps))
  }

  ghost predicate OneBaseUnrepeated(w: World, depth: nat, file: string, base: Base, steps: seq<Step>)
    decreases depth, 1, base, 0
  {
    var resolved := if base.NamedBase? then w.Resolve(file, base.name) else None;
    resolved.None? || DeclUnrepeated(w, depth, resolved.value, steps)
  }

  // ---------- The guard is not in the way ----------

  lemma {:induction false} LookupSame(w: World, depth: nat, file: string, t: Type, steps: seq<Step>, seen: set<Key>)
    requires Unrepeated(w, depth, file, t, steps) && seen !! Visits(w, depth, file, t, steps)
    ensures var o := Lookup(w, depth, file, t, steps, seen);
      o.Done? ==> && o.seen <= seen + Visits(w, depth, file, t, steps)
                  && o.verdict == Bare(w, depth, file, t, steps)
    decreases depth, 1, t, 1
  {
    if steps != [] {
      match t
      case Literal(members) =>
        if steps[0].Member? {
          MembersSame(w, depth, file, members, steps, seen);
        }
      case Paren(inner) => LookupSame(w, depth, file, inner, steps, seen);
      case Intersection(parts) => AllSame(w, depth, file, parts, steps, seen);
      case Union(first, rest) =>
        LookupSame(w, depth, file, first, steps, seen);
        var one := Lookup(w, depth, file, first, steps, seen);
        if one.Done? {
          AllSame(w, depth, file, rest, steps, one.seen);
        }
      case ArrayOf(element) =>
        if steps[0].Element? {
          LookupSame(w, depth, file, element, steps[1..], seen);
        }
      case Operated(_, operand) => LookupSame(w, depth, file, operand, steps, seen);
      case Indexed(target, index) =>
        if index.Some? {
          LookupSame(w, depth, file, target, [Member(index.value)] + steps, seen);
        }
      case Reference(head, qualified, arguments) =>
        if IsPassthrough(head) && arguments != [] {
          LookupSame(w, depth, file, arguments[0], steps, seen);
        } else if IsArrayName(head) && arguments != [] {
          if steps[0].Element? {
            LookupSame(w, depth, file, arguments[0], steps[1..], seen);
          }
        } else if !qualified && w.Resolve(file, head).Some? {
          LookupDeclSame(w, depth, w.Resolve(file, head).value, steps, seen);
        }
      case Opaque =>
    }
  }

  lemma {:induction false} AllSame(w: World, depth: nat, file: string, ts: seq<Type>, steps: seq<Step>, seen: set<Key>)
    requires AllUnrepeated(w, depth, file, ts, steps) && seen !! AllVisits(w, depth, file, ts, steps)
    ensures var all := LookupAll(w, depth, file, ts, steps, seen);
      all.AllDone? ==> && all.seen <= seen + AllVisits(w, depth, file, ts, steps)
                       && all.verdicts == BareAll(w, depth, file, ts, steps)
    decreases depth, 1, ts, 0
  {
    if ts != [] {
      LookupSame(w, depth, file, ts[0], steps, seen);
      var one := Lookup(w, depth, file, ts[0], steps, seen);
      if one.Done? {
        AllSame(w, depth, file, ts[1..], steps, one.seen);
      }
    }
  }

  lemma {:induction false} MembersSame(w: World, depth: nat, file: string, members: seq<TypeMember>, steps: seq<Step>,
                                       seen: set<Key>)
    requires steps != [] && steps[0].Member?
    requires MemberUnrepeated(w, depth, file, members, steps) && seen !! MemberVisits(w, depth, file, members, steps)
    ensures var direct := IntoMembers(w, depth, file, members, steps, seen);
      var o := if direct.None? then Done(Missing, seen) else direct.value;
      o.Done? ==> && o.seen <= seen + MemberVisits(w, depth, file, members, steps)
                  && o.verdict == BareMembers(w, depth, file, members, steps)
    decreases depth, 1, members, 0
  {
    var i := FirstWritten(members, steps[0].name);
    if i < |members| && |steps| > 1 && members[i].type_.Some? {
      LookupSame(w, depth, file, members[i].type_.value, steps[1..], seen);
    }
  }

  lemma {:induction false} LookupDeclSame(w: World, depth: nat, id: nat, steps: seq<Step>, seen: set<Key>)
    requires id in w.decls && DeclUnrepeated(w, depth, id, steps) && seen !! DeclVisits(w, depth, id, steps)
    ensures var o := LookupDecl(w, depth, id, steps, seen);
      o.Done? ==> o.seen <= seen + DeclVisits(w, depth, id, steps) && o.verdict == BareDecl(w, depth, id, steps)
    decreases depth, 0
  {
    if steps != [] && !w.decls[id].Enum? && depth > 0 {
      var entered := seen + {(id, |steps|)};
      assert entered !! Inside(w, depth, id, steps);
      match w.decls[id]
      case Alias(file, t) => LookupSame(w, depth - 1, file, t, steps, entered);
      case Interface(file, members, bases) =>
        if steps[0].Member? {
          if FirstWritten(members, steps[0].name) < |members| {
            MembersSame(w, depth - 1, file, members, steps, entered);
          } else {
            BasesSame(w, depth - 1, file, bases, steps, entered);
          }
        }
    }
  }

  lemma {:induction false} BasesSame(w: World, depth: nat, file: string, bases: seq<Base>, steps: seq<Step>,
                                     seen: set<Key>)
    requires BasesUnrepeated(w, depth, file, bases, steps) && seen !! BaseVisits(w, depth, file, bases, steps)
    ensures var all := LookupBases(w, depth, file, bases, steps, seen);
      all.AllDone? ==> && all.seen <= seen + BaseVisits(w, depth, file, bases, steps)
                       && all.verdicts == BareBases(w, depth, file, bases, steps)
    decreases depth, 1, bases, 0
  {
    if bases != [] {
      if bases[0].NamedBase? && w.Resolve(file, bases[0].name).Some? {
        LookupDeclSame(w, depth, w.Resolve(file, bases[0].name).value, steps, seen);
      }
      var one := LookupBase(w, depth, file, bases[0], steps, seen);
      if one.Done? {
        BasesSame(w, depth, file, bases[1..], steps, one.seen);
      }
    }
  }

  // ---------- Exactness ----------

  /** The walk without a guard is right about every path, but for what it overlooks or misreads. */
  lemma {:induction false} BareIsExact(w: World, depth: nat, id: nat, steps: seq<Step>)
    requires id in w.decls
    ensures DeclExact(w, depth, id, steps, BareDecl(w, depth, id, steps))
    ensures !DeclMisreads(w, depth, id, steps) && !DeclOverlooks(w, depth, id, steps) ==>
              && (BareDecl(w, depth, id, steps) == Found <==> DeclDeclares(w, depth, false, id, steps))
              && (BareDecl(w, depth, id, steps) == Missing <==> !DeclDeclares(w, depth, true, id, steps))
  {
    BareDeclSound(w, depth, id, steps);
    BareDeclTold(w, depth, id, steps);
  }

  /** A finished walk is unknown or exact, and it is exact where it would enter nothing twice. */
  lemma {:induction false} WalkIsExact(w: World, depth: nat, id: nat, steps: seq<Step>, seen: set<Key>)
    requires id in w.decls
    ensures var o := LookupDecl(w, depth, id, steps, seen);
      o.Done? ==>
        && (o.verdict == Unknown || DeclExact(w, depth, id, steps, o.verdict))
        && (DeclUnrepeated(w, depth, id, steps) && seen !! DeclVisits(w, depth, id, steps) ==>
              o.verdict == BareDecl(w, depth, id, steps) && DeclExact(w, depth, id, steps, o.verdict))
  {
    BareIsExact(w, depth, id, steps);
    LookupDeclBelow(w, depth, id, steps, seen);
    if DeclUnrepeated(w, depth, id, steps) && seen !! DeclVisits(w, depth, id, steps) {
      LookupDeclSame(w, depth, id, steps, seen);
    }
  }
}
