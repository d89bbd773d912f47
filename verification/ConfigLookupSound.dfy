/** What the path walk's verdicts mean, over every type, path, depth and guard. */
module ConfigLookupSound {
  import opened ConfigTypes
  import opened ConfigLookup
  import opened ConfigLookupBare
  import opened ConfigFaults

  /** Found: every reading declares the path, unless misread. Missing: none does, unless overlooked. Exactly so. */
  ghost predicate Justified(verdict: Verdict, strict: bool, open: bool, misreads: bool, overlooks: bool) {
    && (verdict == Found ==> (strict <==> !misreads))
    && (verdict == Missing ==> (open <==> overlooks))
  }

  ghost predicate TypeJustified(w: World, depth: nat, file: string, t: Type, steps: seq<Step>, verdict: Verdict) {
    Justified(verdict, Declares(w, depth, false, file, t, steps), Declares(w, depth, true, file, t, steps),
              Misreads(w, depth, file, t, steps), Overlooks(w, depth, file, t, steps))
  }

  ghost predicate DeclJustified(w: World, depth: nat, id: nat, steps: seq<Step>, verdict: Verdict)
    requires id in w.decls
  {
    Justified(verdict, DeclDeclares(w, depth, false, id, steps), DeclDeclares(w, depth, true, id, steps),
              DeclMisreads(w, depth, id, steps), DeclOverlooks(w, depth, id, steps))
  }

  ghost predicate BaseJustified(w: World, depth: nat, file: string, base: Base, steps: seq<Step>, verdict: Verdict) {
    Justified(verdict, BaseDeclares(w, depth, false, file, base, steps),
              BaseDeclares(w, depth, true, file, base, steps),
              BaseMisreads(w, depth, file, base, steps), BaseOverlooks(w, depth, file, base, steps))
  }

  lemma {:induction false} BareSound(w: World, depth: nat, file: string, t: Type, steps: seq<Step>)
    ensures TypeJustified(w, depth, file, t, steps, Bare(w, depth, file, t, steps))
    decreases depth, 1, t, 1
  {
    if Misreads(w, depth, file, t, steps) {
      MisreadIsDenied(w, depth, file, t, steps);
    }
    if steps != [] {
      match t
      case Literal(members) =>
        if steps[0].Member? {
          MembersSound(w, depth, file, members, steps);
        }
      case Paren(inner) => BareSound(w, depth, file, inner, steps);
      case Intersection(_) => IntersectionSound(w, depth, file, t, steps);
      case Union(_, _) => UnionSound(w, depth, file, t, steps);
      case ArrayOf(element) =>
        if steps[0].Element? {
          BareSound(w, depth, file, element, steps[1..]);
        }
      case Operated(_, operand) => BareSound(w, depth, file, operand, steps);
      case Indexed(target, index) =>
        if index.Some? {
          BareSound(w, depth, file, target, [Member(index.value)] + steps);
        }
      case Reference(_, _, _) => ReferenceSound(w, depth, file, t, steps);
      case Opaque =>
    }
  }

  lemma {:induction false} IntersectionSound(w: World, depth: nat, file: string, t: Type, steps: seq<Step>)
    requires t.Intersection? && steps != []
    ensures TypeJustified(w, depth, file, t, steps, Bare(w, depth, file, t, steps))
    decreases depth, 1, t, 0
  {
    if Misreads(w, depth, file, t, steps) {
      MisreadIsDenied(w, depth, file, t, steps);
    }
    BareAllSound(w, depth, file, t.parts, steps);
    var verdicts := BareAll(w, depth, file, t.parts, steps);
    if Found in verdicts && !Declares(w, depth, false, file, t, steps) {
      var i :| 0 <= i < |verdicts| && verdicts[i] == Found;
      assert Misreads(w, depth, file, t.parts[i], steps);
    }
  }

  lemma {:induction false} UnionSound(w: World, depth: nat, file: string, t: Type, steps: seq<Step>)
    requires t.Union? && steps != []
    ensures TypeJustified(w, depth, file, t, steps, Bare(w, depth, file, t, steps))
    decreases depth, 1, t, 0
  {
    if Misreads(w, depth, file, t, steps) {
      MisreadIsDenied(w, depth, file, t, steps);
    }
    BareSound(w, depth, file, t.first, steps);
    BareAllSound(w, depth, file, t.rest, steps);
    var one, others := Bare(w, depth, file, t.first, steps), BareAll(w, depth, file, t.rest, steps);
    assert one in [one] + others && forall i :: 0 <= i < |others| ==> others[i] in [one] + others;
  }

  lemma {:induction false} ReferenceSound(w: World, depth: nat, file: string, t: Type, steps: seq<Step>)
    requires t.Reference? && steps != []
    ensures TypeJustified(w, depth, file, t, steps, Bare(w, depth, file, t, steps))
    decreases depth, 1, t, 0
  {
    if IsPassthrough(t.head) && t.arguments != [] {
      BareSound(w, depth, file, t.arguments[0], steps);
    } else if IsArrayName(t.head) && t.arguments != [] {
      if steps[0].Element? {
        BareSound(w, depth, file, t.arguments[0], steps[1..]);
      }
    } else if !t.qualified && w.Resolve(file, t.head).Some? {
      BareDeclSound(w, depth, w.Resolve(file, t.head).value, steps);
    }
  }

  lemma {:induction false} BareAllSound(w: World, depth: nat, file: string, ts: seq<Type>, steps: seq<Step>)
    ensures var verdicts := BareAll(w, depth, file, ts, steps);
      forall i :: 0 <= i < |ts| ==> TypeJustified(w, depth, file, ts[i], steps, verdicts[i])
    decreases depth, 1, ts, 0
  {
    if ts != [] {
      BareSound(w, depth, file, ts[0], steps);
      BareAllSound(w, depth, file, ts[1..], steps);
    }
  }

  lemma {:induction false} MembersSound(w: World, depth: nat, file: string, members: seq<TypeMember>, steps: seq<Step>)
    requires steps != [] && steps[0].Member?
    ensures Justified(BareMembers(w, depth, file, members, steps),
                      MembersDeclare(w, depth, false, file, members, steps),
                      MembersDeclare(w, depth, true, file, members, steps),
                      MembersMisread(w, depth, file, members, steps),
                      MembersOverlook(w, depth, file, members, steps))
    decreases depth, 1, members, 0
  {
    if MembersMisread(w, depth, file, members, steps) {
      MembersDenied(w, depth, file, members, steps);
    }
    DisguisedIff(w, depth, file, members, steps);
    var i := FirstWritten(members, steps[0].name);
    if Agrees(members, steps[0].name) && |steps| > 1 && members[i].type_.Some? {
      BareSound(w, depth, file, members[i].type_.value, steps[1..]);
    }
  }

  /** Where no property agrees, the open reading sees just what is disguised. */
  lemma {:induction false} DisguisedIff(w: World, depth: nat, file: string, members: seq<TypeMember>, steps: seq<Step>)
    requires steps != [] && steps[0].Member?
    ensures Disguised(w, depth, file, members, steps) <==> MembersDeclare(w, depth, true, file, members, steps)
  {
    if FirstNamed(members, steps[0].name) == |members| {
      forall k | 0 <= k < |members|
        ensures StandsFor(members[k], true, steps) <==>
          members[k].IndexSignature? || members[k] == Method(steps[0].name)
      {
      }
    }
  }

  lemma {:induction false} BareDeclSound(w: World, depth: nat, id: nat, steps: seq<Step>)
    requires id in w.decls
    ensures DeclJustified(w, depth, id, steps, BareDecl(w, depth, id, steps))
    decreases depth, 0
  {
    if DeclMisreads(w, depth, id, steps) {
      DeclDenied(w, depth, id, steps);
    }
    if steps != [] && !w.decls[id].Enum? && depth > 0 {
      match w.decls[id]
      case Alias(file, t) => BareSound(w, depth - 1, file, t, steps);
      case Interface(file, members, bases) =>
        if steps[0].Member? {
          MembersSound(w, depth - 1, file, members, steps);
          BasesSound(w, depth - 1, file, bases, steps);
        }
    }
  }

  lemma {:induction false} BasesSound(w: World, depth: nat, file: string, bases: seq<Base>, steps: seq<Step>)
    ensures var verdicts := BareBases(w, depth, file, bases, steps);
      forall i :: 0 <= i < |bases| ==> BaseJustified(w, depth, file, bases[i], steps, verdicts[i])
    decreases depth, 1, bases, 0
  {
    if bases != [] {
      if bases[0].NamedBase? && w.Resolve(file, bases[0].name).Some? {
        BareDeclSound(w, depth, w.Resolve(file, bases[0].name).value, steps);
      }
      BasesSound(w, depth, file, bases[1..], steps);
    }
  }

  /** The walk itself, from any guard: its definite verdicts are those of the walk without one. */
  lemma {:induction false} LookupSound(w: World, depth: nat, file: string, t: Type, steps: seq<Step>, seen: set<Key>)
    ensures var o := Lookup(w, depth, file, t, steps, seen);
      o.Done? ==> TypeJustified(w, depth, file, t, steps, o.verdict)
  {
    LookupBelow(w, depth, file, t, steps, seen);
    BareSound(w, depth, file, t, steps);
  }

  lemma {:induction false} LookupDeclSound(w: World, depth: nat, id: nat, steps: seq<Step>, seen: set<Key>)
    requires id in w.decls
    ensures var o := LookupDecl(w, depth, id, steps, seen); o.Done? ==> DeclJustified(w, depth, id, steps, o.verdict)
  {
    LookupDeclBelow(w, depth, id, steps, seen);
    BareDeclSound(w, depth, id, steps);
  }
}
