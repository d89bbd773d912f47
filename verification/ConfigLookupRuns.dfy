/** Where the path walk falls short: what it misses, what it misreads, and what its guard costs. */
module ConfigLookupRuns {
  import opened Options
  import opened ConfigTypes
  import opened ConfigLookup
  import opened ConfigFaults
  import opened ConfigLookupBare
  import opened ConfigLookupSound

  /** A member that may stand for the key `x`, however it is written. */
  ghost predicate CouldDeclare(m: TypeMember, x: string) {
    match m
    case Property(_, name, _) => name == x
    case Method(name) => name == x
    case IndexSignature => true
  }

  /**
   * One key of a literal is reported missing wrongly exactly when no property is written with
   * it, yet some member could stand for it.
   */
  lemma MissingKeyIff(w: World, depth: nat, file: string, members: seq<TypeMember>, x: string, seen: set<Key>)
    ensures var o := Lookup(w, depth, file, Literal(members), [Member(x)], seen);
      (o == Done(Missing, seen) && Declares(w, depth, true, file, Literal(members), [Member(x)]))
      <==> && (forall i :: 0 <= i < |members| ==> !(members[i].Property? && members[i].text == x))
           && exists i :: 0 <= i < |members| && CouldDeclare(members[i], x)
  {
    var steps := [Member(x)];
    LookupSound(w, depth, file, Literal(members), steps, seen);
    if FirstWritten(members, x) == |members| {
      if Disguised(w, depth, file, members, steps) {
        var named := FirstNamed(members, x);
        if named < |members| {
          assert CouldDeclare(members[named], x);
        } else {
          var k :| 0 <= k < |members| && (members[k].IndexSignature? || members[k] == Method(x));
          assert CouldDeclare(members[k], x);
        }
      }
    }
  }

  /** An index signature accepts the key `a`, yet the walk reports it missing. */
  lemma IndexSignatureIsMissed(w: World, depth: nat, seen: set<Key>)
    ensures Lookup(w, depth, "f", Literal([IndexSignature]), [Member("a")], seen) == Done(Missing, seen)
    ensures Declares(w, depth, true, "f", Literal([IndexSignature]), [Member("a")])
  {
    var members := [IndexSignature];
    assert CouldDeclare(members[0], "a");
    MissingKeyIff(w, depth, "f", members, "a", seen);
  }

  /** The walk finds `a` in `keyof { a }`, which declares no members of its own. */
  lemma KeyOfIsMisread(w: World, depth: nat, file: string, seen: set<Key>)
    ensures var t := Operated(KeyOf, Literal([Property("a", "a", None)]));
      && Lookup(w, depth, file, t, [Member("a")], seen) == Done(Found, seen)
      && !Declares(w, depth, false, file, t, [Member("a")])
  {
    var own := Literal([Property("a", "a", None)]);
    assert Lookup(w, depth, file, own, [Member("a")], seen) == Done(Found, seen);
  }

  /** The shared guard costs precision: a union that names one type twice stays unknown. */
  lemma GuardAddsUnknown(w: World, depth: nat, file: string, head: string, id: nat, x: string)
    requires depth > 0 && !IsPassthrough(head) && !IsArrayName(head) && w.Resolve(file, head) == Some(id)
    requires w.decls[id].Interface? && w.decls[id].members == [Property(x, x, None)]
    ensures var t := Reference(head, false, []);
      && Declares(w, depth, false, file, Union(t, [t]), [Member(x)])
      && Bare(w, depth, file, Union(t, [t]), [Member(x)]) == Found
      && Lookup(w, depth, file, Union(t, [t]), [Member(x)], {}) == Done(Unknown, {(id, 1)})
  {
    var t, steps := Reference(head, false, []), [Member(x)];
    var one := Lookup(w, depth, file, t, steps, {});
    assert {} + {(id, 1)} == {(id, 1)};
    assert IntoMembers(w, depth - 1, w.decls[id].file, w.decls[id].members, steps, {(id, 1)})
        == Some(Done(Found, {(id, 1)}));
    assert LookupDecl(w, depth, id, steps, {}) == Done(Found, {(id, 1)});
    assert one == Done(Found, {(id, 1)});
    assert Declares(w, depth, false, file, t, steps);
    assert [t][1..] == [];
    assert BareMembers(w, depth - 1, w.decls[id].file, w.decls[id].members, steps) == Found;
    assert Bare(w, depth, file, t, steps) == Found;
    assert BareAll(w, depth, file, [t], steps) == [Found];
    assert LookupDecl(w, depth, id, steps, one.seen) == Done(Unknown, one.seen);
    assert Lookup(w, depth, file, t, steps, one.seen) == Done(Unknown, one.seen);
    var others := LookupAll(w, depth, file, [t], steps, one.seen);
    assert LookupAll(w, depth, file, [], steps, one.seen) == AllDone([], one.seen);
    assert others == AllDone([Unknown], one.seen);
    var both := [Found] + others.verdicts;
    assert both[0] in both && both[1] in both && both[1] == Unknown;
    assert Agree(both) == Unknown;
  }

  /** Four wrappers are walked as their argument, two names as arrays of it, and every other name as itself. */
  lemma WrapperNames(w: World, depth: nat, file: string, head: string, qualified: bool, arguments: seq<Type>,
                     steps: seq<Step>, seen: set<Key>)
    requires arguments != []
    ensures var walked :=
        if head in ["Partial", "Required", "Readonly", "NonNullable"] then arguments[0]
        else if head in ["Array", "ReadonlyArray"] then ArrayOf(arguments[0])
        else Reference(head, qualified, []);
      Lookup(w, depth, file, Reference(head, qualified, arguments), steps, seen)
        == Lookup(w, depth, file, walked, steps, seen)
  {
    WrapperNamesApart(head);
  }

  lemma {:induction false} WrapperNamesApart(head: string)
    ensures head in ["Partial", "Required", "Readonly", "NonNullable"] <==> IsPassthrough(head)
    ensures head in ["Array", "ReadonlyArray"] <==> IsArrayName(head)
    ensures !(IsPassthrough(head) && IsArrayName(head))
  {
    assert |"Array"| == 5 && |"ReadonlyArray"| == 13 && |"Partial"| == 7 && |"Required"| == 8;
    assert |"Readonly"| == 8 && |"NonNullable"| == 11;
  }
}
