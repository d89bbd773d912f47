/** How the two readings of a path relate. */
module ConfigReadings {
  import opened ConfigTypes

  lemma {:induction false} StrictImpliesOpen(w: World, n: nat, k: nat, file: string, t: Type, steps: seq<Step>)
    requires Declares(w, n, false, file, t, steps)
    ensures Declares(w, k, true, file, t, steps)
    decreases n, 1, t, 1
  {
    if steps != [] {
      match t
      case Literal(members) => StrictMembers(w, n, k, file, members, steps);
      case Paren(inner) => StrictImpliesOpen(w, n, k, file, inner, steps);
      case Intersection(parts) =>
        var i :| 0 <= i < |parts| && Declares(w, n, false, file, parts[i], steps);
        StrictImpliesOpen(w, n, k, file, parts[i], steps);
      case Union(first, rest) => StrictImpliesOpen(w, n, k, file, first, steps);
      case ArrayOf(element) => StrictImpliesOpen(w, n, k, file, element, steps[1..]);
      case Operated(op, operand) => StrictImpliesOpen(w, n, k, file, operand, steps);
      case Indexed(target, index) => StrictImpliesOpen(w, n, k, file, target, [Member(index.value)] + steps);
      case Reference(head, qualified, arguments) =>
        if IsPassthrough(head) && arguments != [] {
          StrictImpliesOpen(w, n, k, file, arguments[0], steps);
        } else if IsArrayName(head) && arguments != [] {
          StrictImpliesOpen(w, n, k, file, arguments[0], steps[1..]);
        } else {
          StrictDecl(w, n, k, w.Resolve(file, head).value, steps);
        }
    }
  }

  lemma {:induction false} StrictMembers(w: World, n: nat, k: nat, file: string, members: seq<TypeMember>,
                                         steps: seq<Step>)
    requires steps != [] && steps[0].Member? && MembersDeclare(w, n, false, file, members, steps)
    ensures MembersDeclare(w, k, true, file, members, steps)
    decreases n, 1, members, 0
  {
    var i := FirstNamed(members, steps[0].name);
    if i < |members| {
      if |steps| > 1 {
        StrictImpliesOpen(w, n, k, file, members[i].type_.value, steps[1..]);
      }
    } else {
      var m :| 0 <= m < |members| && StandsFor(members[m], false, steps);
      assert StandsFor(members[m], true, steps);
    }
  }

  lemma {:induction false} StrictDecl(w: World, n: nat, k: nat, id: nat, steps: seq<Step>)
    requires id in w.decls && DeclDeclares(w, n, false, id, steps)
    ensures DeclDeclares(w, k, true, id, steps)
    decreases n, 0
  {
    if steps != [] && k > 0 {
      match w.decls[id]
      case Alias(file, t) => StrictImpliesOpen(w, n - 1, k - 1, file, t, steps);
      case Interface(file, members, bases) =>
        if MembersDeclare(w, n - 1, false, file, members, steps) {
          StrictMembers(w, n - 1, k - 1, file, members, steps);
        } else {
          var i :| 0 <= i < |bases| && BaseDeclares(w, n - 1, false, file, bases[i], steps);
          StrictDecl(w, n - 1, k - 1, w.Resolve(file, bases[i].name).value, steps);
          assert BaseDeclares(w, k - 1, true, file, bases[i], steps);
        }
    }
  }
}
