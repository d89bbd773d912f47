/** The syntax that makes the path walk answer wrongly: what it overlooks, and what it reads into a type. */
module ConfigFaults {
  import opened ConfigTypes
  import opened ConfigLookup

  // ---------- Overlooked: a key that is there, but not as a property written with that name ----------

  /** A property written otherwise, a method or an index signature may stand for the key. */
  ghost predicate Disguised(w: World, depth: nat, file: string, members: seq<TypeMember>, steps: seq<Step>)
    requires steps != [] && steps[0].Member?
  {
    var named := FirstNamed(members, steps[0].name);
    if named < |members| then
      |steps| == 1 || members[named].type_.None?
      || Declares(w, depth, true, file, members[named].type_.value, steps[1..])
    else exists k :: 0 <= k < |members| && (members[k].IndexSignature? || members[k] == Method(steps[0].name))
  }

  /** The property the walk enters is the one declared under the name. */
  predicate Agrees(members: seq<TypeMember>, name: string) {
    FirstWritten(members, name) == FirstNamed(members, name) < |members|
  }

  /** On its way the walk passes a disguised key, or an operator that hides the operand's members. */
  ghost predicate Overlooks(w: World, depth: nat, file: string, t: Type, steps: seq<Step>)
    decreases depth, 1, t, 1
  {
    steps != [] &&
    match t
    case Literal(members) => steps[0].Member? && MembersOverlook(w, depth, file, members, steps)
    case Paren(inner) => Overlooks(w, depth, file, inner, steps)
    case Intersection(parts) => exists i :: 0 <= i < |parts| && Overlooks(w, depth, file, parts[i], steps)
    case Union(first, rest) =>
      || Overlooks(w, depth, file, first, steps)
      || exists i :: 0 <= i < |rest| && Overlooks(w, depth, file, rest[i], steps)
    case ArrayOf(element) => steps[0].Element? && Overlooks(w, depth, file, element, steps[1..])
    case Operated(op, operand) => op != ReadonlyOf || Overlooks(w, depth, file, operand, steps)
    case Indexed(target, index) => index.Some? && Overlooks(w, depth, file, target, [Member(index.value)] + steps)
    case Reference(head, qualified, arguments) =>
      if IsPassthrough(head) && arguments != [] then Overlooks(w, depth, file, arguments[0], steps)
      else if IsArrayName(head) && arguments != [] then
        steps[0].Element? && Overlooks(w, depth, file, arguments[0], steps[1..])
      else
        var resolved := w.Resolve(file, head);
        !qualified && resolved.Some? && DeclOverlooks(w, depth, resolved.value, steps)
    case Opaque => false
  }

  ghost predicate MembersOverlook(w: World, depth: nat, file: string, members: seq<TypeMember>, steps: seq<Step>)
    requires steps != [] && steps[0].Member?
    decreases depth, 1, members, 0
  {
    if Agrees(members, steps[0].name) then
      var type_ := members[FirstNamed(members, steps[0].name)].type_;
      |steps| > 1 && type_.Some? && Overlooks(w, depth, file, type_.value, steps[1..])
    else Disguised(w, depth, file, members, steps)
  }

  /** An interface without such a property is looked up in its bases; one that writes another's name hides them. */
  ghost predicate DeclOverlooks(w: World, depth: nat, id: nat, steps: seq<Step>)
    requires id in w.decls
    decreases depth, 0
  {
    steps != [] && depth > 0 &&
    match w.decls[id]
    case Alias(file, t) => Overlooks(w, depth - 1, file, t, steps)
    case Interface(file, members, bases) =>
      && steps[0].Member?
      && (|| MembersOverlook(w, depth - 1, file, members, steps)
          || (&& FirstNamed(members, steps[0].name) == |members|
              && exists i :: 0 <= i < |bases| &&
                   if FirstWritten(members, steps[0].name) < |members|
                   then BaseDeclares(w, depth - 1, true, file, bases[i], steps)
                   else BaseOverlooks(w, depth - 1, file, bases[i], steps)))
    case Enum(_) => false
  }

  ghost predicate BaseOverlooks(w: World, depth: nat, file: string, base: Base, steps: seq<Step>)
    decreases depth, 1
  {
    base.NamedBase? &&
    var resolved := w.Resolve(file, base.name);
    resolved.Some? && DeclOverlooks(w, depth, resolved.value, steps)
  }

  // ---------- Misread: a key that is found, but that not every reading declares ----------

  /** Some part is misread and no other part declares the path in every reading. */
  ghost predicate Misreads(w: World, depth: nat, file: string, t: Type, steps: seq<Step>)
    decreases depth, 1, t, 1
  {
    steps != [] &&
    match t
    case Literal(members) => steps[0].Member? && MembersMisread(w, depth, file, members, steps)
    case Paren(inner) => Misreads(w, depth, file, inner, steps)
    case Intersection(parts) =>
      exists i :: 0 <= i < |parts| && Misreads(w, depth, file, parts[i], steps)
        && forall k :: 0 <= k < |parts| && k != i ==> !Declares(w, depth, false, file, parts[k], steps)
    case Union(first, rest) =>
      || Misreads(w, depth, file, first, steps)
      || exists i :: 0 <= i < |rest| && Misreads(w, depth, file, rest[i], steps)
    case ArrayOf(element) => steps[0].Element? && Misreads(w, depth, file, element, steps[1..])
    case Operated(op, operand) => op != ReadonlyOf || Misreads(w, depth, file, operand, steps)
    case Indexed(target, index) => index.Some? && Misreads(w, depth, file, target, [Member(index.value)] + steps)
    case Reference(head, qualified, arguments) =>
      if IsPassthrough(head) && arguments != [] then Misreads(w, depth, file, arguments[0], steps)
      else if IsArrayName(head) && arguments != [] then
        steps[0].Element? && Misreads(w, depth, file, arguments[0], steps[1..])
      else
        var resolved := w.Resolve(file, head);
        !qualified && resolved.Some? && DeclMisreads(w, depth, resolved.value, steps)
    case Opaque => false
  }

  /** The property entered misreads the rest, or it is named otherwise and no other member declares the path. */
  ghost predicate MembersMisread(w: World, depth: nat, file: string, members: seq<TypeMember>, steps: seq<Step>)
    requires steps != [] && steps[0].Member?
    decreases depth, 1, members, 0
  {
    if Agrees(members, steps[0].name) then
      var type_ := members[FirstNamed(members, steps[0].name)].type_;
      |steps| > 1 && type_.Some? && Misreads(w, depth, file, type_.value, steps[1..])
    else
      FirstWritten(members, steps[0].name) < |members| && !MembersDeclare(w, depth, false, file, members, steps)
  }

  /** An own property of that name hides the bases, where the walk goes on when it is not written so. */
  ghost predicate DeclMisreads(w: World, depth: nat, id: nat, steps: seq<Step>)
    requires id in w.decls
    decreases depth, 0
  {
    steps != [] && depth > 0 &&
    match w.decls[id]
    case Alias(file, t) => Misreads(w, depth - 1, file, t, steps)
    case Interface(file, members, bases) =>
      && steps[0].Member?
      && var hidden := FirstNamed(members, steps[0].name) < |members|;
         if FirstWritten(members, steps[0].name) < |members| then
           && MembersMisread(w, depth - 1, file, members, steps)
           && (hidden || forall i :: 0 <= i < |bases| ==> !BaseDeclares(w, depth - 1, false, file, bases[i], steps))
         else
           && !MembersDeclare(w, depth - 1, false, file, members, steps)
           && (hidden || BasesMisread(w, depth - 1, file, bases, steps))
    case Enum(_) => false
  }

  /** Some base is misread and no other base declares the path in every reading. */
  ghost predicate BasesMisread(w: World, depth: nat, file: string, bases: seq<Base>, steps: seq<Step>)
    decreases depth, 1, bases, 0
  {
    exists i :: 0 <= i < |bases| && BaseMisreads(w, depth, file, bases[i], steps)
      && forall k :: 0 <= k < |bases| && k != i ==> !BaseDeclares(w, depth, false, file, bases[k], steps)
  }

  ghost predicate BaseMisreads(w: World, depth: nat, file: string, base: Base, steps: seq<Step>)
    decreases depth, 1, base, 0
  {
    base.NamedBase? &&
    var resolved := w.Resolve(file, base.name);
    resolved.Some? && DeclMisreads(w, depth, resolved.value, steps)
  }

  // ---------- What is misread is not declared ----------

  lemma {:induction false} MisreadIsDenied(w: World, depth: nat, file: string, t: Type, steps: seq<Step>)
    requires Misreads(w, depth, file, t, steps)
    ensures !Declares(w, depth, false, file, t, steps)
    decreases depth, 1, t, 1
  {
    match t
    case Literal(members) => MembersDenied(w, depth, file, members, steps);
    case Paren(inner) => MisreadIsDenied(w, depth, file, inner, steps);
    case Intersection(parts) =>
      var i :| 0 <= i < |parts| && Misreads(w, depth, file, parts[i], steps)
        && forall k :: 0 <= k < |parts| && k != i ==> !Declares(w, depth, false, file, parts[k], steps);
      MisreadIsDenied(w, depth, file, parts[i], steps);
    case Union(first, rest) =>
      if Misreads(w, depth, file, first, steps) {
        MisreadIsDenied(w, depth, file, first, steps);
      } else {
        var i :| 0 <= i < |rest| && Misreads(w, depth, file, rest[i], steps);
        MisreadIsDenied(w, depth, file, rest[i], steps);
      }
    case ArrayOf(element) => MisreadIsDenied(w, depth, file, element, steps[1..]);
    case Operated(op, operand) =>
      if op == ReadonlyOf {
        MisreadIsDenied(w, depth, file, operand, steps);
      }
    case Indexed(target, index) => MisreadIsDenied(w, depth, file, target, [Member(index.value)] + steps);
    case Reference(head, qualified, arguments) =>
      if IsPassthrough(head) && arguments != [] {
        MisreadIsDenied(w, depth, file, arguments[0], steps);
      } else if IsArrayName(head) && arguments != [] {
        MisreadIsDenied(w, depth, file, arguments[0], steps[1..]);
      } else {
        DeclDenied(w, depth, w.Resolve(file, head).value, steps);
      }
  }

  lemma {:induction false} MembersDenied(w: World, depth: nat, file: string, members: seq<TypeMember>, steps: seq<Step>)
    requires steps != [] && steps[0].Member? && MembersMisread(w, depth, file, members, steps)
    ensures !MembersDeclare(w, depth, false, file, members, steps)
    decreases depth, 1, members, 0
  {
    if Agrees(members, steps[0].name) {
      var i := FirstNamed(members, steps[0].name);
      MisreadIsDenied(w, depth, file, members[i].type_.value, steps[1..]);
    }
  }

  lemma {:induction false} DeclDenied(w: World, depth: nat, id: nat, steps: seq<Step>)
    requires id in w.decls && DeclMisreads(w, depth, id, steps)
    ensures !DeclDeclares(w, depth, false, id, steps)
    decreases depth, 0
  {
    match w.decls[id]
    case Alias(file, t) => MisreadIsDenied(w, depth - 1, file, t, steps);
    case Interface(file, members, bases) =>
      if FirstWritten(members, steps[0].name) < |members| {
        MembersDenied(w, depth - 1, file, members, steps);
      } else if FirstNamed(members, steps[0].name) == |members| {
        BasesDenied(w, depth - 1, file, bases, steps);
      }
  }

  lemma {:induction false} BasesDenied(w: World, depth: nat, file: string, bases: seq<Base>, steps: seq<Step>)
    requires BasesMisread(w, depth, file, bases, steps)
    ensures forall k :: 0 <= k < |bases| ==> !BaseDeclares(w, depth, false, file, bases[k], steps)
    decreases depth, 1, bases, 0
  {
    var i :| 0 <= i < |bases| && BaseMisreads(w, depth, file, bases[i], steps)
      && forall k :: 0 <= k < |bases| && k != i ==> !BaseDeclares(w, depth, false, file, bases[k], steps);
    DeclDenied(w, depth, w.Resolve(file, bases[i].name).value, steps);
  }
}
