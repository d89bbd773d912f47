/** The three-valued walk of a schema key path over a declared config type. */
module ConfigLookup {
  import opened Options
  import opened ConfigTypes

  /** Definitely present, definitely absent, or crossing a type the walk cannot enumerate. */
  datatype Verdict = Found | Missing | Unknown

  /** A guard entry: a declaration and the number of steps left when it was entered. */
  type Key = (nat, nat)

  /** The walk's answer with the guard as it leaves it, or a recursion deeper than allowed. */
  datatype Outcome = Done(verdict: Verdict, seen: set<Key>) | TooDeep

  datatype Outcomes = AllDone(verdicts: seq<Verdict>, seen: set<Key>) | SomeTooDeep

  /** Any found wins, else any unknown taints, else missing. */
  function Combine(verdicts: seq<Verdict>): Verdict {
    if Found in verdicts then Found else if Unknown in verdicts then Unknown else Missing
  }

  /** Presence on a union is definite only when every branch agrees. */
  function Agree(verdicts: seq<Verdict>): Verdict {
    if forall v :: v in verdicts ==> v == Found then Found
    else if forall v :: v in verdicts ==> v == Missing then Missing
    else Unknown
  }

  /** Walk `steps` over `t`, entering at most `depth` nested declarations. */
  function Lookup(w: World, depth: nat, file: string, t: Type, steps: seq<Step>, seen: set<Key>): Outcome
    decreases depth, 1, t, 1
  {
    if steps == [] then Done(Found, seen)
    else
      match t
      case Literal(members) =>
        if steps[0].Element? then Done(Unknown, seen)
        else
          var direct := IntoMembers(w, depth, file, members, steps, seen);
          if direct.None? then Done(Missing, seen) else direct.value
      case Paren(inner) => Lookup(w, depth, file, inner, steps, seen)
      case Intersection(parts) =>
        var all := LookupAll(w, depth, file, parts, steps, seen);
        if all.SomeTooDeep? then TooDeep else Done(Combine(all.verdicts), all.seen)
      case Union(first, rest) =>
        var one := Lookup(w, depth, file, first, steps, seen);
        if one.TooDeep? then TooDeep
        else
          var others := LookupAll(w, depth, file, rest, steps, one.seen);
          if others.SomeTooDeep? then TooDeep else Done(Agree([one.verdict] + others.verdicts), others.seen)
      case ArrayOf(element) =>
        if steps[0].Element? then Lookup(w, depth, file, element, steps[1..], seen) else Done(Unknown, seen)
      case Operated(_, operand) => Lookup(w, depth, file, operand, steps, seen)
      case Indexed(target, index) =>
        if index.Some? then Lookup(w, depth, file, target, [Member(index.value)] + steps, seen)
        else Done(Unknown, seen)
      case Reference(head, qualified, arguments) =>
        if IsPassthrough(head) && arguments != [] then Lookup(w, depth, file, arguments[0], steps, seen)
        else if IsArrayName(head) && arguments != [] then
          if steps[0].Element? then Lookup(w, depth, file, arguments[0], steps[1..], seen) else Done(Unknown, seen)
        else if qualified then Done(Unknown, seen)
        else
          var resolved := w.Resolve(file, head);
          if resolved.None? then Done(Unknown, seen) else LookupDecl(w, depth, resolved.value, steps, seen)
      case Opaque => Done(Unknown, seen)
  }

  /** The branches one after another, sharing one guard. */
  function LookupAll(w: World, depth: nat, file: string, ts: seq<Type>, steps: seq<Step>, seen: set<Key>): Outcomes
    decreases depth, 1, ts, 0
  {
    if ts == [] then AllDone([], seen)
    else
      var one := Lookup(w, depth, file, ts[0], steps, seen);
      if one.TooDeep? then SomeTooDeep
      else
        var others := LookupAll(w, depth, file, ts[1..], steps, one.seen);
        if others.SomeTooDeep? then SomeTooDeep else AllDone([one.verdict] + others.verdicts, others.seen)
  }

  /** The first property written as `name`, or `|members|`. */
  function FirstWritten(members: seq<TypeMember>, name: string): (i: nat)
    ensures i <= |members| && (i < |members| ==> members[i].Property? && members[i].text == name)
    ensures forall k :: 0 <= k < i ==> !(members[k].Property? && members[k].text == name)
  {
    if members == [] then 0
    else if members[0].Property? && members[0].text == name then 0
    else
      var i := 1 + FirstWritten(members[1..], name);
      assert forall k :: 1 <= k < |members| ==> members[k] == members[1..][k - 1];
      i
  }

  /** Into the first property written with the step's name; none when there is no such property. */
  function IntoMembers(w: World, depth: nat, file: string, members: seq<TypeMember>, steps: seq<Step>, seen: set<Key>)
    : Option<Outcome>
    requires steps != [] && steps[0].Member?
    decreases depth, 1, members, 0
  {
    var i := FirstWritten(members, steps[0].name);
    if i == |members| then None
    else if |steps| == 1 then Some(Done(Found, seen))
    else if members[i].type_.None? then Some(Done(Unknown, seen))
    else Some(Lookup(w, depth, file, members[i].type_.value, steps[1..], seen))
  }

  function LookupDecl(w: World, depth: nat, id: nat, steps: seq<Step>, seen: set<Key>): Outcome
    requires id in w.decls
    decreases depth, 0
  {
    if steps == [] then Done(Found, seen)
    else if w.decls[id].Enum? then Done(Unknown, seen)
    else if (id, |steps|) in seen then Done(Unknown, seen)
    else if depth == 0 then TooDeep
    else
      var entered := seen + {(id, |steps|)};
      match w.decls[id]
      case Alias(file, t) => Lookup(w, depth - 1, file, t, steps, entered)
      case Interface(file, members, bases) =>
        if steps[0].Element? then Done(Unknown, entered)
        else
          var direct := IntoMembers(w, depth - 1, file, members, steps, entered);
          if direct.Some? then direct.value
          else
            var all := LookupBases(w, depth - 1, file, bases, steps, entered);
            if all.SomeTooDeep? then TooDeep else Done(Combine(all.verdicts), all.seen)
  }

  function LookupBase(w: World, depth: nat, file: string, base: Base, steps: seq<Step>, seen: set<Key>): Outcome
    decreases depth, 1, base, 0
  {
    var resolved := if base.NamedBase? then w.Resolve(file, base.name) else None;
    if resolved.None? then Done(Unknown, seen) else LookupDecl(w, depth, resolved.value, steps, seen)
  }

  function LookupBases(w: World, depth: nat, file: string, bases: seq<Base>, steps: seq<Step>, seen: set<Key>): Outcomes
    decreases depth, 1, bases, 0
  {
    if bases == [] then AllDone([], seen)
    else
      var one := LookupBase(w, depth, file, bases[0], steps, seen);
      if one.TooDeep? then SomeTooDeep
      else
        var others := LookupBases(w, depth, file, bases[1..], steps, one.seen);
        if others.SomeTooDeep? then SomeTooDeep else AllDone([one.verdict] + others.verdicts, others.seen)
  }
}
