/** Declared config types, and what it means for one to declare a schema key path. */
module ConfigTypes {
  import opened Options

  /** One step of a schema key path: a named member, or an array-element hop. */
  datatype Step = Member(name: string) | Element

  datatype Operator = ReadonlyOf | KeyOf | UniqueOf

  /** Type syntax as the path walk tells it apart; anything else is `Opaque`. */
  datatype Type =
    | Literal(members: seq<TypeMember>)
    | Paren(inner: Type)
    | Intersection(parts: seq<Type>)
    | Union(first: Type, rest: seq<Type>)
    | ArrayOf(element: Type)
    | Operated(op: Operator, operand: Type)
    | Indexed(target: Type, index: Option<string>)
    | Reference(head: string, qualified: bool, arguments: seq<Type>)
    | Opaque

  /** A property with its name as written and as declared, a method, or an index signature. */
  datatype TypeMember =
    | Property(text: string, name: string, type_: Option<Type>)
    | Method(name: string)
    | IndexSignature

  /** A base in a heritage clause: a plain identifier, or an expression. */
  datatype Base = NamedBase(name: string) | OtherBase

  datatype Declaration =
    | Interface(file: string, members: seq<TypeMember>, bases: seq<Base>)
    | Alias(file: string, type_: Type)
    | Enum(file: string)

  /** All declarations, and the declaration each name denotes in each file, when within reach. */
  datatype World = World(decls: map<nat, Declaration>, scope: map<(string, string), nat>) {
    function Resolve(file: string, name: string): (id: Option<nat>)
      ensures id.Some? ==> id.value in decls
    {
      if (file, name) in scope && scope[(file, name)] in decls then Some(scope[(file, name)]) else None
    }
  }

  /** Utility wrappers that pass a member lookup through to their type argument. */
  predicate IsPassthrough(name: string) {
    name in {"Partial", "Required", "Readonly", "NonNullable"}
  }

  predicate IsArrayName(name: string) {
    name == "Array" || name == "ReadonlyArray"
  }

  // ---------- The meaning of a path ----------

  /**
   * Whether a type declares a path, read in one of two ways. The strict reading (`open` false)
   * demands it of every union branch and grants nothing to what cannot be seen; the open reading
   * asks it of some branch and grants everything to what cannot be seen. `depth` bounds how many
   * declarations are entered; what lies deeper is not seen.
   */
  ghost predicate Declares(w: World, depth: nat, open: bool, file: string, t: Type, steps: seq<Step>)
    decreases depth, 1, t, 1
  {
    steps == [] ||
    match t
    case Literal(members) =>
      if steps[0].Element? then open else MembersDeclare(w, depth, open, file, members, steps)
    case Paren(inner) => Declares(w, depth, open, file, inner, steps)
    case Intersection(parts) => exists i :: 0 <= i < |parts| && Declares(w, depth, open, file, parts[i], steps)
    case Union(first, rest) =>
      if open then
        Declares(w, depth, open, file, first, steps)
        || exists i :: 0 <= i < |rest| && Declares(w, depth, open, file, rest[i], steps)
      else
        Declares(w, depth, open, file, first, steps)
        && forall i :: 0 <= i < |rest| ==> Declares(w, depth, open, file, rest[i], steps)
    case ArrayOf(element) =>
      if steps[0].Element? then Declares(w, depth, open, file, element, steps[1..]) else open
    case Operated(op, operand) =>
      if op == ReadonlyOf then Declares(w, depth, open, file, operand, steps) else open
    case Indexed(target, index) =>
      if index.Some? then Declares(w, depth, open, file, target, [Member(index.value)] + steps) else open
    case Reference(head, qualified, arguments) =>
      if IsPassthrough(head) && arguments != [] then Declares(w, depth, open, file, arguments[0], steps)
      else if IsArrayName(head) && arguments != [] then
        if steps[0].Element? then Declares(w, depth, open, file, arguments[0], steps[1..]) else open
      else if qualified then open
      else
        var resolved := w.Resolve(file, head);
        if resolved.None? then open else DeclDeclares(w, depth, open, resolved.value, steps)
    case Opaque => open
  }

  /** The first property declared under `name`, or `|members|`. */
  function FirstNamed(members: seq<TypeMember>, name: string): (i: nat)
    ensures i <= |members| && (i < |members| ==> members[i].Property? && members[i].name == name)
    ensures forall k :: 0 <= k < i ==> !(members[k].Property? && members[k].name == name)
  {
    if members == [] then 0
    else if members[0].Property? && members[0].name == name then 0
    else
      var i := 1 + FirstNamed(members[1..], name);
      assert forall k :: 1 <= k < |members| ==> members[k] == members[1..][k - 1];
      i
  }

  /** A method of that name, or an index signature, which the open reading lets stand for any key. */
  ghost predicate StandsFor(m: TypeMember, open: bool, steps: seq<Step>)
    requires steps != [] && steps[0].Member?
  {
    match m
    case Property(_, _, _) => false
    case Method(name) => name == steps[0].name && (|steps| == 1 || open)
    case IndexSignature => open
  }

  /** The property of that name decides, or else a method or an index signature. */
  ghost predicate MembersDeclare(w: World, depth: nat, open: bool, file: string, members: seq<TypeMember>,
                                 steps: seq<Step>)
    requires steps != [] && steps[0].Member?
    decreases depth, 1, members, 0
  {
    var i := FirstNamed(members, steps[0].name);
    if i < |members| then
      |steps| == 1
      || if members[i].type_.None? then open else Declares(w, depth, open, file, members[i].type_.value, steps[1..])
    else exists k :: 0 <= k < |members| && StandsFor(members[k], open, steps)
  }

  /** An interface's own property hides what the bases declare under its name. */
  ghost predicate DeclDeclares(w: World, depth: nat, open: bool, id: nat, steps: seq<Step>)
    requires id in w.decls
    decreases depth, 0
  {
    steps == [] ||
    match w.decls[id]
    case Interface(file, members, bases) =>
      if depth == 0 || steps[0].Element? then open
      else
        MembersDeclare(w, depth - 1, open, file, members, steps)
        || (FirstNamed(members, steps[0].name) == |members| &&
            exists i :: 0 <= i < |bases| && BaseDeclares(w, depth - 1, open, file, bases[i], steps))
    case Alias(file, t) => if depth == 0 then open else Declares(w, depth - 1, open, file, t, steps)
    case Enum(_) => open
  }

  ghost predicate BaseDeclares(w: World, depth: nat, open: bool, file: string, base: Base, steps: seq<Step>)
    decreases depth, 1
  {
    match base
    case OtherBase => open
    case NamedBase(name) =>
      var resolved := w.Resolve(file, name);
      if resolved.None? then open else DeclDeclares(w, depth, open, resolved.value, steps)
  }
}
