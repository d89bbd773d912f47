/** The path walk without its guard, and what the guard can cost: an answer, never a different one. */
module ConfigLookupBare {
  import opened Options
  import opened ConfigTypes
  import opened ConfigLookup

  // ---------- The walk without a guard ----------

  /** The walk's verdict when nothing stops it from entering a declaration again; what lies too deep is unknown. */
  function Bare(w: World, depth: nat, file: string, t: Type, steps: seq<Step>): Verdict
    decreases depth, 1, t, 1
  {
    if steps == [] then Found
    else
      match t
      case Literal(members) => if steps[0].Element? then Unknown else BareMembers(w, depth, file, members, steps)
      case Paren(inner) => Bare(w, depth, file, inner, steps)
      case Intersection(parts) => Combine(BareAll(w, depth, file, parts, steps))
      case Union(first, rest) => Agree([Bare(w, depth, file, first, steps)] + BareAll(w, depth, file, rest, steps))
      case ArrayOf(element) => if steps[0].Element? then Bare(w, depth, file, element, steps[1..]) else Unknown
      case Operated(_, operand) => Bare(w, depth, file, operand, steps)
      case Indexed(target, index) =>
        if index.Some? then Bare(w, depth, file, target, [Member(index.value)] + steps) else Unknown
      case Reference(head, qualified, arguments) =>
        if IsPassthrough(head) && arguments != [] then Bare(w, depth, file, arguments[0], steps)
        else if IsArrayName(head) && arguments != [] then
          if steps[0].Element? then Bare(w, depth, file, arguments[0], steps[1..]) else Unknown
        else
          var resolved := w.Resolve(file, head);
          if qualified || resolved.None? then Unknown else BareDecl(w, depth, resolved.value, steps)
      case Opaque => Unknown
  }

  function BareAll(w: World, depth: nat, file: string, ts: seq<Type>, steps: seq<Step>): (verdicts: seq<Verdict>)
    ensures |verdicts| == |ts|
    decreases depth, 1, ts, 0
  {
    if ts == [] then [] else [Bare(w, depth, file, ts[0], steps)] + BareAll(w, depth, file, ts[1..], steps)
  }

  function BareMembers(w: World, depth: nat, file: string, members: seq<TypeMember>, steps: seq<Step>): Verdict
    requires steps != [] && steps[0].Member?
    decreases depth, 1, members, 0
  {
    var i := FirstWritten(members, steps[0].name);
    if i == |members| then Missing
    else if |steps| == 1 then Found
    else if members[i].type_.None? then Unknown
    else Bare(w, depth, file, members[i].type_.value, steps[1..])
  }

  function BareDecl(w: World, depth: nat, id: nat, steps: seq<Step>): Verdict
    requires id in w.decls
    decreases depth, 0
  {
    if steps == [] then Found
    else if w.decls[id].Enum? || depth == 0 then Unknown
    else
      match w.decls[id]
      case Alias(file, t) => Bare(w, depth - 1, file, t, steps)
      case Interface(file, members, bases) =>
        if steps[0].Element? then Unknown
        else if FirstWritten(members, steps[0].name) < |members| then BareMembers(w, depth - 1, file, members, steps)
        else Combine(BareBases(w, depth - 1, file, bases, steps))
  }

  function BareBase(w: World, depth: nat, file: string, base: Base, steps: seq<Step>): Verdict
    decreases depth, 1, base, 0
  {
    var resolved := if base.NamedBase? then w.Resolve(file, base.name) else None;
    if resolved.None? then Unknown else BareDecl(w, depth, resolved.value, steps)
  }

  function BareBases(w: World, depth: nat, file: string, bases: seq<Base>, steps: seq<Step>): (verdicts: seq<Verdict>)
    ensures |verdicts| == |bases|
    decreases depth, 1, bases, 0
  {
    if bases == [] then []
    else [BareBase(w, depth, file, bases[0], steps)] + BareBases(w, depth, file, bases[1..], steps)
  }

  // ---------- The guard only adds unknown ----------

  /** The same verdict, or none. */
  predicate Below(v: Verdict, b: Verdict) {
    v == Unknown || v == b
  }

  ghost predicate AllBelow(vs: seq<Verdict>, bs: seq<Verdict>) {
    |vs| == |bs| && forall i :: 0 <= i < |vs| ==> Below(vs[i], bs[i])
  }

  lemma CombineBelow(vs: seq<Verdict>, bs: seq<Verdict>)
    requires AllBelow(vs, bs)
    ensures Below(Combine(vs), Combine(bs))
  {
    if Found in vs {
      var i :| 0 <= i < |vs| && vs[i] == Found;
      assert bs[i] == Found;
    } else if Unknown !in vs {
      forall i | 0 <= i < |bs| ensures bs[i] == Missing {
        assert vs[i] in vs;
      }
    }
  }

  lemma AgreeBelow(vs: seq<Verdict>, bs: seq<Verdict>)
    requires AllBelow(vs, bs)
    ensures Below(Agree(vs), Agree(bs))
  {
    if Agree(vs) != Unknown {
      forall i | 0 <= i < |bs| ensures bs[i] == vs[i] {
        assert vs[i] in vs;
      }
      assert vs == bs;
    }
  }

  lemma {:induction false} LookupBelow(w: World, depth: nat, file: string, t: Type, steps: seq<Step>, seen: set<Key>)
    ensures var o := Lookup(w, depth, file, t, steps, seen);
      o.Done? ==> Below(o.verdict, Bare(w, depth, file, t, steps))
    decreases depth, 1, t, 1
  {
    if steps != [] {
      match t
      case Literal(members) =>
        if steps[0].Member? {
          MembersBelow(w, depth, file, members, steps, seen);
        }
      case Paren(inner) => LookupBelow(w, depth, file, inner, steps, seen);
      case Intersection(parts) =>
        LookupAllBelow(w, depth, file, parts, steps, seen);
        var all := LookupAll(w, depth, file, parts, steps, seen);
        if all.AllDone? {
          CombineBelow(all.verdicts, BareAll(w, depth, file, parts, steps));
        }
      case Union(_, _) => UnionBelow(w, depth, file, t, steps, seen);
      case ArrayOf(element) =>
        if steps[0].Element? {
          LookupBelow(w, depth, file, element, steps[1..], seen);
        }
      case Operated(_, operand) => LookupBelow(w, depth, file, operand, steps, seen);
      case Indexed(target, index) =>
        if index.Some? {
          LookupBelow(w, depth, file, target, [Member(index.value)] + steps, seen);
        }
      case Reference(head, qualified, arguments) =>
        if IsPassthrough(head) && arguments != [] {
          LookupBelow(w, depth, file, arguments[0], steps, seen);
        } else if IsArrayName(head) && arguments != [] {
          if steps[0].Element? {
            LookupBelow(w, depth, file, arguments[0], steps[1..], seen);
          }
        } else if !qualified && w.Resolve(file, head).Some? {
          LookupDeclBelow(w, depth, w.Resolve(file, head).value, steps, seen);
        }
      case Opaque =>
    }
  }

  lemma {:induction false} UnionBelow(w: World, depth: nat, file: string, t: Type, steps: seq<Step>, seen: set<Key>)
    requires t.Union? && steps != []
    ensures var o := Lookup(w, depth, file, t, steps, seen);
      o.Done? ==> Below(o.verdict, Bare(w, depth, file, t, steps))
    decreases depth, 1, t, 0
  {
    LookupBelow(w, depth, file, t.first, steps, seen);
    var one := Lookup(w, depth, file, t.first, steps, seen);
    if one.Done? {
      LookupAllBelow(w, depth, file, t.rest, steps, one.seen);
      var others := LookupAll(w, depth, file, t.rest, steps, one.seen);
      if others.AllDone? {
        AgreeBelow([one.verdict] + others.verdicts,
                   [Bare(w, depth, file, t.first, steps)] + BareAll(w, depth, file, t.rest, steps));
      }
    }
  }

  lemma {:induction false} LookupAllBelow(w: World, depth: nat, file: string, ts: seq<Type>, steps: seq<Step>,
                                          seen: set<Key>)
    ensures var all := LookupAll(w, depth, file, ts, steps, seen);
      all.AllDone? ==> AllBelow(all.verdicts, BareAll(w, depth, file, ts, steps))
    decreases depth, 1, ts, 0
  {
    if ts != [] {
      LookupBelow(w, depth, file, ts[0], steps, seen);
      var one := Lookup(w, depth, file, ts[0], steps, seen);
      if one.Done? {
        LookupAllBelow(w, depth, file, ts[1..], steps, one.seen);
      }
    }
  }

  lemma {:induction false} MembersBelow(w: World, depth: nat, file: string, members: seq<TypeMember>, steps: seq<Step>,
                                        seen: set<Key>)
    requires steps != [] && steps[0].Member?
    ensures var direct := IntoMembers(w, depth, file, members, steps, seen);
      var o := if direct.None? then Done(Missing, seen) else direct.value;
      && (direct.None? <==> FirstWritten(members, steps[0].name) == |members|)
      && (o.Done? ==> Below(o.verdict, BareMembers(w, depth, file, members, steps)))
    decreases depth, 1, members, 0
  {
    var i := FirstWritten(members, steps[0].name);
    if i < |members| && |steps| > 1 && members[i].type_.Some? {
      LookupBelow(w, depth, file, members[i].type_.value, steps[1..], seen);
    }
  }

  lemma {:induction false} LookupDeclBelow(w: World, depth: nat, id: nat, steps: seq<Step>, seen: set<Key>)
    requires id in w.decls
    ensures var o := LookupDecl(w, depth, id, steps, seen); o.Done? ==> Below(o.verdict, BareDecl(w, depth, id, steps))
    decreases depth, 0
  {
    if steps != [] && !w.decls[id].Enum? && (id, |steps|) !in seen && depth > 0 {
      var entered := seen + {(id, |steps|)};
      match w.decls[id]
      case Alias(file, t) => LookupBelow(w, depth - 1, file, t, steps, entered);
      case Interface(file, members, bases) =>
        if steps[0].Member? {
          MembersBelow(w, depth - 1, file, members, steps, entered);
          BasesBelow(w, depth - 1, file, bases, steps, entered);
          var all := LookupBases(w, depth - 1, file, bases, steps, entered);
          if all.AllDone? {
            CombineBelow(all.verdicts, BareBases(w, depth - 1, file, bases, steps));
          }
        }
    }
  }

  lemma {:induction false} BasesBelow(w: World, depth: nat, file: string, bases: seq<Base>, steps: seq<Step>,
                                      seen: set<Key>)
    ensures var all := LookupBases(w, depth, file, bases, steps, seen);
      all.AllDone? ==> AllBelow(all.verdicts, BareBases(w, depth, file, bases, steps))
    decreases depth, 1, bases, 0
  {
    if bases != [] {
      if bases[0].NamedBase? && w.Resolve(file, bases[0].name).Some? {
        LookupDeclBelow(w, depth, w.Resolve(file, bases[0].name).value, steps, seen);
      }
      var one := LookupBase(w, depth, file, bases[0], steps, seen);
      if one.Done? {
        BasesBelow(w, depth, file, bases[1..], steps, one.seen);
      }
    }
  }

  // ---------- Going deeper only settles what was unknown ----------

  lemma {:induction false} BareDeeper(w: World, n: nat, k: nat, file: string, t: Type, steps: seq<Step>)
    requires n <= k
    ensures Below(Bare(w, n, file, t, steps), Bare(w, k, file, t, steps))
    decreases n, 1, t, 1
  {
    if steps != [] {
      match t
      case Literal(members) =>
        if steps[0].Member? {
          BareMembersDeeper(w, n, k, file, members, steps);
        }
      case Paren(inner) => BareDeeper(w, n, k, file, inner, steps);
      case Intersection(parts) =>
        BareAllDeeper(w, n, k, file, parts, steps);
        CombineBelow(BareAll(w, n, file, parts, steps), BareAll(w, k, file, parts, steps));
      case Union(first, rest) =>
        BareDeeper(w, n, k, file, first, steps);
        BareAllDeeper(w, n, k, file, rest, steps);
        AgreeBelow([Bare(w, n, file, first, steps)] + BareAll(w, n, file, rest, steps),
                   [Bare(w, k, file, first, steps)] + BareAll(w, k, file, rest, steps));
      case ArrayOf(element) =>
        if steps[0].Element? {
          BareDeeper(w, n, k, file, element, steps[1..]);
        }
      case Operated(_, operand) => BareDeeper(w, n, k, file, operand, steps);
      case Indexed(target, index) =>
        if index.Some? {
          BareDeeper(w, n, k, file, target, [Member(index.value)] + steps);
        }
      case Reference(head, qualified, arguments) =>
        if IsPassthrough(head) && arguments != [] {
          BareDeeper(w, n, k, file, arguments[0], steps);
        } else if IsArrayName(head) && arguments != [] {
          if steps[0].Element? {
            BareDeeper(w, n, k, file, arguments[0], steps[1..]);
          }
        } else if !qualified && w.Resolve(file, head).Some? {
          BareDeclDeeper(w, n, k, w.Resolve(file, head).value, steps);
        }
      case Opaque =>
    }
  }

  lemma {:induction false} BareAllDeeper(w: World, n: nat, k: nat, file: string, ts: seq<Type>, steps: seq<Step>)
    requires n <= k
    ensures AllBelow(BareAll(w, n, file, ts, steps), BareAll(w, k, file, ts, steps))
    decreases n, 1, ts, 0
  {
    if ts != [] {
      BareDeeper(w, n, k, file, ts[0], steps);
      BareAllDeeper(w, n, k, file, ts[1..], steps);
    }
  }

  lemma {:induction false} BareMembersDeeper(w: World, n: nat, k: nat, file: string, members: seq<TypeMember>,
                                             steps: seq<Step>)
    requires n <= k && steps != [] && steps[0].Member?
    ensures Below(BareMembers(w, n, file, members, steps), BareMembers(w, k, file, members, steps))
    decreases n, 1, members, 0
  {
    var i := FirstWritten(members, steps[0].name);
    if i < |members| && |steps| > 1 && members[i].type_.Some? {
      BareDeeper(w, n, k, file, members[i].type_.value, steps[1..]);
    }
  }

  lemma {:induction false} BareDeclDeeper(w: World, n: nat, k: nat, id: nat, steps: seq<Step>)
    requires n <= k && id in w.decls
    ensures Below(BareDecl(w, n, id, steps), BareDecl(w, k, id, steps))
    decreases n, 0
  {
    if steps != [] && !w.decls[id].Enum? && n > 0 {
      match w.decls[id]
      case Alias(file, t) => BareDeeper(w, n - 1, k - 1, file, t, steps);
      case Interface(file, members, bases) =>
        if steps[0].Member? {
          BareMembersDeeper(w, n - 1, k - 1, file, members, steps);
          BareBasesDeeper(w, n - 1, k - 1, file, bases, steps);
          CombineBelow(BareBases(w, n - 1, file, bases, steps), BareBases(w, k - 1, file, bases, steps));
        }
    }
  }

  lemma {:induction false} BareBasesDeeper(w: World, n: nat, k: nat, file: string, bases: seq<Base>, steps: seq<Step>)
    requires n <= k
    ensures AllBelow(BareBases(w, n, file, bases, steps), BareBases(w, k, file, bases, steps))
    decreases n, 1, bases, 0
  {
    if bases != [] {
      if bases[0].NamedBase? && w.Resolve(file, bases[0].name).Some? {
        BareDeclDeeper(w, n, k, w.Resolve(file, bases[0].name).value, steps);
      }
      BareBasesDeeper(w, n, k, file, bases[1..], steps);
    }
  }

  /** No two finished walks of one path contradict each other, whatever their guards and depths. */
  lemma {:induction false} WalksAgree(w: World, n: nat, k: nat, id: nat, steps: seq<Step>, seen: set<Key>,
                                      seen': set<Key>)
    requires id in w.decls
    ensures var one, two := LookupDecl(w, n, id, steps, seen), LookupDecl(w, k, id, steps, seen');
      one.Done? && two.Done? ==> !(one.verdict == Found && two.verdict == Missing)
  {
    LookupDeclBelow(w, n, id, steps, seen);
    LookupDeclBelow(w, k, id, steps, seen');
    if n <= k {
      BareDeclDeeper(w, n, k, id, steps);
    } else {
      BareDeclDeeper(w, k, n, id, steps);
    }
  }
}
