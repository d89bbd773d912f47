/** Schema key paths such as `agents[].id`, parsed into member and array steps. */
module ConfigPaths {
  import opened ConfigTypes
  import opened Splitting

  predicate EndsWithBrackets(s: string) {
    |s| >= 2 && s[|s| - 2..] == "[]"
  }

  lemma {:induction false} EndsWithBracketsIff(s: string)
    ensures EndsWithBrackets(s) <==> exists front :: s == front + "[]"
  {
    if EndsWithBrackets(s) {
      assert s == s[..|s| - 2] + "[]";
    }
    if front :| s == front + "[]" {
      assert s[|s| - 2..] == "[]";
    }
  }

  /** A step list that a path can denote: it starts with a member, and names carry no separators of their own. */
  ghost predicate Proper(steps: seq<Step>) {
    && steps != [] && steps[0].Member?
    && forall i :: 0 <= i < |steps| && steps[i].Member? ==> '.' !in steps[i].name && !EndsWithBrackets(steps[i].name)
  }

  /** The path a step list is written as. */
  ghost function Print(steps: seq<Step>): string
    requires steps != [] && steps[0].Member?
  {
    var n := |steps| - 1;
    if n == 0 then steps[0].name
    else Print(steps[..n]) + if steps[n].Element? then "[]" else "." + steps[n].name
  }

  // ---------- Parsing ----------

  ghost function Brackets(n: nat): string {
    if n == 0 then "" else Brackets(n - 1) + "[]"
  }

  lemma {:induction false} BracketsShift(n: nat)
    ensures "[]" + Brackets(n) == Brackets(n) + "[]"
  {
    if n > 0 {
      BracketsShift(n - 1);
      assert "[]" + Brackets(n) == ("[]" + Brackets(n - 1)) + "[]";
    }
  }

  /** The only proper step list that is written as `path`. */
  method ParsePath(path: string) returns (steps: seq<Step>)
    ensures Proper(steps) && Print(steps) == path
  {
    var segments := Split(path, '.');
    SplitJoins(path, '.');
    steps := [];
    for i := 0 to |segments|
      invariant i == 0 ==> steps == []
      invariant i > 0 ==> Proper(steps) && Print(steps) == Joined(segments[..i], '.')
    {
      var name, arrays := StripBrackets(segments[i]);
      NoDot(segments[i], name, arrays);
      AddSegment(segments, i, steps, name);
      steps := steps + [Member(name)];
      steps := AppendElements(steps, arrays);
      assert Print(steps) == Joined(segments[..i + 1], '.');
    }
    assert segments[..|segments|] == segments;
  }

  /** A member step writes a dot, except at the start, and its name. */
  lemma AddSegment(segments: seq<string>, i: nat, steps: seq<Step>, name: string)
    requires i < |segments| && '.' !in name && !EndsWithBrackets(name)
    requires if i == 0 then steps == [] else Proper(steps) && Print(steps) == Joined(segments[..i], '.')
    ensures Proper(steps + [Member(name)])
    ensures forall tail :: segments[i] == name + tail ==>
      Joined(segments[..i + 1], '.') == Print(steps + [Member(name)]) + tail
  {
    var more := steps + [Member(name)];
    assert more[..|steps|] == steps;
    assert segments[..i + 1][..i] == segments[..i];
    if i > 0 {
      assert Print(more) == Print(steps) + ("." + name);
      assert Joined(segments[..i + 1], '.') == Print(steps) + "." + segments[i];
      forall tail | segments[i] == name + tail ensures Joined(segments[..i + 1], '.') == Print(more) + tail {
        assert Print(steps) + "." + (name + tail) == (Print(steps) + ("." + name)) + tail;
      }
    }
  }

  method AppendElements(start: seq<Step>, arrays: nat) returns (steps: seq<Step>)
    requires Proper(start)
    ensures Proper(steps) && Print(steps) == Print(start) + Brackets(arrays)
  {
    steps := start;
    for k := 0 to arrays
      invariant Proper(steps) && Print(steps) == Print(start) + Brackets(k)
    {
      assert (steps + [Element])[..|steps|] == steps;
      assert Print(start) + Brackets(k) + "[]" == Print(start) + (Brackets(k) + "[]");
      steps := steps + [Element];
    }
  }

  /** Take the trailing `[]` pairs off a segment. */
  method StripBrackets(segment: string) returns (name: string, arrays: nat)
    ensures segment == name + Brackets(arrays) && !EndsWithBrackets(name)
  {
    name, arrays := segment, 0;
    while EndsWithBrackets(name)
      invariant segment == name + Brackets(arrays)
      decreases |name|
    {
      BracketsShift(arrays);
      assert name == name[..|name| - 2] + "[]";
      assert name + Brackets(arrays) == name[..|name| - 2] + ("[]" + Brackets(arrays));
      name, arrays := name[..|name| - 2], arrays + 1;
    }
  }

  lemma NoDot(segment: string, name: string, arrays: nat)
    requires segment == name + Brackets(arrays) && '.' !in segment
    ensures '.' !in name
  {
    assert forall i :: 0 <= i < |name| ==> name[i] == segment[i];
  }

  // ---------- A path has one reading ----------

  lemma {:induction false} LastStep(steps: seq<Step>)
    requires Proper(steps)
    ensures |steps| > 1 ==> (EndsWithBrackets(Print(steps)) <==> steps[|steps| - 1].Element?)
    ensures |steps| == 1 ==> !EndsWithBrackets(Print(steps))
    ensures |steps| > 1 && steps[|steps| - 1].Member? ==> '.' in Print(steps)
  {
    var n := |steps| - 1;
    if n > 0 {
      var p, before := Print(steps), Print(steps[..n]);
      if steps[n].Member? {
        var name := steps[n].name;
        assert p == before + ("." + name);
        assert p[|before|] == '.';
        if |name| >= 2 {
          assert p[|p| - 2..] == name[|name| - 2..];
        } else if |p| >= 2 {
          assert p[|p| - 2..][1 - |name|] == '.';
        }
      } else {
        assert p[|p| - 2..] == "[]";
      }
    }
  }

  lemma {:induction false} SameElement(a: seq<Step>, b: seq<Step>)
    requires Proper(a) && Proper(b) && Print(a) == Print(b) && |a| > 1 && |b| > 1
    requires a[|a| - 1].Element? && b[|b| - 1].Element?
    ensures Print(a[..|a| - 1]) == Print(b[..|b| - 1])
  {
    assert Print(a)[..|Print(a)| - 2] == Print(a[..|a| - 1]);
    assert Print(b)[..|Print(b)| - 2] == Print(b[..|b| - 1]);
  }

  lemma {:induction false} SameMember(a: seq<Step>, b: seq<Step>)
    requires Proper(a) && Proper(b) && Print(a) == Print(b) && |a| > 1 && |b| > 1
    requires a[|a| - 1].Member? && b[|b| - 1].Member?
    ensures Print(a[..|a| - 1]) == Print(b[..|b| - 1]) && a[|a| - 1] == b[|b| - 1]
  {
    assert Print(a) == Print(a[..|a| - 1]) + "." + a[|a| - 1].name;
    assert Print(b) == Print(b[..|b| - 1]) + "." + b[|b| - 1].name;
    SameSuffix(Print(a[..|a| - 1]), a[|a| - 1].name, Print(b[..|b| - 1]), b[|b| - 1].name, '.');
  }

  /** Two paths written the same way end in the same step, and are written the same way before it. */
  lemma {:induction false} SameLast(a: seq<Step>, b: seq<Step>)
    requires Proper(a) && Proper(b) && Print(a) == Print(b) && |a| > 1 && |b| > 1
    ensures Print(a[..|a| - 1]) == Print(b[..|b| - 1]) && a[|a| - 1] == b[|b| - 1]
  {
    LastStep(a);
    LastStep(b);
    if a[|a| - 1].Element? {
      SameElement(a, b);
    } else {
      SameMember(a, b);
    }
  }

  lemma {:induction false} PrintInjective(a: seq<Step>, b: seq<Step>)
    requires Proper(a) && Proper(b) && Print(a) == Print(b)
    ensures a == b
    decreases |a|
  {
    var n, k := |a| - 1, |b| - 1;
    if n == 0 {
      OneStep(a, b);
    } else if k == 0 {
      OneStep(b, a);
    } else {
      SameLast(a, b);
      PrintInjective(a[..n], b[..k]);
      assert a == a[..n] + [a[n]] && b == b[..k] + [b[k]];
    }
  }

  /** A one-step path has no dot and no brackets, so neither does any other way of writing it. */
  lemma {:induction false} OneStep(a: seq<Step>, b: seq<Step>)
    requires Proper(a) && Proper(b) && Print(a) == Print(b) && |a| == 1
    ensures a == b
  {
    LastStep(a);
    LastStep(b);
  }
}
