/** Splitting text at a separator, as `String.prototype.split` does it, and joining it again. */
module Splitting {

  ghost function Joined(segments: seq<string>, sep: char): string
    requires segments != []
  {
    var n := |segments| - 1;
    if n == 0 then segments[0] else Joined(segments[..n], sep) + [sep] + segments[n]
  }

  function Split(text: string, sep: char): (segments: seq<string>)
    ensures segments != []
  {
    if text == "" then [""]
    else
      var n := |text| - 1;
      var before := Split(text[..n], sep);
      if text[n] == sep then before + [""] else Extended(before, text[n])
  }

  function Extended(segments: seq<string>, c: char): seq<string>
    requires segments != []
  {
    segments[|segments| - 1 := segments[|segments| - 1] + [c]]
  }

  /** No segment holds the separator. */
  ghost predicate Apart(segments: seq<string>, sep: char) {
    forall i :: 0 <= i < |segments| ==> sep !in segments[i]
  }

  lemma {:induction false} JoinedMore(segments: seq<string>, sep: char, c: char)
    requires segments != []
    ensures Joined(segments + [""], sep) == Joined(segments, sep) + [sep]
    ensures Joined(Extended(segments, c), sep) == Joined(segments, sep) + [c]
  {
    var last := |segments| - 1;
    assert (segments + [""])[..|segments|] == segments;
    assert Joined(segments, sep) + [sep] + "" == Joined(segments, sep) + [sep];
    assert Extended(segments, c)[..last] == segments[..last];
    if last > 0 {
      var before := Joined(segments[..last], sep);
      assert before + [sep] + (segments[last] + [c]) == before + [sep] + segments[last] + [c];
    }
  }

  /** The segments hold no separator, and joined they are the text. */
  lemma {:induction false} SplitJoins(text: string, sep: char)
    ensures Joined(Split(text, sep), sep) == text && Apart(Split(text, sep), sep)
  {
    if text != "" {
      var n := |text| - 1;
      SplitJoins(text[..n], sep);
      JoinedMore(Split(text[..n], sep), sep, text[n]);
      assert text == text[..n] + [text[n]];
    }
  }

  lemma {:induction false} JoinedPush(a: seq<string>, x: string, sep: char)
    requires a != []
    ensures Joined(a + [x], sep) == Joined(a, sep) + [sep] + x
  {
    assert (a + [x])[..|a|] == a;
  }

  lemma {:induction false} JoinedAppend(a: seq<string>, b: seq<string>, sep: char)
    requires a != [] && b != []
    ensures Joined(a + b, sep) == Joined(a, sep) + [sep] + Joined(b, sep)
    decreases |b|
  {
    var n := |b| - 1;
    assert b == b[..n] + [b[n]] && a + b == (a + b[..n]) + [b[n]];
    JoinedPush(a + b[..n], b[n], sep);
    if n == 0 {
      assert a + b[..0] == a;
    } else {
      JoinedAppend(a, b[..n], sep);
      JoinedPush(b[..n], b[n], sep);
      Regrouped(Joined(a, sep) + [sep], Joined(b[..n], sep), [sep], b[n]);
    }
  }

  lemma {:induction false} Regrouped(a: string, b: string, c: string, d: string)
    ensures a + b + c + d == a + (b + c + d)
  {
  }

  lemma SameSuffix(a: string, x: string, b: string, y: string, sep: char)
    requires a + [sep] + x == b + [sep] + y && sep !in x && sep !in y
    ensures a == b && x == y
  {
    var s := a + [sep] + x;
    assert s[|a|] == sep && s[|b|] == sep;
    assert forall i :: |a| < i < |s| ==> s[i] == x[i - |a| - 1];
    assert forall i :: |b| < i < |s| ==> s[i] == y[i - |b| - 1];
    assert |a| == |b|;
    assert s[..|a|] == a && s[..|b|] == b;
    assert s[|a| + 1..] == x && s[|b| + 1..] == y;
  }

  lemma {:induction false} HoldsSeparator(segments: seq<string>, sep: char)
    requires |segments| > 1
    ensures sep in Joined(segments, sep)
  {
    var n := |segments| - 1;
    assert Joined(segments, sep)[|Joined(segments[..n], sep)|] == sep;
  }

  lemma {:induction false} JoinedInjective(a: seq<string>, b: seq<string>, sep: char)
    requires a != [] && b != [] && Apart(a, sep) && Apart(b, sep) && Joined(a, sep) == Joined(b, sep)
    ensures a == b
    decreases |a|
  {
    var n, k := |a| - 1, |b| - 1;
    if n > 0 {
      HoldsSeparator(a, sep);
    }
    if k > 0 {
      HoldsSeparator(b, sep);
    }
    if n > 0 {
      SameSuffix(Joined(a[..n], sep), a[n], Joined(b[..k], sep), b[k], sep);
      JoinedInjective(a[..n], b[..k], sep);
      assert a == a[..n] + [a[n]] && b == b[..k] + [b[k]];
    }
  }

  /** Splitting undoes joining. */
  lemma {:induction false} SplitJoined(segments: seq<string>, sep: char)
    requires segments != [] && Apart(segments, sep)
    ensures Split(Joined(segments, sep), sep) == segments
  {
    SplitJoins(Joined(segments, sep), sep);
    JoinedInjective(Split(Joined(segments, sep), sep), segments, sep);
  }
}
