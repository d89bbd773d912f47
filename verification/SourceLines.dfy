/** Where the lines of a source text stand in it. */
module SourceLines {
  import opened Splitting

  /** How many line breaks the text holds. */
  ghost function Breaks(s: string): nat {
    if s == "" then 0 else Breaks(s[..|s| - 1]) + if s[|s| - 1] == '\n' then 1 else 0
  }

  /** The text from `from` up to `to` is the line behind `i` line breaks. */
  ghost predicate IsLine(source: string, i: nat, from: nat, to: nat) {
    && from <= to <= |source| && Breaks(source[..from]) == i && '\n' !in source[from..to]
    && (from == 0 || source[from - 1] == '\n') && (to == |source| || source[to] == '\n')
  }

  /** Line `i` starts at `from` and reads `raw`. */
  ghost predicate StandsAt(source: string, i: nat, from: nat, raw: string) {
    IsLine(source, i, from, from + |raw|) && source[from..from + |raw|] == raw
  }

  /** The running offset of line `i`: the lengths of the lines before it, and a line break for each. */
  ghost function OffsetOf(lines: seq<string>, i: nat): nat
    requires i <= |lines|
  {
    if i == 0 then 0 else OffsetOf(lines, i - 1) + |lines[i - 1]| + 1
  }

  lemma {:induction false} BreaksAppend(a: string, b: string)
    ensures Breaks(a + b) == Breaks(a) + Breaks(b)
    decreases |b|
  {
    if b == "" {
      assert a + b == a;
    } else {
      var n := |b| - 1;
      assert (a + b)[..|a| + n] == a + b[..n];
      BreaksAppend(a, b[..n]);
    }
  }

  lemma {:induction false} NoBreaks(s: string)
    requires '\n' !in s
    ensures Breaks(s) == 0
  {
    if s != "" {
      NoBreaks(s[..|s| - 1]);
    }
  }

  lemma {:induction false} OffsetPrefix(lines: seq<string>, n: nat, i: nat)
    requires i <= n <= |lines|
    ensures OffsetOf(lines[..n], i) == OffsetOf(lines, i)
    decreases i
  {
    if i > 0 {
      OffsetPrefix(lines, n, i - 1);
    }
  }

  /** Joined lines are as long, and hold as many breaks, as their offsets say. */
  lemma {:induction false} JoinedSize(lines: seq<string>)
    requires lines != [] && Apart(lines, '\n')
    ensures |Joined(lines, '\n')| + 1 == OffsetOf(lines, |lines|) && Breaks(Joined(lines, '\n')) == |lines| - 1
    decreases |lines|
  {
    var n := |lines| - 1;
    NoBreaks(lines[n]);
    OffsetPrefix(lines, n, n);
    if n > 0 {
      JoinedSize(lines[..n]);
      BreaksAppend(Joined(lines[..n], '\n') + "\n", lines[n]);
      BreaksAppend(Joined(lines[..n], '\n'), "\n");
    }
  }

  lemma {:induction false} FirstLine(text: string)
    requires '\n' !in text
    ensures StandsAt(text, 0, 0, text)
  {
    assert text[..0] == "" && text[0..|text|] == text;
  }

  lemma {:induction false} LineBehind(text: string, last: string, i: nat, from: nat, raw: string)
    requires StandsAt(text, i, from, raw)
    ensures StandsAt(text + "\n" + last, i, from, raw)
  {
    var s, to := text + "\n" + last, from + |raw|;
    assert s[..from] == text[..from] && s[from..to] == text[from..to];
  }

  lemma {:induction false} LastLine(text: string, last: string)
    requires '\n' !in last
    ensures StandsAt(text + "\n" + last, Breaks(text) + 1, |text| + 1, last)
  {
    var s := text + "\n" + last;
    assert s[..|text| + 1] == text + "\n" && s[|text| + 1..|s|] == last;
    BreaksAppend(text, "\n");
  }

  lemma {:induction false} JoinedLine(lines: seq<string>, i: nat)
    requires i < |lines| && Apart(lines, '\n')
    ensures StandsAt(Joined(lines, '\n'), i, OffsetOf(lines, i), lines[i])
    decreases |lines|
  {
    var n := |lines| - 1;
    if n == 0 {
      FirstLine(lines[0]);
    } else if i < n {
      JoinedLine(lines[..n], i);
      OffsetPrefix(lines, n, i);
      LineBehind(Joined(lines[..n], '\n'), lines[n], i, OffsetOf(lines, i), lines[i]);
    } else {
      JoinedSize(lines[..n]);
      OffsetPrefix(lines, n, n);
      LastLine(Joined(lines[..n], '\n'), lines[n]);
    }
  }

  /** Splitting a source at its line breaks gives its lines, and the running offsets are where they stand. */
  lemma {:induction false} SplitLine(source: string, i: nat)
    requires i < |Split(source, '\n')|
    ensures StandsAt(source, i, OffsetOf(Split(source, '\n'), i), Split(source, '\n')[i])
  {
    SplitJoins(source, '\n');
    JoinedLine(Split(source, '\n'), i);
  }

  lemma {:induction false} LineCount(source: string)
    ensures |Split(source, '\n')| == Breaks(source) + 1
  {
    SplitJoins(source, '\n');
    JoinedSize(Split(source, '\n'));
  }

  /** Every number up to that of the breaks names a line. */
  lemma {:induction false} HasLine(source: string, i: nat) returns (from: nat, to: nat)
    requires i <= Breaks(source)
    ensures IsLine(source, i, from, to)
  {
    LineCount(source);
    SplitLine(source, i);
    from, to := OffsetOf(Split(source, '\n'), i), OffsetOf(Split(source, '\n'), i) + |Split(source, '\n')[i]|;
  }

  lemma {:induction false} StartsInOrder(source: string, i: nat, from: nat, to: nat, k: nat, other: nat, end: nat)
    requires IsLine(source, i, from, to) && IsLine(source, k, other, end) && from < other
    ensures i < k
  {
    var between := source[from..other - 1];
    assert source[..other] == source[..from] + between + "\n";
    BreaksAppend(source[..from] + between, "\n");
    BreaksAppend(source[..from], between);
  }

  lemma {:induction false} EndsTogether(source: string, from: nat, to: nat, end: nat)
    requires from <= to <= |source| && from <= end < |source| && source[end] == '\n' && '\n' !in source[from..to]
    ensures to <= end
  {
    assert forall p :: from <= p < to ==> source[p] == source[from..to][p - from];
  }

  /** A number names one line. */
  lemma {:induction false} OneLine(source: string, i: nat, from: nat, to: nat, other: nat, end: nat)
    requires IsLine(source, i, from, to) && IsLine(source, i, other, end)
    ensures from == other && to == end
  {
    if from < other {
      StartsInOrder(source, i, from, to, i, other, end);
    } else if other < from {
      StartsInOrder(source, i, other, end, i, from, to);
    }
    if end < |source| {
      EndsTogether(source, from, to, end);
    }
    if to < |source| {
      EndsTogether(source, from, end, to);
    }
  }

  lemma {:induction false} LineIsCounted(source: string, i: nat, from: nat, to: nat)
    requires IsLine(source, i, from, to)
    ensures i < |Split(source, '\n')|
  {
    LineCount(source);
    assert source == source[..from] + source[from..];
    BreaksAppend(source[..from], source[from..]);
  }

  /** A line is the segment of that number, at that segment's offset. */
  lemma {:induction false} LineIsSegment(source: string, i: nat, from: nat, to: nat)
    requires IsLine(source, i, from, to)
    ensures i < |Split(source, '\n')|
    ensures from == OffsetOf(Split(source, '\n'), i) && source[from..to] == Split(source, '\n')[i]
  {
    LineIsCounted(source, i, from, to);
    var start, raw := OffsetOf(Split(source, '\n'), i), Split(source, '\n')[i];
    SplitLine(source, i);
    OneLine(source, i, from, to, start, start + |raw|);
  }
}
