/** Words, white space, and what joining, collapsing and trimming make of them. */
module JsDocText {
  import opened MarkdownLinks
  import opened Splitting

  // ---------- Words ----------

  ghost predicate EndsInWord(s: string) {
    s != "" && !IsSpace(s[|s| - 1])
  }

  /** The words after one more character, when the last word is still open or not. */
  ghost function PushChar(words: seq<string>, open: bool, c: char): seq<string>
    requires open ==> words != []
  {
    if IsSpace(c) then words
    else if open then words[|words| - 1 := words[|words| - 1] + [c]]
    else words + [[c]]
  }

  /** The maximal runs of characters other than white space, in order. */
  ghost function Words(s: string): (w: seq<string>)
    ensures EndsInWord(s) ==> w != []
  {
    if s == "" then []
    else
      var n := |s| - 1;
      PushChar(Words(s[..n]), EndsInWord(s[..n]), s[n])
  }

  lemma {:induction false} WordsPush(s: string, c: char)
    ensures Words(s + [c]) == PushChar(Words(s), EndsInWord(s), c)
  {
    assert (s + [c])[..|s|] == s;
  }

  lemma {:induction false} PushBehind(a: seq<string>, b: seq<string>, open: bool, c: char)
    requires open ==> b != []
    ensures PushChar(a + b, open, c) == a + PushChar(b, open, c)
  {
  }

  /** White space separates words. */
  lemma {:induction false} WordsAround(a: string, c: char, b: string)
    requires IsSpace(c)
    ensures Words(a + [c] + b) == Words(a) + Words(b)
    decreases |b|
  {
    if b == "" {
      assert a + [c] + b == a + [c];
      WordsPush(a, c);
    } else {
      var n := |b| - 1;
      var before := a + [c] + b[..n];
      WordsAround(a, c, b[..n]);
      assert a + [c] + b == before + [b[n]];
      WordsPush(before, b[n]);
      assert EndsInWord(before) == EndsInWord(b[..n]);
      PushBehind(Words(a), Words(b[..n]), EndsInWord(b[..n]), b[n]);
    }
  }

  /** The words of several texts, one text after another. */
  ghost function Flat(parts: seq<string>): seq<string> {
    if parts == [] then [] else Flat(parts[..|parts| - 1]) + Words(parts[|parts| - 1])
  }

  lemma {:induction false} Associates(a: seq<string>, b: seq<string>, c: seq<string>)
    ensures a + (b + c) == (a + b) + c
  {
  }

  lemma {:induction false} FlatPush(parts: seq<string>, s: string)
    ensures Flat(parts + [s]) == Flat(parts) + Words(s)
  {
    assert (parts + [s])[..|parts|] == parts;
  }

  lemma {:induction false} FlatOne(s: string)
    ensures Flat([s]) == Words(s)
  {
    assert [s] == [] + [s];
    FlatPush([], s);
  }

  ghost predicate Blank(s: string) {
    s != "" && forall i :: 0 <= i < |s| ==> IsSpace(s[i])
  }

  function JoinWith(parts: seq<string>, separator: string): string {
    if parts == [] then ""
    else if |parts| == 1 then parts[0]
    else JoinWith(parts[..|parts| - 1], separator) + separator + parts[|parts| - 1]
  }

  lemma {:induction false} TrailingBlank(a: string, blank: string)
    requires forall i :: 0 <= i < |blank| ==> IsSpace(blank[i])
    ensures Words(a + blank) == Words(a)
    decreases |blank|
  {
    if blank == "" {
      assert a + blank == a;
    } else {
      var n := |blank| - 1;
      assert (a + blank)[..|a| + n] == a + blank[..n];
      TrailingBlank(a, blank[..n]);
    }
  }

  lemma {:induction false} WordsAroundBlank(a: string, separator: string, b: string)
    requires Blank(separator)
    ensures Words(a + separator + b) == Words(a) + Words(b)
  {
    var n := |separator| - 1;
    assert a + separator + b == (a + separator[..n]) + [separator[n]] + b;
    WordsAround(a + separator[..n], separator[n], b);
    TrailingBlank(a, separator[..n]);
  }

  /** Joining with white space keeps the words. */
  lemma {:induction false} JoinWords(parts: seq<string>, separator: string)
    requires Blank(separator)
    ensures Words(JoinWith(parts, separator)) == Flat(parts)
    decreases |parts|
  {
    if |parts| == 1 {
      assert parts == [parts[0]];
      FlatOne(parts[0]);
    } else if parts != [] {
      var n := |parts| - 1;
      JoinWords(parts[..n], separator);
      WordsAroundBlank(JoinWith(parts[..n], separator), separator, parts[n]);
    }
  }

  // ---------- Collapsing and trimming ----------

  /** Every run of white space becomes one space. */
  function Collapse(s: string): string {
    if s == "" then ""
    else
      var n := |s| - 1;
      if !IsSpace(s[n]) then Collapse(s[..n]) + [s[n]]
      else if n > 0 && IsSpace(s[n - 1]) then Collapse(s[..n])
      else Collapse(s[..n]) + [' ']
  }

  lemma {:induction false} CollapseWords(s: string)
    ensures Words(Collapse(s)) == Words(s) && (Collapse(s) == "" <==> s == "")
    ensures EndsInWord(Collapse(s)) <==> EndsInWord(s)
    decreases |s|
  {
    if s != "" {
      var n := |s| - 1;
      CollapseWords(s[..n]);
      var before, c := Collapse(s[..n]), if IsSpace(s[n]) then ' ' else s[n];
      assert (before + [c])[..|before|] == before;
    }
  }

  function TrimEnd(s: string): string {
    if s != "" && IsSpace(s[|s| - 1]) then TrimEnd(s[..|s| - 1]) else s
  }

  function TrimStart(s: string): string {
    if s != "" && IsSpace(s[0]) then TrimStart(s[1..]) else s
  }

  function Trim(s: string): string {
    TrimStart(TrimEnd(s))
  }

  lemma {:induction false} TrimWords(s: string)
    ensures Words(Trim(s)) == Words(s)
  {
    TrimEndWords(s);
    TrimStartWords(TrimEnd(s));
  }

  lemma {:induction false} TrimEndWords(s: string)
    ensures Words(TrimEnd(s)) == Words(s)
    decreases |s|
  {
    if s != "" && IsSpace(s[|s| - 1]) {
      TrimEndWords(s[..|s| - 1]);
    }
  }

  lemma {:induction false} TrimStartWords(s: string)
    ensures Words(TrimStart(s)) == Words(s)
    decreases |s|
  {
    if s != "" && IsSpace(s[0]) {
      TrimStartWords(s[1..]);
      assert s == "" + [s[0]] + s[1..];
      WordsAround("", s[0], s[1..]);
    }
  }

  /** Parts on one line, single-spaced. */
  function JoinLine(parts: seq<string>): string {
    Trim(Collapse(JoinWith(parts, " ")))
  }

  lemma {:induction false} JoinLineWords(parts: seq<string>)
    ensures Words(JoinLine(parts)) == Flat(parts)
  {
    JoinWords(parts, " ");
    CollapseWords(JoinWith(parts, " "));
    TrimWords(Collapse(JoinWith(parts, " ")));
  }

  // ---------- What trimming, collapsing and joining leave ----------

  ghost predicate AllSpace(s: string) {
    forall i :: 0 <= i < |s| ==> IsSpace(s[i])
  }

  ghost predicate Trimmed(s: string) {
    s == "" || (!IsSpace(s[0]) && !IsSpace(s[|s| - 1]))
  }

  lemma {:induction false} TrimStartOf(blank: string, s: string)
    requires AllSpace(blank) && (s == "" || !IsSpace(s[0]))
    ensures TrimStart(blank + s) == s
    decreases |blank|
  {
    if blank == "" {
      assert blank + s == s;
    } else {
      assert (blank + s)[1..] == blank[1..] + s;
      TrimStartOf(blank[1..], s);
    }
  }

  lemma {:induction false} TrimEndOf(s: string, blank: string)
    requires AllSpace(blank) && (s == "" || !IsSpace(s[|s| - 1]))
    ensures TrimEnd(s + blank) == s
    decreases |blank|
  {
    if blank == "" {
      assert s + blank == s;
    } else {
      var n := |blank| - 1;
      assert (s + blank)[..|s| + n] == s + blank[..n];
      TrimEndOf(s, blank[..n]);
    }
  }

  /** Trimming takes off exactly the white space on both sides. */
  lemma {:induction false} TrimOf(a: string, s: string, b: string)
    requires AllSpace(a) && Trimmed(s) && AllSpace(b)
    ensures Trim(a + s + b) == s
  {
    if s == "" {
      assert a + s + b == "" + (a + b);
      TrimEndOf("", a + b);
    } else {
      TrimEndOf(a + s, b);
      TrimStartOf(a, s);
    }
  }

  lemma {:induction false} TrimStartParts(s: string) returns (blank: string)
    ensures AllSpace(blank) && s == blank + TrimStart(s) && (TrimStart(s) == "" || !IsSpace(TrimStart(s)[0]))
    decreases |s|
  {
    blank := "";
    if s != "" && IsSpace(s[0]) {
      var more := TrimStartParts(s[1..]);
      blank := [s[0]] + more;
    }
  }

  lemma {:induction false} TrimEndParts(s: string) returns (blank: string)
    ensures AllSpace(blank) && s == TrimEnd(s) + blank && (TrimEnd(s) == "" || !IsSpace(TrimEnd(s)[|TrimEnd(s)| - 1]))
    decreases |s|
  {
    blank := "";
    if s != "" && IsSpace(s[|s| - 1]) {
      var more := TrimEndParts(s[..|s| - 1]);
      blank := more + [s[|s| - 1]];
    }
  }

  /** Every text is its trimmed text between white space. */
  lemma {:induction false} TrimParts(s: string) returns (a: string, b: string)
    ensures AllSpace(a) && AllSpace(b) && Trimmed(Trim(s)) && s == a + Trim(s) + b
  {
    b := TrimEndParts(s);
    a := TrimStartParts(TrimEnd(s));
    assert Trim(s) != "" ==> Trim(s)[|Trim(s)| - 1] == TrimEnd(s)[|TrimEnd(s)| - 1];
  }

  /** White space is single spaces between other characters. */
  ghost predicate SingleSpaced(s: string) {
    forall i :: 0 <= i < |s| && IsSpace(s[i]) ==> s[i] == ' ' && 0 < i < |s| - 1 && !IsSpace(s[i + 1])
  }

  /** White space is single spaces. */
  ghost predicate Collapsed(s: string) {
    forall i :: 0 <= i < |s| && IsSpace(s[i]) ==> s[i] == ' ' && (i + 1 < |s| ==> !IsSpace(s[i + 1]))
  }

  lemma {:induction false} CollapseCollapses(s: string)
    ensures Collapsed(Collapse(s))
    decreases |s|
  {
    if s != "" {
      CollapseCollapses(s[..|s| - 1]);
      CollapseWords(s[..|s| - 1]);
    }
  }

  lemma {:induction false} TrimSingles(s: string)
    requires Collapsed(s)
    ensures SingleSpaced(Trim(s))
  {
    var a, b := TrimParts(s);
    var t := Trim(s);
    forall i | 0 <= i < |t| && IsSpace(t[i]) ensures t[i] == ' ' && 0 < i < |t| - 1 && !IsSpace(t[i + 1]) {
      assert s[|a| + i] == t[i];
      assert i < |t| - 1 ==> s[|a| + i + 1] == t[i + 1];
    }
  }

  /** Words on one line. */
  ghost function Line(words: seq<string>): string {
    if words == [] then "" else Joined(words, ' ')
  }

  lemma {:induction false} LinePush(words: seq<string>, open: bool, c: char)
    requires !IsSpace(c) && (open ==> words != [])
    ensures open ==> Line(PushChar(words, open, c)) == Line(words) + [c]
    ensures !open && words != [] ==> Line(PushChar(words, open, c)) == Line(words) + [' '] + [c]
    ensures !open && words == [] ==> Line(PushChar(words, open, c)) == [c]
  {
    if open {
      JoinedMore(words, ' ', c);
    } else if words != [] {
      JoinedAppend(words, [[c]], ' ');
    }
  }

  /** A single-spaced text is its words on one line. */
  lemma {:induction false} SinglesAreLine(s: string)
    requires SingleSpaced(s)
    ensures s == Line(Words(s))
    decreases |s|
  {
    if s != "" {
      var n := |s| - 1;
      if n > 0 && IsSpace(s[n - 1]) {
        var before := s[..n - 1];
        assert s[..n] == before + [' '] && s == before + [' '] + [s[n]];
        SinglesAreLine(before);
        assert before != "" && !IsSpace(before[n - 2]);
        WordsPush(before, ' ');
        LinePush(Words(before), false, s[n]);
      } else {
        assert s == s[..n] + [s[n]];
        SinglesAreLine(s[..n]);
        LinePush(Words(s[..n]), EndsInWord(s[..n]), s[n]);
      }
    }
  }

  /** Joining on one line gives the words of the parts, single-spaced. */
  lemma {:induction false} JoinLineIs(parts: seq<string>)
    ensures JoinLine(parts) == Line(Flat(parts)) && SingleSpaced(JoinLine(parts))
  {
    CollapseCollapses(JoinWith(parts, " "));
    TrimSingles(Collapse(JoinWith(parts, " ")));
    SinglesAreLine(JoinLine(parts));
    JoinLineWords(parts);
  }

  lemma {:induction false} JoinWithIs(parts: seq<string>, sep: char)
    requires parts != []
    ensures JoinWith(parts, [sep]) == Joined(parts, sep)
    decreases |parts|
  {
    if |parts| > 1 {
      JoinWithIs(parts[..|parts| - 1], sep);
    }
  }

  /** Blocks with an empty line between each and the next. */
  ghost function Spread(blocks: seq<string>): seq<string> {
    if |blocks| <= 1 then blocks else Spread(blocks[..|blocks| - 1]) + [""] + [blocks[|blocks| - 1]]
  }

  ghost function TextOf(blocks: seq<string>): string {
    if blocks == [] then "" else Joined(Spread(blocks), '\n')
  }

  lemma {:induction false} TextPush(blocks: seq<string>, last: string)
    requires blocks != []
    ensures TextOf(blocks + [last]) == TextOf(blocks) + "\n\n" + last
  {
    var spread := Spread(blocks);
    assert (blocks + [last])[..|blocks|] == blocks;
    JoinedAppend(spread, [""], '\n');
    JoinedAppend(spread + [""], [last], '\n');
    assert Joined(spread, '\n') + "\n" + "" + "\n" + last == Joined(spread, '\n') + "\n\n" + last;
  }

  lemma {:induction false} JoinBlocksIs(blocks: seq<string>)
    ensures JoinWith(blocks, "\n\n") == TextOf(blocks)
    decreases |blocks|
  {
    if |blocks| > 1 {
      var n := |blocks| - 1;
      JoinBlocksIs(blocks[..n]);
      TextPush(blocks[..n], blocks[n]);
      assert blocks == blocks[..n] + [blocks[n]];
    }
  }

  /** Where block `i` starts, with two line breaks before each but the first. */
  ghost function BlockAt(blocks: seq<string>, i: nat): nat
    requires i < |blocks|
  {
    if i == 0 then 0 else BlockAt(blocks, i - 1) + |blocks[i - 1]| + 2
  }

  lemma {:induction false} BlockPrefix(blocks: seq<string>, n: nat, i: nat)
    requires i < n <= |blocks|
    ensures BlockAt(blocks[..n], i) == BlockAt(blocks, i)
    decreases i
  {
    if i > 0 {
      BlockPrefix(blocks, n, i - 1);
    }
  }

  lemma {:induction false} LastStands(blocks: seq<string>)
    requires |blocks| > 1 && |TextOf(blocks[..|blocks| - 1])| + 2 == BlockAt(blocks, |blocks| - 1)
    ensures var n, text := |blocks| - 1, TextOf(blocks);
      && At(text, BlockAt(blocks, n) - 2, "\n\n") && At(text, BlockAt(blocks, n), blocks[n])
      && |text| == BlockAt(blocks, n) + |blocks[n]|
  {
    var n, text := |blocks| - 1, TextOf(blocks);
    var before := TextOf(blocks[..n]);
    assert blocks == blocks[..n] + [blocks[n]];
    TextPush(blocks[..n], blocks[n]);
    assert text[|before|..|before| + 2] == "\n\n" && text[|before| + 2..] == blocks[n];
  }

  lemma {:induction false} StillStands(blocks: seq<string>, i: nat, t: string)
    requires |blocks| > 1 && At(TextOf(blocks[..|blocks| - 1]), i, t)
    ensures At(TextOf(blocks), i, t)
  {
    var n := |blocks| - 1;
    assert blocks == blocks[..n] + [blocks[n]];
    TextPush(blocks[..n], blocks[n]);
    AtLonger(TextOf(blocks[..n]), "\n\n" + blocks[n], i, t);
    assert TextOf(blocks[..n]) + ("\n\n" + blocks[n]) == TextOf(blocks);
  }

  /** In the text each block stands at its offset, two line breaks stand before it, and the last one ends it. */
  lemma {:induction false} BlockStands(blocks: seq<string>, i: nat)
    requires i < |blocks|
    ensures At(TextOf(blocks), BlockAt(blocks, i), blocks[i])
    ensures i > 0 ==> At(TextOf(blocks), BlockAt(blocks, i) - 2, "\n\n")
    ensures i == |blocks| - 1 ==> |TextOf(blocks)| == BlockAt(blocks, i) + |blocks[i]|
    decreases |blocks|
  {
    var n := |blocks| - 1;
    if i < n {
      BlockStands(blocks[..n], i);
      BlockPrefix(blocks, n, i);
      StillStands(blocks, BlockAt(blocks, i), blocks[i]);
      if i > 0 {
        StillStands(blocks, BlockAt(blocks, i) - 2, "\n\n");
      }
    } else if n > 0 {
      BlockStands(blocks[..n], n - 1);
      BlockPrefix(blocks, n, n - 1);
      LastStands(blocks);
    }
  }

  lemma {:induction false} AtLonger(a: string, b: string, i: nat, t: string)
    requires At(a, i, t)
    ensures At(a + b, i, t)
  {
    assert (a + b)[i..i + |t|] == a[i..i + |t|];
  }
}
