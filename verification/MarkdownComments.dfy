/** The HTML comments of a document, from its HTML nodes to the lines they hide. */
module MarkdownComments {
  import opened MarkdownLinks
  import opened MarkdownProse
  import opened SourceLines
  import opened Splitting

  /** An HTML node of the parsed document: where its text starts in the source, and that text. */
  datatype HtmlNode = HtmlNode(offset: nat, value: string)

  /** The first and last line of a code block, counted from one. */
  datatype CodeBlock = CodeBlock(first: nat, last: nat)

  // ---------- The comments of one node ----------

  /** The first occurrence of `t` at or after `from`, or -1. */
  function FindText(s: string, t: string, from: nat): (i: int)
    ensures i == -1 ==> Absent(s, t, from, |s| + 1)
    ensures i != -1 ==> from <= i && At(s, i, t) && Absent(s, t, from, i)
    decreases |s| - from
  {
    if from + |t| > |s| then -1
    else if s[from..from + |t|] == t then from
    else FindText(s, t, from + 1)
  }

  /** `t` does not stand in `s` at any position from `from` up to `to`. */
  ghost predicate Absent(s: string, t: string, from: nat, to: int) {
    forall p: nat :: from <= p < to ==> !At(s, p, t)
  }

  /** A comment closes with the first `-->` behind its opening, or else with the text. */
  ghost predicate Closes(v: string, from: nat, end: nat) {
    || (from + 3 <= end && At(v, end - 3, "-->") && Absent(v, "-->", from, end - 3))
    || (end == |v| && Absent(v, "-->", from, |v| + 1))
  }

  /** `c` is the first comment that opens at or after `from`. */
  ghost predicate IsComment(v: string, from: nat, c: Span) {
    from <= c.start && Absent(v, "<!--", from, c.start) && At(v, c.start, "<!--") && Closes(v, c.start + 4, c.end)
  }

  ghost function CommentIn(v: string): (nat, Span) -> bool {
    (from: nat, c: Span) => IsComment(v, from, c)
  }

  ghost function EndOf(spans: seq<Span>, k: nat): nat
    requires k <= |spans|
  {
    if k == 0 then 0 else spans[k - 1].end
  }

  /** Each span is the first one behind the span before it. */
  ghost predicate Chain(first: (nat, Span) -> bool, spans: seq<Span>) {
    forall k :: 0 <= k < |spans| ==> first(EndOf(spans, k), spans[k])
  }

  /** All comments of the text, in order. */
  ghost predicate AreComments(v: string, spans: seq<Span>) {
    Chain(CommentIn(v), spans) && Absent(v, "<!--", EndOf(spans, |spans|), |v| + 1)
  }

  lemma {:induction false} CommentInside(v: string, from: nat, c: Span)
    requires IsComment(v, from, c)
    ensures c.start + 4 <= c.end <= |v|
  {
  }

  /** A comment written in full is the first one, from its opening to the end of its closing mark. */
  lemma {:induction false} ClosedComment(v: string, a: string, body: string, rest: string)
    requires v == a + "<!--" + body + "-->" + rest && Absent(v, "<!--", 0, |a|)
    requires Absent(v, "-->", |a| + 4, |a| + 4 + |body|)
    ensures IsComment(v, 0, Span(|a|, |a| + 7 + |body|))
  {
    assert v[|a|..|a| + 4] == "<!--" && v[|a| + 4 + |body|..|a| + 7 + |body|] == "-->";
  }

  /** One that is never closed reaches to the end. */
  lemma {:induction false} OpenComment(v: string, a: string, body: string)
    requires v == a + "<!--" + body && Absent(v, "<!--", 0, |a|) && Absent(v, "-->", |a| + 4, |v|)
    ensures IsComment(v, 0, Span(|a|, |v|))
  {
    assert v[|a|..|a| + 4] == "<!--";
  }

  lemma {:induction false} OneComment(v: string, from: nat, a: Span, b: Span)
    requires IsComment(v, from, a) && IsComment(v, from, b)
    ensures a == b
  {
    CommentInside(v, from, a);
    CommentInside(v, from, b);
    assert a.start == b.start;
    var left, right := At(v, a.end - 3, "-->"), At(v, b.end - 3, "-->");
    assert a.end == b.end;
  }

  ghost predicate Single(first: (nat, Span) -> bool) {
    forall from, a, b :: first(from, a) && first(from, b) ==> a == b
  }

  lemma {:induction false} ChainsAgree(first: (nat, Span) -> bool, a: seq<Span>, b: seq<Span>, k: nat)
    requires Single(first) && Chain(first, a) && Chain(first, b) && k <= |a| && k <= |b|
    ensures a[..k] == b[..k] && EndOf(a, k) == EndOf(b, k)
    decreases k
  {
    if k > 0 {
      ChainsAgree(first, a, b, k - 1);
      assert first(EndOf(a, k - 1), a[k - 1]) && first(EndOf(b, k - 1), b[k - 1]);
      assert a[..k] == a[..k - 1] + [a[k - 1]] && b[..k] == b[..k - 1] + [b[k - 1]];
    }
  }

  lemma {:induction false} ChainMore(first: (nat, Span) -> bool, spans: seq<Span>, c: Span)
    requires Chain(first, spans) && first(EndOf(spans, |spans|), c)
    ensures Chain(first, spans + [c])
  {
    var more := spans + [c];
    forall k | 0 <= k < |more| ensures first(EndOf(more, k), more[k]) {
      assert EndOf(more, k) == EndOf(spans, k);
    }
  }

  lemma {:induction false} CommentsAreSingle(v: string)
    ensures Single(CommentIn(v))
  {
    forall from, a, b | CommentIn(v)(from, a) && CommentIn(v)(from, b) ensures a == b {
      OneComment(v, from, a, b);
    }
  }

  /** A longer chain opens a comment behind a shorter one. */
  lemma {:induction false} MoreOpens(v: string, a: seq<Span>, b: seq<Span>) returns (p: nat)
    requires Chain(CommentIn(v), a) && Chain(CommentIn(v), b) && |a| < |b|
    ensures EndOf(a, |a|) <= p <= |v| && At(v, p, "<!--")
  {
    CommentsAreSingle(v);
    ChainsAgree(CommentIn(v), a, b, |a|);
    p := b[|a|].start;
    assert CommentIn(v)(EndOf(b, |a|), b[|a|]);
  }

  /** A text has one list of comments. */
  lemma {:induction false} CommentsUnique(v: string, a: seq<Span>, b: seq<Span>)
    requires AreComments(v, a) && AreComments(v, b)
    ensures a == b
  {
    if |a| < |b| {
      var p := MoreOpens(v, a, b);
    } else if |b| < |a| {
      var p := MoreOpens(v, b, a);
    } else {
      CommentsAreSingle(v);
      ChainsAgree(CommentIn(v), a, b, |a|);
      assert a[..|a|] == a && b[..|b|] == b;
    }
  }

  /** The first comment that opens at or after `cursor`, if any. */
  method NextComment(v: string, cursor: nat) returns (found: bool, c: Span)
    ensures found ==> CommentIn(v)(cursor, c) && c.start <= c.end && cursor < c.end <= |v|
    ensures !found ==> Absent(v, "<!--", cursor, |v| + 1)
  {
    var start := FindText(v, "<!--", cursor);
    if start < 0 {
      return false, Span(0, 0);
    }
    var close := FindText(v, "-->", start + 4);
    var end: nat := if close < 0 then |v| else close + 3;
    assert close >= 0 ==> At(v, end - 3, "-->");
    found, c := true, Span(start, end);
    assert IsComment(v, cursor, c);
    CommentInside(v, cursor, c);
  }

  method CommentSpans(v: string) returns (spans: seq<Span>)
    ensures AreComments(v, spans) && Proper(spans)
  {
    ghost var first := CommentIn(v);
    spans := [];
    var cursor: nat := 0;
    while true
      invariant Chain(first, spans) && Proper(spans) && cursor == EndOf(spans, |spans|) <= |v|
      decreases |v| - cursor
    {
      var found, c := NextComment(v, cursor);
      if !found {
        break;
      }
      ChainMore(first, spans, c);
      spans := spans + [c];
      cursor := c.end;
    }
  }

  // ---------- The comments of a document ----------

  /** The position lies in a comment of the node. */
  ghost predicate NodeCovers(node: HtmlNode, p: nat) {
    exists spans :: AreComments(node.value, spans) && p >= node.offset && Covered(p - node.offset, spans)
  }

  ghost predicate InComment(nodes: seq<HtmlNode>, p: nat) {
    exists k :: 0 <= k < |nodes| && NodeCovers(nodes[k], p)
  }

  function Shifted(spans: seq<Span>, offset: nat): (r: seq<Span>)
    ensures |r| == |spans| && forall i :: 0 <= i < |r| ==> r[i] == Span(spans[i].start + offset, spans[i].end + offset)
  {
    seq(|spans|, i requires 0 <= i < |spans| => Span(spans[i].start + offset, spans[i].end + offset))
  }

  lemma {:induction false} ShiftedBack(spans: seq<Span>, offset: nat, p: nat)
    requires Covered(p, Shifted(spans, offset))
    ensures p >= offset && Covered(p - offset, spans)
  {
    var moved := Shifted(spans, offset);
    var i :| 0 <= i < |moved| && moved[i].start <= p < moved[i].end;
    assert spans[i].start <= p - offset < spans[i].end;
  }

  lemma {:induction false} ShiftedOn(spans: seq<Span>, offset: nat, p: nat)
    requires p >= offset && Covered(p - offset, spans)
    ensures Covered(p, Shifted(spans, offset))
  {
    var i :| 0 <= i < |spans| && spans[i].start <= p - offset < spans[i].end;
    assert Shifted(spans, offset)[i].start <= p < Shifted(spans, offset)[i].end;
  }

  lemma {:induction false} ShiftedCovers(node: HtmlNode, spans: seq<Span>, p: nat)
    requires AreComments(node.value, spans)
    ensures Covered(p, Shifted(spans, node.offset)) <==> NodeCovers(node, p)
  {
    if Covered(p, Shifted(spans, node.offset)) {
      ShiftedBack(spans, node.offset, p);
    }
    if other :| AreComments(node.value, other) && p >= node.offset && Covered(p - node.offset, other) {
      CommentsUnique(node.value, spans, other);
      ShiftedOn(spans, node.offset, p);
    }
  }

  lemma {:induction false} CoveredAppend(p: nat, a: seq<Span>, b: seq<Span>)
    ensures Covered(p, a + b) <==> Covered(p, a) || Covered(p, b)
  {
    if i :| 0 <= i < |a| && a[i].start <= p < a[i].end {
      assert (a + b)[i] == a[i];
    }
    if i :| 0 <= i < |b| && b[i].start <= p < b[i].end {
      assert (a + b)[|a| + i] == b[i];
    }
  }

  lemma {:induction false} OneMoreNode(nodes: seq<HtmlNode>, node: HtmlNode, p: nat)
    ensures InComment(nodes + [node], p) <==> InComment(nodes, p) || NodeCovers(node, p)
  {
    if k :| 0 <= k < |nodes| && NodeCovers(nodes[k], p) {
      assert (nodes + [node])[k] == nodes[k];
    }
    if NodeCovers(node, p) {
      assert (nodes + [node])[|nodes|] == node;
    }
  }

  /** The spans cover what the comments of the nodes cover. */
  ghost predicate Collected(nodes: seq<HtmlNode>, comments: seq<Span>) {
    Proper(comments) && forall p: nat :: Covered(p, comments) <==> InComment(nodes, p)
  }

  lemma {:induction false} CollectedMore(nodes: seq<HtmlNode>, comments: seq<Span>, node: HtmlNode, spans: seq<Span>)
    requires Collected(nodes, comments) && AreComments(node.value, spans) && Proper(spans)
    ensures Collected(nodes + [node], comments + Shifted(spans, node.offset))
  {
    forall p: nat ensures Covered(p, comments + Shifted(spans, node.offset)) <==> InComment(nodes + [node], p) {
      ShiftedCovers(node, spans, p);
      CoveredAppend(p, comments, Shifted(spans, node.offset));
      OneMoreNode(nodes, node, p);
    }
  }

  lemma {:induction false} CollectedNone()
    ensures Collected([], [])
  {
  }

  method CollectComments(nodes: seq<HtmlNode>) returns (comments: seq<Span>)
    ensures Collected(nodes, comments)
  {
    comments := [];
    CollectedNone();
    assert nodes[..0] == [];
    for i := 0 to |nodes|
      invariant Collected(nodes[..i], comments)
    {
      assert nodes[..i + 1] == nodes[..i] + [nodes[i]];
      comments := AddNode(nodes[..i], comments, nodes[i]);
    }
    assert nodes[..|nodes|] == nodes;
  }

  method AddNode(ghost nodes: seq<HtmlNode>, comments: seq<Span>, node: HtmlNode) returns (more: seq<Span>)
    requires Collected(nodes, comments)
    ensures Collected(nodes + [node], more)
  {
    var spans := CommentSpans(node.value);
    CollectedMore(nodes, comments, node, spans);
    more := comments + Shifted(spans, node.offset);
  }

  // ---------- The prose lines ----------

  /** A position on the line from `from` up to `to`; an empty line has its line break. */
  ghost predicate OnLine(p: nat, from: nat, to: nat) {
    from <= p < to || from == p == to
  }

  ghost predicate InCode(blocks: seq<CodeBlock>, line: nat) {
    exists k :: 0 <= k < |blocks| && blocks[k].first <= line <= blocks[k].last
  }

  /** Outside code, and with no comment on the line from `from` up to `to`, or with ink outside the comments. */
  ghost predicate IsProseLine(source: string, nodes: seq<HtmlNode>, blocks: seq<CodeBlock>, line: nat, from: nat,
                              to: nat)
    requires from <= to <= |source|
  {
    && !InCode(blocks, line)
    && (|| (forall p: nat :: OnLine(p, from, to) ==> !InComment(nodes, p))
        || (exists p: nat :: from <= p < to && !IsSpace(source[p]) && !InComment(nodes, p)))
  }

  lemma {:induction false} TouchesIff(comments: seq<Span>, offset: nat, raw: string)
    ensures SomeTouches(comments, offset, raw) <==>
      exists p: nat :: OnLine(p, offset, offset + |raw|) && Covered(p, comments)
  {
    if i :| 0 <= i < |comments| && Touches(comments[i], offset, raw) {
      var c := comments[i];
      var p := if c.start < offset then offset else c.start;
      assert OnLine(p, offset, offset + |raw|) && Covered(p, comments);
    }
    if p: nat :| OnLine(p, offset, offset + |raw|) && Covered(p, comments) {
      var i :| 0 <= i < |comments| && comments[i].start <= p < comments[i].end;
      assert Touches(comments[i], offset, raw);
    }
  }

  lemma {:induction false} OneMoreBlock(blocks: seq<CodeBlock>, b: CodeBlock, line: nat)
    ensures InCode(blocks + [b], line) <==> InCode(blocks, line) || b.first <= line <= b.last
  {
    if k :| 0 <= k < |blocks| && blocks[k].first <= line <= blocks[k].last {
      assert (blocks + [b])[k] == blocks[k];
    }
    if b.first <= line <= b.last {
      assert (blocks + [b])[|blocks|] == b;
    }
  }

  method FencedLines(blocks: seq<CodeBlock>) returns (fenced: set<nat>)
    ensures forall line: nat :: line in fenced <==> InCode(blocks, line)
  {
    fenced := {};
    for k := 0 to |blocks|
      invariant forall line: nat :: line in fenced <==> InCode(blocks[..k], line)
    {
      var b := blocks[k];
      var next := b.first;
      while next <= b.last
        invariant b.first <= next && (next == b.first || next <= b.last + 1)
        invariant forall line: nat :: line in fenced <==> InCode(blocks[..k], line) || b.first <= line < next
        decreases b.last + 1 - next
      {
        fenced := fenced + {next};
        next := next + 1;
      }
      assert blocks[..k + 1] == blocks[..k] + [b];
      forall line: nat ensures line in fenced <==> InCode(blocks[..k + 1], line) {
        OneMoreBlock(blocks[..k], b, line);
      }
    }
    assert blocks[..|blocks|] == blocks;
  }

  /**
   * From the source, its parsed HTML nodes and its code blocks to the lines of prose, by their
   * one-based numbers. Which line a position belongs to is decided by the breaks before it.
   */
  method MarkdownProseLines(source: string, nodes: seq<HtmlNode>, blocks: seq<CodeBlock>) returns (kept: seq<nat>)
    ensures forall i: nat, from: nat, to: nat :: IsLine(source, i, from, to) ==>
      (i + 1 in kept <==> IsProseLine(source, nodes, blocks, i + 1, from, to))
    ensures forall k :: 0 <= k < |kept| ==> 1 <= kept[k] <= Breaks(source) + 1
    ensures forall j, k :: 0 <= j < k < |kept| ==> kept[j] < kept[k]
  {
    var lines := Split(source, '\n');
    LineCount(source);
    var comments := CollectComments(nodes);
    var fenced := FencedLines(blocks);
    kept := ProseLines(lines, comments, fenced);
    forall i: nat, from: nat, to: nat | IsLine(source, i, from, to)
      ensures i + 1 in kept <==> IsProseLine(source, nodes, blocks, i + 1, from, to)
    {
      LineIsSegment(source, i, from, to);
      ProseIff(lines, source, nodes, blocks, comments, fenced, i, from, to);
    }
  }

  lemma {:induction false} ProseIff(lines: seq<string>, source: string, nodes: seq<HtmlNode>, blocks: seq<CodeBlock>,
                                    comments: seq<Span>, fenced: set<nat>, i: nat, from: nat, to: nat)
    requires i < |lines| && from <= to <= |source| && from == OffsetOf(lines, i) && source[from..to] == lines[i]
    requires Collected(nodes, comments) && forall line: nat :: line in fenced <==> InCode(blocks, line)
    ensures IsProse(lines, comments, fenced, i) <==> IsProseLine(source, nodes, blocks, i + 1, from, to)
  {
    TouchesIff(comments, from, lines[i]);
    InkIff(source, from, to, nodes, comments, lines[i]);
  }

  lemma {:induction false} InkIff(source: string, from: nat, to: nat, nodes: seq<HtmlNode>, comments: seq<Span>,
                                  raw: string)
    requires from <= to <= |source| && raw == source[from..to] && Collected(nodes, comments)
    ensures (exists p: nat :: p < |raw| && !IsSpace(raw[p]) && !Covered(from + p, comments))
       <==> (exists p: nat :: from <= p < to && !IsSpace(source[p]) && !InComment(nodes, p))
  {
    if p: nat :| p < |raw| && !IsSpace(raw[p]) && !Covered(from + p, comments) {
      assert from <= from + p < to && !IsSpace(source[from + p]) && !InComment(nodes, from + p);
    }
    if p: nat :| from <= p < to && !IsSpace(source[p]) && !InComment(nodes, p) {
      assert raw[p - from] == source[p] && !Covered(from + (p - from), comments);
    }
  }
}
