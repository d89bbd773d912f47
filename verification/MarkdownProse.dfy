/** Which source lines still show text once HTML comments and code blocks are taken out. */
module MarkdownProse {
  import opened MarkdownLinks
  import opened Sorting
  import opened SourceLines

  /** A half-open range of offsets or columns. */
  datatype Span = Span(start: nat, end: nat)

  datatype Ranges = Untouched | Touched(spans: seq<Span>)

  ghost predicate Proper(spans: seq<Span>) {
    forall i :: 0 <= i < |spans| ==> spans[i].start <= spans[i].end
  }

  ghost predicate Covered(p: nat, spans: seq<Span>) {
    exists i :: 0 <= i < |spans| && spans[i].start <= p < spans[i].end
  }

  /** Trimming the text leaves something. */
  predicate HasInk(s: string) {
    exists i :: 0 <= i < |s| && !IsSpace(s[i])
  }

  /** Ink outside the spans, at a column below `limit`. */
  ghost predicate ShowsBelow(raw: string, spans: seq<Span>, limit: nat) {
    exists p: nat :: p < limit && Shows(raw, spans, p)
  }

  ghost predicate Shows(raw: string, spans: seq<Span>, p: nat) {
    p < |raw| && !IsSpace(raw[p]) && !Covered(p, spans)
  }

  // ---------- Text outside the comments of one line ----------

  function ByStart(): (Span, Span) -> int {
    (a: Span, b: Span) => a.start - b.start
  }

  /** `raw.slice(from, to)`. */
  function Slice(raw: string, from: nat, to: nat): string {
    var hi := if to < |raw| then to else |raw|;
    if from < hi then raw[from..hi] else ""
  }

  lemma {:induction false} SliceInk(raw: string, from: nat, to: nat)
    ensures HasInk(Slice(raw, from, to)) <==> exists p: nat :: from <= p < to && p < |raw| && !IsSpace(raw[p])
  {
    var t := Slice(raw, from, to);
    if i :| 0 <= i < |t| && !IsSpace(t[i]) {
      assert raw[from + i] == t[i];
    }
    if p: nat :| from <= p < to && p < |raw| && !IsSpace(raw[p]) {
      assert t[p - from] == raw[p];
    }
  }

  lemma {:induction false} InkAppend(a: string, b: string)
    ensures HasInk(a + b) <==> HasInk(a) || HasInk(b)
  {
    if i :| 0 <= i < |a + b| && !IsSpace((a + b)[i]) {
      assert if i < |a| then a[i] == (a + b)[i] else b[i - |a|] == (a + b)[i];
    }
    if i :| 0 <= i < |a| && !IsSpace(a[i]) {
      assert (a + b)[i] == a[i];
    }
    if i :| 0 <= i < |b| && !IsSpace(b[i]) {
      assert (a + b)[|a| + i] == b[i];
    }
  }

  /** The part of the line already decided: spans up to `i` end by `cursor`. */
  ghost predicate Swept(raw: string, spans: seq<Span>, i: nat, cursor: nat, visible: string) {
    && i <= |spans|
    && (forall j :: 0 <= j < i ==> spans[j].end <= cursor)
    && (HasInk(visible) <==> ShowsBelow(raw, spans, cursor))
  }

  ghost predicate Ascending(spans: seq<Span>) {
    forall i, j :: 0 <= i < j < |spans| ==> spans[i].start <= spans[j].start
  }

  lemma {:induction false} SweepOne(raw: string, spans: seq<Span>, i: nat, cursor: nat, visible: string)
    requires Proper(spans) && Ascending(spans) && i < |spans| && Swept(raw, spans, i, cursor, visible)
    ensures var next := if cursor < spans[i].end then spans[i].end else cursor;
      Swept(raw, spans, i + 1, next, visible + Slice(raw, cursor, spans[i].start))
  {
    var start, next := spans[i].start, if cursor < spans[i].end then spans[i].end else cursor;
    InkAppend(visible, Slice(raw, cursor, start));
    SliceInk(raw, cursor, start);
    assert forall j :: 0 <= j < |spans| ==> spans[j].end <= cursor || start <= spans[j].start;
    forall p: nat | cursor <= p < next ensures Covered(p, spans) <==> start <= p {
      assert start <= p ==> spans[i].start <= p < spans[i].end;
    }
    if p: nat :| p < next && Shows(raw, spans, p) {
      assert p < cursor || (cursor <= p < start && !IsSpace(raw[p]));
    }
    if p: nat :| cursor <= p < start && p < |raw| && !IsSpace(raw[p]) {
      assert p < next && Shows(raw, spans, p);
    }
    if p: nat :| p < cursor && Shows(raw, spans, p) {
      assert p < next;
    }
  }

  lemma {:induction false} SweepRest(raw: string, spans: seq<Span>, cursor: nat, visible: string)
    requires Swept(raw, spans, |spans|, cursor, visible)
    ensures HasInk(visible + Slice(raw, cursor, |raw|)) <==> ShowsBelow(raw, spans, |raw|)
  {
    InkAppend(visible, Slice(raw, cursor, |raw|));
    SliceInk(raw, cursor, |raw|);
    forall p: nat | cursor <= p ensures !Covered(p, spans) {
    }
    if p: nat :| p < |raw| && Shows(raw, spans, p) {
      assert p < cursor || (cursor <= p < |raw| && !IsSpace(raw[p]));
    }
    if p: nat :| cursor <= p < |raw| && p < |raw| && !IsSpace(raw[p]) {
      assert p < |raw| && Shows(raw, spans, p);
    }
    if p: nat :| p < cursor && Shows(raw, spans, p) {
      assert p < |raw|;
    }
  }

  /** A touched line shows text exactly when ink lies outside all its comments, however they overlap. */
  method HasRenderedText(raw: string, ranges: Ranges) returns (shown: bool)
    requires ranges.Touched? ==> Proper(ranges.spans)
    ensures ranges.Untouched? ==> shown
    ensures ranges.Touched? ==> (shown <==> ShowsBelow(raw, ranges.spans, |raw|))
  {
    if ranges.Untouched? {
      return true;
    }
    var sorted := Sort(ranges.spans, ByStart());
    SortedSpans(ranges.spans);
    var cursor: nat := 0;
    var visible := "";
    for i := 0 to |sorted|
      invariant Swept(raw, sorted, i, cursor, visible)
    {
      SweepOne(raw, sorted, i, cursor, visible);
      visible := visible + Slice(raw, cursor, sorted[i].start);
      cursor := if cursor < sorted[i].end then sorted[i].end else cursor;
    }
    SweepRest(raw, sorted, cursor, visible);
    visible := visible + Slice(raw, cursor, |raw|);
    shown := HasInk(visible);
    SameShown(raw, ranges.spans, sorted);
  }

  lemma {:induction false} SortedSpans(spans: seq<Span>)
    requires Proper(spans)
    ensures var sorted := Sort(spans, ByStart());
      Proper(sorted) && Ascending(sorted) && forall s :: s in sorted <==> s in spans
  {
    var sorted := Sort(spans, ByStart());
    SortMembers(spans, ByStart());
    SortSorted(spans, ByStart());
    forall i | 0 <= i < |sorted| ensures sorted[i].start <= sorted[i].end {
      assert sorted[i] in spans;
    }
    forall i, j | 0 <= i < j < |sorted| ensures sorted[i].start <= sorted[j].start {
      assert ByStart()(sorted[i], sorted[j]) <= 0;
    }
  }

  lemma {:induction false} SameShown(raw: string, a: seq<Span>, b: seq<Span>)
    requires forall s :: s in b <==> s in a
    ensures ShowsBelow(raw, a, |raw|) <==> ShowsBelow(raw, b, |raw|)
  {
    forall p: nat ensures Covered(p, a) <==> Covered(p, b) {
      if i :| 0 <= i < |a| && a[i].start <= p < a[i].end {
        assert a[i] in b;
      }
      if i :| 0 <= i < |b| && b[i].start <= p < b[i].end {
        assert b[i] in a;
      }
    }
    if p: nat :| p < |raw| && Shows(raw, a, p) {
      assert Shows(raw, b, p);
    }
    if p: nat :| p < |raw| && Shows(raw, b, p) {
      assert Shows(raw, a, p);
    }
  }

  // ---------- Comments cut into lines ----------

  /** The comment shares a character with the line, or covers the empty line. */
  ghost predicate Touches(c: Span, offset: nat, raw: string) {
    if raw == "" then c.start <= offset < c.end
    else c.start < offset + |raw| && offset < c.end && c.start < c.end
  }

  ghost predicate SomeTouches(comments: seq<Span>, offset: nat, raw: string) {
    exists i :: 0 <= i < |comments| && Touches(comments[i], offset, raw)
  }

  /** The columns that comments take up on the line at `offset`. */
  method LineRanges(comments: seq<Span>, offset: nat, raw: string) returns (ranges: Ranges)
    requires Proper(comments)
    ensures ranges.Untouched? <==> !SomeTouches(comments, offset, raw)
    ensures ranges.Touched? ==> Proper(ranges.spans)
    ensures ranges.Touched? ==>
      forall p: nat :: p < |raw| ==> (Covered(p, ranges.spans) <==> Covered(offset + p, comments))
  {
    var spans: seq<Span> := [];
    for i := 0 to |comments|
      invariant Proper(spans)
      invariant spans != [] <==> SomeTouches(comments[..i], offset, raw)
      invariant forall p: nat :: p < |raw| ==> (Covered(p, spans) <==> Covered(offset + p, comments[..i]))
    {
      var c, lineEnd := comments[i], offset + |raw|;
      var from := if c.start < offset then offset else c.start;
      var to := if c.end < lineEnd then c.end else lineEnd;
      var coversEmptyLine := raw == "" && c.start <= offset && c.end > offset;
      assert comments[..i + 1] == comments[..i] + [c];
      OneMoreComment(comments[..i], c, offset, raw);
      assert (from < to || coversEmptyLine) <==> Touches(c, offset, raw);
      if from < to || coversEmptyLine {
        OneMoreSpan(spans, Span(from - offset, to - offset));
        spans := spans + [Span(from - offset, to - offset)];
      }
    }
    assert comments[..|comments|] == comments;
    ranges := if spans == [] then Untouched else Touched(spans);
  }

  lemma {:induction false} OneMoreSpan(spans: seq<Span>, c: Span)
    ensures forall p: nat :: Covered(p, spans + [c]) <==> Covered(p, spans) || c.start <= p < c.end
  {
    forall p: nat ensures Covered(p, spans + [c]) <==> Covered(p, spans) || c.start <= p < c.end {
      if i :| 0 <= i < |spans| && spans[i].start <= p < spans[i].end {
        assert (spans + [c])[i] == spans[i];
      }
      if c.start <= p < c.end {
        assert (spans + [c])[|spans|] == c;
      }
    }
  }

  lemma {:induction false} OneMoreComment(comments: seq<Span>, c: Span, offset: nat, raw: string)
    ensures SomeTouches(comments + [c], offset, raw) <==> SomeTouches(comments, offset, raw) || Touches(c, offset, raw)
    ensures forall p: nat :: Covered(p, comments + [c]) <==> Covered(p, comments) || c.start <= p < c.end
  {
    OneMoreSpan(comments, c);
    if i :| 0 <= i < |comments| && Touches(comments[i], offset, raw) {
      assert (comments + [c])[i] == comments[i];
    }
    if Touches(c, offset, raw) {
      assert (comments + [c])[|comments|] == c;
    }
  }

  // ---------- The prose lines of a document ----------

  /** The line is outside code, and no comment touches it or ink is left outside the comments. */
  ghost predicate IsProse(lines: seq<string>, comments: seq<Span>, fenced: set<nat>, i: nat)
    requires i < |lines|
  {
    && i + 1 !in fenced
    && (!SomeTouches(comments, OffsetOf(lines, i), lines[i])
        || exists p: nat :: p < |lines[i]| && !IsSpace(lines[i][p]) && !Covered(OffsetOf(lines, i) + p, comments))
  }

  /** The kept lines are exactly the prose lines, in order, by their one-based numbers. */
  method ProseLines(lines: seq<string>, comments: seq<Span>, fenced: set<nat>) returns (kept: seq<nat>)
    requires Proper(comments)
    ensures forall i :: 0 <= i < |lines| ==> (i + 1 in kept <==> IsProse(lines, comments, fenced, i))
    ensures forall k :: 0 <= k < |kept| ==> 1 <= kept[k] <= |lines|
    ensures forall j, k :: 0 <= j < k < |kept| ==> kept[j] < kept[k]
  {
    kept := [];
    var offset: nat := 0;
    for i := 0 to |lines|
      invariant offset == OffsetOf(lines, i)
      invariant forall k :: 0 <= k < |kept| ==> 1 <= kept[k] <= i
      invariant forall j, k :: 0 <= j < k < |kept| ==> kept[j] < kept[k]
      invariant forall j :: 0 <= j < i ==> (j + 1 in kept <==> IsProse(lines, comments, fenced, j))
    {
      var raw := lines[i];
      if i + 1 !in fenced {
        var ranges := LineRanges(comments, offset, raw);
        var shown := HasRenderedText(raw, ranges);
        if ranges.Touched? {
          ShownIff(raw, ranges.spans, offset, comments);
        }
        if shown {
          kept := kept + [i + 1];
        }
      }
      offset := offset + |raw| + 1;
    }
  }

  lemma {:induction false} ShownIff(raw: string, spans: seq<Span>, offset: nat, comments: seq<Span>)
    requires forall p: nat :: p < |raw| ==> (Covered(p, spans) <==> Covered(offset + p, comments))
    ensures ShowsBelow(raw, spans, |raw|) <==>
      exists p: nat :: p < |raw| && !IsSpace(raw[p]) && !Covered(offset + p, comments)
  {
    if p: nat :| p < |raw| && Shows(raw, spans, p) {
      assert !Covered(offset + p, comments);
    }
    if p: nat :| p < |raw| && !IsSpace(raw[p]) && !Covered(offset + p, comments) {
      assert Shows(raw, spans, p);
    }
  }
}
