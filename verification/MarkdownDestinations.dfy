/** Where link destinations end: exactly where the text written so far is a whole destination. */
module MarkdownDestinations {
  import opened MarkdownLinks

  // ---------- In angle brackets ----------

  /** From `i` on stands the text of an angle-bracket destination that closes at `end`. */
  ghost predicate AngleSpans(s: string, i: nat, end: nat, pieces: seq<Piece>) {
    && AngleClean(pieces) && At(s, i, Text(pieces, '<', '>'))
    && end == i + |Text(pieces, '<', '>')| && end < |s| && s[end] == '>'
  }

  lemma {:induction false} AngleRead(s: string, i: nat) returns (pieces: seq<Piece>)
    requires i <= |s| && AngleScan(s, i) >= 0
    ensures AngleSpans(s, i, AngleScan(s, i), pieces)
    decreases |s| - i
  {
    var r := AngleScan(s, i);
    pieces := [];
    if s[i] != '>' {
      var next := if s[i] == '\\' then i + 2 else i + 1;
      var rest := AngleRead(s, next);
      var piece := if s[i] == '\\' then Escaped(s[i + 1]) else Plain(s[i]);
      pieces := [piece] + rest;
      assert pieces[1..] == rest;
      Extends(s, i, next, r, Text(rest, '<', '>'));
    }
  }

  /** A closing bracket is reported exactly where an angle-bracket destination closes. */
  lemma {:induction false} AngleEndIff(s: string, i: nat, end: nat)
    requires i <= |s|
    ensures AngleScan(s, i) == end <==> exists pieces :: AngleSpans(s, i, end, pieces)
  {
    if pieces :| AngleSpans(s, i, end, pieces) {
      AnglePasses(s, i, pieces);
    } else if AngleScan(s, i) == end {
      var pieces := AngleRead(s, i);
    }
  }

  // ---------- Bare ----------

  ghost predicate Stops(s: string, end: nat) {
    end < |s| && (s[end] == ')' || IsSpace(s[end]))
  }

  /** From `i` on stands a bare destination, and at `end` what stops it. */
  ghost predicate BareSpans(s: string, i: nat, end: nat, pieces: seq<Piece>) {
    && Clean(pieces, '(', ')') && Tight(pieces) && At(s, i, Text(pieces, '(', ')'))
    && end == i + |Text(pieces, '(', ')')| && Stops(s, end)
  }

  /** Between `i` and `r` stands a run of balanced pieces for each open parenthesis, and a tight last one. */
  ghost predicate BareRuns(s: string, i: nat, r: nat, depth: nat, runs: seq<seq<Piece>>) {
    && |runs| == depth + 1 && AllClean(runs, '(', ')') && Tight(runs[depth])
    && i <= r <= |s| && s[i..r] == Closed(runs, '(', ')')
  }

  lemma {:induction false} PieceRuns(s: string, i: nat, next: nat, r: nat, depth: nat, piece: Piece,
                                     runs: seq<seq<Piece>>)
    requires i <= next && BareRuns(s, next, r, depth, runs) && CleanPiece(piece, '(', ')')
    requires s[i..next] == PieceText(piece, '(', ')') && (piece.Plain? && depth == 0 ==> !IsSpace(piece.c))
    ensures BareRuns(s, i, r, depth, Prepend(piece, runs))
  {
    Extends(s, i, next, r, Closed(runs, '(', ')'));
    PrependText(piece, runs, '(', ')');
  }

  lemma {:induction false} GroupRuns(s: string, i: nat, r: nat, depth: nat, inner: seq<seq<Piece>>)
    requires i < |s| && s[i] == '(' && BareRuns(s, i + 1, r, depth + 1, inner)
    ensures BareRuns(s, i, r, depth, Prepend(Group(inner[0]), inner[1..]))
  {
    Extends(s, i, i + 1, r, Closed(inner, '(', ')'));
    GroupText(inner, '(', ')');
  }

  lemma {:induction false} CloseRuns(s: string, i: nat, r: nat, depth: nat, rest: seq<seq<Piece>>)
    requires i < |s| && s[i] == ')' && BareRuns(s, i + 1, r, depth, rest)
    ensures BareRuns(s, i, r, depth + 1, [[]] + rest)
  {
    Extends(s, i, i + 1, r, Closed(rest, '(', ')'));
    assert ([[]] + rest)[1..] == rest;
  }

  /** What a scan that stops inside the text has read. */
  lemma {:induction false} BareRead(s: string, i: nat, depth: nat) returns (runs: seq<seq<Piece>>)
    requires i <= |s| && BareScan(s, i, depth) < |s|
    ensures BareRuns(s, i, BareScan(s, i, depth), depth, runs) && Stops(s, BareScan(s, i, depth))
    decreases |s| - i
  {
    var r := BareScan(s, i, depth);
    if s[i] == '\\' {
      var rest := BareRead(s, i + 2, depth);
      PieceRuns(s, i, i + 2, r, depth, Escaped(s[i + 1]), rest);
      runs := Prepend(Escaped(s[i + 1]), rest);
    } else if s[i] == '(' {
      var inner := BareRead(s, i + 1, depth + 1);
      GroupRuns(s, i, r, depth, inner);
      runs := Prepend(Group(inner[0]), inner[1..]);
    } else if s[i] == ')' && depth > 0 {
      var rest := BareRead(s, i + 1, depth - 1);
      CloseRuns(s, i, r, depth - 1, rest);
      runs := [[]] + rest;
    } else if depth == 0 && (s[i] == ')' || IsSpace(s[i])) {
      runs := [[]];
    } else {
      var rest := BareRead(s, i + 1, depth);
      PieceRuns(s, i, i + 1, r, depth, Plain(s[i]), rest);
      runs := Prepend(Plain(s[i]), rest);
    }
  }

  lemma {:induction false} BareStays(s: string, i: nat, depth: nat)
    ensures BareScan(s, i, depth) <= |s|
    decreases |s| - i
  {
    if i < |s| {
      if s[i] == '\\' {
        BareStays(s, i + 2, depth);
      } else if s[i] == '(' {
        BareStays(s, i + 1, depth + 1);
      } else if s[i] == ')' && depth > 0 {
        BareStays(s, i + 1, depth - 1);
      } else if s[i] != ')' && !(IsSpace(s[i]) && depth == 0) {
        BareStays(s, i + 1, depth);
      }
    }
  }

  /** A bare destination ends inside the text exactly where a whole one stands and something stops it. */
  lemma {:induction false} BareEndIff(s: string, i: nat, end: nat)
    requires i <= |s| && end < |s|
    ensures BareScan(s, i, 0) == end <==> exists pieces :: BareSpans(s, i, end, pieces)
  {
    if pieces :| BareSpans(s, i, end, pieces) {
      BarePasses(s, i, 0, pieces);
    } else if BareScan(s, i, 0) == end {
      var runs := BareRead(s, i, 0);
      assert BareSpans(s, i, end, runs[0]);
    }
  }

  // ---------- The reported range ----------

  ghost predicate AngleEnds(s: string, i: nat, end: nat) {
    exists pieces :: AngleSpans(s, i, end, pieces)
  }

  ghost predicate BareEnds(s: string, i: nat, end: nat) {
    exists pieces :: BareSpans(s, i, end, pieces)
  }

  /** The range of the angle-bracket destination that starts at `from`, or none when it never closes. */
  ghost predicate IsAngle(s: string, from: nat, r: Range) {
    if r.Range? then r.start == from && AngleEnds(s, from, r.end)
    else r == NoAngleEnd && forall end: nat :: !AngleEnds(s, from, end)
  }

  /** The range of the bare destination that starts at `from`, or of all that is left when nothing stops it. */
  ghost predicate IsBare(s: string, from: nat, r: Range) {
    && r.Range? && r.start == from
    && (BareEnds(s, from, r.end) || (r.end == |s| && forall end: nat :: !BareEnds(s, from, end)))
  }

  ghost predicate IsDestination(s: string, start: nat, r: Range) {
    if start < |s| && s[start] == '<' then IsAngle(s, start + 1, r) else IsBare(s, start, r)
  }

  lemma {:induction false} AngleIff(s: string, from: nat, r: Range)
    requires from <= |s|
    ensures (var close := AngleScan(s, from); if close < 0 then NoAngleEnd else Range(from, close)) == r <==>
      IsAngle(s, from, r)
  {
    forall end: nat ensures AngleScan(s, from) == end <==> AngleEnds(s, from, end) {
      AngleEndIff(s, from, end);
    }
    if AngleScan(s, from) >= 0 {
      assert AngleEnds(s, from, AngleScan(s, from));
    }
  }

  lemma {:induction false} BareIff(s: string, from: nat, r: Range)
    requires from <= |s|
    ensures Range(from, BareScan(s, from, 0)) == r <==> IsBare(s, from, r)
  {
    BareStays(s, from, 0);
    forall end: nat ensures BareEnds(s, from, end) <==> BareScan(s, from, 0) == end < |s| {
      if end < |s| {
        BareEndIff(s, from, end);
      }
    }
    if BareScan(s, from, 0) < |s| {
      assert BareEnds(s, from, BareScan(s, from, 0));
    }
  }

  lemma {:induction false} StartInside(s: string, kind: Kind)
    requires StartOf(s, kind).Range?
    ensures StartOf(s, kind).start <= |s|
  {
  }

  /** What is reported is the destination, and nothing else is. */
  lemma {:induction false} DestinationIff(s: string, kind: Kind, start: nat, r: Range)
    requires StartOf(s, kind) == Range(start, start)
    ensures DestinationOf(s, kind) == r <==> IsDestination(s, start, r)
  {
    StartInside(s, kind);
    if start < |s| && s[start] == '<' {
      AngleIff(s, start + 1, r);
    } else {
      BareIff(s, start, r);
    }
  }

  // ---------- Where the destination starts ----------

  /** From `i` up to `r` stands white space, and all that stands there. */
  ghost predicate BlankUntil(s: string, i: nat, r: nat) {
    i <= r <= |s| && (forall p :: i <= p < r ==> IsSpace(s[p])) && (r < |s| ==> !IsSpace(s[r]))
  }

  lemma {:induction false} SkipIff(s: string, i: nat, r: nat)
    requires i <= |s|
    ensures SkipWhitespace(s, i) == r <==> BlankUntil(s, i, r)
    decreases |s| - i
  {
    if i < |s| && IsSpace(s[i]) {
      SkipIff(s, i + 1, r);
    }
  }

  /** The first bracket opens a balanced label that closes at `end`. */
  ghost predicate LabelEnds(s: string, end: nat) {
    exists first: nat, pieces :: LabelSpans(s, first, end, pieces)
  }

  lemma {:induction false} LabelIff(s: string)
    ensures LabelEndOf(s) >= 0 ==> LabelEnds(s, LabelEndOf(s)) && LabelEndOf(s) < |s|
    ensures forall end: nat :: LabelEnds(s, end) ==> LabelEndOf(s) == end
  {
    if LabelEndOf(s) >= 0 {
      LabelEndIff(s, LabelEndOf(s));
      var runs := LabelRead(s, FirstIndex(s, '[', 0) + 1, 1);
    }
    forall end: nat | LabelEnds(s, end) ensures LabelEndOf(s) == end {
      LabelEndIff(s, end);
    }
  }

  /** The first colon behind `end`. */
  ghost predicate ColonAt(s: string, end: nat, colon: nat) {
    end < colon < |s| && s[colon] == ':' && forall p :: end < p < colon ==> s[p] != ':'
  }

  /** Behind the label, the separator stands at `at` and the destination starts at `start`. */
  ghost predicate StartsAt(s: string, kind: Kind, end: nat, at: nat, start: nat) {
    && (if kind == Definition then ColonAt(s, end, at) else at == end + 1 < |s| && s[at] == '(')
    && BlankUntil(s, at + 1, start)
  }

  /** What is reported of a node whose label closes at `end`. */
  ghost predicate ReportedBehind(s: string, kind: Kind, end: nat, r: Range) {
    if r == NoSeparator then kind == Definition && forall p :: end < p < |s| ==> s[p] != ':'
    else if r == NoInline then kind != Definition && (end + 1 >= |s| || s[end + 1] != '(')
    else exists at: nat, start: nat :: StartsAt(s, kind, end, at, start) && IsDestination(s, start, r)
  }

  /** What is reported of a node, in terms of the text alone. */
  ghost predicate Reported(s: string, kind: Kind, r: Range) {
    if r == NoLabel then forall end: nat :: !LabelEnds(s, end)
    else exists end: nat :: LabelEnds(s, end) && ReportedBehind(s, kind, end, r)
  }

  lemma {:induction false} OneStart(s: string, kind: Kind, end: nat, at: nat, start: nat, at': nat, start': nat)
    requires StartsAt(s, kind, end, at, start) && StartsAt(s, kind, end, at', start')
    ensures at == at' && start == start'
  {
    SkipIff(s, at + 1, start);
    SkipIff(s, at' + 1, start');
  }

  lemma {:induction false} StartBehind(s: string, kind: Kind, end: nat, at: nat, start: nat, r: Range)
    requires StartsAt(s, kind, end, at, start) && StartOf(s, kind) == Range(start, start)
    requires r != NoSeparator && r != NoInline
    ensures DestinationOf(s, kind) == r <==> ReportedBehind(s, kind, end, r)
  {
    DestinationIff(s, kind, start, r);
    if at': nat, start': nat :| StartsAt(s, kind, end, at', start') && IsDestination(s, start', r) {
      OneStart(s, kind, end, at, start, at', start');
    }
  }

  lemma {:induction false} HasStart(s: string, kind: Kind, end: nat) returns (at: nat)
    requires end < |s| && LabelEndOf(s) == end && StartOf(s, kind).Range?
    ensures var start := StartOf(s, kind).start;
      StartOf(s, kind) == Range(start, start) && StartsAt(s, kind, end, at, start)
  {
    at := if kind == Definition then FirstIndex(s, ':', end + 1) else end + 1;
    SkipIff(s, at + 1, SkipWhitespace(s, at + 1));
  }

  lemma {:induction false} NoStart(s: string, kind: Kind, end: nat)
    requires end < |s| && LabelEndOf(s) == end
    ensures StartOf(s, kind) == NoSeparator <==> ReportedBehind(s, kind, end, NoSeparator)
    ensures StartOf(s, kind) == NoInline <==> ReportedBehind(s, kind, end, NoInline)
    ensures !StartOf(s, kind).Range? ==> forall at: nat, start: nat :: !StartsAt(s, kind, end, at, start)
  {
    if kind == Definition {
      var colon := FirstIndex(s, ':', end + 1);
      assert colon != -1 ==> end < colon < |s| && s[colon] == ':';
    }
  }

  lemma {:induction false} BehindLabel(s: string, kind: Kind, end: nat, r: Range)
    requires end < |s| && LabelEndOf(s) == end && r != NoLabel
    ensures DestinationOf(s, kind) == r <==> ReportedBehind(s, kind, end, r)
  {
    NoStart(s, kind, end);
    if StartOf(s, kind).Range? && r != NoSeparator && r != NoInline {
      var at := HasStart(s, kind, end);
      StartBehind(s, kind, end, at, StartOf(s, kind).start, r);
    }
  }

  /** For every node, the range or the error that is reported is the one its text calls for. */
  lemma {:induction false} ReportedIff(s: string, kind: Kind, r: Range)
    ensures DestinationOf(s, kind) == r <==> Reported(s, kind, r)
  {
    LabelIff(s);
    var end := LabelEndOf(s);
    if end >= 0 && r != NoLabel {
      BehindLabel(s, kind, end, r);
    }
  }
}
