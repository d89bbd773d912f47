/** Locating an authored destination inside the raw text of a Markdown link, image or definition. */
module MarkdownLinks {

  /** White space as the regular-expression class `\s` has it. */
  predicate IsSpace(c: char) {
    var n := c as int;
    (0x09 <= n <= 0x0d) || n == 0x20 || n == 0xa0 || n == 0x1680 || (0x2000 <= n <= 0x200a)
    || n == 0x2028 || n == 0x2029 || n == 0x202f || n == 0x205f || n == 0x3000 || n == 0xfeff
  }

  /** The white space and line terminators of ECMAScript: five controls, the two separators, and the spaces. */
  lemma {:induction false} IsSpaceIff(c: char)
    ensures IsSpace(c) <==>
      || c in "\t\n\U{b}\U{c}\r \U{a0}\U{1680}\U{2028}\U{2029}\U{202f}\U{205f}\U{3000}\U{feff}"
      || '\U{2000}' <= c <= '\U{200a}'
  {
  }

  // ---------- Delimited text ----------

  /** A plain character, an escaped one, or a delimited group. */
  datatype Piece = Plain(c: char) | Escaped(c: char) | Group(inner: seq<Piece>)

  /** How pieces are written between the delimiters `open` and `close`. */
  ghost function Text(pieces: seq<Piece>, open: char, close: char): string {
    if pieces == [] then "" else PieceText(pieces[0], open, close) + Text(pieces[1..], open, close)
  }

  ghost function PieceText(piece: Piece, open: char, close: char): string {
    match piece
    case Plain(c) => [c]
    case Escaped(c) => ['\\', c]
    case Group(inner) => [open] + Text(inner, open, close) + [close]
  }

  /** Plain characters are neither delimiters nor backslashes. */
  ghost predicate Clean(pieces: seq<Piece>, open: char, close: char) {
    forall i :: 0 <= i < |pieces| ==> CleanPiece(pieces[i], open, close)
  }

  ghost predicate CleanPiece(piece: Piece, open: char, close: char) {
    match piece
    case Plain(c) => c != open && c != close && c != '\\'
    case Escaped(_) => true
    case Group(inner) => Clean(inner, open, close)
  }

  /** `t` stands in `s` at position `i`. */
  ghost predicate At(s: string, i: nat, t: string) {
    i + |t| <= |s| && s[i..i + |t|] == t
  }

  lemma {:induction false} AtIndex(s: string, i: nat, t: string, k: nat)
    requires At(s, i, t) && k < |t|
    ensures s[i + k] == t[k]
  {
    assert s[i..i + |t|][k] == s[i + k];
  }

  lemma {:induction false} AtParts(s: string, i: nat, a: string, b: string)
    requires At(s, i, a + b)
    ensures At(s, i, a) && At(s, i + |a|, b)
  {
    assert s[i..i + |a|] == (a + b)[..|a|];
    assert s[i + |a|..i + |a| + |b|] == (a + b)[|a|..];
  }

  lemma {:induction false} GroupParts(s: string, i: nat, inner: seq<Piece>, open: char, close: char)
    requires At(s, i, PieceText(Group(inner), open, close))
    ensures var text := Text(inner, open, close);
      s[i] == open && At(s, i + 1, text) && s[i + 1 + |text|] == close
  {
    var text := Text(inner, open, close);
    AtParts(s, i, [open] + text, [close]);
    AtParts(s, i, [open], text);
    AtIndex(s, i, [open], 0);
    AtIndex(s, i + 1 + |text|, [close], 0);
  }

  // ---------- The label ----------

  /** Where scanning from `i` at `depth` returns to depth zero, or nothing. */
  ghost function LabelScan(s: string, i: nat, depth: int): int
    decreases |s| - i
  {
    if i >= |s| then -1
    else if s[i] == '\\' then LabelScan(s, i + 2, depth)
    else if s[i] == '[' then LabelScan(s, i + 1, depth + 1)
    else if s[i] == ']' then if depth == 1 then i else LabelScan(s, i + 1, depth - 1)
    else LabelScan(s, i + 1, depth)
  }

  function FirstIndex(s: string, c: char, from: nat): (i: int)
    ensures i == -1 ==> forall j :: from <= j < |s| ==> s[j] != c
    ensures i != -1 ==> from <= i < |s| && s[i] == c && forall j :: from <= j < i ==> s[j] != c
    decreases |s| - from
  {
    if from >= |s| then -1 else if s[from] == c then from else FirstIndex(s, c, from + 1)
  }

  ghost function LabelEndOf(s: string): int {
    var first := FirstIndex(s, '[', 0);
    if first == -1 then -1 else LabelScan(s, first, 0)
  }

  method LabelEnd(source: string) returns (end: int)
    ensures end == LabelEndOf(source)
    ensures end != -1 ==> 0 <= end < |source| && source[end] == ']'
  {
    var first := FirstIndex(source, '[', 0);
    if first == -1 {
      return -1;
    }
    var depth := 0;
    var index := first;
    while index < |source|
      invariant 0 <= first <= index
      invariant LabelScan(source, first, 0) == LabelScan(source, index, depth)
    {
      var c := source[index];
      if c == '\\' {
        index := index + 1;
      } else if c == '[' {
        depth := depth + 1;
      } else if c == ']' {
        depth := depth - 1;
        if depth == 0 {
          return index;
        }
      }
      index := index + 1;
    }
    end := -1;
  }

  /** The scan passes over balanced pieces without changing its depth. */
  lemma {:induction false} LabelPasses(s: string, i: nat, depth: int, pieces: seq<Piece>)
    requires depth >= 1 && Clean(pieces, '[', ']') && At(s, i, Text(pieces, '[', ']'))
    ensures LabelScan(s, i, depth) == LabelScan(s, i + |Text(pieces, '[', ']')|, depth)
    decreases pieces, 1
  {
    if pieces != [] {
      var one, rest := PieceText(pieces[0], '[', ']'), Text(pieces[1..], '[', ']');
      AtParts(s, i, one, rest);
      LabelPassesPiece(s, i, depth, pieces[0]);
      LabelPasses(s, i + |one|, depth, pieces[1..]);
    }
  }

  lemma {:induction false} LabelPassesPiece(s: string, i: nat, depth: int, piece: Piece)
    requires depth >= 1 && CleanPiece(piece, '[', ']') && At(s, i, PieceText(piece, '[', ']'))
    ensures LabelScan(s, i, depth) == LabelScan(s, i + |PieceText(piece, '[', ']')|, depth)
    decreases piece, 0
  {
    AtIndex(s, i, PieceText(piece, '[', ']'), 0);
    if piece.Group? {
      GroupParts(s, i, piece.inner, '[', ']');
      LabelPasses(s, i + 1, depth + 1, piece.inner);
    }
  }

  /** A bracketed label is found to end at its closing bracket, whatever follows it. */
  lemma {:induction false} LabelFound(s: string, first: nat, pieces: seq<Piece>)
    requires Clean(pieces, '[', ']') && At(s, first, ['['] + Text(pieces, '[', ']') + [']'])
    requires forall j :: 0 <= j < first ==> s[j] != '['
    ensures LabelEndOf(s) == first + 1 + |Text(pieces, '[', ']')|
  {
    var text := Text(pieces, '[', ']');
    AtParts(s, first, ['['] + text, [']']);
    AtParts(s, first, ['['], text);
    AtIndex(s, first, ['['], 0);
    AtIndex(s, first + 1 + |text|, [']'], 0);
    assert FirstIndex(s, '[', 0) == first;
    LabelPasses(s, first + 1, 1, pieces);
  }

  /** Runs of pieces with a closing delimiter after each but the last. */
  ghost function Closed(runs: seq<seq<Piece>>, open: char, close: char): string
    requires runs != []
  {
    if |runs| == 1 then Text(runs[0], open, close)
    else Text(runs[0], open, close) + ([close] + Closed(runs[1..], open, close))
  }

  ghost predicate AllClean(runs: seq<seq<Piece>>, open: char, close: char) {
    forall i :: 0 <= i < |runs| ==> Clean(runs[i], open, close)
  }

  /** Put a piece in front of the first run. */
  ghost function Prepend(piece: Piece, runs: seq<seq<Piece>>): seq<seq<Piece>>
    requires runs != []
  {
    [[piece] + runs[0]] + runs[1..]
  }

  lemma {:induction false} PrependText(piece: Piece, runs: seq<seq<Piece>>, open: char, close: char)
    requires runs != [] && AllClean(runs, open, close) && CleanPiece(piece, open, close)
    ensures AllClean(Prepend(piece, runs), open, close)
    ensures Closed(Prepend(piece, runs), open, close) == PieceText(piece, open, close) + Closed(runs, open, close)
  {
    var more := [piece] + runs[0];
    assert more[0] == piece && more[1..] == runs[0];
    assert Text(more, open, close) == PieceText(piece, open, close) + Text(runs[0], open, close);
    assert Prepend(piece, runs)[1..] == runs[1..];
  }

  /** Between `i` and `r` stands a run of balanced pieces for each open bracket. */
  ghost predicate LabelRuns(s: string, i: nat, r: int, depth: nat, runs: seq<seq<Piece>>) {
    depth >= 1 && |runs| == depth && AllClean(runs, '[', ']') && i <= r <= |s| && s[i..r] == Closed(runs, '[', ']')
  }

  lemma {:induction false} LabelPiece(s: string, i: nat, next: nat, r: int, depth: nat, piece: Piece,
                                      runs: seq<seq<Piece>>)
    requires i <= next && LabelRuns(s, next, r, depth, runs) && CleanPiece(piece, '[', ']')
    requires s[i..next] == PieceText(piece, '[', ']')
    ensures LabelRuns(s, i, r, depth, Prepend(piece, runs))
  {
    Extends(s, i, next, r, Closed(runs, '[', ']'));
    PrependText(piece, runs, '[', ']');
  }

  lemma {:induction false} LabelGroup(s: string, i: nat, r: int, depth: nat, inner: seq<seq<Piece>>)
    requires depth >= 1 && i < |s| && s[i] == '[' && LabelRuns(s, i + 1, r, depth + 1, inner)
    ensures LabelRuns(s, i, r, depth, Prepend(Group(inner[0]), inner[1..]))
  {
    Extends(s, i, i + 1, r, Closed(inner, '[', ']'));
    GroupText(inner, '[', ']');
  }

  lemma {:induction false} LabelClose(s: string, i: nat, r: int, depth: nat, rest: seq<seq<Piece>>)
    requires i < |s| && s[i] == ']' && LabelRuns(s, i + 1, r, depth, rest)
    ensures LabelRuns(s, i, r, depth + 1, [[]] + rest)
  {
    Extends(s, i, i + 1, r, Closed(rest, '[', ']'));
    assert ([[]] + rest)[1..] == rest;
  }

  /** A label scan that ends has read one run of balanced pieces for each open bracket. */
  lemma {:induction false} LabelRead(s: string, i: nat, depth: nat) returns (runs: seq<seq<Piece>>)
    requires depth >= 1 && i <= |s| && LabelScan(s, i, depth) >= 0
    ensures LabelRuns(s, i, LabelScan(s, i, depth), depth, runs)
    ensures LabelScan(s, i, depth) < |s| && s[LabelScan(s, i, depth)] == ']'
    decreases |s| - i
  {
    var r := LabelScan(s, i, depth);
    if s[i] == '\\' {
      var rest := LabelRead(s, i + 2, depth);
      LabelPiece(s, i, i + 2, r, depth, Escaped(s[i + 1]), rest);
      runs := Prepend(Escaped(s[i + 1]), rest);
    } else if s[i] == '[' {
      var inner := LabelRead(s, i + 1, depth + 1);
      LabelGroup(s, i, r, depth, inner);
      runs := Prepend(Group(inner[0]), inner[1..]);
    } else if s[i] == ']' && depth > 1 {
      var rest := LabelRead(s, i + 1, depth - 1);
      LabelClose(s, i, r, depth - 1, rest);
      runs := [[]] + rest;
    } else if s[i] == ']' {
      runs := [[]];
    } else {
      var rest := LabelRead(s, i + 1, depth);
      LabelPiece(s, i, i + 1, r, depth, Plain(s[i]), rest);
      runs := Prepend(Plain(s[i]), rest);
    }
  }

  lemma {:induction false} Extends(s: string, i: nat, j: nat, r: nat, text: string)
    requires i <= j <= r <= |s| && s[j..r] == text
    ensures s[i..r] == s[i..j] + text
  {
  }

  lemma {:induction false} GroupText(inner: seq<seq<Piece>>, open: char, close: char)
    requires |inner| >= 2 && AllClean(inner, open, close)
    ensures AllClean(Prepend(Group(inner[0]), inner[1..]), open, close)
    ensures Closed(Prepend(Group(inner[0]), inner[1..]), open, close) == [open] + Closed(inner, open, close)
  {
    PrependText(Group(inner[0]), inner[1..], open, close);
  }

  /** The first bracket opens a balanced label that closes at `end`. */
  ghost predicate LabelSpans(s: string, first: nat, end: nat, pieces: seq<Piece>) {
    && (forall j :: 0 <= j < first ==> j < |s| && s[j] != '[')
    && Clean(pieces, '[', ']') && At(s, first, ['['] + Text(pieces, '[', ']') + [']'])
    && end == first + 1 + |Text(pieces, '[', ']')|
  }

  /** A label end is reported exactly where the first bracket's balanced label closes. */
  lemma {:induction false} LabelEndIff(s: string, end: nat)
    ensures LabelEndOf(s) == end <==> exists first: nat, pieces :: LabelSpans(s, first, end, pieces)
  {
    if first: nat, pieces :| LabelSpans(s, first, end, pieces) {
      LabelFound(s, first, pieces);
    } else if LabelEndOf(s) == end {
      var first := FirstIndex(s, '[', 0);
      var runs := LabelRead(s, first + 1, 1);
      assert s[first + 1..end] == Text(runs[0], '[', ']');
      assert s[first..end + 1] == ['['] + s[first + 1..end] + [']'];
      assert LabelSpans(s, first, end, runs[0]);
    }
  }

  // ---------- The destination ----------

  datatype Kind = Link | Image | Definition

  datatype Range = Range(start: nat, end: nat) | NoLabel | NoSeparator | NoInline | NoAngleEnd

  /** The first position from `i` on that holds no white space. */
  function SkipWhitespace(s: string, i: nat): (r: nat)
    ensures i <= r && (i <= |s| ==> r <= |s|) && (r < |s| ==> !IsSpace(s[r]))
    decreases |s| - i
  {
    if i < |s| && IsSpace(s[i]) then SkipWhitespace(s, i + 1) else i
  }

  method SkipSpaces(source: string, start: nat) returns (index: nat)
    ensures index == SkipWhitespace(source, start)
  {
    index := start;
    while index < |source| && IsSpace(source[index])
      invariant SkipWhitespace(source, start) == SkipWhitespace(source, index)
    {
      index := index + 1;
    }
  }

  /** Where an angle-bracket destination that starts after `i` closes, or nothing. */
  ghost function AngleScan(s: string, i: nat): int
    decreases |s| - i
  {
    if i >= |s| then -1
    else if s[i] == '\\' then AngleScan(s, i + 2)
    else if s[i] == '>' then i
    else AngleScan(s, i + 1)
  }

  /** Where a bare destination ends: at an unmatched parenthesis, at outer white space, or with the text. */
  ghost function BareScan(s: string, i: nat, depth: nat): nat
    decreases |s| - i
  {
    if i >= |s| then |s|
    else if s[i] == '\\' then BareScan(s, i + 2, depth)
    else if s[i] == '(' then BareScan(s, i + 1, depth + 1)
    else if s[i] == ')' then if depth == 0 then i else BareScan(s, i + 1, depth - 1)
    else if IsSpace(s[i]) && depth == 0 then i
    else BareScan(s, i + 1, depth)
  }

  /** Where the destination may start, after the label and its separator. */
  ghost function StartOf(s: string, kind: Kind): Range {
    var end := LabelEndOf(s);
    if end < 0 then NoLabel
    else if kind == Definition then
      var colon := FirstIndex(s, ':', end + 1);
      if colon == -1 then NoSeparator else Range(SkipWhitespace(s, colon + 1), SkipWhitespace(s, colon + 1))
    else if end + 1 >= |s| || s[end + 1] != '(' then NoInline
    else Range(SkipWhitespace(s, end + 2), SkipWhitespace(s, end + 2))
  }

  ghost function DestinationOf(s: string, kind: Kind): Range {
    var at := StartOf(s, kind);
    if !at.Range? then at
    else if at.start < |s| && s[at.start] == '<' then
      var close := AngleScan(s, at.start + 1);
      if close < 0 then NoAngleEnd else Range(at.start + 1, close)
    else Range(at.start, BareScan(s, at.start, 0))
  }

  method DestinationRange(rawNode: string, kind: Kind) returns (r: Range)
    ensures r == DestinationOf(rawNode, kind)
  {
    var endOfLabel := LabelEnd(rawNode);
    if endOfLabel == -1 {
      return NoLabel;
    }
    var start: nat;
    if kind == Definition {
      var colon := FirstIndex(rawNode, ':', endOfLabel + 1);
      if colon == -1 {
        return NoSeparator;
      }
      start := SkipSpaces(rawNode, colon + 1);
    } else {
      if endOfLabel + 1 >= |rawNode| || rawNode[endOfLabel + 1] != '(' {
        return NoInline;
      }
      start := SkipSpaces(rawNode, endOfLabel + 2);
    }
    if start < |rawNode| && rawNode[start] == '<' {
      r := AngleRange(rawNode, start);
    } else {
      var end := BareEnd(rawNode, start);
      r := Range(start, end);
    }
  }

  method AngleRange(s: string, start: nat) returns (r: Range)
    ensures r == var close := AngleScan(s, start + 1); if close < 0 then NoAngleEnd else Range(start + 1, close)
  {
    var index := start + 1;
    while index < |s|
      invariant start + 1 <= index && AngleScan(s, start + 1) == AngleScan(s, index)
    {
      if s[index] == '\\' {
        index := index + 1;
      } else if s[index] == '>' {
        return Range(start + 1, index);
      }
      index := index + 1;
    }
    r := NoAngleEnd;
  }

  method BareEnd(s: string, start: nat) returns (end: nat)
    ensures end == BareScan(s, start, 0)
  {
    var depth: nat := 0;
    var index := start;
    while index < |s|
      invariant start <= index && BareScan(s, start, 0) == BareScan(s, index, depth)
    {
      var c := s[index];
      if c == '\\' {
        index := index + 1;
      } else if c == '(' {
        depth := depth + 1;
      } else if c == ')' {
        if depth == 0 {
          return index;
        }
        depth := depth - 1;
      } else if IsSpace(c) && depth == 0 {
        return index;
      }
      index := index + 1;
    }
    end := |s|;
  }

  // ---------- Round trips ----------

  /** No white space outside the groups. */
  ghost predicate Tight(pieces: seq<Piece>) {
    forall i :: 0 <= i < |pieces| && pieces[i].Plain? ==> !IsSpace(pieces[i].c)
  }

  lemma {:induction false} BarePasses(s: string, i: nat, depth: nat, pieces: seq<Piece>)
    requires Clean(pieces, '(', ')') && (depth > 0 || Tight(pieces)) && At(s, i, Text(pieces, '(', ')'))
    ensures BareScan(s, i, depth) == BareScan(s, i + |Text(pieces, '(', ')')|, depth)
    decreases pieces, 1
  {
    if pieces != [] {
      var one, rest := PieceText(pieces[0], '(', ')'), Text(pieces[1..], '(', ')');
      AtParts(s, i, one, rest);
      BarePassesPiece(s, i, depth, pieces[0]);
      BarePasses(s, i + |one|, depth, pieces[1..]);
    }
  }

  lemma {:induction false} BarePassesPiece(s: string, i: nat, depth: nat, piece: Piece)
    requires CleanPiece(piece, '(', ')') && At(s, i, PieceText(piece, '(', ')'))
    requires piece.Plain? && depth == 0 ==> !IsSpace(piece.c)
    ensures BareScan(s, i, depth) == BareScan(s, i + |PieceText(piece, '(', ')')|, depth)
    decreases piece, 0
  {
    AtIndex(s, i, PieceText(piece, '(', ')'), 0);
    if piece.Group? {
      GroupParts(s, i, piece.inner, '(', ')');
      BarePasses(s, i + 1, depth + 1, piece.inner);
    }
  }

  /** The text of an angle-bracket destination: no groups, and no bare closing bracket. */
  ghost predicate AngleClean(pieces: seq<Piece>) {
    forall i :: 0 <= i < |pieces| ==>
      !pieces[i].Group? && (pieces[i].Plain? ==> pieces[i].c != '>' && pieces[i].c != '\\')
  }

  lemma {:induction false} AnglePasses(s: string, i: nat, pieces: seq<Piece>)
    requires AngleClean(pieces) && At(s, i, Text(pieces, '<', '>'))
    ensures AngleScan(s, i) == AngleScan(s, i + |Text(pieces, '<', '>')|)
    decreases |pieces|
  {
    if pieces != [] {
      var one, rest := PieceText(pieces[0], '<', '>'), Text(pieces[1..], '<', '>');
      AtParts(s, i, one, rest);
      AtIndex(s, i, one, 0);
      AnglePasses(s, i + |one|, pieces[1..]);
    }
  }

  /** Behind the destination stands what ends it. */
  ghost predicate Ends(s: string, end: nat) {
    end == |s| || (end < |s| && (s[end] == ')' || IsSpace(s[end])))
  }

  /** A bare destination, placed where scanning starts and followed by what ends it, is found exactly. */
  lemma {:induction false} BareFound(s: string, kind: Kind, start: nat, pieces: seq<Piece>)
    requires StartOf(s, kind) == Range(start, start) && (start < |s| ==> s[start] != '<')
    requires Clean(pieces, '(', ')') && Tight(pieces) && At(s, start, Text(pieces, '(', ')'))
    requires Ends(s, start + |Text(pieces, '(', ')')|)
    ensures DestinationOf(s, kind) == Range(start, start + |Text(pieces, '(', ')')|)
  {
    BarePasses(s, start, 0, pieces);
  }

  /** An angle-bracket destination is found without its brackets. */
  lemma {:induction false} AngleFound(s: string, kind: Kind, start: nat, pieces: seq<Piece>)
    requires StartOf(s, kind) == Range(start, start)
    requires AngleClean(pieces) && At(s, start, ['<'] + Text(pieces, '<', '>') + ['>'])
    ensures DestinationOf(s, kind) == Range(start + 1, start + 1 + |Text(pieces, '<', '>')|)
  {
    var text := Text(pieces, '<', '>');
    AtParts(s, start, ['<'] + text, ['>']);
    AtParts(s, start, ['<'], text);
    AtIndex(s, start, ['<'], 0);
    AtIndex(s, start + 1 + |text|, ['>'], 0);
    AnglePasses(s, start + 1, pieces);
  }

  // ---------- Whole links and definitions ----------

  lemma {:induction false} SkipsBlank(s: string, i: nat, blank: string)
    requires At(s, i, blank) && (forall k :: 0 <= k < |blank| ==> IsSpace(blank[k]))
    requires i + |blank| < |s| ==> !IsSpace(s[i + |blank|])
    ensures SkipWhitespace(s, i) == i + |blank|
    decreases |blank|
  {
    if blank != "" {
      AtIndex(s, i, blank, 0);
      assert blank == [blank[0]] + blank[1..];
      AtParts(s, i, [blank[0]], blank[1..]);
      SkipsBlank(s, i + 1, blank[1..]);
    }
  }

  function Separator(kind: Kind): char {
    if kind == Definition then ':' else '('
  }

  /**
   * `s` is written as the source of a link, image or definition whose destination starts at `start`:
   * no bracket before `first`, there a bracketed label, then the separator, then white space.
   */
  ghost predicate Written(s: string, kind: Kind, first: nat, pieces: seq<Piece>, blank: string, start: nat) {
    var n := first + 2 + |Text(pieces, '[', ']')|;
    && (forall j :: 0 <= j < first ==> j < |s| && s[j] != '[')
    && Clean(pieces, '[', ']') && At(s, first, ['['] + Text(pieces, '[', ']') + [']'])
    && n < |s| && s[n] == Separator(kind)
    && At(s, n + 1, blank) && (forall k :: 0 <= k < |blank| ==> IsSpace(blank[k]))
    && start == n + 1 + |blank| && (start < |s| ==> !IsSpace(s[start]))
  }

  lemma {:induction false} StartFound(s: string, kind: Kind, first: nat, pieces: seq<Piece>, blank: string, start: nat)
    requires Written(s, kind, first, pieces, blank, start)
    ensures StartOf(s, kind) == Range(start, start)
  {
    var n := first + 2 + |Text(pieces, '[', ']')|;
    LabelFound(s, first, pieces);
    SkipsBlank(s, n + 1, blank);
    assert kind == Definition ==> FirstIndex(s, ':', n) == n;
  }

  /** Scanning a written link or definition recovers exactly its bare destination. */
  lemma {:induction false} BareRoundTrip(s: string, kind: Kind, first: nat, pieces: seq<Piece>, blank: string,
                                         start: nat, dest: seq<Piece>)
    requires Written(s, kind, first, pieces, blank, start)
    requires Clean(dest, '(', ')') && Tight(dest) && At(s, start, Text(dest, '(', ')'))
    requires (start < |s| ==> s[start] != '<') && Ends(s, start + |Text(dest, '(', ')')|)
    ensures DestinationOf(s, kind) == Range(start, start + |Text(dest, '(', ')')|)
  {
    StartFound(s, kind, first, pieces, blank, start);
    BareFound(s, kind, start, dest);
  }

  /** The same for a destination in angle brackets, whatever follows it. */
  lemma {:induction false} AngleRoundTrip(s: string, kind: Kind, first: nat, pieces: seq<Piece>, blank: string,
                                          start: nat, dest: seq<Piece>)
    requires Written(s, kind, first, pieces, blank, start)
    requires AngleClean(dest) && At(s, start, ['<'] + Text(dest, '<', '>') + ['>'])
    ensures DestinationOf(s, kind) == Range(start + 1, start + 1 + |Text(dest, '<', '>')|)
  {
    StartFound(s, kind, first, pieces, blank, start);
    AngleFound(s, kind, start, dest);
  }
}
