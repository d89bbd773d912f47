/** The whole way from a raw JSDoc comment to its description: margins, blocks, links and the final trim. */
module JsDocComment {
  import opened MarkdownLinks
  import opened Splitting
  import opened JsDocText
  import opened JsDoc

  // ---------- Delimiters and margins ----------

  function StripOpening(raw: string): string {
    if "/**" <= raw then raw[3..] else raw
  }

  function StripClosing(raw: string): string {
    if |raw| >= 2 && raw[|raw| - 2..] == "*/" then raw[..|raw| - 2] else raw
  }

  /** A line without its indentation, one star, one space behind it, and the white space at its end. */
  function StripMargin(line: string): string {
    var t := TrimStart(line);
    var u := if t != "" && t[0] == '*' then t[1..] else t;
    TrimEnd(if u != "" && IsSpace(u[0]) then u[1..] else u)
  }

  function StripMargins(lines: seq<string>): seq<string> {
    seq(|lines|, i requires 0 <= i < |lines| => StripMargin(lines[i]))
  }

  /** The lines of a comment as the parser sees them. */
  function CommentLines(raw: string): seq<string> {
    StripMargins(Split(StripClosing(StripOpening(raw)), '\n'))
  }

  /** A line in its margin. */
  function InMargin(indent: string, line: string): string {
    indent + (if line == "" then "*" else "* " + line)
  }

  function InMargins(indent: string, lines: seq<string>): seq<string> {
    seq(|lines|, i requires 0 <= i < |lines| => InMargin(indent, lines[i]))
  }

  /** A comment as it is usually written: delimiters on lines of their own, and every line in a margin. */
  ghost function WrittenComment(indent: string, lines: seq<string>): string {
    "/**" + Joined([""] + InMargins(indent, lines) + [indent], '\n') + "*/"
  }

  /** A line without a star loses its indentation and the white space at its end. */
  lemma {:induction false} PlainMargin(indent: string, text: string)
    requires AllSpace(indent) && (text == "" || (!IsSpace(text[0]) && text[0] != '*'))
    ensures StripMargin(indent + text) == TrimEnd(text)
  {
    TrimStartOf(indent, text);
  }

  /** A star in the margin goes with the indentation, and with one white space behind it when there is any. */
  lemma {:induction false} StarMargin(indent: string, text: string)
    requires AllSpace(indent)
    ensures StripMargin(indent + ("*" + text)) == TrimEnd(if text != "" && IsSpace(text[0]) then text[1..] else text)
  {
    TrimStartOf(indent, "*" + text);
    assert ("*" + text)[1..] == text;
  }

  lemma {:induction false} MarginStripped(indent: string, line: string)
    requires AllSpace(indent) && TrimEnd(line) == line
    ensures StripMargin(InMargin(indent, line)) == line
  {
    if line == "" {
      StarMargin(indent, "");
      assert "*" + "" == "*";
    } else {
      StarMargin(indent, " " + line);
      assert "*" + (" " + line) == "* " + line && (" " + line)[1..] == line;
    }
  }

  lemma {:induction false} DelimitersStripped(text: string)
    ensures StripClosing(StripOpening("/**" + text + "*/")) == text
  {
    var raw := "/**" + text + "*/";
    assert raw[..3] == "/**" && raw[3..] == text + "*/";
    var rest := text + "*/";
    assert rest[|rest| - 2..] == "*/" && rest[..|rest| - 2] == text;
  }

  lemma {:induction false} WrittenApart(indent: string, lines: seq<string>)
    requires '\n' !in indent && Apart(lines, '\n')
    ensures Apart([""] + InMargins(indent, lines) + [indent], '\n')
  {
    forall i | 0 <= i < |lines| ensures '\n' !in InMargin(indent, lines[i]) {
    }
  }

  lemma {:induction false} IndentStripped(indent: string)
    requires AllSpace(indent)
    ensures StripMargin(indent) == "" && StripMargin("") == ""
  {
    PlainMargin(indent, "");
    PlainMargin("", "");
    assert indent + "" == indent;
  }

  lemma {:induction false} MarginsStripped(indent: string, lines: seq<string>)
    requires AllSpace(indent)
    requires forall i :: 0 <= i < |lines| ==> TrimEnd(lines[i]) == lines[i]
    ensures StripMargins([""] + InMargins(indent, lines) + [indent]) == [""] + lines + [""]
  {
    var written, read := [""] + InMargins(indent, lines) + [indent], [""] + lines + [""];
    IndentStripped(indent);
    forall i | 0 <= i < |written| ensures StripMargin(written[i]) == read[i] {
      if 0 < i <= |lines| {
        MarginStripped(indent, lines[i - 1]);
        assert written[i] == InMargin(indent, lines[i - 1]);
      }
    }
  }

  /** Reading a written comment gives its lines back, between two empty ones. */
  lemma {:induction false} CommentRoundTrip(indent: string, lines: seq<string>)
    requires '\n' !in indent && AllSpace(indent)
    requires Apart(lines, '\n') && forall i :: 0 <= i < |lines| ==> TrimEnd(lines[i]) == lines[i]
    ensures CommentLines(WrittenComment(indent, lines)) == [""] + lines + [""]
  {
    var written := [""] + InMargins(indent, lines) + [indent];
    DelimitersStripped(Joined(written, '\n'));
    WrittenApart(indent, lines);
    SplitJoined(written, '\n');
    MarginsStripped(indent, lines);
  }

  // ---------- Links ----------

  const LINK := "{@link"

  /** The text opens with `{@link`, white space, at least one more character and the first closing brace. */
  predicate OpensLink(s: string) {
    LINK <= s &&
    var close := FirstIndex(s, '}', 6);
    close >= 8 && IsSpace(s[6])
  }

  /** What the link names: all behind the white space, or the last of it when there is nothing else. */
  function Named(body: string): string
    requires body != ""
  {
    if TrimStart(body) == "" then body[|body| - 1..] else TrimStart(body)
  }

  /** Every link replaced by what it names. */
  function RewriteLinks(s: string): string
    decreases |s|
  {
    if s == "" then ""
    else if OpensLink(s) then
      var close := FirstIndex(s, '}', 6);
      Named(s[6..close]) + RewriteLinks(s[close + 1..])
    else [s[0]] + RewriteLinks(s[1..])
  }

  /** No link opens within the text when `rest` follows it. */
  ghost predicate Quiet(text: string, rest: string) {
    forall i :: 0 <= i < |text| ==> !OpensLink((text + rest)[i..])
  }

  /** A link and the text up to the next one. */
  datatype LinkText = LinkText(blank: string, target: string, after: string)

  /** White space and what the link names, which is itself a single white space only when there is nothing else. */
  ghost predicate IsLink(blank: string, target: string) {
    && blank != "" && AllSpace(blank)
    && target != "" && (IsSpace(target[0]) ==> |target| == 1) && '}' !in target
  }

  ghost function WrittenLinks(links: seq<LinkText>): string {
    if links == [] then ""
    else LINK + links[0].blank + links[0].target + "}" + (links[0].after + WrittenLinks(links[1..]))
  }

  ghost function ShownLinks(links: seq<LinkText>): string {
    if links == [] then "" else links[0].target + (links[0].after + ShownLinks(links[1..]))
  }

  /** Plain text, then links with plain text behind each. */
  ghost predicate ReadsAs(first: string, links: seq<LinkText>)
    decreases |links|
  {
    && Quiet(first, WrittenLinks(links))
    && (links != [] ==> IsLink(links[0].blank, links[0].target) && ReadsAs(links[0].after, links[1..]))
  }

  /** `f` keeps a character at which nothing opens. */
  ghost predicate Copies(f: string -> string, opens: string -> bool) {
    forall c: char, rest: string {:trigger f([c] + rest)} :: !opens([c] + rest) ==> f([c] + rest) == [c] + f(rest)
  }

  lemma {:induction false} RewritingCopies()
    ensures Copies(RewriteLinks, OpensLink)
  {
    forall c: char, rest: string | !OpensLink([c] + rest) ensures RewriteLinks([c] + rest) == [c] + RewriteLinks(rest) {
      assert ([c] + rest)[1..] == rest;
    }
  }

  lemma {:induction false} CopiesText(f: string -> string, opens: string -> bool, text: string, rest: string)
    requires Copies(f, opens) && forall i :: 0 <= i < |text| ==> !opens((text + rest)[i..])
    ensures f(text + rest) == text + f(rest)
    decreases |text|
  {
    if text == "" {
      assert text + rest == rest;
    } else {
      var s := text + rest;
      assert s[0..] == s == [text[0]] + (text[1..] + rest);
      forall i | 0 <= i < |text[1..]| ensures !opens((text[1..] + rest)[i..]) {
        assert (text[1..] + rest)[i..] == s[i + 1..];
      }
      CopiesText(f, opens, text[1..], rest);
      assert [text[0]] + (text[1..] + f(rest)) == text + f(rest);
    }
  }

  /** Text in which no link opens is copied. */
  lemma {:induction false} TextCopied(text: string, rest: string)
    requires Quiet(text, rest)
    ensures RewriteLinks(text + rest) == text + RewriteLinks(rest)
  {
    RewritingCopies();
    CopiesText(RewriteLinks, OpensLink, text, rest);
  }

  lemma {:induction false} BraceFound(s: string, from: nat, at: nat)
    requires from <= at < |s| && s[at] == '}' && forall j :: from <= j < at ==> s[j] != '}'
    ensures FirstIndex(s, '}', from) == at
  {
  }

  lemma {:induction false} NamedTarget(blank: string, target: string)
    requires IsLink(blank, target)
    ensures Named(blank + target) == target
  {
    if IsSpace(target[0]) {
      TrimStartOf(blank + target, "");
      assert blank + target + "" == blank + target;
    } else {
      TrimStartOf(blank, target);
    }
  }

  lemma {:induction false} LinkRewritten(blank: string, target: string, rest: string)
    requires IsLink(blank, target)
    ensures RewriteLinks(LINK + blank + target + "}" + rest) == target + RewriteLinks(rest)
  {
    var s, close := LINK + blank + target + "}" + rest, 6 + |blank| + |target|;
    assert s[..6] == LINK && s[6..close] == blank + target && s[close] == '}' && s[close + 1..] == rest;
    forall j | 6 <= j < close ensures s[j] != '}' {
      assert s[j] == (blank + target)[j - 6];
      assert j - 6 < |blank| ==> IsSpace(blank[j - 6]);
    }
    BraceFound(s, 6, close);
    assert s[6] == (blank + target)[0] == blank[0];
    NamedTarget(blank, target);
  }

  /** Rewriting a text read as links gives it with each link's target in its place. */
  lemma {:induction false} LinksRewritten(first: string, links: seq<LinkText>)
    requires ReadsAs(first, links)
    ensures RewriteLinks(first + WrittenLinks(links)) == first + ShownLinks(links)
    decreases |links|
  {
    TextCopied(first, WrittenLinks(links));
    if links != [] {
      var l, more := links[0], links[1..];
      LinksRewritten(l.after, more);
      LinkRewritten(l.blank, l.target, l.after + WrittenLinks(more));
    }
  }

  lemma {:induction false} BodyRead(body: string) returns (blank: string, target: string)
    requires |body| >= 2 && IsSpace(body[0]) && '}' !in body
    ensures body == blank + target && IsLink(blank, target)
  {
    blank := TrimStartParts(body);
    target := TrimStart(body);
    if target == "" {
      blank, target := body[..|body| - 1], body[|body| - 1..];
    }
  }

  lemma {:induction false} LinkRead(s: string) returns (blank: string, target: string, rest: string)
    requires OpensLink(s)
    ensures s == LINK + blank + target + "}" + rest && IsLink(blank, target)
  {
    var close := FirstIndex(s, '}', 6);
    blank, target := BodyRead(s[6..close]);
    rest := s[close + 1..];
    assert s == s[..6] + s[6..close] + [s[close]] + rest;
  }

  lemma {:induction false} QuietMore(c: char, text: string, rest: string)
    requires Quiet(text, rest) && !OpensLink([c] + (text + rest))
    ensures Quiet([c] + text, rest)
  {
    var s := [c] + text + rest;
    assert s == [c] + (text + rest);
    forall i | 0 <= i < |[c] + text| ensures !OpensLink(s[i..]) {
      assert if i == 0 then s[i..] == s else s[i..] == (text + rest)[i - 1..];
    }
  }

  /** Every text reads as plain text and links. */
  lemma {:induction false} EveryTextReads(text: string) returns (first: string, links: seq<LinkText>)
    ensures text == first + WrittenLinks(links) && ReadsAs(first, links)
    decreases |text|
  {
    first, links := "", [];
    if OpensLink(text) {
      var blank, target, rest := LinkRead(text);
      var after, more := EveryTextReads(rest);
      links := [LinkText(blank, target, after)] + more;
      assert links[1..] == more;
    } else if text != "" {
      var after, more := EveryTextReads(text[1..]);
      assert text == [text[0]] + text[1..];
      QuietMore(text[0], after, WrittenLinks(more));
      first, links := [text[0]] + after, more;
      assert first + WrittenLinks(links) == [text[0]] + (after + WrittenLinks(more));
    }
  }

  lemma {:induction false} ShownShorter(links: seq<LinkText>)
    ensures links != [] ==> |ShownLinks(links)| < |WrittenLinks(links)|
    decreases |links|
  {
    if links != [] {
      ShownShorter(links[1..]);
    }
  }

  /** Rewriting leaves a text alone exactly when no link opens in it. */
  lemma {:induction false} UntouchedIff(text: string)
    ensures RewriteLinks(text) == text <==> Quiet(text, "")
  {
    assert text + "" == text;
    if Quiet(text, "") {
      TextCopied(text, "");
    }
    if RewriteLinks(text) == text {
      var first, links := EveryTextReads(text);
      LinksRewritten(first, links);
      ShownShorter(links);
    }
  }

  // ---------- The whole comment ----------

  /** The description of a raw comment. */
  ghost function CommentText(raw: string): string {
    Trim(RewriteLinks(TextOf(BlocksOf(Description(CommentLines(raw))))))
  }

  /** A raw comment's description, the mode it names last, and whether it names any. */
  method ParseComment(raw: string) returns (r: Parsed)
    ensures r.text == CommentText(raw)
    ensures IsLastMode(CommentLines(raw), r.mode)
    ensures var lines := CommentLines(raw); r.hasMode <==> exists i :: 0 <= i < |lines| && NamesMode(lines[i])
  {
    var parsed := ParseJsDoc(CommentLines(raw));
    r := parsed.(text := Trim(RewriteLinks(parsed.text)));
  }

  /** Without links the description shows exactly the words before the first tag, in order. */
  lemma {:induction false} PlainWords(lines: seq<string>)
    requires Quiet(TextOf(BlocksOf(Description(lines))), "")
    ensures Words(Trim(RewriteLinks(TextOf(BlocksOf(Description(lines)))))) == Flat(Description(lines))
  {
    var text := TextOf(BlocksOf(Description(lines)));
    UntouchedIff(text);
    TrimWords(text);
    DescriptionWords(Description(lines));
  }
}
