/** A whole comment, as it is written and as its description shows it. */
module JsDocDocument {
  import opened MarkdownLinks
  import opened Splitting
  import opened JsDocText
  import opened JsDoc
  import opened JsDocLayout
  import opened JsDocComment

  ghost predicate NoTag(lines: seq<string>) {
    forall i :: 0 <= i < |lines| ==> !IsTag(lines[i])
  }

  /** The description ends where the tags start. */
  lemma {:induction false} DescriptionEnds(prose: seq<string>, tags: seq<string>)
    requires NoTag(prose) && (tags == [] || IsTag(tags[0]))
    ensures Description(prose + tags) == prose
    decreases |prose|
  {
    if prose == [] {
      assert prose + tags == tags;
    } else {
      assert (prose + tags)[1..] == prose[1..] + tags;
      DescriptionEnds(prose[1..], tags);
    }
  }

  lemma {:induction false} EmptyLine()
    ensures IsBlank("") && !IsTag("")
  {
  }

  lemma {:induction false} BlankBehind(lines: seq<string>)
    ensures BlocksOf(lines + [""]) == BlocksOf(lines)
  {
    var b := AbsorbAll(EMPTY, lines);
    AbsorbSplit(EMPTY, lines, [""]);
    EmptyLine();
    GapFlushes(b, [""]);
    FlushEmpties(b);
    FlushEmpties(FlushPara(b));
  }

  /** The blank lines beside the delimiters do not show. */
  lemma {:induction false} DelimiterLines(prose: seq<string>, tags: seq<string>)
    requires NoTag(prose) && (tags == [] || IsTag(tags[0]))
    ensures BlocksOf(Description([""] + (prose + tags) + [""])) == BlocksOf([""] + prose)
  {
    EmptyLine();
    if tags == [] {
      assert [""] + (prose + tags) + [""] == [""] + prose + [""] + [];
      DescriptionEnds([""] + prose + [""], []);
      BlankBehind([""] + prose);
    } else {
      assert [""] + (prose + tags) + [""] == [""] + prose + (tags + [""]);
      DescriptionEnds([""] + prose, tags + [""]);
    }
  }

  /** Lines that can stand in a comment and be read back. */
  ghost predicate Writable(indent: string, lines: seq<string>) {
    && '\n' !in indent && AllSpace(indent)
    && Apart(lines, '\n') && (forall i :: 0 <= i < |lines| ==> TrimEnd(lines[i]) == lines[i])
  }

  lemma {:induction false} LeadingBlank(lead: seq<string>, layout: seq<Spaced>)
    requires AllBlank(lead) && IsLayout(layout)
    ensures BlocksOf([""] + (lead + LayoutLines(layout))) == RenderedAll(layout)
  {
    EmptyLine();
    Associates([""], lead, LayoutLines(layout));
    LayoutRendered([""] + lead, layout);
  }

  lemma {:induction false} CommentBlocks(indent: string, lead: seq<string>, layout: seq<Spaced>, tags: seq<string>)
    requires AllBlank(lead) && IsLayout(layout) && NoTag(lead + LayoutLines(layout)) && (tags == [] || IsTag(tags[0]))
    requires Writable(indent, lead + LayoutLines(layout) + tags)
    ensures BlocksOf(Description(CommentLines(WrittenComment(indent, lead + LayoutLines(layout) + tags))))
         == RenderedAll(layout)
  {
    var prose := lead + LayoutLines(layout);
    CommentRoundTrip(indent, prose + tags);
    DelimiterLines(prose, tags);
    LeadingBlank(lead, layout);
  }

  /**
   * A comment whose lines lay out paragraphs and lists, followed by tags, is described by those
   * blocks rendered, with each link replaced by its target.
   */
  lemma {:induction false} WholeComment(indent: string, lead: seq<string>, layout: seq<Spaced>, tags: seq<string>,
                                        first: string, links: seq<LinkText>)
    requires AllBlank(lead) && IsLayout(layout) && NoTag(lead + LayoutLines(layout)) && (tags == [] || IsTag(tags[0]))
    requires Writable(indent, lead + LayoutLines(layout) + tags)
    requires Shown(layout) == first + WrittenLinks(links) && ReadsAs(first, links)
    ensures CommentText(WrittenComment(indent, lead + LayoutLines(layout) + tags)) == Trim(first + ShownLinks(links))
  {
    CommentBlocks(indent, lead, layout, tags);
    ShownIsText(layout);
    LinksRewritten(first, links);
  }
}
