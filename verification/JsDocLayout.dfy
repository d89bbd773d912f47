/** What a description's paragraphs and lists are rendered as, whatever lines they are written on. */
module JsDocLayout {
  import opened Splitting
  import opened JsDocText
  import opened JsDoc

  // ---------- Paragraphs and lists ----------

  /** A paragraph of lines, or a list of items that may each run over several lines. */
  datatype Block = Paragraph(lines: seq<string>) | Bullets(items: seq<seq<string>>)

  /** A block and the blank lines behind it. */
  datatype Spaced = Spaced(block: Block, gap: seq<string>)

  predicate IsBlank(line: string) {
    Trim(line) == ""
  }

  ghost predicate Continues(lines: seq<string>) {
    forall i :: 0 <= i < |lines| ==> !IsBlank(lines[i]) && !StartsItem(lines[i])
  }

  ghost predicate IsItem(item: seq<string>) {
    item != [] && !IsBlank(item[0]) && StartsItem(item[0]) && Continues(item[1..])
  }

  ghost predicate IsBlock(block: Block) {
    match block
    case Paragraph(lines) => lines != [] && Continues(lines)
    case Bullets(items) => items != [] && forall i :: 0 <= i < |items| ==> IsItem(items[i])
  }

  /** Blocks with blank lines between them; a list may follow its introduction directly. */
  ghost predicate IsLayout(layout: seq<Spaced>) {
    layout == [] ||
    var n := |layout| - 1;
    && IsLayout(layout[..n]) && IsSpaced(layout[n])
    && (n > 0 && layout[n - 1].gap == [] ==> layout[n - 1].block.Paragraph? && layout[n].block.Bullets?)
  }

  ghost predicate IsSpaced(s: Spaced) {
    IsBlock(s.block) && forall k :: 0 <= k < |s.gap| ==> IsBlank(s.gap[k])
  }

  ghost function Concat(parts: seq<seq<string>>): seq<string> {
    if parts == [] then [] else Concat(parts[..|parts| - 1]) + parts[|parts| - 1]
  }

  ghost function LinesOf(block: Block): seq<string> {
    if block.Paragraph? then block.lines else Concat(block.items)
  }

  ghost function LayoutLines(layout: seq<Spaced>): seq<string> {
    if layout == [] then []
    else
      var n := |layout| - 1;
      LayoutLines(layout[..n]) + LinesOf(layout[n].block) + layout[n].gap
  }

  ghost function ItemLines(items: seq<seq<string>>): seq<string> {
    if items == [] then [] else ItemLines(items[..|items| - 1]) + [Line(Flat(items[|items| - 1]))]
  }

  /** The words of a paragraph on one line; those of a list on one line for each item. */
  ghost function BlockShown(block: Block): seq<string> {
    if block.Paragraph? then [Line(Flat(block.lines))] else ItemLines(block.items)
  }

  ghost function Rendered(block: Block): string {
    if BlockShown(block) == [] then "" else Joined(BlockShown(block), '\n')
  }

  ghost function RenderedAll(layout: seq<Spaced>): seq<string> {
    if layout == [] then [] else RenderedAll(layout[..|layout| - 1]) + [Rendered(layout[|layout| - 1].block)]
  }

  lemma {:induction false} FoldSplit(step: (Buffers, string) -> Buffers, b: Buffers, x: seq<string>, y: seq<string>)
    ensures Fold(step, b, x + y) == Fold(step, Fold(step, b, x), y)
    decreases |y|
  {
    if y == [] {
      assert x + y == x;
    } else {
      var n := |y| - 1;
      FoldSplit(step, b, x, y[..n]);
      assert (x + y)[..|x| + n] == x + y[..n];
    }
  }

  lemma {:induction false} AbsorbSplit(b: Buffers, x: seq<string>, y: seq<string>)
    ensures AbsorbAll(b, x + y) == AbsorbAll(AbsorbAll(b, x), y)
  {
    FoldSplit(Absorb, b, x, y);
  }

  lemma {:induction false} ParaLines(b: Buffers, lines: seq<string>)
    requires b.item == [] && Continues(lines)
    ensures AbsorbAll(b, lines) == b.(para := b.para + lines)
    decreases |lines|
  {
    if lines == [] {
      assert b.para + [] == b.para;
    } else {
      var n := |lines| - 1;
      ParaLines(b, lines[..n]);
      assert b.para + lines[..n] + [lines[n]] == b.para + lines;
    }
  }

  lemma {:induction false} MoreItem(b: Buffers, lines: seq<string>)
    requires b.item != [] && Continues(lines)
    ensures AbsorbAll(b, lines) == b.(item := b.item + lines)
    decreases |lines|
  {
    if lines == [] {
      assert b.item + [] == b.item;
    } else {
      var n := |lines| - 1;
      MoreItem(b, lines[..n]);
      assert b.item + lines[..n] + [lines[n]] == b.item + lines;
    }
  }

  lemma {:induction false} WholeItem(b: Buffers, item: seq<string>)
    requires IsItem(item)
    ensures AbsorbAll(b, item) == Buffers(
      if b.para != [] then b.blocks + [JoinLine(b.para)] else b.blocks, [], FlushItem(b).list, item)
  {
    assert item == [item[0]] + item[1..];
    AbsorbSplit(b, [item[0]], item[1..]);
    assert [item[0]][..0] == [] && AbsorbAll(b, []) == b;
    assert AbsorbAll(b, [item[0]]) == Absorb(b, item[0]);
    assert [] + [item[0]] == [item[0]];
    MoreItem(Absorb(b, item[0]), item[1..]);
  }

  /** The buffers while `block` is the last thing read, behind finished `blocks`. */
  ghost function Pending(blocks: seq<string>, block: Block): Buffers
    requires IsBlock(block)
  {
    match block
    case Paragraph(lines) => Buffers(blocks, lines, [], [])
    case Bullets(items) => Buffers(blocks, [], ItemLines(items[..|items| - 1]), items[|items| - 1])
  }

  lemma {:induction false} PendingFlushes(blocks: seq<string>, block: Block)
    requires IsBlock(block)
    ensures FlushPara(Pending(blocks, block)) == Buffers(blocks + [Rendered(block)], [], [], [])
  {
    match block
    case Paragraph(lines) => JoinLineIs(lines);
    case Bullets(items) =>
      assert IsItem(items[|items| - 1]);
      JoinLineIs(items[|items| - 1]);
      JoinWithIs(ItemLines(items), '\n');
  }

  lemma {:induction false} ItemFlushed(blocks: seq<string>, items: seq<seq<string>>)
    requires IsBlock(Bullets(items))
    ensures FlushItem(Pending(blocks, Bullets(items))) == Buffers(blocks, [], ItemLines(items), [])
  {
    assert IsItem(items[|items| - 1]);
    JoinLineIs(items[|items| - 1]);
  }

  /** Reading a list, on its own or behind its introduction. */
  lemma {:induction false} BulletLines(blocks: seq<string>, para: seq<string>, items: seq<seq<string>>)
    requires IsBlock(Bullets(items))
    ensures AbsorbAll(Buffers(blocks, para, [], []), Concat(items))
         == Pending(if para != [] then blocks + [JoinLine(para)] else blocks, Bullets(items))
    decreases |items|
  {
    var start, n := Buffers(blocks, para, [], []), |items| - 1;
    AbsorbSplit(start, Concat(items[..n]), items[n]);
    if n == 0 {
      assert Concat(items[..0]) == [] && AbsorbAll(start, []) == start;
      WholeItem(start, items[0]);
    } else {
      BulletLines(blocks, para, items[..n]);
      var done := if para != [] then blocks + [JoinLine(para)] else blocks;
      ItemFlushed(done, items[..n]);
      WholeItem(Pending(done, Bullets(items[..n])), items[n]);
    }
  }

  lemma {:induction false} BlockLines(blocks: seq<string>, block: Block)
    requires IsBlock(block)
    ensures AbsorbAll(Buffers(blocks, [], [], []), LinesOf(block)) == Pending(blocks, block)
  {
    match block
    case Paragraph(lines) =>
      ParaLines(Buffers(blocks, [], [], []), lines);
      assert [] + lines == lines;
    case Bullets(items) => BulletLines(blocks, [], items);
  }

  lemma {:induction false} GapFlushes(b: Buffers, gap: seq<string>)
    requires gap != [] && forall k :: 0 <= k < |gap| ==> IsBlank(gap[k])
    ensures AbsorbAll(b, gap) == FlushPara(b)
    decreases |gap|
  {
    var n := |gap| - 1;
    if n == 0 {
      assert AbsorbAll(b, gap[..0]) == b;
    } else {
      GapFlushes(b, gap[..n]);
      FlushEmpties(b);
      FlushEmpties(FlushPara(b));
    }
  }

  /** The buffers after a whole layout. */
  ghost function After(layout: seq<Spaced>): Buffers
    requires IsLayout(layout)
  {
    if layout == [] then EMPTY
    else
      var n := |layout| - 1;
      if layout[n].gap == [] then Pending(RenderedAll(layout[..n]), layout[n].block)
      else Buffers(RenderedAll(layout), [], [], [])
  }

  lemma {:induction false} ReadLayout(layout: seq<Spaced>)
    requires IsLayout(layout)
    ensures AbsorbAll(EMPTY, LayoutLines(layout)) == After(layout)
    decreases |layout|
  {
    if layout != [] {
      var n := |layout| - 1;
      var block, gap, before := layout[n].block, layout[n].gap, layout[..n];
      ReadLayout(before);
      AbsorbSplit(EMPTY, LayoutLines(before) + LinesOf(block), gap);
      AbsorbSplit(EMPTY, LayoutLines(before), LinesOf(block));
      ReadNext(layout);
      if gap != [] {
        GapFlushes(Pending(RenderedAll(before), block), gap);
        PendingFlushes(RenderedAll(before), block);
      }
    }
  }

  lemma {:induction false} ReadNext(layout: seq<Spaced>)
    requires IsLayout(layout) && layout != []
    ensures var n := |layout| - 1;
      AbsorbAll(After(layout[..n]), LinesOf(layout[n].block)) == Pending(RenderedAll(layout[..n]), layout[n].block)
  {
    var n := |layout| - 1;
    if n == 0 {
      BlockLines([], layout[n].block);
    } else if layout[n - 1].gap == [] {
      var intro := layout[n - 1].block;
      assert intro.Paragraph? && layout[(n - 1) + 1].block.Bullets?;
      assert layout[..n][..n - 1] == layout[..n - 1];
      JoinLineIs(intro.lines);
      BulletLines(RenderedAll(layout[..n - 1]), intro.lines, layout[n].block.items);
    } else {
      BlockLines(RenderedAll(layout[..n]), layout[n].block);
    }
  }

  ghost predicate AllBlank(lines: seq<string>) {
    forall k :: 0 <= k < |lines| ==> IsBlank(lines[k])
  }

  /** Each paragraph becomes one line and each list one line per item, in order. */
  lemma {:induction false} LayoutRendered(lead: seq<string>, layout: seq<Spaced>)
    requires AllBlank(lead) && IsLayout(layout)
    ensures BlocksOf(lead + LayoutLines(layout)) == RenderedAll(layout)
  {
    AbsorbSplit(EMPTY, lead, LayoutLines(layout));
    if lead != [] {
      GapFlushes(EMPTY, lead);
      FlushEmpties(EMPTY);
    }
    ReadLayout(layout);
    if layout != [] {
      PendingFlushes(RenderedAll(layout[..|layout| - 1]), layout[|layout| - 1].block);
      FlushEmpties(After(layout));
    }
  }

  // ---------- Every description has a layout ----------

  ghost predicate MayFollow(before: seq<Spaced>, block: Block) {
    before == [] ||
    var last := before[|before| - 1];
    last.gap == [] ==> last.block.Paragraph? && block.Bullets?
  }

  lemma {:induction false} LayoutPush(before: seq<Spaced>, last: Spaced)
    requires IsLayout(before) && IsSpaced(last) && MayFollow(before, last.block)
    ensures IsLayout(before + [last])
    ensures LayoutLines(before + [last]) == LayoutLines(before) + LinesOf(last.block) + last.gap
  {
    var layout := before + [last];
    assert layout[..|before|] == before && layout[|before|] == last;
  }

  /** The block with one more line. */
  ghost function Grown(block: Block, line: string): Block
    requires IsBlock(block)
  {
    match block
    case Paragraph(lines) => Paragraph(lines + [line])
    case Bullets(items) =>
      var n := |items| - 1;
      Bullets(if StartsItem(line) then items + [[line]] else items[..n] + [items[n] + [line]])
  }

  lemma {:induction false} ConcatPush(parts: seq<seq<string>>, part: seq<string>)
    ensures Concat(parts + [part]) == Concat(parts) + part
  {
    assert (parts + [part])[..|parts|] == parts;
  }

  lemma {:induction false} GrownLines(block: Block, line: string)
    requires IsBlock(block) && !IsBlank(line) && (block.Paragraph? ==> !StartsItem(line))
    ensures IsBlock(Grown(block, line)) && LinesOf(Grown(block, line)) == LinesOf(block) + [line]
  {
    if block.Bullets? {
      var items, n := block.items, |block.items| - 1;
      if StartsItem(line) {
        ConcatPush(items, [line]);
      } else {
        assert IsItem(items[n]);
        assert (items[n] + [line])[1..] == items[n][1..] + [line];
        assert IsItem(items[n] + [line]);
        ConcatPush(items[..n], items[n] + [line]);
        Associates(Concat(items[..n]), items[n], [line]);
      }
    }
  }

  ghost function NewBlock(line: string): Block {
    if StartsItem(line) then Bullets([[line]]) else Paragraph([line])
  }

  lemma {:induction false} NewBlockLines(line: string)
    requires !IsBlank(line)
    ensures IsBlock(NewBlock(line)) && LinesOf(NewBlock(line)) == [line]
  {
    ConcatPush([], [line]);
    assert [] + [[line]] == [[line]] && Concat([]) == [];
  }

  lemma {:induction false} NewGrows(layout: seq<Spaced>, line: string) returns (more: seq<Spaced>)
    requires IsLayout(layout) && !IsBlank(line) && MayFollow(layout, NewBlock(line))
    ensures IsLayout(more) && LayoutLines(more) == LayoutLines(layout) + [line]
  {
    NewBlockLines(line);
    LayoutPush(layout, Spaced(NewBlock(line), []));
    more := layout + [Spaced(NewBlock(line), [])];
    assert LayoutLines(layout) + [line] + [] == LayoutLines(layout) + [line];
  }

  lemma {:induction false} GapGrows(before: seq<Spaced>, last: Spaced, line: string) returns (more: seq<Spaced>)
    requires IsLayout(before) && IsSpaced(last) && MayFollow(before, last.block) && IsBlank(line)
    ensures IsLayout(more) && LayoutLines(more) == LayoutLines(before) + LinesOf(last.block) + last.gap + [line]
  {
    LayoutPush(before, last.(gap := last.gap + [line]));
    more := before + [last.(gap := last.gap + [line])];
    Associates(LayoutLines(before) + LinesOf(last.block), last.gap, [line]);
  }

  lemma {:induction false} BlockGrows(before: seq<Spaced>, block: Block, line: string) returns (more: seq<Spaced>)
    requires IsLayout(before) && IsBlock(block) && MayFollow(before, block)
    requires !IsBlank(line) && (block.Paragraph? ==> !StartsItem(line))
    ensures IsLayout(more) && LayoutLines(more) == LayoutLines(before) + LinesOf(block) + [line]
  {
    GrownLines(block, line);
    LayoutPush(before, Spaced(Grown(block, line), []));
    more := before + [Spaced(Grown(block, line), [])];
    Associates(LayoutLines(before), LinesOf(block), [line]);
    assert LayoutLines(before) + (LinesOf(block) + [line]) + [] == LayoutLines(before) + (LinesOf(block) + [line]);
  }

  /** The layout with one more line. */
  lemma {:induction false} LayoutGrows(layout: seq<Spaced>, line: string) returns (more: seq<Spaced>)
    requires IsLayout(layout) && (layout == [] ==> !IsBlank(line))
    ensures IsLayout(more) && LayoutLines(more) == LayoutLines(layout) + [line]
  {
    if !IsBlank(line) && MayFollow(layout, NewBlock(line)) {
      more := NewGrows(layout, line);
    } else {
      var n := |layout| - 1;
      if IsBlank(line) {
        more := GapGrows(layout[..n], layout[n], line);
      } else {
        more := BlockGrows(layout[..n], layout[n].block, line);
        assert LayoutLines(layout[..n]) + LinesOf(layout[n].block) + [] ==
          LayoutLines(layout[..n]) + LinesOf(layout[n].block);
      }
    }
  }

  /** Any lines at all are blank lines followed by a layout. */
  lemma {:induction false} HasLayout(lines: seq<string>) returns (lead: seq<string>, layout: seq<Spaced>)
    ensures AllBlank(lead) && IsLayout(layout) && lines == lead + LayoutLines(layout)
    decreases |lines|
  {
    lead, layout := [], [];
    if lines != [] {
      var n := |lines| - 1;
      lead, layout := HasLayout(lines[..n]);
      assert lines == lines[..n] + [lines[n]];
      if layout == [] && IsBlank(lines[n]) {
        assert lead + LayoutLines([]) == lead;
        lead := lead + [lines[n]];
        assert lead + LayoutLines([]) == lead;
      } else {
        var more := LayoutGrows(layout, lines[n]);
        Associates(lead, LayoutLines(layout), [lines[n]]);
        layout := more;
      }
    }
  }

  /** Whatever its lines, a description reads as paragraphs and lists, and its blocks are those rendered. */
  lemma {:induction false} DescriptionRendered(lines: seq<string>) returns (lead: seq<string>, layout: seq<Spaced>)
    ensures AllBlank(lead) && IsLayout(layout) && lines == lead + LayoutLines(layout)
    ensures BlocksOf(lines) == RenderedAll(layout)
  {
    lead, layout := HasLayout(lines);
    LayoutRendered(lead, layout);
  }

  // ---------- The lines of the text ----------

  /** The lines of each block, with an empty line between each block and the next. */
  ghost function ShownLines(layout: seq<Spaced>): seq<string> {
    if layout == [] then []
    else
      var n := |layout| - 1;
      if n == 0 then BlockShown(layout[0].block) else ShownLines(layout[..n]) + [""] + BlockShown(layout[n].block)
  }

  lemma {:induction false} OneLine(parts: seq<string>)
    ensures '\n' !in Line(Flat(parts))
  {
    JoinLineIs(parts);
  }

  lemma {:induction false} ItemsApart(items: seq<seq<string>>)
    ensures |ItemLines(items)| == |items| && Apart(ItemLines(items), '\n')
  {
    if items != [] {
      ItemsApart(items[..|items| - 1]);
      OneLine(items[|items| - 1]);
    }
  }

  lemma {:induction false} BlockApart(block: Block)
    requires IsBlock(block)
    ensures BlockShown(block) != [] && Apart(BlockShown(block), '\n')
  {
    match block
    case Paragraph(lines) => OneLine(lines);
    case Bullets(items) => ItemsApart(items);
  }

  /** A rendered paragraph is one line, and a rendered list has one line for each item. */
  lemma {:induction false} RenderedLines(block: Block)
    requires IsBlock(block)
    ensures Split(Rendered(block), '\n') == BlockShown(block)
    ensures block.Bullets? ==> |BlockShown(block)| == |block.items|
  {
    BlockApart(block);
    SplitJoined(BlockShown(block), '\n');
    if block.Bullets? {
      ItemsApart(block.items);
    }
  }

  lemma {:induction false} ShownText(layout: seq<Spaced>)
    requires IsLayout(layout) && layout != []
    ensures ShownLines(layout) != [] && Apart(ShownLines(layout), '\n') && RenderedAll(layout) != []
    ensures TextOf(RenderedAll(layout)) == Joined(ShownLines(layout), '\n')
    decreases |layout|
  {
    var n := |layout| - 1;
    var block := layout[n].block;
    BlockApart(block);
    if n == 0 {
      assert RenderedAll(layout) == [Rendered(block)];
    } else {
      ShownText(layout[..n]);
      TextPush(RenderedAll(layout[..n]), Rendered(block));
      JoinedAround(ShownLines(layout[..n]), BlockShown(block));
    }
  }

  lemma {:induction false} JoinedAround(a: seq<string>, b: seq<string>)
    requires a != [] && b != []
    ensures Joined(a + [""] + b, '\n') == Joined(a, '\n') + "\n\n" + Joined(b, '\n')
  {
    JoinedAppend(a, [""], '\n');
    JoinedAppend(a + [""], b, '\n');
    assert Joined(a, '\n') + "\n" + "" + "\n" == Joined(a, '\n') + "\n\n";
  }

  /** The lines of the text are those of its blocks, with empty ones between the blocks. */
  lemma {:induction false} TextLines(layout: seq<Spaced>)
    requires IsLayout(layout) && layout != []
    ensures Split(TextOf(RenderedAll(layout)), '\n') == ShownLines(layout)
  {
    ShownText(layout);
    SplitJoined(ShownLines(layout), '\n');
  }

  /** What a layout reads like. */
  ghost function Shown(layout: seq<Spaced>): string {
    if ShownLines(layout) == [] then "" else Joined(ShownLines(layout), '\n')
  }

  lemma {:induction false} ShownIsText(layout: seq<Spaced>)
    requires IsLayout(layout)
    ensures TextOf(RenderedAll(layout)) == Shown(layout)
  {
    if layout != [] {
      ShownText(layout);
    }
  }
}
