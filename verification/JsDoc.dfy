/** The line-by-line parser that turns a JSDoc comment into description prose and a dispatch mode. */
module JsDoc {
  import opened Options
  import opened MarkdownLinks
  import opened JsDocText

  // ---------- The buffers ----------

  datatype Buffers = Buffers(blocks: seq<string>, para: seq<string>, list: seq<string>, item: seq<string>)

  function FlushItem(b: Buffers): Buffers {
    b.(list := if b.item != [] then b.list + [JoinLine(b.item)] else b.list, item := [])
  }

  function FlushList(b: Buffers): Buffers {
    var f := FlushItem(b);
    f.(blocks := if f.list != [] then f.blocks + [JoinWith(f.list, "\n")] else f.blocks, list := [])
  }

  function FlushPara(b: Buffers): Buffers {
    var f := FlushList(b);
    f.(blocks := if f.para != [] then f.blocks + [JoinLine(f.para)] else f.blocks, para := [])
  }

  /** Everything buffered so far, in order. */
  ghost function Content(b: Buffers): seq<string> {
    Flat(b.blocks) + Flat(b.para) + Flat(b.list) + Flat(b.item)
  }

  /** A paragraph and a list are never pending together, and a pending list has a pending item. */
  ghost predicate Exclusive(b: Buffers) {
    (b.para != [] ==> b.item == []) && (b.item == [] ==> b.list == [])
  }

  lemma {:induction false} FlushItemKeeps(b: Buffers)
    ensures Flat(FlushItem(b).list) == Flat(b.list) + Flat(b.item)
  {
    if b.item != [] {
      JoinLineWords(b.item);
      FlatPush(b.list, JoinLine(b.item));
    }
  }

  lemma {:induction false} FlushListKeeps(b: Buffers)
    ensures Flat(FlushList(b).blocks) == Flat(b.blocks) + (Flat(b.list) + Flat(b.item))
  {
    var items := FlushItem(b).list;
    FlushItemKeeps(b);
    if items != [] {
      JoinWords(items, "\n");
      FlatPush(b.blocks, JoinWith(items, "\n"));
    }
  }

  lemma {:induction false} FlushParaKeeps(b: Buffers)
    requires Exclusive(b)
    ensures var f := FlushPara(b);
      Content(f) == Content(b) && f.para == [] && f.list == [] && f.item == [] && Flat(f.blocks) == Content(b)
  {
    var lists := FlushList(b).blocks;
    FlushListKeeps(b);
    if b.para != [] {
      JoinLineWords(b.para);
      FlatPush(lists, JoinLine(b.para));
      assert Flat(b.list) == [] && Flat(b.item) == [];
    } else {
      assert Flat(b.para) == [];
      assert Flat(b.blocks) + Flat(b.list) + Flat(b.item) == Flat(b.blocks) + (Flat(b.list) + Flat(b.item));
    }
  }

  /** A list item starts: `-` and white space. */
  predicate StartsItem(line: string) {
    |line| >= 2 && line[0] == '-' && IsSpace(line[1])
  }

  /** The buffers after one prose line. */
  function Absorb(b: Buffers, line: string): Buffers {
    if Trim(line) == "" then FlushPara(b)
    else if StartsItem(line) then
      var f := FlushItem(b);
      f.(blocks := if f.para != [] then f.blocks + [JoinLine(f.para)] else f.blocks, para := [],
        item := f.item + [line])
    else if b.item != [] then b.(item := b.item + [line])
    else b.(para := b.para + [line])
  }

  /** A prose line adds exactly its words, behind all earlier ones. */
  lemma {:induction false} AbsorbKeeps(b: Buffers, line: string)
    requires Exclusive(b)
    ensures Exclusive(Absorb(b, line)) && Content(Absorb(b, line)) == Content(b) + Words(line)
  {
    if Trim(line) == "" {
      FlushParaKeeps(b);
      TrimWords(line);
      assert Content(b) + [] == Content(b);
    } else if StartsItem(line) {
      ItemKeeps(b, line);
    } else if b.item != [] {
      PushItem(b, line);
    } else {
      PushPara(b, line);
    }
  }

  lemma {:induction false} PushItem(b: Buffers, line: string)
    ensures Content(b.(item := b.item + [line])) == Content(b) + Words(line)
  {
    FlatPush(b.item, line);
    Associates(Flat(b.blocks) + Flat(b.para) + Flat(b.list), Flat(b.item), Words(line));
  }

  lemma {:induction false} PushPara(b: Buffers, line: string)
    requires b.list == [] && b.item == []
    ensures Content(b.(para := b.para + [line])) == Content(b) + Words(line)
  {
    FlatPush(b.para, line);
    Associates(Flat(b.blocks), Flat(b.para), Words(line));
  }

  lemma {:induction false} ItemKeeps(b: Buffers, line: string)
    requires Exclusive(b) && Trim(line) != "" && StartsItem(line)
    ensures Exclusive(Absorb(b, line)) && Content(Absorb(b, line)) == Content(b) + Words(line)
  {
    assert [] + [line] == [line];
    if b.para != [] {
      ItemAfterPara(b.blocks, b.para, line);
      assert b == Buffers(b.blocks, b.para, [], []);
    } else {
      FlushItemKeeps(b);
      ItemAfterItems(b.blocks, b.list, b.item, FlushItem(b).list, line);
    }
  }

  lemma {:induction false} ItemAfterPara(blocks: seq<string>, para: seq<string>, line: string)
    ensures Content(Buffers(blocks + [JoinLine(para)], [], [], [line]))
         == Content(Buffers(blocks, para, [], [])) + Words(line)
  {
    JoinLineWords(para);
    FlatPush(blocks, JoinLine(para));
    FlatOne(line);
  }

  lemma {:induction false} ItemAfterItems(blocks: seq<string>, list: seq<string>, item: seq<string>,
                                          more: seq<string>, line: string)
    requires Flat(more) == Flat(list) + Flat(item)
    ensures Content(Buffers(blocks, [], more, [line])) == Content(Buffers(blocks, [], list, item)) + Words(line)
  {
    FlatOne(line);
    Associates(Flat(blocks) + Flat([]), Flat(list), Flat(item));
  }

  // ---------- Tags ----------

  predicate StartsWith(s: string, prefix: string) {
    prefix <= s
  }

  predicate IsTag(line: string) {
    StartsWith(TrimStart(line), "@")
  }

  predicate IsMode(s: string) {
    s in ["emit", "waterfall", "parallel", "serial", "bail"]
  }

  predicate IsWordChar(c: char) {
    'a' <= c <= 'z' || 'A' <= c <= 'Z' || '0' <= c <= '9' || c == '_'
  }

  /** `@mode` as a whole word. */
  predicate IsModeTag(line: string) {
    var t := TrimStart(line);
    StartsWith(t, "@mode") && (|t| == 5 || !IsWordChar(t[5]))
  }

  /** The valid mode a line names, if any. */
  function ModeOf(line: string): Option<string> {
    var t := TrimStart(line);
    if StartsWith(t, "@mode") && |t| > 5 && IsSpace(t[5]) && IsMode(Trim(t[5..])) then Some(Trim(t[5..])) else None
  }

  /** The line is `@mode` and `m` between white space. */
  ghost predicate WritesMode(line: string, m: string, a: string, b: string, c: string) {
    AllSpace(a) && Blank(b) && AllSpace(c) && line == a + ("@mode" + (b + m + c))
  }

  lemma {:induction false} ModesTrimmed(m: string)
    requires IsMode(m)
    ensures m != "" && Trimmed(m)
  {
  }

  /** A line names a valid mode exactly when it is the tag and that mode, apart from white space. */
  lemma {:induction false} ModeOfIff(line: string, m: string)
    ensures ModeOf(line) == Some(m) <==>
      && (m == "emit" || m == "waterfall" || m == "parallel" || m == "serial" || m == "bail")
      && exists a, b, c :: WritesMode(line, m, a, b, c)
  {
    if ModeOf(line) == Some(m) {
      ModeRead(line, m);
    }
    if IsMode(m) {
      if a, b, c :| WritesMode(line, m, a, b, c) {
        ModeWritten(line, m, a, b, c);
      }
    }
  }

  lemma {:induction false} ModeRead(line: string, m: string)
    requires ModeOf(line) == Some(m)
    ensures exists a, b, c :: WritesMode(line, m, a, b, c)
  {
    var t := TrimStart(line);
    var a := TrimStartParts(line);
    var b, c := TrimParts(t[5..]);
    ModesTrimmed(m);
    assert t == "@mode" + t[5..] && t[5..][0] == t[5];
    assert b != "";
    assert WritesMode(line, m, a, b, c);
  }

  lemma {:induction false} ModeWritten(line: string, m: string, a: string, b: string, c: string)
    requires IsMode(m) && WritesMode(line, m, a, b, c)
    ensures ModeOf(line) == Some(m)
  {
    var t := "@mode" + (b + m + c);
    TrimStartOf(a, t);
    ModesTrimmed(m);
    TrimOf(b, m, c);
    assert t[5..] == b + m + c && t[5] == b[0];
  }

  /** A tag is an at sign behind white space, and the mode tag is `@mode` there as a whole word. */
  lemma {:induction false} TagOf(blank: string, text: string)
    requires AllSpace(blank) && (text == "" || !IsSpace(text[0]))
    ensures IsTag(blank + text) <==> text != "" && text[0] == '@'
    ensures IsModeTag(blank + text) <==>
      |text| >= 5 && text[..5] == "@mode" && (|text| == 5 || !IsWordChar(text[5]))
  {
    TrimStartOf(blank, text);
  }

  /** An item starts with a dash and white space. */
  lemma {:induction false} ItemOf(line: string)
    ensures StartsItem(line) <==> exists c: char, rest: string :: IsSpace(c) && line == "-" + [c] + rest
  {
    if StartsItem(line) {
      assert line == "-" + [line[1]] + line[2..];
    }
  }

  // ---------- The parser ----------

  /** The lines before the first block tag. */
  ghost function Description(lines: seq<string>): seq<string> {
    if lines == [] || IsTag(lines[0]) then [] else [lines[0]] + Description(lines[1..])
  }

  const EMPTY := Buffers([], [], [], [])

  ghost function Fold(step: (Buffers, string) -> Buffers, b: Buffers, lines: seq<string>): Buffers {
    if lines == [] then b else step(Fold(step, b, lines[..|lines| - 1]), lines[|lines| - 1])
  }

  /** The buffers after several prose lines. */
  ghost function AbsorbAll(b: Buffers, lines: seq<string>): Buffers {
    Fold(Absorb, b, lines)
  }

  /** The blocks that prose lines make up. */
  ghost function BlocksOf(lines: seq<string>): seq<string> {
    FlushPara(AbsorbAll(EMPTY, lines)).blocks
  }

  datatype Parsed = Parsed(text: string, mode: Option<string>, hasMode: bool)

  /** The mode of the last line that names a valid one. */
  ghost predicate IsLastMode(lines: seq<string>, mode: Option<string>) {
    if mode.None? then forall i :: 0 <= i < |lines| ==> ModeOf(lines[i]).None?
    else
      exists i :: 0 <= i < |lines| && ModeOf(lines[i]) == mode
        && forall j :: i < j < |lines| ==> ModeOf(lines[j]).None?
  }

  /** Lines read so far: all prose, or with a first tag that ended the description. */
  ghost predicate ParseInv(lines: seq<string>, i: nat, b: Buffers, inTags: bool) {
    && i <= |lines|
    && if inTags then b == Buffers(BlocksOf(Description(lines)), [], [], [])
       else b == AbsorbAll(EMPTY, lines[..i]) && Description(lines) == lines[..i] + Description(lines[i..])
  }

  ghost predicate ModeInv(lines: seq<string>, i: nat, mode: Option<string>, hasMode: bool) {
    && i <= |lines| && IsLastMode(lines[..i], mode)
    && (hasMode <==> exists j :: 0 <= j < i && NamesMode(lines[j]))
  }

  predicate NamesMode(line: string) {
    IsModeTag(line) || ModeOf(line).Some?
  }

  method ParseJsDoc(lines: seq<string>) returns (r: Parsed)
    ensures r.text == TextOf(BlocksOf(Description(lines)))
    ensures Words(r.text) == Flat(Description(lines))
    ensures IsLastMode(lines, r.mode)
    ensures r.hasMode <==> exists i :: 0 <= i < |lines| && NamesMode(lines[i])
  {
    var mode: Option<string> := None;
    var hasMode, inTags := false, false;
    var b := EMPTY;
    assert lines[0..] == lines;
    for i := 0 to |lines|
      invariant ParseInv(lines, i, b, inTags)
      invariant ModeInv(lines, i, mode, hasMode)
    {
      var line := lines[i];
      ModeKeeps(lines, i, mode, hasMode);
      if ModeOf(line).Some? {
        mode := ModeOf(line);
      }
      if NamesMode(line) {
        hasMode := true;
      }
      b, inTags := ReadLine(lines, i, b, inTags);
    }
    assert lines[..|lines|] == lines;
    var text := Finish(lines, b, inTags);
    r := Parsed(text, mode, hasMode);
  }

  /** One line's effect on the buffers: a tag ends the description, and nothing after it is prose. */
  method ReadLine(lines: seq<string>, i: nat, before: Buffers, tagged: bool) returns (b: Buffers, inTags: bool)
    requires i < |lines| && ParseInv(lines, i, before, tagged)
    ensures ParseInv(lines, i + 1, b, inTags)
  {
    b, inTags := before, tagged;
    if IsTag(lines[i]) {
      TagKeeps(lines, i, b, inTags);
      b := FlushPara(b);
      inTags := true;
    } else if !inTags {
      ProseKeeps(lines, i, b);
      b := Absorb(b, lines[i]);
    }
  }

  method Finish(ghost lines: seq<string>, b: Buffers, ghost inTags: bool) returns (text: string)
    requires ParseInv(lines, |lines|, b, inTags)
    ensures text == TextOf(BlocksOf(Description(lines))) && Words(text) == Flat(Description(lines))
  {
    EndFlushed(lines, b, inTags);
    DescriptionWords(Description(lines));
    JoinBlocksIs(BlocksOf(Description(lines)));
    text := JoinWith(FlushPara(b).blocks, "\n\n");
  }

  lemma {:induction false} ModeKeeps(lines: seq<string>, i: nat, mode: Option<string>, hasMode: bool)
    requires i < |lines| && ModeInv(lines, i, mode, hasMode)
    ensures ModeInv(lines, i + 1, if ModeOf(lines[i]).Some? then ModeOf(lines[i]) else mode,
      hasMode || NamesMode(lines[i]))
  {
    assert lines[..i + 1] == lines[..i] + [lines[i]];
    LastModeStep(lines[..i], mode, lines[i]);
  }

  lemma {:induction false} LastModeStep(lines: seq<string>, mode: Option<string>, line: string)
    requires IsLastMode(lines, mode)
    ensures IsLastMode(lines + [line], if ModeOf(line).Some? then ModeOf(line) else mode)
  {
    var more := lines + [line];
    if ModeOf(line).Some? {
      assert more[|lines|] == line;
    } else if mode.Some? {
      var i :| 0 <= i < |lines| && ModeOf(lines[i]) == mode && forall j :: i < j < |lines| ==> ModeOf(lines[j]).None?;
      assert more[i] == lines[i];
    }
  }

  lemma {:induction false} FlushEmpties(b: Buffers)
    ensures FlushPara(b) == Buffers(FlushPara(b).blocks, [], [], [])
    ensures b.para == [] && b.list == [] && b.item == [] ==> FlushPara(b) == b
  {
  }

  lemma {:induction false} TagKeeps(lines: seq<string>, i: nat, b: Buffers, inTags: bool)
    requires i < |lines| && ParseInv(lines, i, b, inTags) && IsTag(lines[i])
    ensures ParseInv(lines, i + 1, FlushPara(b), true)
  {
    FlushEmpties(b);
    if !inTags {
      assert lines[i..][0] == lines[i] && Description(lines[i..]) == [];
      assert lines[..i] + [] == lines[..i];
    }
  }

  lemma {:induction false} ProseKeeps(lines: seq<string>, i: nat, b: Buffers)
    requires i < |lines| && ParseInv(lines, i, b, false) && !IsTag(lines[i])
    ensures ParseInv(lines, i + 1, Absorb(b, lines[i]), false)
  {
    var rest := Description(lines[i + 1..]);
    assert lines[i..][0] == lines[i] && lines[i..][1..] == lines[i + 1..];
    assert Description(lines[i..]) == [lines[i]] + rest;
    assert lines[..i + 1] == lines[..i] + [lines[i]];
    Associates(lines[..i], [lines[i]], rest);
    assert lines[..i + 1][..i] == lines[..i];
  }

  lemma {:induction false} EndFlushed(lines: seq<string>, b: Buffers, inTags: bool)
    requires ParseInv(lines, |lines|, b, inTags)
    ensures FlushPara(b).blocks == BlocksOf(Description(lines))
  {
    FlushEmpties(b);
    if !inTags {
      assert lines[|lines|..] == [] && Description([]) == [];
      assert lines[..|lines|] + [] == lines[..|lines|];
    }
  }

  // ---------- No word is lost, repeated or moved ----------

  ghost predicate AddsWords(step: (Buffers, string) -> Buffers) {
    forall b, line {:trigger step(b, line)} :: Exclusive(b) ==>
      Exclusive(step(b, line)) && Content(step(b, line)) == Content(b) + Words(line)
  }

  lemma {:induction false} FoldKeeps(step: (Buffers, string) -> Buffers, lines: seq<string>)
    requires AddsWords(step)
    ensures Exclusive(Fold(step, EMPTY, lines)) && Content(Fold(step, EMPTY, lines)) == Flat(lines)
    decreases |lines|
  {
    if lines != [] {
      var n := |lines| - 1;
      FoldKeeps(step, lines[..n]);
      assert lines == lines[..n] + [lines[n]];
      FlatPush(lines[..n], lines[n]);
    }
  }

  lemma {:induction false} AbsorbAddsWords()
    ensures AddsWords(Absorb)
  {
    forall b, line | Exclusive(b)
      ensures Exclusive(Absorb(b, line)) && Content(Absorb(b, line)) == Content(b) + Words(line)
    {
      AbsorbKeeps(b, line);
    }
  }

  lemma {:induction false} DescriptionWords(lines: seq<string>)
    ensures Words(TextOf(BlocksOf(lines))) == Flat(lines)
  {
    AbsorbAddsWords();
    FoldKeeps(Absorb, lines);
    FlushParaKeeps(AbsorbAll(EMPTY, lines));
    BlockWords(BlocksOf(lines), Flat(lines));
  }

  lemma {:induction false} BlockWords(blocks: seq<string>, words: seq<string>)
    requires Flat(blocks) == words
    ensures Words(TextOf(blocks)) == words
  {
    JoinWords(blocks, "\n\n");
    JoinBlocksIs(blocks);
  }
}
