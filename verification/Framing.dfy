/** Length-framed byte streams: the client artifact digest's input, and `git cat-file --batch` output. */
module Framing {
  import opened Options

  type byte = x: int | 0 <= x < 256

  const COLON: byte := ':' as int
  const SPACE: byte := ' ' as int
  const NEWLINE: byte := '\n' as int

  // ---------- Decimal numbers ----------

  predicate IsDigit(b: byte) {
    0x30 <= b <= 0x39
  }

  function Decimal(n: nat): (s: seq<byte>)
    ensures s != [] && forall i :: 0 <= i < |s| ==> IsDigit(s[i])
  {
    if n < 10 then [0x30 + n] else Decimal(n / 10) + [0x30 + n % 10]
  }

  function Value(digits: seq<byte>): int {
    if digits == [] then 0 else 10 * Value(digits[..|digits| - 1]) + digits[|digits| - 1] - 0x30
  }

  lemma {:induction false} ValueOfDecimal(n: nat)
    ensures Value(Decimal(n)) == n
  {
    var s := Decimal(n);
    if n < 10 {
      assert s[..0] == [];
    } else {
      ValueOfDecimal(n / 10);
      assert s[..|s| - 1] == Decimal(n / 10);
    }
  }

  /** The first position of `b` at or after `from`, or `|s|` when there is none. */
  function IndexOf(s: seq<byte>, b: byte, from: nat): (i: nat)
    requires from <= |s|
    ensures from <= i <= |s| && (i < |s| ==> s[i] == b) && forall j :: from <= j < i ==> s[j] != b
    decreases |s| - from
  {
    if from == |s| || s[from] == b then from else IndexOf(s, b, from + 1)
  }

  // ---------- The digest's input stream ----------

  datatype Artifact = Artifact(path: seq<byte>, content: seq<byte>)

  function Field(bytes: seq<byte>): seq<byte> {
    Decimal(|bytes|) + [COLON] + bytes
  }

  /** Everything fed to the digest for a list of artifacts. */
  ghost function Stream(artifacts: seq<Artifact>): seq<byte> {
    if artifacts == [] then []
    else Field(artifacts[0].path) + Field(artifacts[0].content) + Stream(artifacts[1..])
  }

  lemma {:induction false} FedFields(fed: seq<byte>, a: Artifact, rest: seq<byte>)
    ensures fed + (Decimal(|a.path|) + [COLON]) + a.path + (Decimal(|a.content|) + [COLON]) + a.content + rest
         == fed + (Field(a.path) + Field(a.content) + rest)
  {
  }

  method FeedDigest(artifacts: seq<Artifact>) returns (fed: seq<byte>)
    ensures fed == Stream(artifacts)
  {
    fed := [];
    for i := 0 to |artifacts|
      invariant fed + Stream(artifacts[i..]) == Stream(artifacts)
    {
      var a := artifacts[i];
      FedFields(fed, a, Stream(artifacts[i + 1..]));
      assert artifacts[i..][0] == a && artifacts[i..][1..] == artifacts[i + 1..];
      fed := fed + (Decimal(|a.path|) + [COLON]);
      fed := fed + a.path;
      fed := fed + (Decimal(|a.content|) + [COLON]);
      fed := fed + a.content;
    }
    assert fed + [] == fed;
  }

  datatype Read = Read(field: seq<byte>, rest: seq<byte>) | Malformed

  function ReadField(s: seq<byte>): Read {
    var i := IndexOf(s, COLON, 0);
    if i == |s| then Malformed
    else
      var n := Value(s[..i]);
      if 0 <= n <= |s| - i - 1 then Read(s[i + 1..i + 1 + n], s[i + 1 + n..]) else Malformed
  }

  lemma {:induction false} ReadBackField(bytes: seq<byte>, rest: seq<byte>)
    ensures ReadField(Field(bytes) + rest) == Read(bytes, rest)
  {
    var d, s := Decimal(|bytes|), Field(bytes) + rest;
    var i := IndexOf(s, COLON, 0);
    assert forall j :: 0 <= j < |d| ==> s[j] == d[j];
    assert s[|d|] == COLON;
    assert i == |d|;
    assert s[..i] == d;
    ValueOfDecimal(|bytes|);
    assert s[i + 1..i + 1 + |bytes|] == bytes && s[i + 1 + |bytes|..] == rest;
  }

  /** Reads the artifacts back from the stream. */
  function Decode(s: seq<byte>): Option<seq<Artifact>>
    decreases |s|
  {
    if s == [] then Some([])
    else
      var path := ReadField(s);
      if path.Malformed? then None
      else
        var content := ReadField(path.rest);
        if content.Malformed? || |content.rest| >= |s| then None
        else
          var others := Decode(content.rest);
          if others.None? then None else Some([Artifact(path.field, content.field)] + others.value)
  }

  lemma {:induction false} DecodeStream(artifacts: seq<Artifact>)
    ensures Decode(Stream(artifacts)) == Some(artifacts)
    decreases |artifacts|
  {
    if artifacts != [] {
      var a, rest := artifacts[0], Stream(artifacts[1..]);
      assert Stream(artifacts) == Field(a.path) + (Field(a.content) + rest);
      ReadBackField(a.path, Field(a.content) + rest);
      ReadBackField(a.content, rest);
      DecodeStream(artifacts[1..]);
      assert artifacts == [a] + artifacts[1..];
    }
  }

  /** Different artifact lists never feed the digest the same bytes. */
  lemma {:induction false} StreamInjective(a: seq<Artifact>, b: seq<Artifact>)
    requires Stream(a) == Stream(b)
    ensures a == b
  {
    DecodeStream(a);
    DecodeStream(b);
  }

  /** The hash confuses the two inputs. */
  ghost predicate Collides<D>(hash: seq<byte> -> D, x: seq<byte>, y: seq<byte>) {
    x != y && hash(x) == hash(y)
  }

  /** A digest is unchanged exactly when the artifacts are, or when the hash confuses their two streams. */
  lemma {:induction false} DigestDetectsChange<D>(hash: seq<byte> -> D, recorded: seq<Artifact>, current: seq<Artifact>)
    ensures hash(Stream(recorded)) == hash(Stream(current)) <==>
            recorded == current || Collides(hash, Stream(recorded), Stream(current))
  {
    if recorded != current && Stream(recorded) == Stream(current) {
      StreamInjective(recorded, current);
    }
  }

  // ---------- Batch output ----------

  const MAX_SAFE_INTEGER := 9007199254740991
  const MISSING: seq<byte> :=
    [' ' as int, 'm' as int, 'i' as int, 's' as int, 's' as int, 'i' as int, 'n' as int, 'g' as int]

  /** One object as the batch command prints it. */
  datatype GitObject = Blob(oid: seq<byte>, kind: seq<byte>, content: seq<byte>)

  datatype Contents = AllRead(contents: map<string, seq<byte>>)
                    | NoHeader(path: string) | NoObject(path: string) | BadSize(path: string) | Truncated(path: string)

  predicate EndsWith(s: seq<byte>, suffix: seq<byte>) {
    |suffix| <= |s| && s[|s| - |suffix|..] == suffix
  }

  /** The third space-separated field of a header, empty when there are fewer. */
  function ThirdField(header: seq<byte>): seq<byte> {
    var i := IndexOf(header, SPACE, 0);
    if i == |header| then []
    else
      var j := IndexOf(header, SPACE, i + 1);
      if j == |header| then []
      else header[j + 1..IndexOf(header, SPACE, j + 1)]
  }

  /** How many leading bytes are digits. */
  function DigitRun(s: seq<byte>): (n: nat)
    ensures n <= |s| && (forall i :: 0 <= i < n ==> IsDigit(s[i])) && (n < |s| ==> !IsDigit(s[n]))
  {
    if s == [] || !IsDigit(s[0]) then 0
    else
      var n := 1 + DigitRun(s[1..]);
      assert forall i :: 1 <= i < n ==> s[i] == s[1..][i - 1];
      n
  }

  predicate IsBlank(b: byte) {
    0x09 <= b <= 0x0d || b == 0x20
  }

  /** Leading blanks, an optional sign, then as many digits as there are. */
  function ParseInt(s: seq<byte>): Option<int> {
    if s != [] && IsBlank(s[0]) then ParseInt(s[1..])
    else
      var signed := s != [] && (s[0] == 0x2d || s[0] == 0x2b);
      var digits := if signed then s[1..] else s;
      var n := DigitRun(digits);
      if n == 0 then None
      else Some(if signed && s[0] == 0x2d then -Value(digits[..n]) else Value(digits[..n]))
  }

  datatype Announced = Size(bytes: nat) | Absent | Unusable

  /** What a header says about the object that follows. */
  function Announces(header: seq<byte>): Announced {
    if EndsWith(header, MISSING) then Absent
    else
      var size := ParseInt(ThirdField(header));
      if size.None? || size.value > MAX_SAFE_INTEGER || size.value < 0 then Unusable else Size(size.value)
  }

  /** The frame that starts at `offset`: where its content lies, or what is wrong with it. */
  datatype Frame = Framed(start: nat, end: nat) | BadHeader | AbsentObject | InvalidSize | Cut

  function ReadFrame(announces: seq<byte> -> Announced, output: seq<byte>, offset: nat): (f: Frame)
    requires offset <= |output|
    ensures f.Framed? ==> offset < f.start <= f.end < |output| && output[f.end] == NEWLINE
  {
    var headerEnd := IndexOf(output, NEWLINE, offset);
    if headerEnd == |output| then BadHeader
    else
      match announces(output[offset..headerEnd])
      case Absent => AbsentObject
      case Unusable => InvalidSize
      case Size(bytes) =>
        var end := headerEnd + 1 + bytes;
        if end >= |output| || output[end] != NEWLINE then Cut else Framed(headerEnd + 1, end)
  }

  function Failed(frame: Frame, path: string): Contents
    requires !frame.Framed?
  {
    match frame
    case BadHeader => NoHeader(path)
    case AbsentObject => NoObject(path)
    case InvalidSize => BadSize(path)
    case Cut => Truncated(path)
  }

  /** Reading the frames of `paths[i..]` one after another from `offset`. */
  ghost function ReadAll(announces: seq<byte> -> Announced, output: seq<byte>, offset: nat, paths: seq<string>, i: nat,
                         contents: map<string, seq<byte>>): Contents
    requires offset <= |output| && i <= |paths|
    decreases |paths| - i
  {
    if i == |paths| then AllRead(contents)
    else
      var frame := ReadFrame(announces, output, offset);
      if frame.Framed? then
        ReadAll(announces, output, frame.end + 1, paths, i + 1, contents[paths[i] := output[frame.start..frame.end]])
      else Failed(frame, paths[i])
  }

  method ReadGitFiles(output: seq<byte>, paths: seq<string>) returns (r: Contents)
    ensures r == ReadAll(Announces, output, 0, paths, 0, map[])
  {
    r := ReadFrames(Announces, output, paths);
  }

  method ReadFrames(announces: seq<byte> -> Announced, output: seq<byte>, paths: seq<string>) returns (r: Contents)
    ensures r == ReadAll(announces, output, 0, paths, 0, map[])
  {
    var contents: map<string, seq<byte>> := map[];
    var offset: nat := 0;
    for i := 0 to |paths|
      invariant offset <= |output|
      invariant ReadAll(announces, output, 0, paths, 0, map[]) == ReadAll(announces, output, offset, paths, i, contents)
    {
      var frame := ReadFrame(announces, output, offset);
      if !frame.Framed? {
        return Failed(frame, paths[i]);
      }
      contents := contents[paths[i] := output[frame.start..frame.end]];
      offset := frame.end + 1;
    }
    r := AllRead(contents);
  }

  // ---------- Well-framed output ----------

  ghost predicate IsWord(s: seq<byte>) {
    forall i :: 0 <= i < |s| ==> s[i] != SPACE && s[i] != NEWLINE
  }

  ghost predicate Printable(b: GitObject) {
    IsWord(b.oid) && IsWord(b.kind) && |b.content| <= MAX_SAFE_INTEGER
  }

  function Header(b: GitObject): seq<byte> {
    b.oid + [SPACE] + b.kind + [SPACE] + Decimal(|b.content|)
  }

  function Printed(b: GitObject): seq<byte> {
    Header(b) + [NEWLINE] + b.content + [NEWLINE]
  }

  /** `frames[i..]` one after another. */
  ghost function Joined(frames: seq<seq<byte>>, i: nat): seq<byte>
    requires i <= |frames|
    decreases |frames| - i
  {
    if i == |frames| then [] else frames[i] + Joined(frames, i + 1)
  }

  ghost function FramesOf(objects: seq<GitObject>): (frames: seq<seq<byte>>)
    ensures |frames| == |objects| && forall i :: 0 <= i < |objects| ==> frames[i] == Printed(objects[i])
  {
    seq(|objects|, i requires 0 <= i < |objects| => Printed(objects[i]))
  }

  ghost function ContentsOf(objects: seq<GitObject>): (bodies: seq<seq<byte>>)
    ensures |bodies| == |objects| && forall i :: 0 <= i < |objects| ==> bodies[i] == objects[i].content
  {
    seq(|objects|, i requires 0 <= i < |objects| => objects[i].content)
  }

  ghost function Output(objects: seq<GitObject>): seq<byte> {
    Joined(FramesOf(objects), 0)
  }

  lemma {:induction false} FindAt(s: seq<byte>, b: byte, from: nat, at: nat)
    requires from <= at < |s| && s[at] == b && forall j :: from <= j < at ==> s[j] != b
    ensures IndexOf(s, b, from) == at
  {
  }

  lemma {:induction false} AllDigits(s: seq<byte>)
    requires forall i :: 0 <= i < |s| ==> IsDigit(s[i])
    ensures DigitRun(s) == |s|
    decreases |s|
  {
    if s != [] {
      AllDigits(s[1..]);
    }
  }

  lemma {:induction false} ParseDecimal(n: nat)
    ensures ParseInt(Decimal(n)) == Some(n)
  {
    var d := Decimal(n);
    AllDigits(d);
    ValueOfDecimal(n);
    assert IsDigit(d[0]) && d[..|d|] == d;
  }

  lemma {:induction false} NoNewlineInside(b: GitObject)
    requires Printable(b)
    ensures NEWLINE !in Header(b)
  {
  }

  lemma {:induction false} WordEnds(s: seq<byte>, front: seq<byte>, word: seq<byte>, rest: seq<byte>)
    requires s == front + word + rest && IsWord(word) && (rest == [] || rest[0] == SPACE)
    ensures IndexOf(s, SPACE, |front|) == |front| + |word|
  {
    var end := |front| + |word|;
    assert forall k :: |front| <= k < end ==> s[k] == word[k - |front|];
    if rest != [] {
      assert s[end] == rest[0];
      FindAt(s, SPACE, |front|, end);
    }
  }

  lemma {:induction false} ThirdOf(a: seq<byte>, b: seq<byte>, field: seq<byte>)
    requires IsWord(a) && IsWord(b) && IsWord(field)
    ensures ThirdField(a + [SPACE] + b + [SPACE] + field) == field
  {
    var front := a + [SPACE] + b + [SPACE];
    var h := front + field;
    assert h == [] + a + ([SPACE] + b + [SPACE] + field);
    WordEnds(h, [], a, [SPACE] + b + [SPACE] + field);
    assert h == (a + [SPACE]) + b + ([SPACE] + field);
    WordEnds(h, a + [SPACE], b, [SPACE] + field);
    assert h == front + field + [];
    WordEnds(h, front, field, []);
    assert h[|front|..] == field;
  }

  lemma {:induction false} DigitLast(front: seq<byte>, n: nat)
    ensures !EndsWith(front + Decimal(n), MISSING)
  {
    var h, d := front + Decimal(n), Decimal(n);
    assert h[|h| - 1] == d[|d| - 1];
    assert |h| >= 8 ==> h[|h| - 8..][7] == h[|h| - 1];
  }

  lemma {:induction false} HeaderAnnounces(b: GitObject)
    requires Printable(b)
    ensures Announces(Header(b)) == Size(|b.content|)
  {
    DigitLast(b.oid + [SPACE] + b.kind + [SPACE], |b.content|);
    ThirdOf(b.oid, b.kind, Decimal(|b.content|));
    ParseDecimal(|b.content|);
  }

  /** A one-line header that announces the body's length, then the body, each ended by a newline. */
  ghost predicate IsFrame(announces: seq<byte> -> Announced, frame: seq<byte>, body: seq<byte>) {
    exists h :: Frames(announces, h, frame, body)
  }

  ghost predicate Frames(announces: seq<byte> -> Announced, h: seq<byte>, frame: seq<byte>, body: seq<byte>) {
    frame == h + [NEWLINE] + body + [NEWLINE] && NEWLINE !in h && announces(h) == Size(|body|)
  }

  lemma {:induction false} PrintedIsFrame(b: GitObject)
    requires Printable(b)
    ensures IsFrame(Announces, Printed(b), b.content)
  {
    NoNewlineInside(b);
    HeaderAnnounces(b);
    assert Frames(Announces, Header(b), Printed(b), b.content);
  }

  /** A frame is read as one, whatever its body holds and whatever follows. */
  lemma {:induction false} ReadOne(announces: seq<byte> -> Announced, output: seq<byte>, offset: nat, frame: seq<byte>,
                                   body: seq<byte>, after: seq<byte>) returns (start: nat, end: nat)
    requires IsFrame(announces, frame, body)
    requires offset <= |output| && output[offset..] == frame + after
    ensures start <= end < |output| && ReadFrame(announces, output, offset) == Framed(start, end)
    ensures output[start..end] == body && output[end + 1..] == after
  {
    var h :| Frames(announces, h, frame, body);
    start := offset + |h| + 1;
    end := start + |body|;
    PrintedParts(output, offset, h, body, after);
    HeaderEndsAt(output, offset, h);
  }

  lemma {:induction false} PrintedParts(output: seq<byte>, offset: nat, h: seq<byte>, content: seq<byte>,
                                        after: seq<byte>)
    requires offset <= |output| && output[offset..] == h + [NEWLINE] + content + [NEWLINE] + after
    ensures var start := offset + |h| + 1;
      var end := start + |content|;
      && end < |output| && output[start - 1] == NEWLINE && output[end] == NEWLINE
      && output[offset..start - 1] == h && output[start..end] == content && output[end + 1..] == after
  {
    var t := h + [NEWLINE] + content + [NEWLINE] + after;
    assert forall k :: 0 <= k < |t| ==> output[offset + k] == t[k];
    assert t[|h|] == NEWLINE && t[|h| + 1 + |content|] == NEWLINE;
    assert t[..|h|] == h;
    assert t[|h| + 1..|h| + 1 + |content|] == content;
    assert t[|h| + 2 + |content|..] == after;
    assert output[offset..][..|h|] == output[offset..offset + |h|];
  }

  lemma {:induction false} HeaderEndsAt(output: seq<byte>, offset: nat, h: seq<byte>)
    requires offset + |h| < |output| && NEWLINE !in h && output[offset + |h|] == NEWLINE
    requires output[offset..offset + |h|] == h
    ensures IndexOf(output, NEWLINE, offset) == offset + |h|
  {
    forall k | offset <= k < offset + |h| ensures output[k] != NEWLINE {
      assert output[k] == h[k - offset];
    }
    FindAt(output, NEWLINE, offset, offset + |h|);
  }

  /** The contents after recording `bodies[i..]` under their paths. */
  ghost function Recorded(paths: seq<string>, bodies: seq<seq<byte>>, i: nat, contents: map<string, seq<byte>>)
    : map<string, seq<byte>>
    requires i <= |bodies| <= |paths|
    decreases |bodies| - i
  {
    if i == |bodies| then contents else Recorded(paths, bodies, i + 1, contents[paths[i] := bodies[i]])
  }

  /** Reading frames records their bodies and continues right behind them. */
  lemma {:induction false} ReadFramed(announces: seq<byte> -> Announced, output: seq<byte>, offset: nat,
                                      paths: seq<string>,
                                      frames: seq<seq<byte>>, bodies: seq<seq<byte>>, i: nat, tail: seq<byte>,
                                      contents: map<string, seq<byte>>) returns (next: nat)
    requires i <= |frames| == |bodies| <= |paths|
    requires forall k :: 0 <= k < |frames| ==> IsFrame(announces, frames[k], bodies[k])
    requires offset <= |output| && output[offset..] == Joined(frames, i) + tail
    ensures next <= |output| && output[next..] == tail
    ensures ReadAll(announces, output, offset, paths, i, contents)
         == ReadAll(announces, output, next, paths, |frames|, Recorded(paths, bodies, i, contents))
    decreases |frames| - i
  {
    if i == |frames| {
      next := offset;
    } else {
      var after := Joined(frames, i + 1) + tail;
      assert Joined(frames, i) + tail == frames[i] + after;
      var start, end := ReadOne(announces, output, offset, frames[i], bodies[i], after);
      next := ReadFramed(announces, output, end + 1, paths, frames, bodies, i + 1, tail,
        contents[paths[i] := bodies[i]]);
    }
  }

  lemma {:induction false} RecordedKeeps(paths: seq<string>, bodies: seq<seq<byte>>, i: nat,
                                         contents: map<string, seq<byte>>, path: string)
    requires i <= |bodies| <= |paths| && path in contents && forall k :: i <= k < |bodies| ==> paths[k] != path
    ensures path in Recorded(paths, bodies, i, contents) && Recorded(paths, bodies, i, contents)[path] == contents[path]
    decreases |bodies| - i
  {
    if i < |bodies| {
      RecordedKeeps(paths, bodies, i + 1, contents[paths[i] := bodies[i]], path);
    }
  }

  lemma {:induction false} RecordedAt(paths: seq<string>, bodies: seq<seq<byte>>, i: nat,
                                      contents: map<string, seq<byte>>, k: nat)
    requires i <= k < |bodies| <= |paths| && forall j :: k < j < |bodies| ==> paths[j] != paths[k]
    ensures paths[k] in Recorded(paths, bodies, i, contents)
    ensures Recorded(paths, bodies, i, contents)[paths[k]] == bodies[k]
    decreases |bodies| - i
  {
    var more := contents[paths[i] := bodies[i]];
    if i < k {
      RecordedAt(paths, bodies, i + 1, more, k);
    } else {
      RecordedKeeps(paths, bodies, i + 1, more, paths[i]);
    }
  }

  /** Every path gets its object's exact bytes back, newlines included, whatever follows the last frame. */
  lemma {:induction false} BatchRoundTrip(paths: seq<string>, objects: seq<GitObject>, after: seq<byte>, k: nat)
    requires |paths| == |objects| && (forall j :: 0 <= j < |objects| ==> Printable(objects[j]))
    requires k < |paths| && forall i, j :: 0 <= i < j < |paths| ==> paths[i] != paths[j]
    ensures var r := ReadAll(Announces, Output(objects) + after, 0, paths, 0, map[]);
      r.AllRead? && paths[k] in r.contents && r.contents[paths[k]] == objects[k].content
  {
    var output := Output(objects) + after;
    assert output[0..] == output;
    AllFrames(objects);
    var next := ReadFramed(Announces, output, 0, paths, FramesOf(objects), ContentsOf(objects), 0, after, map[]);
    RecordedAt(paths, ContentsOf(objects), 0, map[], k);
  }

  lemma {:induction false} AllFrames(objects: seq<GitObject>)
    requires forall j :: 0 <= j < |objects| ==> Printable(objects[j])
    ensures forall j :: 0 <= j < |objects| ==> IsFrame(Announces, FramesOf(objects)[j], ContentsOf(objects)[j])
  {
    forall j | 0 <= j < |objects| ensures IsFrame(Announces, FramesOf(objects)[j], ContentsOf(objects)[j]) {
      PrintedIsFrame(objects[j]);
    }
  }

  lemma {:induction false} ReadMissing(announces: seq<byte> -> Announced, output: seq<byte>, offset: nat,
                                       name: seq<byte>, after: seq<byte>)
    requires NEWLINE !in name && announces(name + MISSING) == Absent
    requires offset <= |output| && output[offset..] == name + MISSING + [NEWLINE] + after
    ensures ReadFrame(announces, output, offset) == AbsentObject
  {
    var h, tail := name + MISSING, name + MISSING + [NEWLINE] + after;
    assert tail[..|h|] == h && tail[|h|] == NEWLINE;
    assert output[offset..][..|h|] == output[offset..offset + |h|];
    assert output[offset..][|h|] == output[offset + |h|];
    HeaderEndsAt(output, offset, h);
  }

  /** A missing object is reported for its own path, after any number of good frames. */
  lemma {:induction false} MissingReported(paths: seq<string>, objects: seq<GitObject>, name: seq<byte>,
                                           after: seq<byte>)
    requires |objects| < |paths| && (forall j :: 0 <= j < |objects| ==> Printable(objects[j])) && NEWLINE !in name
    ensures ReadAll(Announces, Output(objects) + (name + MISSING + [NEWLINE] + after), 0, paths, 0, map[])
         == NoObject(paths[|objects|])
  {
    var output := Output(objects) + (name + MISSING + [NEWLINE] + after);
    assert output[0..] == output;
    AllFrames(objects);
    assert (name + MISSING)[|name|..] == MISSING;
    var next := ReadFramed(Announces, output, 0, paths, FramesOf(objects), ContentsOf(objects), 0,
      name + MISSING + [NEWLINE] + after, map[]);
    ReadMissing(Announces, output, next, name, after);
  }

  /** A frame that breaks off anywhere is not read. */
  lemma {:induction false} ReadCut(announces: seq<byte> -> Announced, output: seq<byte>, offset: nat,
                                   frame: seq<byte>, body: seq<byte>)
    requires IsFrame(announces, frame, body)
    requires offset <= |output| && |output| - offset < |frame| && output[offset..] == frame[..|output| - offset]
    ensures ReadFrame(announces, output, offset).BadHeader? || ReadFrame(announces, output, offset).Cut?
  {
    var h :| Frames(announces, h, frame, body);
    forall k | offset <= k < |output| ensures output[k] == frame[k - offset] {
      assert output[offset..][k - offset] == output[k];
    }
    if |output| - offset <= |h| {
      forall k | offset <= k < |output| ensures output[k] != NEWLINE {
        assert frame[k - offset] == h[k - offset];
      }
    } else {
      assert output[offset + |h|] == frame[|h|] == NEWLINE;
      assert output[offset..offset + |h|] == h;
      HeaderEndsAt(output, offset, h);
    }
  }

  /** Output that breaks off inside a frame is never accepted: the path of that frame is reported. */
  lemma {:induction false} CutReported(paths: seq<string>, objects: seq<GitObject>, b: GitObject, cut: nat)
    requires |objects| < |paths| && (forall j :: 0 <= j < |objects| ==> Printable(objects[j])) && Printable(b)
    requires cut < |Printed(b)|
    ensures var r := ReadAll(Announces, Output(objects) + Printed(b)[..cut], 0, paths, 0, map[]);
      r == NoHeader(paths[|objects|]) || r == Truncated(paths[|objects|])
  {
    var output := Output(objects) + Printed(b)[..cut];
    assert output[0..] == output;
    AllFrames(objects);
    PrintedIsFrame(b);
    var next := ReadFramed(Announces, output, 0, paths, FramesOf(objects), ContentsOf(objects), 0,
      Printed(b)[..cut], map[]);
    ReadCut(Announces, output, next, Printed(b), b.content);
  }

  // ---------- Headers without a usable size ----------

  lemma {:induction false} DigitsEnd(digits: seq<byte>, tail: seq<byte>)
    requires (forall i :: 0 <= i < |digits| ==> IsDigit(digits[i])) && (tail == [] || !IsDigit(tail[0]))
    ensures DigitRun(digits + tail) == |digits|
  {
    var s := digits + tail;
    assert forall i :: 0 <= i < |digits| ==> s[i] == digits[i];
    assert tail != [] ==> s[|digits|] == tail[0];
  }

  lemma {:induction false} ParsePlain(digits: seq<byte>, tail: seq<byte>)
    requires digits != [] && (forall i :: 0 <= i < |digits| ==> IsDigit(digits[i]))
    requires tail == [] || !IsDigit(tail[0])
    ensures ParseInt(digits + tail) == Some(Value(digits))
  {
    var s := digits + tail;
    assert s[..|digits|] == digits && s[0] == digits[0] && IsDigit(digits[0]);
    DigitsEnd(digits, tail);
  }

  lemma {:induction false} ParseSigned(sign: byte, digits: seq<byte>, tail: seq<byte>)
    requires sign == 0x2b || sign == 0x2d
    requires digits != [] && (forall i :: 0 <= i < |digits| ==> IsDigit(digits[i]))
    requires tail == [] || !IsDigit(tail[0])
    ensures ParseInt([sign] + (digits + tail)) == Some(if sign == 0x2d then 0 - Value(digits) else Value(digits))
  {
    var s := digits + tail;
    assert s[..|digits|] == digits && ([sign] + s)[1..] == s;
    DigitsEnd(digits, tail);
  }

  /** A number is read behind any blanks; `ParsePlain` and `ParseSigned` say how. */
  lemma {:induction false} ParseBlanks(blanks: seq<byte>, s: seq<byte>)
    requires forall i :: 0 <= i < |blanks| ==> IsBlank(blanks[i])
    ensures ParseInt(blanks + s) == ParseInt(s)
    decreases |blanks|
  {
    if blanks == [] {
      assert blanks + s == s;
    } else {
      assert (blanks + s)[1..] == blanks[1..] + s;
      ParseBlanks(blanks[1..], s);
    }
  }

  lemma {:induction false} ParseNegative(n: nat)
    ensures ParseInt([0x2d] + Decimal(n)) == Some(0 - n)
  {
    ParseSigned(0x2d, Decimal(n), []);
    assert Decimal(n) + [] == Decimal(n);
    ValueOfDecimal(n);
  }

  lemma {:induction false} UnusableField(oid: seq<byte>, kind: seq<byte>, field: seq<byte>)
    requires IsWord(oid) && IsWord(kind) && IsWord(field)
    requires !EndsWith(oid + [SPACE] + kind + [SPACE] + field, MISSING)
    requires var size := ParseInt(field); size.Some? ==> size.value > MAX_SAFE_INTEGER || size.value < 0
    ensures Announces(oid + [SPACE] + kind + [SPACE] + field) == Unusable
  {
    ThirdOf(oid, kind, field);
  }

  /** A size that is no safe integer is of no use. */
  lemma {:induction false} TooLarge(oid: seq<byte>, kind: seq<byte>, n: nat)
    requires IsWord(oid) && IsWord(kind) && n > MAX_SAFE_INTEGER
    ensures Announces(oid + [SPACE] + kind + [SPACE] + Decimal(n)) == Unusable
  {
    DigitLast(oid + [SPACE] + kind + [SPACE], n);
    ParseDecimal(n);
    UnusableField(oid, kind, Decimal(n));
  }

  /** Neither is a negative one. */
  lemma {:induction false} Negative(oid: seq<byte>, kind: seq<byte>, n: nat)
    requires IsWord(oid) && IsWord(kind) && n > 0
    ensures Announces(oid + [SPACE] + kind + [SPACE] + ([0x2d] + Decimal(n))) == Unusable
  {
    var front := oid + [SPACE] + kind + [SPACE];
    DigitLast(front + [0x2d], n);
    assert front + ([0x2d] + Decimal(n)) == front + [0x2d] + Decimal(n);
    ParseNegative(n);
    UnusableField(oid, kind, [0x2d] + Decimal(n));
  }

  /** Nor is a header of fewer than three fields. */
  lemma {:induction false} NoSize(oid: seq<byte>, kind: seq<byte>)
    requires IsWord(oid) && IsWord(kind) && !EndsWith(oid + [SPACE] + kind, MISSING)
    ensures Announces(oid + [SPACE] + kind) == Unusable
  {
    var h := oid + [SPACE] + kind;
    assert h[|oid|] == SPACE && forall k :: 0 <= k < |oid| ==> h[k] == oid[k];
    FindAt(h, SPACE, 0, |oid|);
    assert forall k :: |oid| < k < |h| ==> h[k] == kind[k - |oid| - 1];
  }

  /** A header without a usable size is refused for its own path, after any number of good frames. */
  lemma {:induction false} BadSizeReported(paths: seq<string>, objects: seq<GitObject>, h: seq<byte>, after: seq<byte>)
    requires |objects| < |paths| && (forall j :: 0 <= j < |objects| ==> Printable(objects[j]))
    requires NEWLINE !in h && Announces(h) == Unusable
    ensures ReadAll(Announces, Output(objects) + (h + [NEWLINE] + after), 0, paths, 0, map[])
         == BadSize(paths[|objects|])
  {
    var tail := h + [NEWLINE] + after;
    var output := Output(objects) + tail;
    assert output[0..] == output;
    AllFrames(objects);
    var next := ReadFramed(Announces, output, 0, paths, FramesOf(objects), ContentsOf(objects), 0, tail, map[]);
    ReadUnusable(Announces, output, next, h, after);
  }

  lemma {:induction false} ReadUnusable(announces: seq<byte> -> Announced, output: seq<byte>, offset: nat, h: seq<byte>,
                                        after: seq<byte>)
    requires NEWLINE !in h && announces(h) == Unusable
    requires offset <= |output| && output[offset..] == h + [NEWLINE] + after
    ensures ReadFrame(announces, output, offset) == InvalidSize
  {
    var tail := h + [NEWLINE] + after;
    assert tail[..|h|] == h && tail[|h|] == NEWLINE;
    assert output[offset..][..|h|] == output[offset..offset + |h|];
    assert output[offset..][|h|] == output[offset + |h|];
    HeaderEndsAt(output, offset, h);
  }
}
