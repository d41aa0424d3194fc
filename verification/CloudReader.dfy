/**
 Reading a rendered user-data document back, in two modes. `Framed` undoes the
 rendering: lines end at line feeds only and the indentation is known. `Yaml`
 reads literal blocks as YAML 1.2.2 does: lines end at CR LF, CR or LF (section
 5.4), the indentation is detected (section 8.1.1.1), and content lines are made
 of printable characters (sections 5.1 and 5.4). Around the blocks both modes
 know the line shapes the renderer emits.
 */
module CloudReader {
  import opened Wrappers
  import opened Text
  import opened CloudText
  import opened Provision

  datatype Mode = Framed | Yaml

  function StripPrefix(s: string, prefix: string): (r: Option<string>)
    ensures r.Some? <==> prefix <= s
    ensures r.Some? ==> s == prefix + r.value
  {
    if prefix <= s then Some(s[|prefix|..]) else None
  }

  // ---------- lines ----------

  predicate IsBreak(c: char, mode: Mode) {
    c == '\n' || (mode.Yaml? && c == '\r')
  }

  predicate NoBreaks(s: string, mode: Mode) {
    forall i :: 0 <= i < |s| ==> !IsBreak(s[i], mode)
  }

  function LineEnd(s: string, mode: Mode): (n: nat)
    ensures n <= |s| && NoBreaks(s[..n], mode)
    ensures n < |s| ==> IsBreak(s[n], mode)
  {
    if s == [] || IsBreak(s[0], mode) then 0
    else
      var n := LineEnd(s[1..], mode);
      assert s[..n + 1] == [s[0]] + s[1..][..n];
      n + 1
  }

  /** The first line and what follows its break; CR LF is one break. */
  function TakeLine(s: string, mode: Mode): (r: (string, string))
    ensures NoBreaks(r.0, mode)
    ensures s != [] ==> |r.1| < |s|
  {
    var n := LineEnd(s, mode);
    assert s[..|s|] == s;
    if n == |s| then (s, [])
    else if s[n] == '\r' && n + 1 < |s| && s[n + 1] == '\n' then (s[..n], s[n + 2..])
    else (s[..n], s[n + 1..])
  }

  // ---------- literal blocks ----------

  predicate AllSpaces(s: string) {
    forall i :: 0 <= i < |s| ==> s[i] == ' '
  }

  /** The number of leading blanks. */
  function Leading(line: string): (n: nat)
    ensures n <= |line| && AllSpaces(line[..n])
    ensures n < |line| ==> line[n] != ' '
  {
    if line == [] || line[0] != ' ' then 0
    else
      var n := Leading(line[1..]);
      assert line[..n + 1] == [line[0]] + line[1..][..n];
      n + 1
  }

  /** The text of a line inside a block indented by `n`, or none if the line ends the block. */
  function BlockLine(line: string, n: nat): Option<string> {
    if n <= |line| && AllSpaces(line[..n]) then Some(line[n..])
    else if AllSpaces(line) then Some([])
    else None
  }

  /** The lines of a block indented by `n`, YAML 1.2.2 section 8.1.2, and what follows it. */
  function ReadLines(text: string, n: nat, mode: Mode): (r: (seq<string>, string))
    ensures |r.1| <= |text|
    ensures forall i :: 0 <= i < |r.0| ==> NoBreaks(r.0[i], mode)
    decreases |text|
  {
    if text == [] then
      ([], [])
    else
      var (line, rest) := TakeLine(text, mode);
      match BlockLine(line, n)
      case None => ([], text)
      case Some(content) =>
        var (more, end) := ReadLines(rest, n, mode);
        ([content] + more, end)
  }

  /** The level of the keys around a block: its content is indented further. */
  const OUTER := 4

  /** The level the renderer indents by. */
  const INDENT := 6

  /**
   The level of the first line that holds more than blanks. It is an error when
   that line is content and a blank line before it, up to `longest` wide, is longer.
   */
  function Detect(text: string, longest: nat): Option<nat>
    decreases |text|
  {
    if text == [] then
      Some(0)
    else
      var (line, rest) := TakeLine(text, Yaml);
      if AllSpaces(line) then
        Detect(rest, if longest < |line| then |line| else longest)
      else if OUTER < Leading(line) < longest then
        None
      else
        Some(Leading(line))
  }

  /** The text from its first line that holds more than blanks. */
  function SkipBlank(text: string): (r: string)
    ensures |r| <= |text|
    decreases |text|
  {
    if text != [] && AllSpaces(TakeLine(text, Yaml).0) then SkipBlank(TakeLine(text, Yaml).1) else text
  }

  /** A character of a content line: printable, no line break and no byte order mark. */
  predicate IsText(c: char) {
    || c == '\t' || ' ' <= c <= '~' || c == '\U{85}'
    || ('\U{A0}' <= c <= '\U{FFFD}' && c != '\U{FEFF}') || '\U{10000}' <= c
  }

  predicate AllText(s: string) {
    forall i :: 0 <= i < |s| ==> IsText(s[i])
  }

  predicate AllTextLines(lines: seq<string>) {
    forall i :: 0 <= i < |lines| ==> AllText(lines[i])
  }

  /** The lines of the block that starts here, and what follows it; none for malformed text. */
  function ReadBlock(text: string, mode: Mode): (r: Option<(seq<string>, string)>)
    ensures r.Some? ==> |r.value.1| <= |text|
  {
    match mode
    case Framed => Some(ReadLines(text, INDENT, mode))
    case Yaml =>
      var level :- Detect(text, 0);
      if level <= OUTER then
        Some(([], SkipBlank(text)))
      else
        var (lines, rest) := ReadLines(text, level, mode);
        if AllTextLines(lines) then Some((lines, rest)) else None
  }

  function DropBlankEnd(lines: seq<string>): (r: seq<string>)
    ensures r <= lines
  {
    if lines != [] && lines[|lines| - 1] == [] then DropBlankEnd(lines[..|lines| - 1]) else lines
  }

  /** Clip chomping, YAML 1.2.2 section 8.1.1.2: one final line feed, none for an empty scalar. */
  function Clip(lines: seq<string>): string {
    Unlines(DropBlankEnd(lines))
  }

  // ---------- the document ----------

  datatype File = File(path: string, permissions: string, content: string)

  function ReadFile(text: string, mode: Mode): (r: Option<(File, string)>)
    ensures r.Some? ==> |r.value.1| < |text|
  {
    var afterKey :- StripPrefix(text, "  - path: ");
    var (path, afterPath) :- SplitOnce(afterKey, '\n');
    var afterMode :- StripPrefix(afterPath, "    permissions: \"");
    var (permissions, afterQuote) :- SplitOnce(afterMode, '"');
    var block :- StripPrefix(afterQuote, "\n    content: |\n");
    var (lines, rest) :- ReadBlock(block, mode);
    Some((File(path, permissions, Clip(lines)), rest))
  }

  function ReadFiles(text: string, mode: Mode): (seq<File>, string)
    decreases |text|
  {
    match ReadFile(text, mode)
    case None => ([], text)
    case Some((file, rest)) =>
      var (more, end) := ReadFiles(rest, mode);
      ([file] + more, end)
  }

  const MOUNT_HEAD := "  - [ \""
  const MOUNT_MIDDLE := ", \"/mnt/mac/"
  const MOUNT_TAIL := "\", \"virtiofs\", \"defaults,_netdev\", \"0\", \"0\" ]\n"

  /** A line of the given shape, which shows its tag twice. */
  function ReadTwice(text: string, head: string, middle: string, tail: string): (r: Option<(string, string)>)
    requires head != []
    ensures r.Some? ==> |r.value.1| < |text|
  {
    var afterHead :- StripPrefix(text, head);
    var (tag, afterTag) :- SplitOnce(afterHead, '"');
    var afterMiddle :- StripPrefix(afterTag, middle);
    var afterPath :- StripPrefix(afterMiddle, tag);
    var rest :- StripPrefix(afterPath, tail);
    Some((tag, rest))
  }

  function ReadMount(text: string): (r: Option<(string, string)>)
    ensures r.Some? ==> |r.value.1| < |text|
  {
    ReadTwice(text, MOUNT_HEAD, MOUNT_MIDDLE, MOUNT_TAIL)
  }

  function ReadMounts(text: string): (seq<string>, string)
    decreases |text|
  {
    match ReadMount(text)
    case None => ([], text)
    case Some((tag, rest)) =>
      var (more, end) := ReadMounts(rest);
      ([tag] + more, end)
  }

  /** The tags of the mounts section, if there is one. */
  function ReadMountsSection(text: string): (Option<seq<string>>, string) {
    match StripPrefix(text, "mounts:\n")
    case None => (None, text)
    case Some(lines) => (Some(ReadMounts(lines).0), ReadMounts(lines).1)
  }

  const MKDIR_HEAD := "  - [mkdir, -p, /mnt/mac/"

  function ReadMkdir(text: string): (r: Option<(string, string)>)
    ensures r.Some? ==> |r.value.1| < |text|
  {
    var afterHead :- StripPrefix(text, MKDIR_HEAD);
    var (tag, afterTag) :- SplitOnce(afterHead, ']');
    var rest :- StripPrefix(afterTag, "\n");
    Some((tag, rest))
  }

  function ReadMkdirs(text: string): (seq<string>, string)
    decreases |text|
  {
    match ReadMkdir(text)
    case None => ([], text)
    case Some((tag, rest)) =>
      var (more, end) := ReadMkdirs(rest);
      ([tag] + more, end)
  }

  /** The run section: the state tag, the directories made, whether all is mounted then, and what remains. */
  datatype RunSection = RunSection(stateTag: Option<string>, dirs: seq<string>, mountAll: bool, rest: string)

  function ReadMountAll(text: string): (bool, string) {
    match StripPrefix(text, "  - [mount, -a]\n")
    case None => (false, text)
    case Some(rest) => (true, rest)
  }

  /** A script with its quoted argument, if the text starts with it, and what follows its line. */
  function ReadScript(text: string, script: string): (Option<string>, string) {
    match StripPrefix(text, script)
    case None => (None, text)
    case Some(argument) =>
      match SplitOnce(argument, '"')
      case None => (None, text)
      case Some((tag, end)) =>
        match StripPrefix(end, "]\n")
        case None => (None, text)
        case Some(rest) => (Some(tag), rest)
  }

  function ReadRunOf(text: string, head: string, script: string, fixed: string): Option<RunSection> {
    var body :- StripPrefix(text, head);
    var (tag, afterScript) := ReadScript(body, script);
    var lines :- StripPrefix(afterScript, fixed);
    var (dirs, afterDirs) := ReadMkdirs(lines);
    var (mountAll, rest) := ReadMountAll(afterDirs);
    Some(RunSection(tag, dirs, mountAll, rest))
  }

  function ReadRun(text: string): Option<RunSection> {
    ReadRunOf(text, RunHead(), LoopHead() + StateScript(), LoopHead() + VsockScript() + Install())
  }

  datatype Document = Document(
    network: seq<string>,
    files: seq<File>,
    mounts: Option<seq<string>>,
    run: Option<RunSection>)

  function ReadSections(network: seq<string>, body: string, mode: Mode): Document {
    var (files, afterFiles) := ReadFiles(body, mode);
    var (mounts, run) := ReadMountsSection(afterFiles);
    Document(network, files, mounts, ReadRun(run))
  }

  /** The level of the network section. */
  const NETWORK_INDENT: nat := 2

  function ReadNetwork(section: string, mode: Mode): (seq<string>, string) {
    ReadLines(section, NETWORK_INDENT, mode)
  }

  /** The network lines, and what follows the boot section. */
  function ReadPreamble(text: string, head: string, boot: string, mode: Mode): Option<(seq<string>, string)> {
    var afterHead :- StripPrefix(text, head);
    var section :- StripPrefix(afterHead, "network:\n");
    var (network, afterNetwork) := ReadNetwork(section, mode);
    var body :- StripPrefix(afterNetwork, boot);
    Some((network, body))
  }

  function ReadAfter(text: string, head: string, boot: string, mode: Mode): Option<Document> {
    match ReadPreamble(text, head, boot, mode)
    case None => None
    case Some((network, body)) => Some(ReadSections(network, body, mode))
  }

  function ReadUserData(text: string, mode: Mode): Option<Document> {
    ReadAfter(text, Head(), Boot(), mode)
  }

  // ---------- blocks read back ----------

  /** The first line is not blank and is indented by no more than the keys around a block. */
  predicate EndsBlock(text: string) {
    exists i :: 0 <= i < |text| && i <= OUTER && AllSpaces(text[..i]) && text[i] !in {' ', '\n', '\r'}
  }

  lemma TakeLineAt(line: string, rest: string, mode: Mode)
    requires NoBreaks(line, mode)
    ensures TakeLine(line + ['\n'] + rest, mode) == (line, rest)
  {
    var s := line + ['\n'] + rest;
    var n := LineEnd(s, mode);
    assert s[|line|] == '\n';
    assert forall i :: 0 <= i < |line| ==> s[i] == line[i];
    assert forall i :: 0 <= i < n ==> s[i] == s[..n][i];
    assert s[..|line|] == line && s[|line| + 1..] == rest;
  }

  lemma LeadingIs(line: string, i: nat)
    requires i < |line| && AllSpaces(line[..i]) && line[i] != ' '
    ensures Leading(line) == i && !AllSpaces(line)
  {
    var k := Leading(line);
    assert forall j :: 0 <= j < k ==> line[j] == line[..k][j];
    assert forall j :: 0 <= j < i ==> line[j] == line[..i][j];
  }

  lemma LineReaches(text: string, i: nat, mode: Mode)
    requires i < |text| && AllSpaces(text[..i]) && text[i] !in {' ', '\n', '\r'}
    ensures var line := TakeLine(text, mode).0;
            i < |line| && line[..i] == text[..i] && line[i] == text[i]
  {
    assert forall j :: 0 <= j < i ==> text[j] == text[..i][j];
    assert !IsBreak(text[i], mode);
    var n := LineEnd(text, mode);
    assert i < n;
    assert TakeLine(text, mode).0 == text[..n];
  }

  lemma EndingLine(text: string, mode: Mode)
    requires EndsBlock(text)
    ensures var line := TakeLine(text, mode).0; !AllSpaces(line) && Leading(line) <= OUTER
  {
    var i :| 0 <= i < |text| && i <= OUTER && AllSpaces(text[..i]) && text[i] !in {' ', '\n', '\r'};
    hide Leading, TakeLine, AllSpaces;
    LineReaches(text, i, mode);
    LeadingIs(TakeLine(text, mode).0, i);
  }

  lemma EndingLineIsNotInBlock(text: string, n: nat, mode: Mode)
    requires EndsBlock(text) && n > OUTER
    ensures BlockLine(TakeLine(text, mode).0, n).None?
  {
    EndingLine(text, mode);
    var line := TakeLine(text, mode).0;
    var k := Leading(line);
    if n <= |line| {
      assert line[..n][k] == line[k];
    }
  }

  lemma {:induction false} LinesAreRead(lines: seq<string>, n: nat, rest: string, mode: Mode)
    requires forall i :: 0 <= i < |lines| ==> NoBreaks(lines[i], mode)
    requires BlockLine(TakeLine(rest, mode).0, n).None?
    ensures ReadLines(Indented(n, lines) + rest, n, mode) == (lines, rest)
  {
    var text := Indented(n, lines) + rest;
    if lines == [] {
      assert text == rest;
      assert TakeLine([], mode).0 == [];
    } else {
      var line, tail := Spaces(n) + lines[0], Indented(n, lines[1..]) + rest;
      assert text == line + ['\n'] + tail;
      assert NoBreaks(line, mode);
      TakeLineAt(line, tail, mode);
      assert line[..n] == Spaces(n) && line[n..] == lines[0];
      assert BlockLine(line, n) == Some(lines[0]);
      LinesAreRead(lines[1..], n, rest, mode);
      assert [lines[0]] + lines[1..] == lines;
    }
  }

  /** A reader told the indentation recovers the lines pushed exactly when none of them holds a break of its own. */
  lemma LinesReadBack(lines: seq<string>, n: nat, rest: string, mode: Mode)
    requires EndsBlock(rest) && n > OUTER
    ensures ReadLines(Indented(n, lines) + rest, n, mode) == (lines, rest) <==>
            forall i :: 0 <= i < |lines| ==> NoBreaks(lines[i], mode)
  {
    if forall i :: 0 <= i < |lines| ==> NoBreaks(lines[i], mode) {
      EndingLineIsNotInBlock(rest, n, mode);
      LinesAreRead(lines, n, rest, mode);
    }
  }

  /** The first line that is not empty, if any, does not start with a blank. */
  predicate StartsPlain(lines: seq<string>) {
    lines != [] ==> if lines[0] == [] then StartsPlain(lines[1..]) else lines[0][0] != ' '
  }

  /** Lines that a YAML literal block without an indentation indicator can carry. */
  predicate ReadableLines(lines: seq<string>) {
    AllTextLines(lines) && StartsPlain(lines)
  }

  lemma {:induction false} PrefixIsReadable(lines: seq<string>, prefix: seq<string>)
    requires prefix <= lines && ReadableLines(lines)
    ensures ReadableLines(prefix)
  {
    if prefix != [] && prefix[0] == [] {
      PrefixIsReadable(lines[1..], prefix[1..]);
    }
  }

  /** Detection strips the first text line of all its blanks, and blank lines before it entirely. */
  lemma {:induction false} DetectedLinesStartPlain(text: string, longest: nat, level: nat)
    requires Detect(text, longest) == Some(level) && level > OUTER
    ensures longest <= level && StartsPlain(ReadLines(text, level, Yaml).0)
    decreases |text|
  {
    var (line, rest) := TakeLine(text, Yaml);
    if AllSpaces(line) {
      DetectedLinesStartPlain(rest, if longest < |line| then |line| else longest, level);
      assert |line| == level ==> line[level..] == [];
      assert BlockLine(line, level) == Some([]);
      assert ReadLines(text, level, Yaml).0[1..] == ReadLines(rest, level, Yaml).0;
    } else {
      assert level < |line| by { assert line[..|line|] == line; }
      assert BlockLine(line, level) == Some(line[level..]);
    }
  }

  lemma BlockIsReadable(text: string)
    requires ReadBlock(text, Yaml).Some?
    ensures ReadableLines(ReadBlock(text, Yaml).value.0)
  {
    var level := Detect(text, 0).value;
    if level > OUTER {
      DetectedLinesStartPlain(text, 0, level);
    }
  }

  lemma LeadingOfSpaces(n: nat, line: string)
    requires line != [] ==> line[0] != ' '
    ensures Leading(Spaces(n) + line) == n
    ensures AllSpaces(Spaces(n) + line) <==> line == []
  {
    var s := Spaces(n) + line;
    var k := Leading(s);
    assert forall i :: 0 <= i < n ==> s[i] == Spaces(n)[i];
    assert line != [] ==> s[n] == line[0];
    assert forall i :: 0 <= i < k ==> s[i] == s[..k][i];
  }

  lemma {:induction false} DetectsIndent(lines: seq<string>, rest: string, longest: nat)
    requires ReadableLines(lines) && lines != [] && lines[|lines| - 1] != []
    requires longest <= INDENT
    ensures Detect(Indented(INDENT, lines) + rest, longest) == Some(INDENT)
  {
    hide IsText;
    var text := Indented(INDENT, lines) + rest;
    var line, tail := Spaces(INDENT) + lines[0], Indented(INDENT, lines[1..]) + rest;
    assert text == line + ['\n'] + tail;
    TextHasNoBreaks(lines[0], Yaml);
    assert NoBreaks(line, Yaml);
    TakeLineAt(line, tail, Yaml);
    LeadingOfSpaces(INDENT, lines[0]);
    if lines[0] == [] {
      DetectsIndent(lines[1..], rest, INDENT);
    }
  }

  lemma TextHasNoBreaks(s: string, mode: Mode)
    requires AllText(s)
    ensures NoBreaks(s, mode)
  {
  }

  /** A payload that a YAML reader gets back, which its caller can check beforehand. */
  predicate Readable(payload: string) {
    ReadableLines(BlockLines(payload))
  }

  lemma BlockReadsBack(payload: string, rest: string, mode: Mode)
    requires EndsBlock(rest)
    requires mode.Yaml? ==> Readable(payload)
    ensures ReadBlock(Block(INDENT, payload) + rest, mode) == Some((BlockLines(payload), rest))
  {
    hide Indented, EndsBlock, StartsPlain, AllText, TakeLine, BlockLines, Leading;
    var lines := BlockLines(payload);
    LastBlockLineIsNotEmpty(payload);
    forall i | 0 <= i < |lines| ensures NoBreaks(lines[i], mode) {
      BlockLineHasNoFeed(payload, i);
      if mode.Yaml? {
        TextHasNoBreaks(lines[i], mode);
      }
    }
    EndingLineIsNotInBlock(rest, INDENT, mode);
    LinesAreRead(lines, INDENT, rest, mode);
    if mode.Yaml? {
      if lines == [] {
        EmptyBlock(rest);
      } else {
        DetectsIndent(lines, rest, 0);
      }
    }
  }

  lemma EmptyBlock(rest: string)
    requires EndsBlock(rest)
    ensures Indented(INDENT, []) + rest == rest && ReadBlock(rest, Yaml) == Some(([], rest))
  {
    EndingLine(rest, Yaml);
  }

  /**
   A carriage return inside a line ends it for a YAML reader: when what follows is
   indented no further than the keys, the block ends there.
   */
  lemma ReturnEndsBlock(head: string, tail: string)
    requires head != [] && head[0] != ' ' && AllText(head) && EndsBlock(tail)
    ensures ReadBlock(Spaces(INDENT) + head + ['\r'] + tail, Yaml) == Some(([head], tail))
  {
    var line := Spaces(INDENT) + head;
    var text := line + ['\r'] + tail;
    TextHasNoBreaks(head, Yaml);
    assert NoBreaks(line, Yaml);
    EndingStart(tail);
    TakeLineAtReturn(line, tail);
    LeadingOfSpaces(INDENT, head);
    EndingLineIsNotInBlock(tail, INDENT, Yaml);
    assert line[..INDENT] == Spaces(INDENT) && line[INDENT..] == head;
    BlockOfTakenLine(text, line, head, tail);
  }

  lemma BlockOfTakenLine(text: string, line: string, head: string, tail: string)
    requires tail != [] && TakeLine(text, Yaml) == (line, tail) && text != []
    requires BlockLine(line, INDENT) == Some(head) && AllText(head)
    requires !AllSpaces(line) && Leading(line) == INDENT
    requires BlockLine(TakeLine(tail, Yaml).0, INDENT) == None
    ensures ReadBlock(text, Yaml) == Some(([head], tail))
  {
    hide TakeLine, Leading, AllText, AllSpaces, BlockLine;
    assert ReadLines(tail, INDENT, Yaml) == ([], tail);
    assert [head] + [] == [head];
    assert ReadLines(text, INDENT, Yaml) == ([head], tail);
    assert Detect(text, 0) == Some(INDENT);
  }

  lemma EndingStart(tail: string)
    requires EndsBlock(tail)
    ensures tail != [] && tail[0] != '\n'
  {
    var i :| 0 <= i < |tail| && i <= OUTER && AllSpaces(tail[..i]) && tail[i] !in {' ', '\n', '\r'};
    assert i > 0 ==> tail[..i][0] == tail[0];
  }

  lemma TakeLineAtReturn(line: string, rest: string)
    requires NoBreaks(line, Yaml) && rest != [] && rest[0] != '\n'
    ensures TakeLine(line + ['\r'] + rest, Yaml) == (line, rest)
  {
    var s := line + ['\r'] + rest;
    var n := LineEnd(s, Yaml);
    assert s[|line|] == '\r' && s[|line| + 1] == rest[0];
    assert forall i :: 0 <= i < |line| ==> s[i] == line[i];
    assert forall i :: 0 <= i < n ==> s[i] == s[..n][i];
    assert s[..|line|] == line && s[|line| + 1..] == rest;
  }

  lemma BlockLineHasNoFeed(payload: string, i: nat)
    requires i < |BlockLines(payload)|
    ensures NoBreaks(BlockLines(payload)[i], Framed)
  {
  }

  lemma LastBlockLineIsNotEmpty(payload: string)
    ensures var lines := BlockLines(payload); lines != [] ==> lines[|lines| - 1] != []
  {
    var s := TrimEnd(payload, {'\n'});
    if s != [] {
      LastLineIsNotEmpty(s);
    }
  }

  lemma {:induction false} LastLineIsNotEmpty(s: string)
    requires s != [] && s[|s| - 1] != '\n'
    ensures Lines(s) != [] && Lines(s)[|Lines(s)| - 1] != []
    decreases |s|
  {
    match SplitOnce(s, '\n')
    case None =>
    case Some((line, rest)) =>
      assert rest != [] && rest[|rest| - 1] == s[|s| - 1];
      LastLineIsNotEmpty(rest);
  }

  /** What a payload reads back as: its lines, trailing line feeds collapsed to one. */
  function Normalised(payload: string): string {
    Unlines(BlockLines(payload))
  }

  lemma ClippedBlockLines(payload: string)
    ensures Clip(BlockLines(payload)) == Normalised(payload)
  {
    LastBlockLineIsNotEmpty(payload);
  }

  /**
   That is the payload without trailing line feeds, plus one if non-empty, exactly
   when no carriage return before them stands in front of a line feed.
   */
  lemma NormalisedIs(payload: string)
    ensures var s := TrimEnd(payload, {'\n'});
            Normalised(payload) == (if s == [] then [] else s + "\n") <==> !HoldsReturnFeed(s)
  {
    UnlinesUndoesLines(TrimEnd(payload, {'\n'}));
  }

  // ---------- values of keys ----------

  /** The lines of a text as YAML breaks it. */
  function YamlLines(text: string): (lines: seq<string>)
    ensures forall i :: 0 <= i < |lines| ==> NoBreaks(lines[i], Yaml)
    decreases |text|
  {
    if text == [] then []
    else
      var (line, rest) := TakeLine(text, Yaml);
      [line] + YamlLines(rest)
  }

  /** What follows the key on every line that starts with it, in order. */
  function ValuesAt(lines: seq<string>, key: string): seq<string> {
    if lines == [] then []
    else
      var value := StripPrefix(lines[0], key);
      (if value.Some? then [value.value] else []) + ValuesAt(lines[1..], key)
  }

  lemma {:induction false} YamlLinesOfUnlines(lines: seq<string>)
    requires forall i :: 0 <= i < |lines| ==> NoBreaks(lines[i], Yaml)
    ensures YamlLines(Unlines(lines)) == lines
  {
    if lines != [] {
      var tail := Unlines(lines[1..]);
      assert Unlines(lines) == lines[0] + ['\n'] + tail;
      hide Unlines, TakeLine, NoBreaks;
      TakeLineAt(lines[0], tail, Yaml);
      YamlLinesOfUnlines(lines[1..]);
      assert [lines[0]] + lines[1..] == lines;
    }
  }

  lemma {:induction false} ValuesHaveNoBreaks(lines: seq<string>, key: string)
    requires forall i :: 0 <= i < |lines| ==> NoBreaks(lines[i], Yaml)
    ensures forall v :: v in ValuesAt(lines, key) ==> NoBreaks(v, Yaml)
  {
    if lines != [] {
      ValuesHaveNoBreaks(lines[1..], key);
      var value := StripPrefix(lines[0], key);
      if value.Some? {
        assert forall i :: 0 <= i < |value.value| ==> value.value[i] == lines[0][|key| + i];
      }
    }
  }

  lemma {:induction false} ValuesAtConcat(xs: seq<string>, ys: seq<string>, key: string)
    ensures ValuesAt(xs + ys, key) == ValuesAt(xs, key) + ValuesAt(ys, key)
  {
    hide StripPrefix;
    if xs == [] {
      assert xs + ys == ys;
    } else {
      assert (xs + ys)[0] == xs[0] && (xs + ys)[1..] == xs[1..] + ys;
      ValuesAtConcat(xs[1..], ys, key);
    }
  }

  lemma {:induction false} NoValuesAt(lines: seq<string>, key: string)
    requires forall i :: 0 <= i < |lines| ==> !(key <= lines[i])
    ensures ValuesAt(lines, key) == []
  {
    if lines != [] {
      NoValuesAt(lines[1..], key);
    }
  }

  lemma ValueAtOne(key: string, value: string)
    ensures ValuesAt([key + value], key) == [value]
  {
    assert StripPrefix(key + value, key) == Some(value);
    assert [key + value][1..] == [];
  }

  lemma NoBreaksInParts(a: string, b: string, mode: Mode)
    ensures NoBreaks(a + b, mode) <==> NoBreaks(a, mode) && NoBreaks(b, mode)
  {
    assert forall i :: 0 <= i < |a| ==> (a + b)[i] == a[i];
    assert forall i :: 0 <= i < |b| ==> (a + b)[|a| + i] == b[i];
  }

  // ---------- files read back ----------

  /** A content that a YAML literal block can have. */
  ghost predicate IsBlockContent(content: string) {
    exists lines :: ReadableLines(lines) && content == Unlines(lines)
  }

  lemma ReadableIsBlockContent(payload: string)
    ensures IsBlockContent(Normalised(payload)) <==> Readable(payload)
  {
    if IsBlockContent(Normalised(payload)) {
      var lines :| ReadableLines(lines) && Normalised(payload) == Unlines(lines);
      hide BlockLines, StartsPlain;
      forall i | 0 <= i < |lines| ensures Free(lines[i], '\n') {
        TextHasNoBreaks(lines[i], Framed);
      }
      forall i | 0 <= i < |BlockLines(payload)| ensures Free(BlockLines(payload)[i], '\n') {
        BlockLineHasNoFeed(payload, i);
      }
      UnlinesInjective(lines, BlockLines(payload));
    }
  }

  /** Whatever the text, a YAML reader delivers contents of that kind only. */
  lemma FileHasBlockContent(text: string)
    requires ReadFile(text, Yaml).Some?
    ensures IsBlockContent(ReadFile(text, Yaml).value.0.content)
  {
    hide ReadBlock, Unlines, DropBlankEnd, ReadableLines;
    var block := BlockOf(text);
    BlockIsReadable(block);
    var lines := ReadBlock(block, Yaml).value.0;
    PrefixIsReadable(lines, DropBlankEnd(lines));
  }

  lemma BlockOf(text: string) returns (block: string)
    requires ReadFile(text, Yaml).Some?
    ensures ReadBlock(block, Yaml).Some?
    ensures ReadFile(text, Yaml).value.0.content == Clip(ReadBlock(block, Yaml).value.0)
  {
    hide ReadBlock, Clip;
    var afterKey := StripPrefix(text, "  - path: ").value;
    var afterPath := SplitOnce(afterKey, '\n').value.1;
    var afterMode := StripPrefix(afterPath, "    permissions: \"").value;
    var afterQuote := SplitOnce(afterMode, '"').value.1;
    block := StripPrefix(afterQuote, "\n    content: |\n").value;
  }

  lemma FileIsRead(path: string, permissions: string, payload: string, rest: string, mode: Mode)
    requires Free(path, '\n') && Free(permissions, '"') && EndsBlock(rest)
    requires mode.Yaml? ==> Readable(payload)
    ensures ReadFile(FileText(path, permissions, payload) + rest, mode) ==
            Some((File(path, permissions, Normalised(payload)), rest))
  {
    hide EndsBlock, ReadBlock, Normalised, Clip, BlockLines, Indented, FileHeader, Free, Readable;
    var block := Block(INDENT, payload) + rest;
    var afterQuote := "\n    content: |\n" + block;
    var afterMode := permissions + ['"'] + afterQuote;
    var afterPath := "    permissions: \"" + afterMode;
    FileTextIs(path, permissions, Block(INDENT, payload), rest);
    SplitOnceAt(path, '\n', afterPath);
    SplitOnceAt(permissions, '"', afterQuote);
    BlockReadsBack(payload, rest, mode);
    ClippedBlockLines(payload);
  }

  /**
   A rendered file entry reads back: to a framed reader whatever its payload, to a
   YAML reader exactly when the payload is readable.
   */
  lemma FileReadsBack(path: string, permissions: string, payload: string, rest: string, mode: Mode)
    requires Free(path, '\n') && Free(permissions, '"') && EndsBlock(rest)
    ensures ReadFile(FileText(path, permissions, payload) + rest, mode) ==
            Some((File(path, permissions, Normalised(payload)), rest))
            <==> (mode.Yaml? ==> Readable(payload))
  {
    hide *;
    var text := FileText(path, permissions, payload) + rest;
    if mode.Yaml? ==> Readable(payload) {
      FileIsRead(path, permissions, payload, rest, mode);
    }
    if ReadFile(text, mode) == Some((File(path, permissions, Normalised(payload)), rest)) && mode.Yaml? {
      FileHasBlockContent(text);
      ReadableIsBlockContent(payload);
    }
  }

  lemma FileTextIs(path: string, mode: string, block: string, rest: string)
    ensures FileHeader(path, mode) + block + rest ==
            "  - path: " + (path + ['\n'] +
              ("    permissions: \"" + (mode + ['"'] + ("\n    content: |\n" + (block + rest)))))
  {
    assert "\n    permissions: \"" == ['\n'] + "    permissions: \"";
    assert "\"\n    content: |\n" == ['"'] + "\n    content: |\n";
    HeaderParts("  - path: ", path, ['\n'], "    permissions: \"", mode, ['"'], "\n    content: |\n", block, rest);
  }

  lemma HeaderParts(a: string, b: string, c: string, d: string, e: string, f: string, g: string, h: string, i: string)
    ensures a + b + (c + d) + e + (f + g) + h + i == a + (b + c + (d + (e + f + (g + (h + i)))))
  {
  }

  /** The next file entry, the mounts section and the run section all end a block. */
  lemma FileEndsBlock(path: string, permissions: string, payload: string, rest: string)
    ensures EndsBlock(FileText(path, permissions, payload) + rest)
  {
    var text := FileText(path, permissions, payload) + rest;
    FileTextIs(path, permissions, Block(INDENT, payload), rest);
    assert "  - path: " <= text;
    assert AllSpaces(text[..2]) && text[2] == '-';
  }

  lemma FirstCharEndsBlock(text: string)
    requires text != [] && text[0] in {'m', 'r'}
    ensures EndsBlock(text)
  {
    assert AllSpaces(text[..0]);
  }

  predicate IsPlain(f: File) {
    Free(f.path, '\n') && Free(f.permissions, '"')
  }

  function TextOf(f: File): string {
    FileText(f.path, f.permissions, f.content)
  }

  predicate CanRead(f: File, mode: Mode) {
    mode.Yaml? ==> Readable(f.content)
  }

  lemma FileReadsFirst(f: File, rest: string, mode: Mode)
    requires IsPlain(f) && EndsBlock(rest) && CanRead(f, mode)
    ensures ReadFiles(TextOf(f) + rest, mode) == ([Read(f)] + ReadFiles(rest, mode).0, ReadFiles(rest, mode).1)
    ensures EndsBlock(TextOf(f) + rest)
  {
    hide FileText, ReadFile, Normalised, EndsBlock, Readable;
    FileIsRead(f.path, f.permissions, f.content, rest, mode);
    FileEndsBlock(f.path, f.permissions, f.content, rest);
  }

  lemma FilesReadBack(a: File, b: File, c: File, d: File, rest: string, mode: Mode)
    requires IsPlain(a) && IsPlain(b) && IsPlain(c) && IsPlain(d)
    requires CanRead(a, mode) && CanRead(b, mode) && CanRead(c, mode) && CanRead(d, mode)
    requires rest != [] && rest[0] in {'m', 'r'}
    ensures ReadFiles(TextOf(a) + (TextOf(b) + (TextOf(c) + (TextOf(d) + rest))), mode) ==
            ([Read(a), Read(b), Read(c), Read(d)], rest)
  {
    hide TextOf, Read, EndsBlock, ReadFile, IsPlain, CanRead;
    FirstCharEndsBlock(rest);
    NoFileHere(rest, mode);
    FileReadsFirst(d, rest, mode);
    FileReadsFirst(c, TextOf(d) + rest, mode);
    FileReadsFirst(b, TextOf(c) + (TextOf(d) + rest), mode);
    FileReadsFirst(a, TextOf(b) + (TextOf(c) + (TextOf(d) + rest)), mode);
    assert [Read(a)] + ([Read(b)] + ([Read(c)] + ([Read(d)] + []))) == [Read(a), Read(b), Read(c), Read(d)];
  }

  lemma {:induction false} FilesHaveBlockContent(text: string)
    ensures forall i :: 0 <= i < |ReadFiles(text, Yaml).0| ==> IsBlockContent(ReadFiles(text, Yaml).0[i].content)
    decreases |text|
  {
    hide ReadFile, IsBlockContent;
    if ReadFile(text, Yaml).Some? {
      FileHasBlockContent(text);
      FilesHaveBlockContent(ReadFile(text, Yaml).value.1);
    }
  }

  /** A written file as it reads back. */
  function Read(f: File): File {
    f.(content := Normalised(f.content))
  }

  lemma NoFileHere(rest: string, mode: Mode)
    requires rest != [] && rest[0] != ' '
    ensures ReadFile(rest, mode).None? && ReadMount(rest).None?
  {
    assert "  - path: "[0] == ' ' && MOUNT_HEAD[0] == ' ';
  }

  // ---------- mounts read back ----------

  lemma TwiceReadsBack(head: string, middle: string, tail: string, tag: string, rest: string)
    requires head != [] && Free(tag, '"')
    ensures ReadTwice(head + (tag + ['"'] + (middle + (tag + (tail + rest)))), head, middle, tail) == Some((tag, rest))
  {
    SplitOnceAt(tag, '"', middle + (tag + (tail + rest)));
  }

  lemma MountReadsBack(tag: string, rest: string)
    requires IsName(tag)
    ensures ReadMount(MountLine(tag) + rest) == Some((tag, rest))
  {
    assert Free(tag, '"');
    hide MountLine, Free, IsName, ReadTwice;
    MountLineIs(tag, rest);
    TwiceReadsBack(MOUNT_HEAD, MOUNT_MIDDLE, MOUNT_TAIL, tag, rest);
  }

  lemma MountLineIs(tag: string, rest: string)
    ensures MountLine(tag) + rest ==
            MOUNT_HEAD + (tag + ['"'] + (MOUNT_MIDDLE + (tag + (MOUNT_TAIL + rest))))
  {
    assert MountLine(tag) == MOUNT_HEAD + tag + ['"'] + MOUNT_MIDDLE + tag + MOUNT_TAIL;
    Flatten(MOUNT_HEAD, tag, ['"'], MOUNT_MIDDLE, MOUNT_TAIL, rest);
  }

  lemma Flatten(a: string, b: string, q: string, c: string, d: string, rest: string)
    ensures a + b + q + c + b + d + rest == a + (b + q + (c + (b + (d + rest))))
  {
  }

  lemma {:induction false} MountsReadBack(tags: seq<string>, rest: string)
    requires forall i :: 0 <= i < |tags| ==> IsName(tags[i])
    requires rest != [] && rest[0] != ' '
    ensures ReadMounts(MountLines(tags) + rest) == (tags, rest)
  {
    hide MountLine, ReadMount, IsName;
    if tags == [] {
      NoFileHere(rest, Framed);
      assert MountLines(tags) + rest == rest;
    } else {
      var tail := MountLines(tags[1..]) + rest;
      assert MountLines(tags) + rest == MountLine(tags[0]) + tail;
      MountReadsBack(tags[0], tail);
      MountsReadBack(tags[1..], rest);
      assert [tags[0]] + tags[1..] == tags;
    }
  }

  lemma MountsSectionReadsBack(tags: seq<string>, run: string)
    requires forall i :: 0 <= i < |tags| ==> IsName(tags[i])
    requires IsRun(run)
    ensures ReadMountsSection(MountsText(tags) + run) == (if tags == [] then None else Some(tags), run)
  {
    hide MountLines, ReadMounts, IsName;
    if tags == [] {
      assert MountsText(tags) + run == run;
    } else {
      assert MountsText(tags) + run == "mounts:\n" + (MountLines(tags) + run);
      MountsReadBack(tags, run);
    }
  }

  // ---------- the run section reads back ----------

  lemma PrefixOf(a: string, b: string)
    ensures a <= a + b
  {
  }

  lemma ScriptsDiffer()
    ensures "TAG=" <= StateScript() && "IP=" <= VsockScript() && "runcmd:\n" <= RunHead()
  {
    hide StateBody, VsockBody, RunLog;
    PrefixOf("TAG=", StateBody());
    PrefixOf("IP=", VsockBody());
    PrefixOf("runcmd:\n", RunLog());
  }

  lemma MkdirReadsBack(tag: string, rest: string)
    requires IsName(tag)
    ensures ReadMkdir(MkdirLine(tag) + rest) == Some((tag, rest))
  {
    assert Free(tag, ']');
    SplitOnceAt(tag, ']', "\n" + rest);
    MkdirLineIs(tag, rest);
  }

  lemma MkdirLineIs(tag: string, rest: string)
    ensures MkdirLine(tag) + rest == MKDIR_HEAD + (tag + [']'] + ("\n" + rest))
  {
  }

  lemma NoMkdirHere(mounts: seq<MountSpec>)
    ensures ReadMkdir(MountAll(mounts)).None?
    ensures ReadMountAll(MountAll(mounts)) == (mounts != [], [])
  {
    if mounts != [] {
      assert MountAll(mounts)[6] == 'o' && MKDIR_HEAD[6] == 'k';
    }
  }

  lemma {:induction false} MkdirsReadBack(mounts: seq<MountSpec>, rest: string)
    requires forall i :: 0 <= i < |mounts| ==> IsName(mounts[i].tag)
    requires ReadMkdir(rest).None?
    ensures ReadMkdirs(MkdirLines(mounts) + rest) == (Tags(mounts), rest)
  {
    hide MkdirLine, ReadMkdir, IsName;
    if mounts == [] {
      assert MkdirLines(mounts) + rest == rest;
      assert Tags(mounts) == [];
    } else {
      var tail := MkdirLines(mounts[1..]) + rest;
      assert MkdirLines(mounts) + rest == MkdirLine(mounts[0].tag) + tail;
      MkdirReadsBack(mounts[0].tag, tail);
      MkdirsReadBack(mounts[1..], rest);
      assert Tags(mounts) == [mounts[0].tag] + Tags(mounts[1..]);
    }
  }

  lemma ScriptReadsBack(script: string, tag: string, rest: string)
    requires Free(tag, '"')
    ensures ReadScript(script + (tag + ['"'] + ("]\n" + rest)), script) == (Some(tag), rest)
  {
    SplitOnceAt(tag, '"', "]\n" + rest);
  }

  lemma OtherScript(loop: string, script: string, other: string, rest: string)
    requires "TAG=" <= script && "IP=" <= other
    ensures ReadScript(loop + other + rest, loop + script) == (None, loop + other + rest)
  {
    var s := loop + other + rest;
    assert (loop + script)[|loop|] == 'T' && s[|loop|] == 'I';
  }

  lemma RunRegroups(head: string, script: string, tag: string, fixed: string, dirs: string)
    ensures head + (script + tag + "\"]\n") + fixed + dirs ==
            head + (script + (tag + ['"'] + ("]\n" + (fixed + dirs))))
  {
    assert "\"]\n" == ['"'] + "]\n";
    SixParts(head, script, tag, ['"'], "]\n", fixed, dirs);
  }

  lemma SixParts(a: string, b: string, c: string, d: string, e: string, f: string, g: string)
    ensures a + (b + c + (d + e)) + f + g == a + (b + (c + d + (e + (f + g))))
  {
  }

  lemma RunRegroupsPlain(head: string, loop: string, script: string, install: string, dirs: string)
    ensures head + [] + (loop + script + install) + dirs == head + (loop + script + (install + dirs))
    ensures loop + script + (install + dirs) == loop + script + install + dirs
  {
  }

  function RunAfter(stateTag: Option<string>, dirs: (seq<string>, string)): RunSection {
    var (mountAll, rest) := ReadMountAll(dirs.1);
    RunSection(stateTag, dirs.0, mountAll, rest)
  }

  lemma RunOfReadsBack(head: string, script: string, fixed: string, stateTag: Option<string>, lines: string)
    requires stateTag.Some? ==> Free(stateTag.value, '"')
    requires stateTag.None? ==> ReadScript(fixed + lines, script) == (None, fixed + lines)
    ensures var call := if stateTag.Some? then script + (stateTag.value + ['"'] + ("]\n" + (fixed + lines)))
                        else fixed + lines;
            var text := head + call;
            ReadRunOf(text, head, script, fixed) == Some(RunAfter(stateTag, ReadMkdirs(lines)))
  {
    hide ReadScript, ReadMkdirs;
    if stateTag.Some? {
      ScriptReadsBack(script, stateTag.value, fixed + lines);
    }
    assert (fixed + lines)[|fixed|..] == lines;
  }

  predicate AllTagsAreNames(spec: ProvisionSpec) {
    && (spec.stateTag.Some? ==> IsName(spec.stateTag.value))
    && forall i :: 0 <= i < |spec.mounts| ==> IsName(spec.mounts[i].tag)
  }

  lemma StateTagHasNoQuote(spec: ProvisionSpec)
    requires AllTagsAreNames(spec) && spec.stateTag.Some?
    ensures Free(spec.stateTag.value, '"')
  {
  }

  /** The whole run section reads back: nothing in it is left unread. */
  lemma RunReadsBack(spec: ProvisionSpec)
    requires AllTagsAreNames(spec)
    ensures ReadRun(RunText(spec)) == Some(RunSection(spec.stateTag, Tags(spec.mounts), spec.mounts != [], []))
  {
    hide *;
    RunAfterIs(spec);
    MkdirSectionReads(spec);
    RunTextReads(spec, MkdirLines(spec.mounts) + MountAll(spec.mounts));
  }

  lemma RunAfterIs(spec: ProvisionSpec)
    ensures RunAfter(spec.stateTag, (Tags(spec.mounts), MountAll(spec.mounts))) ==
            RunSection(spec.stateTag, Tags(spec.mounts), spec.mounts != [], [])
  {
    hide ReadMountAll, MountAll, Tags;
    NoMkdirHere(spec.mounts);
  }

  lemma MkdirSectionReads(spec: ProvisionSpec)
    requires AllTagsAreNames(spec)
    ensures ReadMkdirs(MkdirLines(spec.mounts) + MountAll(spec.mounts)) == (Tags(spec.mounts), MountAll(spec.mounts))
  {
    hide IsName, MkdirLines, MountAll, ReadMkdirs, ReadMkdir, Tags;
    NoMkdirHere(spec.mounts);
    MkdirsReadBack(spec.mounts, MountAll(spec.mounts));
  }

  lemma RunTextReads(spec: ProvisionSpec, lines: string)
    requires AllTagsAreNames(spec)
    requires lines == MkdirLines(spec.mounts) + MountAll(spec.mounts)
    ensures ReadRun(RunText(spec)) == Some(RunAfter(spec.stateTag, ReadMkdirs(lines)))
  {
    hide *;
    var script, fixed := LoopHead() + StateScript(), LoopHead() + VsockScript() + Install();
    RunTextIs(spec);
    ReadRunIs(RunText(spec));
    if spec.stateTag.Some? {
      StateTagHasNoQuote(spec);
      RunRegroups(RunHead(), script, spec.stateTag.value, fixed, lines);
    } else {
      RunRegroupsPlain(RunHead(), LoopHead(), VsockScript(), Install(), lines);
      ScriptsDiffer();
      OtherScript(LoopHead(), StateScript(), VsockScript(), Install() + lines);
    }
    RunOfReadsBack(RunHead(), script, fixed, spec.stateTag, lines);
  }

  lemma ReadRunIs(text: string)
    ensures ReadRun(text) ==
            ReadRunOf(text, RunHead(), LoopHead() + StateScript(), LoopHead() + VsockScript() + Install())
  {
    hide ReadRunOf, RunHead, LoopHead, StateScript, VsockScript, Install;
  }

  lemma RunTextIs(spec: ProvisionSpec)
    ensures RunText(spec) == RunHead() + StateScriptText(spec.stateTag) + (LoopHead() + VsockScript() + Install())
                             + (MkdirLines(spec.mounts) + MountAll(spec.mounts))
    ensures StateScriptText(spec.stateTag) ==
            if spec.stateTag.Some? then LoopHead() + StateScript() + spec.stateTag.value + "\"]\n" else []
  {
    hide RunHead, LoopHead, StateScript, VsockScript, Install, MkdirLines, MountAll;
  }

  /** Starts with the keyword of the run section. */
  predicate IsRun(text: string) {
    "runcmd:\n" <= text
  }

  lemma StartsLikeHead(a: string, b: string, c: string, d: string)
    requires IsRun(a)
    ensures IsRun(a + b + c + d)
  {
  }

  lemma RunHeadIsRun()
    ensures IsRun(RunHead())
  {
    ScriptsDiffer();
    hide RunHead;
  }

  lemma RunStarts(spec: ProvisionSpec)
    ensures IsRun(RunText(spec))
  {
    hide IsRun, RunHead, LoopHead, StateScriptText, VsockScript, Install, MkdirLines, MountAll;
    RunHeadIsRun();
    StartsLikeHead(RunHead(), StateScriptText(spec.stateTag), LoopHead() + VsockScript() + Install(),
                   MkdirLines(spec.mounts) + MountAll(spec.mounts));
  }

  // ---------- the preamble reads back ----------

  lemma TextLinesAreLines(lines: seq<string>)
    requires AllTextLines(lines) && lines != []
    ensures Lines(Unlines(lines)) == lines && Unlines(lines) != [] && Unlines(lines)[|Unlines(lines)| - 1] == '\n'
  {
    hide IsText;
    forall i | 0 <= i < |lines| ensures Free(lines[i], '\n') && ChompReturn(lines[i]) == lines[i] {
      TextHasNoBreaks(lines[i], Yaml);
    }
    LinesOfUnlines(lines);
    UnlinesEndsLine(lines);
  }

  lemma UnlinesEndsIn(lines: seq<string>)
    requires AllTextLines(lines) && lines != [] && lines[|lines| - 1] != []
    ensures var s := Unlines(lines); |s| > 1 && s[|s| - 1] == '\n' && s[|s| - 2] !in {'\n', '\r'}
  {
    var n := |lines| - 1;
    var line := lines[n];
    assert lines == lines[..n] + [line];
    UnlinesConcat(lines[..n], [line]);
    UnlinesCons(line, []);
    assert [line] + [] == [line];
    assert Unlines([line]) == line + "\n";
    TextHasNoBreaks(line, Yaml);
  }

  lemma BlockLinesAre(s: string)
    requires |s| > 1 && s[|s| - 1] == '\n' && s[|s| - 2] !in {'\n', '\r'}
    ensures BlockLines(s) == Lines(s)
  {
    var t := s[..|s| - 1];
    assert t[|t| - 1] == s[|s| - 2];
    assert TrimEnd(s, {'\n'}) == TrimEnd(t, {'\n'}) == t;
    assert s == t + "\n";
    LinesIgnoreLastFeed(t);
  }

  lemma NetworkLinesAreText()
    ensures AllTextLines(NetworkLines()) && NetworkLines() != [] && NetworkLines()[|NetworkLines()| - 1] != []
  {
  }

  lemma NetworkBlockIs()
    ensures BlockLines(NetworkConfig()) == NetworkLines()
  {
    hide NetworkLines, Lines, Unlines, AllTextLines, BlockLines;
    NetworkLinesAreText();
    TextLinesAreLines(NetworkLines());
    UnlinesEndsIn(NetworkLines());
    BlockLinesAre(NetworkConfig());
  }

  /** A text that starts at the margin ends every block. */
  lemma MarginEndsBlock(text: string, n: nat, mode: Mode)
    requires text != [] && text[0] !in {' ', '\n', '\r'} && n > 0
    ensures BlockLine(TakeLine(text, mode).0, n).None?
  {
    assert text[..0] == [];
    LineReaches(text, 0, mode);
    var line := TakeLine(text, mode).0;
    assert n <= |line| ==> line[..n][0] == line[0];
  }

  lemma AfterReads(head: string, lines: seq<string>, boot: string, body: string, mode: Mode)
    requires boot != [] && boot[0] !in {' ', '\n', '\r'} && AllTextLines(lines)
    ensures ReadAfter(head + ("network:\n" + (Indented(NETWORK_INDENT, lines) + (boot + body))), head, boot, mode) ==
            Some(ReadSections(lines, body, mode))
  {
    hide ReadLines, ReadSections, TakeLine, BlockLine, NoBreaks, AllText;
    MarginEndsBlock(boot + body, NETWORK_INDENT, mode);
    forall i | 0 <= i < |lines| ensures NoBreaks(lines[i], mode) {
      TextHasNoBreaks(lines[i], mode);
    }
    LinesAreRead(lines, NETWORK_INDENT, boot + body, mode);
    assert (boot + body)[|boot|..] == body;
  }

  lemma PreambleRegroups(head: string, key: string, block: string, boot: string, body: string)
    ensures head + key + block + boot + body == head + (key + (block + (boot + body)))
  {
  }

  lemma BootStarts()
    ensures Boot() != [] && Boot()[0] == 'b'
  {
  }

  lemma PreambleReads(body: string, mode: Mode)
    ensures ReadUserData(Preamble() + body, mode) == Some(ReadSections(NetworkLines(), body, mode))
  {
    hide *;
    NetworkBlockIs();
    NetworkLinesAreText();
    BootStarts();
    PreambleIs();
    PreambleRegroups(Head(), "network:\n", Indented(NETWORK_INDENT, NetworkLines()), Boot(), body);
    AfterReads(Head(), NetworkLines(), Boot(), body, mode);
    UserDataIs(Preamble() + body, mode);
  }

  lemma PreambleIs()
    ensures Preamble() == Head() + "network:\n" + Indented(NETWORK_INDENT, BlockLines(NetworkConfig())) + Boot()
  {
    hide Head, NetworkConfig, Boot, BlockLines, Indented;
  }

  lemma UserDataIs(text: string, mode: Mode)
    ensures ReadUserData(text, mode) == ReadAfter(text, Head(), Boot(), mode)
  {
    hide ReadAfter, Head, Boot;
  }

  // ---------- the whole document reads back ----------

  /** The four files, in order, as they are written. */
  function Written(spec: ProvisionSpec): (File, File, File, File) {
    (File("/var/lib/incus/server.crt", "0644", spec.serverCertPem),
     File("/var/lib/incus/server.key", "0600", spec.serverKeyPem),
     File("/var/lib/malleus/client.crt", "0644", spec.clientCertPem),
     File("/var/lib/malleus/preseed.yaml", "0644", Preseed(spec.bridgeCidr)))
  }

  /** The tags of all mounts in order, the state share last; no section when there are none. */
  function ExpectedMounts(spec: ProvisionSpec): Option<seq<string>> {
    match spec.stateTag
    case Some(tag) => Some(Tags(spec.mounts) + [tag])
    case None => if spec.mounts == [] then None else Some(Tags(spec.mounts))
  }

  function Expected(spec: ProvisionSpec): Document {
    var (a, b, c, d) := Written(spec);
    Document(["version: 2", "ethernets:", "  all:", "    match:", "      name: \"*\"", "    dhcp4: true"],
             [Read(a), Read(b), Read(c), Read(d)], ExpectedMounts(spec),
             Some(RunSection(spec.stateTag, Tags(spec.mounts), spec.mounts != [], [])))
  }

  lemma ExpectedMountsAre(spec: ProvisionSpec)
    ensures ExpectedMounts(spec) == if MountTags(spec) == [] then None else Some(MountTags(spec))
  {
    assert Tags(spec.mounts) == [] <==> spec.mounts == [];
    assert spec.stateTag.None? ==> MountTags(spec) == Tags(spec.mounts);
  }

  lemma DocumentRegroups(p: string, a: string, b: string, c: string, d: string, m: string, r: string)
    ensures p + (a + b + c + d) + m + r == p + (a + (b + (c + (d + (m + r)))))
  {
  }

  lemma PathsArePlain(spec: ProvisionSpec)
    ensures var (a, b, c, d) := Written(spec); IsPlain(a) && IsPlain(b) && IsPlain(c) && IsPlain(d)
  {
    hide Preseed;
    assert Free(SERVER_CERT, '\n');
    assert Free(SERVER_KEY, '\n');
    assert Free(CLIENT_CERT, '\n');
    assert Free(PRESEED, '\n');
    assert Free("0644", '"') && Free("0600", '"');
  }

  /** The payloads of the four files are readable. */
  predicate PayloadsReadable(spec: ProvisionSpec) {
    var (a, b, c, d) := Written(spec);
    Readable(a.content) && Readable(b.content) && Readable(c.content) && Readable(d.content)
  }

  lemma UserDataIsRead(spec: ProvisionSpec, mode: Mode)
    requires Validate(spec).None? && (mode.Yaml? ==> PayloadsReadable(spec))
    ensures ReadUserData(UserData(spec), mode) == Some(Expected(spec))
  {
    hide Preamble, FileText, Preseed, Read, MountsText, RunText, MountTags, ExpectedMounts, Validate, Readable,
         ReadFiles, ReadMountsSection, ReadRun, Tags, MountAll, IsName, IsPlain, ReadUserData;
    var (a, b, c, d) := Written(spec);
    var tags, run := MountTags(spec), RunText(spec);
    var tail := MountsText(tags) + run;
    RunStarts(spec);
    MountsStart(tags, run);
    PathsArePlain(spec);
    ValidSpecHasValidTags(spec);
    FilesReadBack(a, b, c, d, tail, mode);
    MountsSectionReadsBack(tags, run);
    ExpectedMountsAre(spec);
    ValidTagsAreNames(spec);
    RunReadsBack(spec);
    PreambleReads(TextOf(a) + (TextOf(b) + (TextOf(c) + (TextOf(d) + tail))), mode);
    DocumentRegroups(Preamble(), FileText(a.path, a.permissions, a.content), FileText(b.path, b.permissions, b.content),
                     FileText(c.path, c.permissions, c.content), FileText(d.path, d.permissions, d.content),
                     MountsText(tags), run);
  }

  lemma DocumentHasBlockContent(text: string)
    requires ReadUserData(text, Yaml).Some?
    ensures var files := ReadUserData(text, Yaml).value.files;
            forall i :: 0 <= i < |files| ==> IsBlockContent(files[i].content)
  {
    hide ReadFiles, ReadMountsSection, ReadRun, Head, Boot, IsBlockContent, ReadPreamble;
    FilesHaveBlockContent(ReadPreamble(text, Head(), Boot(), Yaml).value.1);
  }

  /**
   Reading inverts rendering: for a framed reader on every valid spec, for a YAML
   reader exactly on those whose payloads are readable.
   */
  lemma UserDataReadsBack(spec: ProvisionSpec, mode: Mode)
    requires Validate(spec).None?
    ensures ReadUserData(UserData(spec), mode) == Some(Expected(spec)) <==> (mode.Yaml? ==> PayloadsReadable(spec))
  {
    hide ReadUserData, UserData, Validate, ExpectedMounts, Tags, Preseed, Normalised, IsBlockContent, Readable;
    if mode.Yaml? ==> PayloadsReadable(spec) {
      UserDataIsRead(spec, mode);
    }
    if ReadUserData(UserData(spec), mode) == Some(Expected(spec)) && mode.Yaml? {
      DocumentHasBlockContent(UserData(spec));
      ExpectedPayloads(spec);
    }
  }

  lemma ExpectedPayloads(spec: ProvisionSpec)
    requires forall i :: 0 <= i < |Expected(spec).files| ==> IsBlockContent(Expected(spec).files[i].content)
    ensures PayloadsReadable(spec)
  {
    hide Preseed, Normalised, IsBlockContent, Readable, ExpectedMounts, Tags;
    var (a, b, c, d) := Written(spec);
    var files := Expected(spec).files;
    assert files[0] == Read(a) && files[1] == Read(b) && files[2] == Read(c) && files[3] == Read(d);
    ReadableIsBlockContent(a.content);
    ReadableIsBlockContent(b.content);
    ReadableIsBlockContent(c.content);
    ReadableIsBlockContent(d.content);
  }

  lemma MountsStart(tags: seq<string>, run: string)
    requires IsRun(run)
    ensures MountsText(tags) + run != [] && (MountsText(tags) + run)[0] in {'m', 'r'}
  {
    hide MountLines;
  }

  lemma ValidTagsAreNames(spec: ProvisionSpec)
    requires Validate(spec).None?
    ensures AllTagsAreNames(spec)
  {
    hide IsName, Validate;
    ValidSpecHasValidTags(spec);
    if spec.stateTag.Some? {
      assert MountTags(spec)[|spec.mounts|] == spec.stateTag.value;
    }
    forall i | 0 <= i < |spec.mounts| ensures IsName(spec.mounts[i].tag) {
      assert MountTags(spec)[i] == spec.mounts[i].tag;
    }
  }
}
