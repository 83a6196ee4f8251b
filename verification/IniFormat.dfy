/** INI files as text: the lines of a file, what each line says, what loading makes of them, and the printer. */
module IniFormat {
  import opened CStrings

  const MAX_LINE_LENGTH: nat := 1024
  const MAX_KEY_LENGTH: nat := 256
  const MAX_VALUE_LENGTH: nat := 512
  const MAX_SECTION_LENGTH: nat := 256
  const MAX_COMMENT_LENGTH: nat := 512

  // The contents of an INI file. Comments before an item come in file order, items in list order;
  // an empty comment is an empty line.
  datatype KeyValue = KeyValue(key: string, value: string, comment: string, before: seq<string>)
  datatype Section = Section(name: string, comment: string, before: seq<string>, keys: seq<KeyValue>)
  datatype Ini = Ini(header: seq<string>, sections: seq<Section>)

  const EMPTY := Ini([], [])

  // ---------------------------------------------------------------- lines

  // The characters that one fgets takes: up to a newline, the end of the text, or a full buffer.
  function ChunkLength(text: string): (n: nat)
    requires text != ""
    ensures 0 < n <= |text|
  {
    var newline := IndexOf(text, '\n');
    var line := if newline < |text| then newline + 1 else newline;
    if line < MAX_LINE_LENGTH then line else MAX_LINE_LENGTH - 1
  }

  // Where a carriage return, newline or terminator first is, from i on.
  function LineEnd(chunk: string, i: nat): (k: nat)
    requires i <= |chunk|
    ensures i <= k <= |chunk|
    decreases |chunk| - i
  {
    if i == |chunk| || chunk[i] in {'\r', '\n', '\0'} then i else LineEnd(chunk, i + 1)
  }

  // The string in the buffer once it is cut there.
  function LineOf(chunk: string): string {
    chunk[..LineEnd(chunk, 0)]
  }

  // Whether a quotation is open at end, for a scan from i; an escaped quote does not count.
  function InQuotes(line: string, i: nat, end: nat, open: bool): bool
    decreases end - i
  {
    if i >= end then open
    else if CharAt(line, i) in {'"', '\''} then InQuotes(line, i + 1, end, !open)
    else if CharAt(line, i) == '\\' && CharAt(line, i + 1) in {'"', '\''} then InQuotes(line, i + 2, end, open)
    else InQuotes(line, i + 1, end, open)
  }

  // A line without its comment, and the comment.
  datatype Split = Whole(line: string) | Split(line: string, comment: string)

  // extract_comment: the first mark ends the line, unless it is inside quotes.
  function ExtractComment(line: string, mark: char): Split {
    var k := IndexOf(line, mark);
    if k == |line| || InQuotes(line, 0, k, false) then Whole(line)
    else Split(line[..k], Trim(line[k + 1..]))
  }

  function SplitComment(line: string): Split {
    var s := ExtractComment(line, ';');
    if s.Whole? then ExtractComment(line, '#') else s
  }

  function CommentOf(s: Split): string {
    if s.Split? then Cut(s.comment, MAX_COMMENT_LENGTH) else ""
  }

  // What a line says.
  datatype Line =
    | Remark(text: string)
    | Header(name: string, comment: string)
    | Pair(key: string, value: string, comment: string)
    | Ignored

  function HeaderOf(s: Split): Line {
    var end := IndexOf(s.line, ']');
    if 0 < end < |s.line| then Header(Cut(Trim(s.line[1..end]), MAX_SECTION_LENGTH), CommentOf(s)) else Ignored
  }

  function PairOf(s: Split): Line {
    var equals := IndexOf(s.line, '=');
    if equals < |s.line| then
      Pair(Cut(Trim(s.line[..equals]), MAX_KEY_LENGTH), Cut(Trim(s.line[equals + 1..]), MAX_VALUE_LENGTH), CommentOf(s))
    else Ignored
  }

  function ReadLine(line: string): Line {
    var trimmed := Trim(line);
    if trimmed == "" then Remark("")
    else if trimmed[0] in {';', '#'} then Remark(Cut(Trim(trimmed[1..]), MAX_COMMENT_LENGTH))
    else if trimmed[0] == '[' then HeaderOf(SplitComment(line))
    else PairOf(SplitComment(line))
  }

  // ---------------------------------------------------------------- loading

  // Comments wait at the header, then at the last section, which is the first of the list.
  function Pending(ini: Ini): seq<string> {
    if ini.sections == [] then ini.header else ini.sections[0].before
  }

  function WithPending(ini: Ini, comments: seq<string>): Ini {
    if ini.sections == [] then ini.(header := comments)
    else ini.(sections := [ini.sections[0].(before := comments)] + ini.sections[1..])
  }

  // A section drops the comments that wait; a pair takes them.
  function AddLine(ini: Ini, line: Line): Ini {
    match line
    case Remark(text) => WithPending(ini, Pending(ini) + [text])
    case Header(name, comment) =>
      var dropped := WithPending(ini, []);
      dropped.(sections := [Section(name, comment, [], [])] + dropped.sections)
    case Pair(key, value, comment) =>
      if ini.sections == [] then ini
      else
        var s := ini.sections[0];
        var kv := KeyValue(key, value, comment, s.before);
        ini.(sections := [s.(before := [], keys := [kv] + s.keys)] + ini.sections[1..])
    case Ignored => ini
  }

  // What the lines of a text say, in order.
  function Lines(text: string): seq<Line> {
    if text == "" then []
    else
      var n := ChunkLength(text);
      [ReadLine(LineOf(text[..n]))] + Lines(text[n..])
  }

  function AddLines(ini: Ini, lines: seq<Line>): Ini
    decreases |lines|
  {
    if lines == [] then ini else AddLines(AddLine(ini, lines[0]), lines[1..])
  }

  function Load(text: string): Ini {
    AddLines(EMPTY, Lines(text))
  }

  // ---------------------------------------------------------------- saving

  function CommentLine(comment: string): string {
    if comment == "" then "" else "; " + comment
  }

  function Tail(comment: string): string {
    if comment == "" then "" else " ; " + comment
  }

  function KeyLine(kv: KeyValue): string {
    kv.key + " = " + kv.value + Tail(kv.comment)
  }

  function SectionLine(s: Section): string {
    "[" + s.name + "]" + Tail(s.comment)
  }

  function CommentLines(comments: seq<string>): seq<string> {
    if comments == [] then [] else [CommentLine(comments[0])] + CommentLines(comments[1..])
  }

  function KeyLines(keys: seq<KeyValue>): seq<string> {
    if keys == [] then [] else CommentLines(keys[0].before) + [KeyLine(keys[0])] + KeyLines(keys[1..])
  }

  function SectionLines(sections: seq<Section>): seq<string> {
    if sections == [] then []
    else
      CommentLines(sections[0].before) + [SectionLine(sections[0])] + KeyLines(sections[0].keys) + [""]
      + SectionLines(sections[1..])
  }

  // Lines as a text, each ended by a newline.
  function Text(lines: seq<string>): string {
    if lines == [] then "" else lines[0] + "\n" + Text(lines[1..])
  }

  function Save(ini: Ini): string {
    Text(CommentLines(ini.header) + SectionLines(ini.sections))
  }
}
