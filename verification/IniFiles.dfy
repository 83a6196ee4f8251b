/** Loading and saving: the loops that read a text into a store and print a store as a text. */
module IniFiles {
  import opened CStrings
  import opened IniFormat
  import opened IniStore

  // ---------------------------------------------------------------- reading one line

  // extract_comment: find the mark, then see whether a quotation is open there.
  method FindComment(line: string, mark: char) returns (s: Split)
    ensures s == ExtractComment(line, mark)
  {
    var pos := FindChar(line, mark);
    if pos == |line| {
      return Whole(line);
    }
    var inQuotes, check := false, 0;
    while check < pos
      invariant InQuotes(line, 0, pos, false) == InQuotes(line, check, pos, inQuotes)
      decreases pos - check
    {
      if line[check] == '"' || line[check] == '\'' {
        inQuotes := !inQuotes;
      } else if line[check] == '\\' && (line[check + 1] == '"' || line[check + 1] == '\'') {
        check := check + 1;
      }
      check := check + 1;
    }
    if inQuotes {
      return Whole(line);
    }
    var comment := TrimWhitespace(line[pos + 1..]);
    return Split(line[..pos], comment);
  }

  method FindAnyComment(line: string) returns (s: Split)
    ensures s == SplitComment(line)
  {
    s := FindComment(line, ';');
    if s.Whole? {
      s := FindComment(line, '#');
    }
  }

  method ParseLine(line: string) returns (l: Line)
    ensures l == ReadLine(line)
  {
    var trimmed := TrimWhitespace(line);
    if trimmed == "" {
      return Remark("");
    }
    if trimmed[0] == ';' || trimmed[0] == '#' {
      var text := TrimWhitespace(trimmed[1..]);
      return Remark(Cut(text, MAX_COMMENT_LENGTH));
    }
    var s := FindAnyComment(line);
    if trimmed[0] == '[' {
      var end := FindChar(s.line, ']');
      if 0 < end < |s.line| {
        var name := TrimWhitespace(s.line[1..end]);
        return Header(Cut(name, MAX_SECTION_LENGTH), CommentOf(s));
      }
      return Ignored;
    }
    var equals := FindChar(s.line, '=');
    if equals < |s.line| {
      var key := TrimWhitespace(s.line[..equals]);
      var value := TrimWhitespace(s.line[equals + 1..]);
      return Pair(Cut(key, MAX_KEY_LENGTH), Cut(value, MAX_VALUE_LENGTH), CommentOf(s));
    }
    return Ignored;
  }

  // The buffer is cut at the first carriage return, newline or terminator.
  method CutLine(chunk: string) returns (line: string)
    ensures line == LineOf(chunk)
  {
    var k := 0;
    while k < |chunk| && chunk[k] !in {'\r', '\n', '\0'}
      invariant 0 <= k <= |chunk| && LineEnd(chunk, 0) == LineEnd(chunk, k)
    {
      k := k + 1;
    }
    return chunk[..k];
  }

  // fgets: a line or a full buffer.
  method ReadChunk(text: string) returns (line: string, rest: string)
    requires text != ""
    ensures line == LineOf(text[..ChunkLength(text)]) && rest == text[ChunkLength(text)..]
  {
    var newline := FindChar(text, '\n');
    var n := if newline < |text| then newline + 1 else newline;
    if n >= MAX_LINE_LENGTH {
      n := MAX_LINE_LENGTH - 1;
    }
    line := CutLine(text[..n]);
    return line, text[n..];
  }

  // ---------------------------------------------------------------- loading

  lemma LineIsShort(line: string)
    ensures match ReadLine(line)
            case Header(name, _) => |name| < MAX_SECTION_LENGTH
            case Pair(key, _, _) => |key| < MAX_KEY_LENGTH
            case _ => true
  {
  }

  method StoreLine(ini: IniFile, l: Line)
    requires ini.Valid()
    requires l.Header? ==> |l.name| < MAX_SECTION_LENGTH
    requires l.Pair? ==> |l.key| < MAX_KEY_LENGTH
    modifies ini.Repr
    ensures ini.Valid() && fresh(ini.Repr - old(ini.Repr)) && ini.Contents() == AddLine(old(ini.Contents()), l)
  {
    match l {
      case Remark(text) => ini.AddRemark(text);
      case Header(name, comment) => ini.AddHeader(name, comment);
      case Pair(key, value, comment) => ini.AddPair(key, value, comment);
      case Ignored =>
    }
  }

  // One turn of the loop over the lines.
  method LoadLine(ini: IniFile, text: string) returns (rest: string)
    requires ini.Valid() && text != ""
    modifies ini.Repr
    ensures ini.Valid() && fresh(ini.Repr - old(ini.Repr)) && |rest| < |text|
    ensures AddLines(ini.Contents(), Lines(rest)) == AddLines(old(ini.Contents()), Lines(text))
  {
    var line;
    line, rest := ReadChunk(text);
    var l := ParseLine(line);
    LineIsShort(line);
    assert Lines(text) == [l] + Lines(rest);
    StoreLine(ini, l);
  }

  // ini_load
  method IniLoad(text: string) returns (ini: IniFile)
    ensures ini.Valid() && fresh(ini.Repr) && ini.Contents() == Load(text)
  {
    ini := new IniFile();
    var rest := text;
    while rest != ""
      invariant ini.Valid() && fresh(ini.Repr)
      invariant AddLines(ini.Contents(), Lines(rest)) == Load(text)
      decreases |rest|
    {
      rest := LoadLine(ini, rest);
    }
  }

  // ---------------------------------------------------------------- saving

  lemma {:induction false} TextJoins(a: seq<string>, b: seq<string>)
    ensures Text(a + b) == Text(a) + Text(b)
  {
    if a == [] {
      assert a + b == b;
    } else {
      assert (a + b)[1..] == a[1..] + b;
      TextJoins(a[1..], b);
      assert a[0] + "\n" + (Text(a[1..]) + Text(b)) == a[0] + "\n" + Text(a[1..]) + Text(b);
    }
  }

  method PrintComments(file: string, comments: seq<string>) returns (out: string)
    ensures out == file + Text(CommentLines(comments))
  {
    out := file;
    var i := 0;
    while i < |comments|
      invariant 0 <= i <= |comments|
      invariant out + Text(CommentLines(comments[i..])) == file + Text(CommentLines(comments))
    {
      ghost var rest := Text(CommentLines(comments[i + 1..]));
      assert comments[i..][1..] == comments[i + 1..];
      var line := if comments[i] == "" then "\n" else "; " + comments[i] + "\n";
      assert line == CommentLine(comments[i]) + "\n";
      assert Text(CommentLines(comments[i..])) == line + rest;
      assert out + line + rest == out + (line + rest);
      out := out + line;
      i := i + 1;
    }
    assert CommentLines(comments[i..]) == [];
  }

  lemma PrintedKey(kv: KeyValue, rest: seq<KeyValue>)
    ensures Text(KeyLines([kv] + rest)) == Text(CommentLines(kv.before)) + (KeyLine(kv) + "\n") + Text(KeyLines(rest))
  {
    assert ([kv] + rest)[1..] == rest;
    var line := [KeyLine(kv)];
    assert Text(line) == KeyLine(kv) + "\n" by {
      assert Text(line[1..]) == "";
    }
    TextJoins(CommentLines(kv.before) + line, KeyLines(rest));
    TextJoins(CommentLines(kv.before), line);
  }

  method PrintKey(file: string, node: KeyNode) returns (out: string)
    ensures out == file + Text(CommentLines(node.commentsBefore)) + (KeyLine(node.Item()) + "\n")
  {
    out := PrintComments(file, node.commentsBefore);
    if node.comment != "" {
      out := out + (node.key + " = " + node.value + " ; " + node.comment + "\n");
      assert KeyLine(node.Item()) + "\n" == node.key + " = " + node.value + " ; " + node.comment + "\n";
    } else {
      out := out + (node.key + " = " + node.value + "\n");
      assert KeyLine(node.Item()) + "\n" == node.key + " = " + node.value + "\n";
    }
  }

  method PrintKeys(file: string, section: SectionNode) returns (out: string)
    requires section.Valid()
    ensures out == file + Text(KeyLines(section.Items()))
  {
    out := file;
    var key := section.keys;
    ghost var i := 0;
    ghost var items := section.Items();
    while key != null
      invariant 0 <= i <= |items| && key == KeyAfter(section.keyNodes, i)
      invariant out + Text(KeyLines(items[i..])) == file + Text(KeyLines(items))
      decreases |items| - i
    {
      PrintedKey(items[i], items[i + 1..]);
      assert items[i..] == [items[i]] + items[i + 1..];
      ghost var before := out;
      out := PrintKey(out, key);
      JoinsOnto(before, Text(CommentLines(items[i].before)), KeyLine(items[i]) + "\n", Text(KeyLines(items[i + 1..])));
      key := key.next;
      i := i + 1;
    }
    assert KeyLines(items[i..]) == [];
  }

  lemma JoinsOnto(a: string, b: string, c: string, d: string)
    ensures a + (b + c + d) == a + b + c + d
  {
  }

  function SectionText(s: Section): string {
    Text(CommentLines(s.before)) + (SectionLine(s) + "\n") + Text(KeyLines(s.keys)) + "\n"
  }

  lemma PrintedSection(s: Section, rest: seq<Section>)
    ensures Text(SectionLines([s] + rest)) == SectionText(s) + Text(SectionLines(rest))
  {
    assert ([s] + rest)[1..] == rest;
    var cs, h, ks, blank := CommentLines(s.before), [SectionLine(s)], KeyLines(s.keys), [""];
    assert Text(h) == SectionLine(s) + "\n" by {
      assert Text(h[1..]) == "";
    }
    assert Text(blank) == "\n" by {
      assert Text(blank[1..]) == "";
    }
    TextJoins(cs + h + ks + blank, SectionLines(rest));
    TextJoins(cs + h + ks, blank);
    TextJoins(cs + h, ks);
    TextJoins(cs, h);
  }

  method PrintHeading(file: string, section: SectionNode) returns (out: string)
    requires section.Valid()
    ensures out == file + Text(CommentLines(section.commentsBefore)) + (SectionLine(section.Contents()) + "\n")
  {
    out := PrintComments(file, section.commentsBefore);
    if section.comment != "" {
      out := out + ("[" + section.name + "] ; " + section.comment + "\n");
      assert SectionLine(section.Contents()) + "\n" == "[" + section.name + "] ; " + section.comment + "\n";
    } else {
      out := out + ("[" + section.name + "]\n");
      assert SectionLine(section.Contents()) + "\n" == "[" + section.name + "]\n";
    }
  }

  lemma FourParts(file: string, a: string, b: string, c: string, d: string)
    ensures file + a + b + c + d == file + (a + b + c + d)
  {
  }

  lemma SectionTextOnto(file: string, s: Section)
    ensures file + Text(CommentLines(s.before)) + (SectionLine(s) + "\n") + Text(KeyLines(s.keys)) + "\n" == file + SectionText(s)
  {
    FourParts(file, Text(CommentLines(s.before)), SectionLine(s) + "\n", Text(KeyLines(s.keys)), "\n");
  }

  method PrintSection(file: string, section: SectionNode) returns (out: string)
    requires section.Valid()
    ensures out == file + SectionText(section.Contents())
  {
    out := PrintHeading(file, section);
    out := PrintKeys(out, section);
    out := out + "\n";
    SectionTextOnto(file, section.Contents());
  }

  // What is printed leads to the goal with the sections from i on.
  ghost predicate LeadsTo(out: string, items: seq<Section>, i: nat, goal: string) {
    i <= |items| && out + Text(SectionLines(items[i..])) == goal
  }

  lemma OneSectionMore(out: string, items: seq<Section>, i: nat, goal: string)
    requires i < |items| && LeadsTo(out, items, i, goal)
    ensures LeadsTo(out + SectionText(items[i]), items, i + 1, goal)
  {
    PrintedSection(items[i], items[i + 1..]);
    assert items[i..] == [items[i]] + items[i + 1..];
    var a, b := SectionText(items[i]), Text(SectionLines(items[i + 1..]));
    assert out + a + b == out + (a + b);
  }

  lemma AllSectionsLead(file: string, items: seq<Section>)
    ensures LeadsTo(file, items, 0, file + Text(SectionLines(items)))
  {
    assert items[0..] == items;
  }

  lemma NoSectionsLeft(out: string, items: seq<Section>, goal: string)
    requires LeadsTo(out, items, |items|, goal)
    ensures out == goal
  {
    assert items[|items|..] == [] && out + "" == out;
  }

  // One turn of the loop over the sections.
  method PrintAt(file: string, ini: IniFile, section: SectionNode, ghost i: nat, ghost goal: string)
    returns (out: string, next: SectionNode?)
    requires ini.Valid() && i < |ini.nodes| && section == ini.nodes[i]
    requires LeadsTo(file, ini.Sections(), i, goal)
    ensures LeadsTo(out, ini.Sections(), i + 1, goal) && next == SectionAfter(ini.nodes, i + 1)
  {
    ini.SectionAt(i);
    assert section in ini.nodes;
    OneSectionMore(file, ini.Sections(), i, goal);
    out := PrintSection(file, section);
    next := section.next;
  }

  // The loop over the sections.
  method PrintTo(file: string, ini: IniFile, ghost goal: string) returns (out: string)
    requires ini.Valid() && LeadsTo(file, ini.Sections(), 0, goal)
    ensures out == goal
  {
    out := file;
    var section := ini.sections;
    ghost var i := 0;
    while section != null
      invariant 0 <= i <= |ini.nodes| && section == SectionAfter(ini.nodes, i)
      invariant LeadsTo(out, ini.Sections(), i, goal)
      decreases |ini.nodes| - i
    {
      out, section := PrintAt(out, ini, section, i, goal);
      i := i + 1;
    }
    NoSectionsLeft(out, ini.Sections(), goal);
  }

  method PrintSections(file: string, ini: IniFile) returns (out: string)
    requires ini.Valid()
    ensures out == file + Text(SectionLines(ini.Sections()))
  {
    AllSectionsLead(file, ini.Sections());
    out := PrintTo(file, ini, file + Text(SectionLines(ini.Sections())));
  }

  method PrintAll(ini: IniFile) returns (out: string)
    requires ini.Valid()
    ensures out == Save(ini.Contents())
  {
    out := PrintComments("", ini.headerComments);
    out := PrintSections(out, ini);
    ghost var header, rest := CommentLines(ini.headerComments), SectionLines(ini.Sections());
    TextJoins(header, rest);
    assert "" + Text(header) == Text(header);
  }

  // ini_save: the text that is written.
  method IniSave(ini: IniFile) returns (out: string)
    requires ini.Valid()
    modifies ini`modified
    ensures ini.Valid() && ini.Contents() == old(ini.Contents()) && !ini.modified
    ensures out == Save(ini.Contents())
  {
    out := PrintAll(ini);
    ini.MarkSaved();
  }
}
