/** Saving an INI file and loading it again: what comes back, for every well-formed file. */
module IniRoundTrip {
  import opened CStrings
  import opened IniFormat

  // ---------------------------------------------------------------- well-formed files

  // No character of s is one of these.
  predicate Free(s: string, marks: set<char>) {
    forall c :: c in s ==> c !in marks
  }

  const LINE_ENDS := {'\n', '\r', '\0'}

  predicate WellFormedComment(c: string) {
    Free(c, LINE_ENDS) && Trimmed(c) && |c| < MAX_COMMENT_LENGTH
  }

  predicate WellFormedComments(cs: seq<string>) {
    forall i :: 0 <= i < |cs| ==> WellFormedComment(cs[i])
  }

  // Only the printer's own mark splits the line: without a comment, the first mark of either kind in the item is
  // quoted if there is one; with one, the item has no semicolon and leaves no quotation open.
  predicate MarksKept(item: string, comment: string) {
    if comment == "" then ExtractComment(item, ';').Whole? && ExtractComment(item, '#').Whole?
    else ';' !in item && !InQuotes(item + " ", 0, |item| + 1, false)
  }

  // An item and its comment fit a line.
  predicate LineFits(item: string, comment: string) {
    WellFormedComment(comment) && |item + Tail(comment)| + 1 < MAX_LINE_LENGTH
  }

  function KeyItem(kv: KeyValue): string {
    kv.key + " = " + kv.value
  }

  predicate PairFits(kv: KeyValue) {
    && Trimmed(kv.key) && Free(kv.key, LINE_ENDS + {'='}) && |kv.key| < MAX_KEY_LENGTH
    && (kv.key != "" ==> kv.key[0] !in {'[', ';', '#'})
    && Trimmed(kv.value) && Free(kv.value, LINE_ENDS) && |kv.value| < MAX_VALUE_LENGTH
    && LineFits(KeyItem(kv), kv.comment)
  }

  predicate WellFormedKey(kv: KeyValue) {
    PairFits(kv) && MarksKept(KeyItem(kv), kv.comment) && WellFormedComments(kv.before)
  }

  predicate WellFormedKeys(keys: seq<KeyValue>) {
    forall i :: 0 <= i < |keys| ==> WellFormedKey(keys[i])
  }

  function SectionItem(name: string): string {
    "[" + name + "]"
  }

  predicate HeadingFits(name: string, comment: string) {
    && Trimmed(name) && Free(name, LINE_ENDS + {']'}) && |name| < MAX_SECTION_LENGTH
    && LineFits(SectionItem(name), comment)
  }

  predicate WellFormedSection(s: Section) {
    && HeadingFits(s.name, s.comment) && MarksKept(SectionItem(s.name), s.comment)
    && WellFormedComments(s.before)
    && WellFormedKeys(s.keys)
  }

  predicate WellFormed(ini: Ini) {
    && WellFormedComments(ini.header)
    && forall i :: 0 <= i < |ini.sections| ==> WellFormedSection(ini.sections[i])
  }

  // ---------------------------------------------------------------- one line

  lemma {:induction false} InQuotesSameStart(l: string, l': string, i: nat, end: nat, open: bool)
    requires i <= end && forall k :: i <= k < end ==> CharAt(l, k) == CharAt(l', k)
    requires CharAt(l, end) !in {'"', '\''} && CharAt(l', end) !in {'"', '\''}
    ensures InQuotes(l, i, end, open) == InQuotes(l', i, end, open)
    decreases end - i
  {
    if i < end {
      var c := CharAt(l, i);
      if c in {'"', '\''} {
        InQuotesSameStart(l, l', i + 1, end, !open);
      } else if c == '\\' && i + 1 < end && CharAt(l, i + 1) in {'"', '\''} {
        InQuotesSameStart(l, l', i + 2, end, open);
      } else {
        InQuotesSameStart(l, l', i + 1, end, open);
      }
    }
  }

  lemma ExtractsAt(head: string, mark: char, tail: string)
    requires mark !in head && mark !in {'"', '\''} && !InQuotes(head, 0, |head|, false)
    ensures ExtractComment(head + [mark] + tail, mark) == Split(head, Trim(tail))
  {
    var line := head + [mark] + tail;
    IndexAfter(head, mark, tail, 0);
    forall k | 0 <= k < |head| ensures CharAt(line, k) == CharAt(head, k) {
      assert line[k] == head[k];
    }
    InQuotesSameStart(line, head, 0, |head|, false);
    assert line[..|head|] == head && line[|head| + 1..] == tail;
    assert IndexOf(line, mark) == |head|;
  }

  lemma TailAsMark(item: string, comment: string)
    requires comment != ""
    ensures item + Tail(comment) == (item + " ") + [';'] + (" " + comment)
  {
  }

  lemma TrimAfterSpace(s: string)
    requires Trimmed(s)
    ensures Trim(" " + s) == s
  {
    TrimDrops(" ", s, "");
    assert " " + s + "" == " " + s;
  }

  lemma TrimNothing(s: string)
    requires Trimmed(s)
    ensures Trim(s) == s
  {
    TrimDrops("", s, "");
    assert "" + s + "" == s;
  }

  lemma TrimBeforeGap(s: string, gap: string)
    requires Trimmed(s) && Blank(gap)
    ensures Trim(s + gap) == s
  {
    TrimDrops("", s, gap);
    assert "" + s + gap == s + gap;
  }

  lemma SplitsAtComment(item: string, comment: string)
    requires WellFormedComment(comment) && comment != "" && MarksKept(item, comment)
    ensures SplitComment(item + Tail(comment)) == Split(item + " ", comment)
  {
    assert ';' !in item + " ";
    TailAsMark(item, comment);
    ExtractsAt(item + " ", ';', " " + comment);
    TrimAfterSpace(comment);
  }

  // The comment of an item's line is split off, leaving the item and perhaps a space.
  lemma SplitsItem(item: string, comment: string) returns (s: Split, gap: string)
    requires WellFormedComment(comment) && MarksKept(item, comment)
    ensures s == SplitComment(item + Tail(comment)) && CommentOf(s) == comment
    ensures s.line == item + gap && gap in {"", " "}
  {
    s := SplitComment(item + Tail(comment));
    if comment == "" {
      gap := "";
      assert item + "" == item;
    } else {
      SplitsAtComment(item, comment);
      gap := " ";
    }
  }

  // An item without marks is read whole.
  lemma PlainIsKept(item: string)
    requires Free(item, {';', '#'})
    ensures MarksKept(item, "")
  {
    assert ';' !in item && '#' !in item;
    IndexNone(item, ';', 0);
    IndexNone(item, '#', 0);
  }

  // ---------------------------------------------------------------- marks that are not kept

  lemma {:induction false} TrimShortens(s: string)
    ensures |Trim(s)| <= |s|
  {
  }

  // How a line is misread: it is cut at a mark inside the item, or its comment comes out shorter.
  predicate CutInside(item: string, s: Split) {
    s.Split? && |s.line| < |item| && s.line == item[..|s.line|] && item[|s.line|] in {';', '#'}
  }

  lemma ExtractInside(item: string, mark: char, rest: string)
    requires mark in {';', '#'} && ExtractComment(item + rest, mark).Split? && IndexOf(item + rest, mark) < |item|
    ensures CutInside(item, ExtractComment(item + rest, mark))
  {
    var k := IndexOf(item + rest, mark);
    assert (item + rest)[..k] == item[..k] && (item + rest)[k] == item[k];
  }

  // A hash behind the item is in the comment, which then comes out shorter.
  lemma HashInComment(item: string, comment: string)
    requires comment != "" && ExtractComment(item + Tail(comment), '#').Split?
    requires IndexOf(item + Tail(comment), '#') >= |item|
    ensures |CommentOf(ExtractComment(item + Tail(comment), '#'))| < |comment|
  {
    var line := item + Tail(comment);
    var k := IndexOf(line, '#');
    assert line[|item|] == ' ' && line[|item| + 1] == ';' && line[|item| + 2] == ' ';
    TrimShortens(line[k + 1..]);
  }

  // The printer's mark is reached unless a semicolon or a quotation of the item comes first.
  lemma FirstSemicolon(item: string, comment: string)
    requires comment != ""
    ensures var line := item + Tail(comment);
            var k := IndexOf(line, ';');
            if ';' in item then k < |item|
            else k == |item| + 1 && InQuotes(line, 0, k, false) == InQuotes(item + " ", 0, k, false)
  {
    var line, head := item + Tail(comment), item + " ";
    TailAsMark(item, comment);
    if ';' in item {
      var i :| 0 <= i < |item| && item[i] == ';';
      assert line[i] == ';';
    } else {
      IndexAfter(head, ';', " " + comment, 0);
      assert line[..|head|] == head;
      forall k | 0 <= k < |head| ensures CharAt(line, k) == CharAt(head, k) {
        assert line[k] == head[k];
      }
      InQuotesSameStart(line, head, 0, |head|, false);
    }
  }

  lemma MarksLost(item: string, comment: string)
    requires !MarksKept(item, comment)
    ensures var s := SplitComment(item + Tail(comment)); CutInside(item, s) || |CommentOf(s)| < |comment|
  {
    var line := item + Tail(comment);
    if comment == "" {
      assert line == item && item + "" == item;
      if ExtractComment(item, ';').Split? {
        ExtractInside(item, ';', "");
      } else {
        ExtractInside(item, '#', "");
      }
    } else {
      FirstSemicolon(item, comment);
      if ExtractComment(line, ';').Split? {
        ExtractInside(item, ';', Tail(comment));
      } else if ExtractComment(line, '#').Split? {
        if IndexOf(line, '#') < |item| {
          ExtractInside(item, '#', Tail(comment));
        } else {
          HashInComment(item, comment);
        }
      }
    }
  }

  // ---------------------------------------------------------------- lines of each kind

  lemma ReadsCommentLine(c: string)
    requires WellFormedComment(c)
    ensures ReadLine(CommentLine(c)) == Remark(c)
  {
    if c != "" {
      var line := "; " + c;
      TrimNothing(line);
      assert line[1..] == " " + c;
      TrimAfterSpace(c);
    }
  }

  lemma HeaderReads(s: Split, name: string, gap: string)
    requires s.line == ("[" + name) + [']'] + gap && ']' !in name && Trimmed(name) && |name| < MAX_SECTION_LENGTH
    ensures HeaderOf(s) == Header(name, CommentOf(s))
  {
    var head := "[" + name;
    assert ']' !in head;
    IndexAfter(head, ']', gap, 0);
    assert s.line[1..|head|] == name;
    TrimNothing(name);
  }

  // A line that starts with this character and holds no mark before its comment.
  lemma SectionLineStarts(s: Section)
    ensures Trim(SectionLine(s)) != "" && Trim(SectionLine(s))[0] == '['
  {
    var line := SectionLine(s);
    TrimStarts("", line);
    assert "" + line == line;
  }

  // What a line reads as depends on where it starts and on its parts.
  lemma ReadsAsHeader(line: string, s: Split)
    requires s == SplitComment(line) && Trim(line) != "" && Trim(line)[0] == '['
    ensures ReadLine(line) == HeaderOf(s)
  {
  }

  lemma ReadsAsPair(line: string, s: Split)
    requires s == SplitComment(line) && Trim(line) != "" && Trim(line)[0] !in {';', '#', '['}
    ensures ReadLine(line) == PairOf(s)
  {
  }

  lemma ReadsSectionLine(s: Section)
    requires HeadingFits(s.name, s.comment) && MarksKept(SectionItem(s.name), s.comment)
    ensures ReadLine(SectionLine(s)) == Header(s.name, s.comment)
  {
    var split, gap := SplitsItem(SectionItem(s.name), s.comment);
    SectionLineStarts(s);
    assert split.line == ("[" + s.name) + [']'] + gap;
    HeaderReads(split, s.name, gap);
    ReadsAsHeader(SectionLine(s), split);
  }

  lemma HeadingCutInside(name: string, s: Split)
    requires ']' !in name && CutInside(SectionItem(name), s)
    ensures HeaderOf(s) == Ignored
  {
    var item, n := SectionItem(name), |s.line|;
    assert forall k :: 0 <= k < n ==> s.line[k] == item[k];
    assert item[|name| + 1] == ']';
    forall k | 0 <= k < n ensures s.line[k] != ']' {
      assert k > 0 ==> item[k] == name[k - 1];
    }
    IndexNone(s.line, ']', 0);
  }

  // A heading that fits a line is read back exactly when its marks are kept.
  lemma SectionLineReads(s: Section)
    requires HeadingFits(s.name, s.comment)
    ensures ReadLine(SectionLine(s)) == Header(s.name, s.comment) <==> MarksKept(SectionItem(s.name), s.comment)
  {
    if MarksKept(SectionItem(s.name), s.comment) {
      ReadsSectionLine(s);
    } else {
      var item := SectionItem(s.name);
      var split := SplitComment(SectionLine(s));
      MarksLost(item, s.comment);
      SectionLineStarts(s);
      ReadsAsHeader(SectionLine(s), split);
      if CutInside(item, split) {
        HeadingCutInside(s.name, split);
      }
    }
  }

  lemma LineStarts(line: string, gap: string, rest: string)
    requires line == gap + rest && gap in {"", " "} && rest != "" && !IsSpace(rest[0])
    ensures Trim(line) != "" && Trim(line)[0] == rest[0]
  {
    TrimStarts(gap, rest);
  }

  lemma KeyStarts(kv: KeyValue)
    requires PairFits(kv) && kv.key != ""
    ensures !IsSpace(kv.key[0]) && kv.key[0] !in {';', '#', '['}
  {
  }

  lemma KeyLineParts(key: string, tail: string, gap: string, rest: string)
    requires if key == "" then gap == " " && rest == "=" + tail else gap == "" && rest == key + (" =" + tail)
    ensures key + " =" + tail == gap + rest && rest != "" && rest[0] == if key == "" then '=' else key[0]
  {
  }

  lemma KeyLineIs(key: string, value: string, tail: string)
    ensures key + " = " + value + tail == key + " =" + (" " + value + tail)
  {
  }

  lemma KeyLineStarts(kv: KeyValue)
    requires PairFits(kv)
    ensures Trim(KeyLine(kv)) != "" && Trim(KeyLine(kv))[0] !in {';', '#', '['}
  {
    var line, tail := KeyLine(kv), " " + kv.value + Tail(kv.comment);
    KeyLineIs(kv.key, kv.value, Tail(kv.comment));
    if kv.key == "" {
      KeyLineParts(kv.key, tail, " ", "=" + tail);
      LineStarts(line, " ", "=" + tail);
    } else {
      KeyStarts(kv);
      KeyLineParts(kv.key, tail, "", kv.key + (" =" + tail));
      LineStarts(line, "", kv.key + (" =" + tail));
    }
  }

  lemma PairReads(s: Split, key: string, value: string, gap: string)
    requires s.line == (key + " ") + ['='] + (" " + value + gap) && '=' !in key && Blank(gap)
    requires Trimmed(key) && |key| < MAX_KEY_LENGTH && Trimmed(value) && |value| < MAX_VALUE_LENGTH
    ensures PairOf(s) == Pair(key, value, CommentOf(s))
  {
    var left, right := key + " ", " " + value + gap;
    assert '=' !in left;
    IndexAfter(left, '=', right, 0);
    assert s.line[..|left|] == left && s.line[|left| + 1..] == right;
    TrimBeforeGap(key, " ");
    TrimDrops(" ", value, gap);
  }

  lemma KeyItemParts(kv: KeyValue, gap: string)
    ensures KeyItem(kv) + gap == (kv.key + " ") + ['='] + (" " + kv.value + gap)
  {
  }

  lemma ReadsKeyLine(kv: KeyValue)
    requires PairFits(kv) && MarksKept(KeyItem(kv), kv.comment)
    ensures ReadLine(KeyLine(kv)) == Pair(kv.key, kv.value, kv.comment)
  {
    var split, gap := SplitsItem(KeyItem(kv), kv.comment);
    KeyLineStarts(kv);
    KeyItemParts(kv, gap);
    PairReads(split, kv.key, kv.value, gap);
    ReadsAsPair(KeyLine(kv), split);
  }

  // Cut at a mark inside it, a pair is no pair or has a shorter value.
  lemma PairCutInside(kv: KeyValue, s: Split)
    requires '=' !in kv.key && CutInside(KeyItem(kv), s)
    ensures var p := PairOf(s); p.Pair? ==> |p.value| < |kv.value|
  {
    var item, n, left := KeyItem(kv), |s.line|, kv.key + " ";
    KeyItemParts(kv, "");
    assert item == left + ['='] + (" " + kv.value) by {
      assert " " + kv.value + "" == " " + kv.value && item + "" == item;
    }
    if n <= |kv.key| {
      assert forall k :: 0 <= k < n ==> s.line[k] == kv.key[k];
      IndexNone(s.line, '=', 0);
    } else {
      assert item[|kv.key|] == ' ' && item[|kv.key| + 1] == '=' && item[|kv.key| + 2] == ' ';
      var part := kv.value[..n - |kv.key| - 3];
      assert s.line == left + ['='] + (" " + part);
      assert '=' !in left;
      IndexAfter(left, '=', " " + part, 0);
      assert s.line[|left| + 1..] == " " + part;
      assert (" " + part)[1..] == part;
      assert Trim(" " + part) == Trim(part);
      TrimShortens(part);
    }
  }

  // A pair that fits a line is read back exactly when its marks are kept.
  lemma KeyLineReads(kv: KeyValue)
    requires PairFits(kv)
    ensures ReadLine(KeyLine(kv)) == Pair(kv.key, kv.value, kv.comment) <==> MarksKept(KeyItem(kv), kv.comment)
  {
    if MarksKept(KeyItem(kv), kv.comment) {
      ReadsKeyLine(kv);
    } else {
      var split := SplitComment(KeyLine(kv));
      MarksLost(KeyItem(kv), kv.comment);
      KeyLineStarts(kv);
      ReadsAsPair(KeyLine(kv), split);
      if CutInside(KeyItem(kv), split) {
        PairCutInside(kv, split);
      }
    }
  }

  const QUOTED := KeyValue("k", "\"a;b\"", "", [])
  const UNQUOTED := KeyValue("k", "a;b", "", [])

  lemma QuotedIsKept()
    ensures MarksKept(KeyItem(QUOTED), "")
  {
    var head, rest := "k = \"a", "b\"";
    var item := head + [';'] + rest;
    assert KeyItem(QUOTED) == item;
    IndexAfter(head, ';', rest, 0);
    assert InQuotes(item, 4, 6, false) == InQuotes(item, 5, 6, true) == InQuotes(item, 6, 6, true) == true;
    assert InQuotes(item, 2, 6, false) == InQuotes(item, 3, 6, false) == InQuotes(item, 4, 6, false);
    assert InQuotes(item, 0, 6, false) == InQuotes(item, 1, 6, false) == InQuotes(item, 2, 6, false);
    IndexNone(item, '#', 0);
  }

  lemma UnquotedIsLost()
    ensures !MarksKept(KeyItem(UNQUOTED), "")
  {
    var head, rest := "k = a", "b";
    var item := head + [';'] + rest;
    assert KeyItem(UNQUOTED) == item;
    IndexAfter(head, ';', rest, 0);
    assert InQuotes(item, 3, 5, false) == InQuotes(item, 4, 5, false) == InQuotes(item, 5, 5, false) == false;
    assert InQuotes(item, 1, 5, false) == InQuotes(item, 2, 5, false) == InQuotes(item, 3, 5, false);
    assert InQuotes(item, 0, 5, false) == InQuotes(item, 1, 5, false);
  }

  lemma ExamplesFit()
    ensures PairFits(QUOTED) && PairFits(UNQUOTED)
  {
  }

  // A mark in quotes is kept, one without is not.
  lemma MarksInValues(kept: KeyValue, lost: KeyValue)
    requires kept == QUOTED && lost == UNQUOTED
    ensures PairFits(kept) && ReadLine(KeyLine(kept)) == Pair(kept.key, kept.value, kept.comment)
    ensures PairFits(lost) && ReadLine(KeyLine(lost)) != Pair(lost.key, lost.value, lost.comment)
  {
    ExamplesFit();
    QuotedIsKept();
    UnquotedIsLost();
    KeyLineReads(kept);
    KeyLineReads(lost);
  }

  // ---------------------------------------------------------------- all lines

  // A line that one read of the file takes whole.
  predicate Readable(line: string) {
    Free(line, LINE_ENDS) && |line| + 1 < MAX_LINE_LENGTH
  }

  predicate AllReadable(lines: seq<string>) {
    forall i :: 0 <= i < |lines| ==> Readable(lines[i])
  }

  function ReadAll(lines: seq<string>): seq<Line> {
    if lines == [] then [] else [ReadLine(lines[0])] + ReadAll(lines[1..])
  }

  lemma {:induction false} LineEndsAtNewline(line: string, i: nat)
    requires Free(line, LINE_ENDS) && i <= |line|
    ensures LineEnd(line + "\n", i) == |line|
    decreases |line| - i
  {
    if i < |line| {
      assert line[i] in line && (line + "\n")[i] == line[i];
      LineEndsAtNewline(line, i + 1);
    }
  }

  lemma LineOfWhole(line: string)
    requires Free(line, LINE_ENDS)
    ensures LineOf(line + "\n") == line
  {
    LineEndsAtNewline(line, 0);
  }

  lemma FirstLineOfText(line: string, rest: string)
    requires Readable(line)
    ensures var text := line + "\n" + rest;
            ChunkLength(text) == |line| + 1 && text[..|line| + 1] == line + "\n" && text[|line| + 1..] == rest
  {
    var text := line + "\n" + rest;
    assert '\n' !in line;
    assert text == line + ['\n'] + rest;
    IndexAfter(line, '\n', rest, 0);
  }

  // A text of readable lines reads as those lines.
  lemma {:induction false} TextReads(lines: seq<string>)
    requires AllReadable(lines)
    ensures Lines(Text(lines)) == ReadAll(lines)
  {
    if lines != [] {
      FirstLineOfText(lines[0], Text(lines[1..]));
      LineOfWhole(lines[0]);
      TextReads(lines[1..]);
    }
  }

  lemma {:induction false} ReadAllJoins(a: seq<string>, b: seq<string>)
    ensures ReadAll(a + b) == ReadAll(a) + ReadAll(b)
  {
    if a == [] {
      assert a + b == b;
    } else {
      assert (a + b)[1..] == a[1..] + b;
      ReadAllJoins(a[1..], b);
    }
  }

  lemma {:induction false} AddLinesJoins(ini: Ini, a: seq<Line>, b: seq<Line>)
    ensures AddLines(ini, a + b) == AddLines(AddLines(ini, a), b)
    decreases |a|
  {
    if a == [] {
      assert a + b == b;
    } else {
      assert (a + b)[1..] == a[1..] + b;
      AddLinesJoins(AddLine(ini, a[0]), a[1..], b);
    }
  }

  // ---------------------------------------------------------------- what the printer's lines load as

  function Remarks(comments: seq<string>): seq<Line> {
    if comments == [] then [] else [Remark(comments[0])] + Remarks(comments[1..])
  }

  lemma {:induction false} CommentLinesRead(comments: seq<string>)
    requires WellFormedComments(comments)
    ensures ReadAll(CommentLines(comments)) == Remarks(comments)
  {
    if comments != [] {
      ReadsCommentLine(comments[0]);
      CommentLinesRead(comments[1..]);
      assert CommentLines(comments)[1..] == CommentLines(comments[1..]);
    }
  }

  lemma {:induction false} RemarksLoad(ini: Ini, comments: seq<string>)
    ensures AddLines(ini, Remarks(comments)) == WithPending(ini, Pending(ini) + comments)
    decreases |comments|
  {
    if comments == [] {
      assert Pending(ini) + comments == Pending(ini);
    } else {
      RemarksLoad(AddLine(ini, Remark(comments[0])), comments[1..]);
      assert Pending(ini) + [comments[0]] + comments[1..] == Pending(ini) + comments;
      assert Remarks(comments)[1..] == Remarks(comments[1..]);
    }
  }

  lemma CommentsLoad(ini: Ini, comments: seq<string>)
    requires WellFormedComments(comments)
    ensures AddLines(ini, ReadAll(CommentLines(comments))) == WithPending(ini, Pending(ini) + comments)
  {
    CommentLinesRead(comments);
    RemarksLoad(ini, comments);
  }

  function Reverse<T>(s: seq<T>): (r: seq<T>)
    ensures |r| == |s|
  {
    if s == [] then [] else Reverse(s[1..]) + [s[0]]
  }

  function WithKeys(ini: Ini, keys: seq<KeyValue>): Ini
    requires ini.sections != []
  {
    ini.(sections := [ini.sections[0].(keys := keys)] + ini.sections[1..])
  }

  lemma KeyLoads(ini: Ini, kv: KeyValue)
    requires ini.sections != [] && Pending(ini) == [] && WellFormedKey(kv)
    ensures AddLines(ini, ReadAll(CommentLines(kv.before) + [KeyLine(kv)])) == WithKeys(ini, [kv] + ini.sections[0].keys)
  {
    var cs, k := CommentLines(kv.before), [KeyLine(kv)];
    ReadAllJoins(cs, k);
    AddLinesJoins(ini, ReadAll(cs), ReadAll(k));
    CommentsLoad(ini, kv.before);
    ReadsKeyLine(kv);
    assert [] + kv.before == kv.before;
    var waiting := WithPending(ini, kv.before);
    assert ReadAll(k) == [Pair(kv.key, kv.value, kv.comment)];
    assert AddLines(waiting, ReadAll(k)) == AddLine(waiting, Pair(kv.key, kv.value, kv.comment));
  }

  lemma FirstKeyLoads(ini: Ini, keys: seq<KeyValue>)
    requires ini.sections != [] && Pending(ini) == [] && WellFormedKeys(keys) && keys != []
    ensures AddLines(ini, ReadAll(CommentLines(keys[0].before) + [KeyLine(keys[0])]))
            == WithKeys(ini, [keys[0]] + ini.sections[0].keys)
  {
    KeyLoads(ini, keys[0]);
  }

  lemma ReversedOnto<T>(s: seq<T>, more: seq<T>)
    requires s != []
    ensures Reverse(s[1..]) + ([s[0]] + more) == Reverse(s) + more
  {
  }

  lemma {:induction false} KeysLoad(ini: Ini, keys: seq<KeyValue>)
    requires ini.sections != [] && Pending(ini) == []
    requires WellFormedKeys(keys)
    ensures AddLines(ini, ReadAll(KeyLines(keys))) == WithKeys(ini, Reverse(keys) + ini.sections[0].keys)
    decreases |keys|
  {
    if keys == [] {
      assert Reverse(keys) + ini.sections[0].keys == ini.sections[0].keys;
    } else {
      var first, rest := CommentLines(keys[0].before) + [KeyLine(keys[0])], KeyLines(keys[1..]);
      ReadAllJoins(first, rest);
      AddLinesJoins(ini, ReadAll(first), ReadAll(rest));
      FirstKeyLoads(ini, keys);
      var next := WithKeys(ini, [keys[0]] + ini.sections[0].keys);
      KeysLoad(next, keys[1..]);
      ReversedOnto(keys, ini.sections[0].keys);
    }
  }

  // A section as it comes back: its keys in reverse and no comments before it.
  function Bare(s: Section): Section {
    s.(before := [], keys := Reverse(s.keys))
  }

  function BareAll(sections: seq<Section>): (r: seq<Section>)
    ensures |r| == |sections|
  {
    if sections == [] then [] else [Bare(sections[0])] + BareAll(sections[1..])
  }

  // Loading a printed section drops what waits, adds the section in front, and leaves the blank
  // line that ends it waiting.
  function AddSection(ini: Ini, s: Section): Ini {
    var dropped := WithPending(ini, []);
    dropped.(sections := [Bare(s).(before := [""])] + dropped.sections)
  }

  lemma SectionStarts(ini: Ini, s: Section)
    requires WellFormedSection(s)
    ensures var dropped := WithPending(ini, []);
            AddLines(ini, ReadAll(CommentLines(s.before) + [SectionLine(s)]))
            == dropped.(sections := [Section(s.name, s.comment, [], [])] + dropped.sections)
  {
    var cs, h := CommentLines(s.before), [SectionLine(s)];
    ReadAllJoins(cs, h);
    AddLinesJoins(ini, ReadAll(cs), ReadAll(h));
    CommentsLoad(ini, s.before);
    ReadsSectionLine(s);
    var commented := WithPending(ini, Pending(ini) + s.before);
    assert ReadAll(h) == [Header(s.name, s.comment)];
    assert AddLines(commented, ReadAll(h)) == AddLine(commented, Header(s.name, s.comment));
    assert WithPending(commented, []) == WithPending(ini, []);
  }

  function PrintedSection(s: Section): seq<string> {
    CommentLines(s.before) + [SectionLine(s)] + KeyLines(s.keys) + [""]
  }

  lemma ThreeParts(ini: Ini, a: seq<string>, b: seq<string>, c: seq<string>)
    ensures AddLines(ini, ReadAll(a + b + c)) == AddLines(AddLines(AddLines(ini, ReadAll(a)), ReadAll(b)), ReadAll(c))
  {
    ReadAllJoins(a + b, c);
    ReadAllJoins(a, b);
    AddLinesJoins(ini, ReadAll(a + b), ReadAll(c));
    AddLinesJoins(ini, ReadAll(a), ReadAll(b));
  }

  lemma KeysAndBlankLoad(ini: Ini, keys: seq<KeyValue>)
    requires ini.sections != [] && Pending(ini) == [] && ini.sections[0].keys == []
    requires WellFormedKeys(keys)
    ensures AddLines(AddLines(ini, ReadAll(KeyLines(keys))), ReadAll([""]))
         == ini.(sections := [ini.sections[0].(before := [""], keys := Reverse(keys))] + ini.sections[1..])
  {
    var filled := WithKeys(ini, Reverse(keys));
    assert AddLines(ini, ReadAll(KeyLines(keys))) == filled by {
      KeysLoad(ini, keys);
      assert Reverse(keys) + [] == Reverse(keys);
    }
    BlankLineWaits(filled);
    assert Pending(filled) + [""] == [""];
  }

  lemma SectionLoads(ini: Ini, s: Section)
    requires WellFormedSection(s)
    ensures AddLines(ini, ReadAll(PrintedSection(s))) == AddSection(ini, s)
  {
    var start := CommentLines(s.before) + [SectionLine(s)];
    ThreeParts(ini, start, KeyLines(s.keys), [""]);
    SectionStarts(ini, s);
    KeysAndBlankLoad(AddLines(ini, ReadAll(start)), s.keys);
  }

  lemma BlankLineWaits(ini: Ini)
    ensures AddLines(ini, ReadAll([""])) == WithPending(ini, Pending(ini) + [""])
  {
    assert ReadAll([""]) == [Remark("")];
    assert AddLines(ini, [Remark("")]) == AddLine(ini, Remark(""));
  }

  function AddSections(ini: Ini, sections: seq<Section>): Ini
    decreases |sections|
  {
    if sections == [] then ini else AddSections(AddSection(ini, sections[0]), sections[1..])
  }

  lemma {:induction false} SectionsLoad(ini: Ini, sections: seq<Section>)
    requires forall i :: 0 <= i < |sections| ==> WellFormedSection(sections[i])
    ensures AddLines(ini, ReadAll(SectionLines(sections))) == AddSections(ini, sections)
    decreases |sections|
  {
    if sections != [] {
      var first, rest := PrintedSection(sections[0]), SectionLines(sections[1..]);
      ReadAllJoins(first, rest);
      AddLinesJoins(ini, ReadAll(first), ReadAll(rest));
      SectionLoads(ini, sections[0]);
      SectionsLoad(AddSection(ini, sections[0]), sections[1..]);
    }
  }

  // The blank line after the last printed section waits before it.
  function MarkFirst(sections: seq<Section>): seq<Section> {
    if sections == [] then [] else [sections[0].(before := [""])] + sections[1..]
  }

  // The file that comes back.
  function Reloaded(ini: Ini): Ini {
    if ini.sections == [] then ini else Ini([], MarkFirst(Reverse(BareAll(ini.sections))))
  }

  lemma {:induction false} AddSectionsReverses(ini: Ini, sections: seq<Section>)
    requires sections != []
    ensures var orig := WithPending(ini, []);
            AddSections(ini, sections) == orig.(sections := MarkFirst(Reverse(BareAll(sections)) + orig.sections))
    decreases |sections|
  {
    var dropped := WithPending(ini, []);
    var next := AddSection(ini, sections[0]);
    if |sections| == 1 {
      assert BareAll(sections[1..]) == [] && Reverse(BareAll(sections)) == [Bare(sections[0])];
    } else {
      AddSectionsReverses(next, sections[1..]);
      assert WithPending(next, []).sections == [Bare(sections[0])] + dropped.sections;
      assert Reverse(BareAll(sections[1..])) + ([Bare(sections[0])] + dropped.sections)
          == Reverse(BareAll(sections)) + dropped.sections;
    }
  }

  // ---------------------------------------------------------------- printed lines fit the reader

  lemma {:induction false} CommentLinesReadable(comments: seq<string>)
    requires WellFormedComments(comments)
    ensures AllReadable(CommentLines(comments))
  {
    if comments != [] {
      assert Readable(CommentLine(comments[0]));
      CommentLinesReadable(comments[1..]);
    }
  }

  lemma FreeJoin(a: string, b: string, marks: set<char>)
    requires Free(a, marks) && Free(b, marks)
    ensures Free(a + b, marks)
  {
  }

  lemma TailIsFree(comment: string)
    requires WellFormedComment(comment)
    ensures Free(Tail(comment), LINE_ENDS)
  {
    FreeJoin(" ; ", comment, LINE_ENDS);
  }

  lemma OneKeyReadable(kv: KeyValue)
    requires PairFits(kv) && WellFormedComments(kv.before)
    ensures AllReadable(CommentLines(kv.before)) && Readable(KeyLine(kv))
  {
    CommentLinesReadable(kv.before);
    TailIsFree(kv.comment);
    FreeJoin(kv.key, " = ", LINE_ENDS);
    FreeJoin(kv.key + " = ", kv.value, LINE_ENDS);
    FreeJoin(KeyItem(kv), Tail(kv.comment), LINE_ENDS);
  }

  lemma {:induction false} KeyLinesReadable(keys: seq<KeyValue>)
    requires WellFormedKeys(keys)
    ensures AllReadable(KeyLines(keys))
  {
    if keys != [] {
      OneKeyReadable(keys[0]);
      KeyLinesReadable(keys[1..]);
    }
  }

  lemma OneSectionReadable(s: Section)
    requires WellFormedSection(s)
    ensures AllReadable(CommentLines(s.before)) && Readable(SectionLine(s)) && AllReadable(KeyLines(s.keys))
  {
    CommentLinesReadable(s.before);
    KeyLinesReadable(s.keys);
  }

  lemma ReadableJoin(a: seq<string>, b: string, c: seq<string>, d: seq<string>)
    requires AllReadable(a) && Readable(b) && AllReadable(c) && AllReadable(d)
    ensures AllReadable(a + [b] + c + [""] + d)
  {
    assert Readable("");
  }

  lemma {:induction false} SectionLinesReadable(sections: seq<Section>)
    requires forall i :: 0 <= i < |sections| ==> WellFormedSection(sections[i])
    ensures AllReadable(SectionLines(sections))
  {
    if sections != [] {
      var s, rest := sections[0], sections[1..];
      OneSectionReadable(s);
      SectionLinesReadable(rest);
      ReadableJoin(CommentLines(s.before), SectionLine(s), KeyLines(s.keys), SectionLines(rest));
    }
  }

  // Loading what was saved gives the same sections and keys, both orders reversed: names, values,
  // comments on lines and comments before keys are kept exactly; comments before sections are not.
  lemma RoundTrip(ini: Ini)
    requires WellFormed(ini)
    ensures Load(Save(ini)) == Reloaded(ini)
  {
    var cs, ss := CommentLines(ini.header), SectionLines(ini.sections);
    CommentLinesReadable(ini.header);
    SectionLinesReadable(ini.sections);
    TextReads(cs + ss);
    ReadAllJoins(cs, ss);
    AddLinesJoins(EMPTY, ReadAll(cs), ReadAll(ss));
    CommentsLoad(EMPTY, ini.header);
    assert [] + ini.header == ini.header;
    var commented := Ini(ini.header, []);
    SectionsLoad(commented, ini.sections);
    if ini.sections != [] {
      AddSectionsReverses(commented, ini.sections);
      var r := Reverse(BareAll(ini.sections));
      assert r + [] == r;
    }
  }
}
