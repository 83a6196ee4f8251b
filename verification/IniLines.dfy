/** What a line of an INI file says, however it is spaced. */
module IniLines {
  import opened CStrings
  import opened IniFormat
  import opened IniRoundTrip

  const MARKS: set<char> := {';', '#'}
  const QUOTES: set<char> := {'"', '\''}

  // A field of a line as it comes out: no space at its ends, and short enough.
  predicate Field(s: string, limit: nat) {
    Trimmed(s) && |s| < limit
  }

  // A key that is not taken for another kind of line.
  predicate PlainKey(key: string) {
    Field(key, MAX_KEY_LENGTH) && '=' !in key && (key != "" ==> key[0] !in {'[', ';', '#'})
  }

  lemma FreeParts(a: string, b: string, marks: set<char>)
    ensures Free(a + b, marks) <==> Free(a, marks) && Free(b, marks)
  {
    assert forall c :: c in a + b <==> c in a || c in b;
  }

  lemma BlankIsFree(a: string, marks: set<char>)
    requires Blank(a) && forall c :: c in marks ==> !IsSpace(c)
    ensures Free(a, marks)
  {
  }

  lemma {:induction false} NoQuotation(line: string, i: nat, end: nat)
    requires i <= end <= |line| && Free(line, QUOTES)
    ensures !InQuotes(line, i, end, false)
    decreases end - i
  {
    if i < end {
      assert line[i] in line;
      NoQuotation(line, i + 1, end);
    }
  }

  // ---------------------------------------------------------------- comments

  lemma SplitsNowhere(line: string)
    requires Free(line, MARKS)
    ensures SplitComment(line) == Whole(line)
  {
    PlainIsKept(line);
  }

  // A mark behind an item without marks and quotes starts the comment. A semicolon is looked for first, so a
  // comment behind a hash holds none.
  lemma SplitsAtMark(item: string, mark: char, gap: string, comment: string, tail: string)
    requires Free(item, MARKS + QUOTES) && mark in MARKS && Blank(gap) && Blank(tail) && Field(comment, MAX_COMMENT_LENGTH)
    requires mark == '#' ==> ';' !in comment
    ensures SplitComment(item + [mark] + (gap + comment + tail)) == Split(item, comment)
  {
    var rest := gap + comment + tail;
    NoQuotation(item, 0, |item|);
    TrimDrops(gap, comment, tail);
    ExtractsAt(item, mark, rest);
    if mark == '#' {
      NoSemicolon(item, mark, gap, comment, tail);
      IndexNone(item + [mark] + rest, ';', 0);
    }
  }

  lemma NoSemicolon(item: string, mark: char, gap: string, comment: string, tail: string)
    requires ';' !in item && mark != ';' && Blank(gap) && ';' !in comment && Blank(tail)
    ensures ';' !in item + [mark] + (gap + comment + tail)
  {
  }

  // ---------------------------------------------------------------- pairs

  lemma PairIs(s: Split, left: string, right: string, key: string, value: string)
    requires s.line == left + ['='] + right && '=' !in left && Trim(left) == key && Trim(right) == value
    requires |key| < MAX_KEY_LENGTH && |value| < MAX_VALUE_LENGTH
    ensures PairOf(s) == Pair(key, value, CommentOf(s))
  {
    IndexAfter(left, '=', right, 0);
    assert s.line[..|left|] == left && s.line[|left| + 1..] == right;
  }

  // A pair, spaced as it may be.
  function PairItem(a: string, key: string, b: string, c: string, value: string, d: string): string {
    (a + key + b) + ['='] + (c + value + d)
  }

  predicate Blanks(a: string, b: string, c: string, d: string) {
    Blank(a) && Blank(b) && Blank(c) && Blank(d)
  }

  lemma PairItemReads(s: Split, a: string, key: string, b: string, c: string, value: string, d: string)
    requires Blanks(a, b, c, d) && PlainKey(key) && Field(value, MAX_VALUE_LENGTH)
    requires s.line == PairItem(a, key, b, c, value, d)
    ensures PairOf(s) == Pair(key, value, CommentOf(s))
  {
    TrimDrops(a, key, b);
    TrimDrops(c, value, d);
    PairIs(s, a + key + b, c + value + d, key, value);
  }

  lemma PairItemStarts(a: string, key: string, b: string, c: string, value: string, d: string, more: string)
    requires Blanks(a, b, c, d) && PlainKey(key)
    ensures var line := PairItem(a, key, b, c, value, d) + more;
            Trim(line) != "" && Trim(line)[0] !in {';', '#', '['}
  {
    var line, right := PairItem(a, key, b, c, value, d) + more, c + value + d;
    if key == "" {
      var rest := ['='] + right + more;
      assert line == (a + b) + rest;
      TrimStarts(a + b, rest);
    } else {
      var rest := key + (b + ['='] + right + more);
      assert line == a + rest && rest[0] == key[0];
      TrimStarts(a, rest);
    }
  }

  // However it is spaced, a pair without marks reads as its key and its value.
  lemma PairLineReads(a: string, key: string, b: string, c: string, value: string, d: string)
    requires Blanks(a, b, c, d) && PlainKey(key) && Field(value, MAX_VALUE_LENGTH)
    requires Free(key, MARKS) && Free(value, MARKS)
    ensures ReadLine(a + key + b + "=" + c + value + d) == Pair(key, value, "")
  {
    var line := PairItem(a, key, b, c, value, d);
    assert a + key + b + "=" + c + value + d == line;
    PairIsFree(a, key, b, c, value, d, MARKS);
    SplitsNowhere(line);
    assert line + "" == line;
    PairItemStarts(a, key, b, c, value, d, "");
    PairItemReads(Whole(line), a, key, b, c, value, d);
    ReadsAsPair(line, Whole(line));
  }

  lemma PairIsFree(a: string, key: string, b: string, c: string, value: string, d: string, marks: set<char>)
    requires Blanks(a, b, c, d) && Free(key, marks) && Free(value, marks) && marks <= MARKS + QUOTES
    ensures Free(PairItem(a, key, b, c, value, d), marks)
  {
    BlankIsFree(a, marks);
    BlankIsFree(b, marks);
    BlankIsFree(c, marks);
    BlankIsFree(d, marks);
    FreeParts(a, key, marks);
    FreeParts(a + key, b, marks);
    FreeParts(c, value, marks);
    FreeParts(c + value, d, marks);
    FreeParts(a + key + b, ['='], marks);
    FreeParts(a + key + b + ['='], c + value + d, marks);
  }

  lemma ReadsSplitPair(item: string, more: string, tail: string, s: Split)
    requires SplitComment(item + more + tail) == s
    requires Trim(item + (more + tail)) != "" && Trim(item + (more + tail))[0] !in {';', '#', '['}
    ensures ReadLine(item + more + tail) == PairOf(s)
  {
    assert item + more + tail == item + (more + tail);
    ReadsAsPair(item + more + tail, s);
  }

  // So it does with a comment behind it, which is kept.
  lemma PairWithCommentReads(
      a: string, key: string, b: string, c: string, value: string, d: string,
      mark: char, e: string, comment: string, f: string)
    requires Blanks(a, b, c, d) && Blank(e) && Blank(f) && PlainKey(key) && Field(value, MAX_VALUE_LENGTH)
    requires Free(key, MARKS + QUOTES) && Free(value, MARKS + QUOTES) && Field(comment, MAX_COMMENT_LENGTH)
    requires mark in MARKS && (mark == '#' ==> ';' !in comment)
    ensures ReadLine(PairItem(a, key, b, c, value, d) + [mark] + (e + comment + f)) == Pair(key, value, comment)
  {
    var item, tail := PairItem(a, key, b, c, value, d), e + comment + f;
    PairIsFree(a, key, b, c, value, d, MARKS + QUOTES);
    SplitsAtMark(item, mark, e, comment, f);
    PairItemStarts(a, key, b, c, value, d, [mark] + tail);
    PairItemReads(Split(item, comment), a, key, b, c, value, d);
    ReadsSplitPair(item, [mark], tail, Split(item, comment));
  }

  // A semicolon cuts before a hash does: behind a hash it leaves the hash in the value.
  lemma SemicolonCutsFirst(key: string, value: string, between: string, comment: string)
    requires PlainKey(key) && key != "" && Free(key, MARKS + QUOTES) && Free(value, MARKS + QUOTES)
    requires Free(between, {';'} + QUOTES) && Field(comment, MAX_COMMENT_LENGTH)
    requires Field(value + "#" + between, MAX_VALUE_LENGTH)
    ensures ReadLine(PairItem("", key, "", "", value + "#" + between, "") + [';'] + comment)
         == Pair(key, value + "#" + between, comment)
  {
    FreeParts(value, "#", {';'} + QUOTES);
    FreeParts(value + "#", between, {';'} + QUOTES);
    PairCutAtSemicolon(key, value + "#" + between, comment);
  }

  lemma PairCutAtSemicolon(key: string, value: string, comment: string)
    requires PlainKey(key) && Free(key, {';'} + QUOTES) && Free(value, {';'} + QUOTES)
    requires Field(value, MAX_VALUE_LENGTH) && Field(comment, MAX_COMMENT_LENGTH)
    ensures ReadLine(PairItem("", key, "", "", value, "") + [';'] + comment) == Pair(key, value, comment)
  {
    var item := PairItem("", key, "", "", value, "");
    CutsAtSemicolon("", key, "", "", value, "", comment);
    PairItemStarts("", key, "", "", value, "", [';'] + comment);
    PairItemReads(Split(item, comment), "", key, "", "", value, "");
    ReadsSplitPair(item, [';'], comment, Split(item, comment));
  }

  lemma CutsAtSemicolon(a: string, key: string, b: string, c: string, value: string, d: string, comment: string)
    requires Blanks(a, b, c, d) && Free(key, {';'} + QUOTES) && Free(value, {';'} + QUOTES)
    requires Field(comment, MAX_COMMENT_LENGTH)
    ensures var item := PairItem(a, key, b, c, value, d); SplitComment(item + [';'] + comment) == Split(item, comment)
  {
    var item := PairItem(a, key, b, c, value, d);
    PairIsFree(a, key, b, c, value, d, {';'} + QUOTES);
    assert ';' !in item && Free(item, QUOTES);
    NoQuotation(item, 0, |item|);
    TrimNothing(comment);
    ExtractsAt(item, ';', comment);
  }

  // ---------------------------------------------------------------- quotations

  const ESCAPE: char := '\\'

  // Characters that are neither quotes nor escapes leave a quotation as it is.
  lemma {:induction false} QuotationStays(line: string, i: nat, k: nat, end: nat, open: bool)
    requires i <= k <= end && k <= |line| && Free(line[i..k], QUOTES + {ESCAPE})
    ensures InQuotes(line, i, end, open) == InQuotes(line, k, end, open)
    decreases k - i
  {
    if i < k {
      assert line[i..k][0] == line[i] && line[i..k][1..] == line[i + 1..k];
      assert line[i] in line[i..k];
      FreeParts([line[i]], line[i + 1..k], QUOTES + {ESCAPE});
      assert [line[i]] + line[i + 1..k] == line[i..k];
      QuotationStays(line, i + 1, k, end, open);
    }
  }

  // Behind an opening quote a quotation is open.
  lemma InsideQuotation(head: string, quote: char, text: string, end: nat)
    requires quote in QUOTES && Free(head, QUOTES + {ESCAPE}) && Free(text, QUOTES + {ESCAPE})
    requires |head| < end <= |head| + 1 + |text|
    ensures InQuotes(head + [quote] + text, 0, end, false)
  {
    var line, n := head + [quote] + text, |head|;
    assert line[0..n] == head && line[n] == quote;
    QuotationStays(line, 0, n, end, false);
    var part := line[n + 1..end];
    forall c | c in part ensures c in text {
      var i :| 0 <= i < |part| && part[i] == c;
      assert part[i] == text[i];
    }
    QuotationStays(line, n + 1, end, end, true);
  }

  lemma SameQuotation(line: string, part: string, end: nat)
    requires part <= line && end < |part| && line[end] !in QUOTES
    ensures InQuotes(line, 0, end, false) == InQuotes(part, 0, end, false)
  {
    forall k | 0 <= k <= end ensures CharAt(line, k) == CharAt(part, k) {
      assert line[k] == part[k];
    }
    InQuotesSameStart(line, part, 0, end, false);
  }

  // A mark that only a quotation holds does not cut the line.
  lemma QuotedMarkStays(head: string, quote: char, text: string, tail: string, mark: char)
    requires quote in QUOTES && mark in MARKS && Free(head, MARKS + QUOTES + {ESCAPE}) && Free(text, QUOTES + {ESCAPE})
    requires Free(tail, MARKS)
    ensures ExtractComment(head + [quote] + text + [quote] + tail, mark).Whole?
  {
    var part := head + [quote] + text;
    var line := part + [quote] + tail;
    var k := IndexOf(line, mark);
    if k < |line| {
      assert line == part + ([quote] + tail);
      MarkIsInText(head, quote, text, tail, k);
      SameQuotation(line, part, k);
      InsideQuotation(head, quote, text, k);
    }
  }

  lemma MarkIsInText(head: string, quote: char, text: string, tail: string, k: nat)
    requires quote in QUOTES && Free(head, MARKS) && Free(tail, MARKS)
    requires k < |head| + 1 + |text| + 1 + |tail| && (head + [quote] + text + [quote] + tail)[k] in MARKS
    ensures |head| < k < |head| + 1 + |text|
  {
    var line, n := head + [quote] + text + [quote] + tail, |head| + 1 + |text|;
    assert forall i :: 0 <= i < |head| ==> line[i] == head[i] && head[i] in head;
    assert forall i :: 0 <= i < |tail| ==> line[n + 1 + i] == tail[i] && tail[i] in tail;
    assert line[|head|] == quote && line[n] == quote;
    assert forall i :: n < i < |line| ==> line[i] == tail[i - n - 1];
  }

  // A quoted value is read whole, whatever marks it holds.
  lemma QuotedPairReads(a: string, key: string, b: string, c: string, quote: char, text: string, d: string)
    requires Blanks(a, b, c, d) && PlainKey(key) && Free(key, MARKS + QUOTES + {ESCAPE})
    requires quote in QUOTES && Free(text, QUOTES + {ESCAPE}) && |text| + 2 < MAX_VALUE_LENGTH
    ensures ReadLine(PairItem(a, key, b, c, [quote] + text + [quote], d)) == Pair(key, [quote] + text + [quote], "")
  {
    var value := [quote] + text + [quote];
    var line, head := PairItem(a, key, b, c, value, d), (a + key + b) + ['='] + c;
    assert line == head + [quote] + text + [quote] + d;
    QuotedHeadIsFree(a, key, b, c);
    BlankIsFree(d, MARKS);
    QuotedMarkStays(head, quote, text, d, ';');
    QuotedMarkStays(head, quote, text, d, '#');
    assert line + "" == line;
    PairItemStarts(a, key, b, c, value, d, "");
    PairItemReads(Whole(line), a, key, b, c, value, d);
    ReadsAsPair(line, Whole(line));
  }

  lemma QuotedHeadIsFree(a: string, key: string, b: string, c: string)
    requires Blank(a) && Blank(b) && Blank(c) && Free(key, MARKS + QUOTES + {ESCAPE})
    ensures Free((a + key + b) + ['='] + c, MARKS + QUOTES + {ESCAPE})
  {
    var all := MARKS + QUOTES + {ESCAPE};
    BlankIsFree(a, all);
    BlankIsFree(b, all);
    BlankIsFree(c, all);
    FreeParts(a, key, all);
    FreeParts(a + key, b, all);
    FreeParts(a + key + b, ['='], all);
    FreeParts(a + key + b + ['='], c, all);
  }

  // An escaped quote opens no quotation, so a mark behind it cuts the line.
  lemma EscapedQuoteCuts(head: string, quote: char, text: string, comment: string)
    requires quote in QUOTES && Free(head, MARKS + QUOTES + {ESCAPE}) && Free(text, MARKS + QUOTES + {ESCAPE})
    requires Trimmed(comment)
    ensures SplitComment(head + [ESCAPE, quote] + text + [';'] + comment) == Split(head + [ESCAPE, quote] + text, comment)
  {
    var item, n := head + [ESCAPE, quote] + text, |head|;
    assert item[0..n] == head && item[n] == ESCAPE && item[n + 1] == quote && item[n + 2..|item|] == text;
    QuotationStays(item, 0, n, |item|, false);
    QuotationStays(item, n + 2, |item|, |item|, false);
    assert ';' !in item by {
      FreeParts(head, [ESCAPE, quote], {';'});
      FreeParts(head + [ESCAPE, quote], text, {';'});
    }
    TrimNothing(comment);
    ExtractsAt(item, ';', comment);
  }

  // ---------------------------------------------------------------- headings

  // A heading, spaced as it may be inside its brackets, and whatever follows them.
  function HeadingItem(b: string, name: string, c: string, rest: string): string {
    ("[" + (b + name + c)) + [']'] + rest
  }

  lemma HeadingIs(s: Split, inside: string, rest: string, name: string)
    requires s.line == ("[" + inside) + [']'] + rest && ']' !in inside && Trim(inside) == name && |name| < MAX_SECTION_LENGTH
    ensures HeaderOf(s) == Header(name, CommentOf(s))
  {
    var head := "[" + inside;
    assert ']' !in head;
    IndexAfter(head, ']', rest, 0);
    assert s.line[1..|head|] == inside;
  }

  lemma HeadingItemReads(s: Split, b: string, name: string, c: string, rest: string)
    requires Blank(b) && Blank(c) && Field(name, MAX_SECTION_LENGTH) && ']' !in name
    requires s.line == HeadingItem(b, name, c, rest)
    ensures HeaderOf(s) == Header(name, CommentOf(s))
  {
    TrimDrops(b, name, c);
    HeadingIs(s, b + name + c, rest, name);
  }

  lemma HeadingIsFree(b: string, name: string, c: string, rest: string, marks: set<char>)
    requires Blank(b) && Blank(c) && Free(name, marks) && Free(rest, marks) && marks <= MARKS + QUOTES
    ensures Free(HeadingItem(b, name, c, rest), marks)
  {
    BlankIsFree(b, marks);
    BlankIsFree(c, marks);
    FreeParts(b, name, marks);
    FreeParts(b + name, c, marks);
    FreeParts("[", b + name + c, marks);
    FreeParts("[" + (b + name + c), [']'], marks);
    FreeParts("[" + (b + name + c) + [']'], rest, marks);
  }

  // A line that starts with a bracket, whatever is behind.
  lemma ReadsBracketed(item: string, more: string, s: Split)
    requires item != "" && item[0] == '[' && SplitComment(item + more) == s
    ensures ReadLine(item + more) == HeaderOf(s)
  {
    var line := item + more;
    TrimStarts("", line);
    assert "" + line == line;
    ReadsAsHeader(line, s);
  }

  // A heading at the start of its line reads as the name in its brackets; what follows the brackets is ignored.
  lemma HeadingLineReads(b: string, name: string, c: string, rest: string)
    requires Blank(b) && Blank(c) && Field(name, MAX_SECTION_LENGTH) && ']' !in name
    requires Free(name, MARKS) && Free(rest, MARKS)
    ensures ReadLine("[" + b + name + c + "]" + rest) == Header(name, "")
  {
    var line := HeadingItem(b, name, c, rest);
    assert "[" + b + name + c + "]" + rest == line;
    HeadingIsFree(b, name, c, rest, MARKS);
    SplitsNowhere(line);
    HeadingItemReads(Whole(line), b, name, c, rest);
    assert line + "" == line;
    ReadsBracketed(line, "", Whole(line));
  }

  // So it does with a comment behind it, which is kept.
  lemma HeadingWithCommentReads(
      b: string, name: string, c: string, rest: string, mark: char, e: string, comment: string, f: string)
    requires Blank(b) && Blank(c) && Blank(e) && Blank(f) && Field(name, MAX_SECTION_LENGTH) && ']' !in name
    requires Free(name, MARKS + QUOTES) && Free(rest, MARKS + QUOTES) && Field(comment, MAX_COMMENT_LENGTH)
    requires mark in MARKS && (mark == '#' ==> ';' !in comment)
    ensures ReadLine(HeadingItem(b, name, c, rest) + [mark] + (e + comment + f)) == Header(name, comment)
  {
    var item, tail := HeadingItem(b, name, c, rest), e + comment + f;
    HeadingIsFree(b, name, c, rest, MARKS + QUOTES);
    SplitsAtMark(item, mark, e, comment, f);
    HeadingItemReads(Split(item, comment), b, name, c, rest);
    ReadsMarkedHeading(item, mark, tail, Split(item, comment));
  }

  lemma ReadsMarkedHeading(item: string, mark: char, tail: string, s: Split)
    requires item != "" && item[0] == '[' && SplitComment(item + [mark] + tail) == s
    ensures ReadLine(item + [mark] + tail) == HeaderOf(s)
  {
    assert item + [mark] + tail == item + ([mark] + tail);
    ReadsBracketed(item, [mark] + tail, s);
  }

  // An indented heading keeps its opening bracket in the name, because the line is cut at its first character
  // before it is trimmed.
  lemma IndentedHeadingReads(a: string, name: string, c: string)
    requires Blank(a) && a != "" && Blank(c) && name != "" && Trimmed(name) && ']' !in name && Free(name, MARKS)
    requires |name| + 1 < MAX_SECTION_LENGTH
    ensures ReadLine(a + "[" + name + c + "]") == Header("[" + name, "")
  {
    var line := a + "[" + name + c + "]";
    IndentedIsFree(a, name, c);
    SplitsNowhere(line);
    IndentedIs(a, name, c);
    ReadsIndented(a, "[" + name + c + "]", line, Whole(line));
  }

  lemma ReadsIndented(a: string, item: string, line: string, s: Split)
    requires Blank(a) && item != "" && item[0] == '[' && line == a + item && SplitComment(line) == s
    ensures ReadLine(line) == HeaderOf(s)
  {
    TrimStarts(a, item);
    ReadsAsHeader(line, s);
  }

  lemma IndentedIs(a: string, name: string, c: string)
    requires Blank(a) && a != "" && Blank(c) && name != "" && Trimmed(name) && ']' !in name
    requires |name| + 1 < MAX_SECTION_LENGTH
    ensures HeaderOf(Whole(a + "[" + name + c + "]")) == Header("[" + name, "")
  {
    var line, inside := a + "[" + name + c + "]", a[1..] + ("[" + name) + c;
    var head := [a[0]] + inside;
    assert line == head + [']'] + "" by {
      assert a == [a[0]] + a[1..];
    }
    assert ']' !in head by {
      assert a[0] in a;
      assert forall x :: x in a[1..] ==> x in a;
    }
    IndexAfter(head, ']', "", 0);
    assert (head + [']'] + "")[1..|head|] == inside;
    assert forall x :: x in a[1..] ==> x in a;
    TrimDrops(a[1..], "[" + name, c);
  }

  lemma IndentedIsFree(a: string, name: string, c: string)
    requires Blank(a) && Blank(c) && Free(name, MARKS)
    ensures Free(a + "[" + name + c + "]", MARKS)
  {
    BlankIsFree(a, MARKS);
    BlankIsFree(c, MARKS);
  }

  // ---------------------------------------------------------------- remarks and empty lines

  // A line that starts with a mark is a remark, whatever follows.
  lemma RemarkLineReads(a: string, mark: char, b: string, text: string, c: string)
    requires Blank(a) && mark in MARKS && Blank(b) && Blank(c) && Field(text, MAX_COMMENT_LENGTH)
    ensures ReadLine(a + [mark] + b + text + c) == Remark(text)
  {
    var line, rest := a + [mark] + b + text + c, [mark] + (b + text + c);
    assert line == a + rest;
    TrimLeftDrops(a, rest);
    if text == "" {
      assert rest == [mark] + (b + c);
      TrimRightDrops([mark], b + c);
    } else {
      assert rest == ([mark] + b + text) + c;
      TrimRightDrops([mark] + b + text, c);
      assert ([mark] + b + text)[1..] == b + text == b + text + "";
      TrimDrops(b, text, "");
    }
  }

  lemma EmptyLineReads(a: string)
    requires Blank(a)
    ensures ReadLine(a) == Remark("")
  {
    TrimDrops(a, "", "");
    assert a + "" + "" == a;
  }

  // Any other line without an equals sign says nothing.
  lemma NoPairReads(a: string, text: string, b: string)
    requires Blank(a) && Blank(b) && Trimmed(text) && text != "" && text[0] !in {';', '#', '['} && '=' !in text
    ensures ReadLine(a + text + b) == Ignored
  {
    var line := a + text + b;
    TrimDrops(a, text, b);
    assert '=' !in line;
    NoPairIn(line, SplitComment(line));
  }

  lemma NoPairIn(line: string, s: Split)
    requires '=' !in line && s == SplitComment(line)
    ensures PairOf(s) == Ignored
  {
    assert s.line <= line;
    assert '=' !in s.line;
    IndexNone(s.line, '=', 0);
  }

  // ---------------------------------------------------------------- lines of a text

  lemma {:induction false} LineEndsAt(line: string, rest: string, i: nat)
    requires Free(line, LINE_ENDS) && rest != "" && rest[0] in LINE_ENDS && i <= |line|
    ensures LineEnd(line + rest, i) == |line|
    decreases |line| - i
  {
    if i < |line| {
      assert (line + rest)[i] == line[i] && line[i] in line;
      LineEndsAt(line, rest, i + 1);
    } else {
      assert (line + rest)[i] == rest[0];
    }
  }

  lemma {:induction false} LineEndsNowhere(line: string, i: nat)
    requires Free(line, LINE_ENDS) && i <= |line|
    ensures LineEnd(line, i) == |line|
    decreases |line| - i
  {
    if i < |line| {
      assert line[i] in line;
      LineEndsNowhere(line, i + 1);
    }
  }

  // A line ends at a newline, with or without a carriage return before it, if it fits the buffer.
  lemma LineIsTaken(line: string, ending: string, rest: string)
    requires Free(line, LINE_ENDS) && ending in {"\n", "\r\n"} && |line| + |ending| < MAX_LINE_LENGTH
    ensures Lines(line + ending + rest) == [ReadLine(line)] + Lines(rest)
  {
    var text, head := line + ending + rest, line + ending[..|ending| - 1];
    assert '\n' !in head;
    assert text == head + ['\n'] + rest;
    IndexAfter(head, '\n', rest, 0);
    assert ChunkLength(text) == |line + ending|;
    assert text[..|line + ending|] == line + ending && text[|line + ending|..] == rest;
    LineEndsAt(line, ending, 0);
    assert (line + ending)[..|line|] == line;
  }

  // The last line needs no newline.
  lemma LastLineIsTaken(line: string)
    requires Free(line, LINE_ENDS) && line != "" && |line| < MAX_LINE_LENGTH
    ensures Lines(line) == [ReadLine(line)]
  {
    IndexNone(line, '\n', 0);
    assert line[..|line|] == line && line[|line|..] == "";
    LineEndsNowhere(line, 0);
  }

  lemma ChunkIsFull(text: string, n: nat)
    requires n == MAX_LINE_LENGTH - 1 && n < |text| && '\n' !in text[..n]
    ensures ChunkLength(text) == n
  {
    var k := IndexOf(text, '\n');
    assert forall i :: 0 <= i < n ==> text[..n][i] == text[i] && text[i] in text[..n];
  }

  // A line that does not fit is read in pieces of 1023 characters, each as a line of its own.
  lemma LongLineIsSplit(piece: string, rest: string)
    requires Free(piece, LINE_ENDS) && |piece| == MAX_LINE_LENGTH - 1 && rest != ""
    ensures Lines(piece + rest) == [ReadLine(piece)] + Lines(rest)
  {
    var text, n := piece + rest, |piece|;
    assert text[..n] == piece && text[n..] == rest;
    ChunkIsFull(text, n);
    LineEndsNowhere(piece, 0);
    assert LineOf(piece) == piece;
  }

  // ---------------------------------------------------------------- the printed text

  lemma TextStarts(line: string, lines: seq<string>)
    ensures Text([line] + lines) == line + "\n" + Text(lines)
  {
    assert ([line] + lines)[1..] == lines;
  }

  lemma OneComment(c: string)
    ensures CommentLines([c]) == [CommentLine(c)]
  {
    assert [c][1..] == [];
  }

  lemma OneKey(kv: KeyValue)
    ensures KeyLines([kv]) == CommentLines(kv.before) + [KeyLine(kv)]
  {
    assert [kv][1..] == [];
  }

  lemma OneSection(s: Section)
    ensures SectionLines([s]) == CommentLines(s.before) + [SectionLine(s)] + KeyLines(s.keys) + [""]
  {
    assert [s][1..] == [];
  }

  // A file with a comment at every place: comments behind semicolons, spaces around them and around the equals sign,
  // and an empty line behind the section.
  lemma PrintsCommented(head: string, name: string, c: string, before: string, key: string, value: string, d: string, b: string)
    requires head != "" && c != "" && before != "" && d != "" && b != ""
    ensures Save(Ini([head], [Section(name, c, [before], [KeyValue(key, value, d, [b])])]))
         == ("; " + head) + "\n" + (("; " + before) + "\n" + (("[" + name + "]" + (" ; " + c)) + "\n"
            + (("; " + b) + "\n" + ((key + " = " + value + (" ; " + d)) + "\n" + ("" + "\n" + "")))))
  {
    var kv := KeyValue(key, value, d, [b]);
    var s := Section(name, c, [before], [kv]);
    OneComment(head);
    OneComment(before);
    OneComment(b);
    OneKey(kv);
    OneSection(s);
    var l0: seq<string> := [""];
    var l1 := [KeyLine(kv)] + l0;
    var l2 := ["; " + b] + l1;
    var l3 := [SectionLine(s)] + l2;
    var l4 := ["; " + before] + l3;
    assert SectionLines([s]) == l4;
    TextStarts("", []);
    assert l0 == [""] + [];
    TextStarts(KeyLine(kv), l0);
    TextStarts("; " + b, l1);
    TextStarts(SectionLine(s), l2);
    TextStarts("; " + before, l3);
    TextStarts("; " + head, l4);
  }

  // A file without comments, but for an empty one, which is an empty line.
  lemma PrintsBare(name: string, key: string, value: string)
    ensures Save(Ini([""], [Section(name, "", [], [KeyValue(key, value, "", [])])]))
         == "" + "\n" + (("[" + name + "]" + "") + "\n" + ((key + " = " + value + "") + "\n" + ("" + "\n" + "")))
  {
    var kv := KeyValue(key, value, "", []);
    var s := Section(name, "", [], [kv]);
    OneComment("");
    OneKey(kv);
    OneSection(s);
    var l0: seq<string> := [""];
    var l1 := [KeyLine(kv)] + l0;
    var l2 := [SectionLine(s)] + l1;
    assert SectionLines([s]) == l2;
    TextStarts("", []);
    assert l0 == [""] + [];
    TextStarts(KeyLine(kv), l0);
    TextStarts(SectionLine(s), l1);
    TextStarts("", l2);
  }
}
