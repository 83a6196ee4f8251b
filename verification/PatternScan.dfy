/** Byte signatures: how their text is read and where they match. */
module PatternScan {
  import opened Bytes
  import opened CStrings

  const MAX_PATTERN_LENGTH: nat := 512
  const WILDCARD: byte := 0xff

  // ---------------------------------------------------------------- numbers in base 16

  predicate IsHex(c: char) {
    '0' <= c <= '9' || 'a' <= c <= 'f' || 'A' <= c <= 'F'
  }

  function HexValue(c: char): (v: nat)
    requires IsHex(c)
    ensures v < 16
  {
    if c <= '9' then c as int - '0' as int
    else if c <= 'F' then c as int - 'A' as int + 10
    else c as int - 'a' as int + 10
  }

  function SkipSpace(s: string, i: nat): (j: nat)
    ensures i <= j
    decreases |s| - i
  {
    if i < |s| && IsSpace(s[i]) then SkipSpace(s, i + 1) else i
  }

  // A number and where its text ends.
  datatype Number = Number(value: nat, end: nat)

  function ReadDigits(s: string, i: nat, value: nat): (n: Number)
    ensures i <= n.end
    decreases |s| - i
  {
    if i < |s| && IsHex(s[i]) then ReadDigits(s, i + 1, 16 * value + HexValue(s[i])) else Number(value, i)
  }

  // strtoull(s + i, &end, 16): without a digit the value is zero and nothing is read.
  function ReadNumber(s: string, i: nat): (n: Number)
    ensures i <= n.end
  {
    var start := SkipSpace(s, i);
    var negative := CharAt(s, start) == '-';
    var unsigned := if negative || CharAt(s, start) == '+' then start + 1 else start;
    var prefixed := CharAt(s, unsigned) == '0' && CharAt(s, unsigned + 1) in {'x', 'X'} && IsHex(CharAt(s, unsigned + 2));
    var digits := if prefixed then unsigned + 2 else unsigned;
    var n := ReadDigits(s, digits, 0);
    if n.end == digits then Number(0, i)
    else if n.value >= TWO64 then Number(TWO64 - 1, n.end)
    else Number(if negative then Wrap64(0 - n.value) else n.value, n.end)
  }

  // ---------------------------------------------------------------- signatures

  // A token of a signature: its byte and where the text after it starts.
  datatype Token = Token(value: byte, next: nat)

  function ReadToken(s: string, i: nat): (t: Token)
    requires i < |s|
    ensures i < t.next
  {
    if s[i] == '?' then Token(WILDCARD, if CharAt(s, i + 1) == '?' then i + 3 else i + 2)
    else
      var n := ReadNumber(s, i);
      Token(n.value % 0x100, n.end + 1)
  }

  // The bytes of the signature text from i on.
  function Signature(s: string, i: nat): seq<byte>
    decreases |s| - i
  {
    if i >= |s| then []
    else
      var t := ReadToken(s, i);
      [t.value] + Signature(s, t.next)
  }

  method PatternToken(pattern: string, start: nat) returns (value: byte, next: nat)
    requires start < |pattern|
    ensures Token(value, next) == ReadToken(pattern, start)
  {
    var current := start;
    if pattern[current] == '?' {
      current := current + 1;
      if CharAt(pattern, current) == '?' {
        current := current + 1;
      }
      value := WILDCARD;
    } else {
      var n := ReadNumber(pattern, current);
      current := n.end;
      value := n.value % 0x100;
    }
    next := current + 1;
  }

  // pattern_to_byte: the buffer must hold the bytes of the signature.
  method PatternToByte(pattern: string, bytes: array<byte>) returns (count: nat)
    requires |Signature(pattern, 0)| <= bytes.Length
    modifies bytes
    ensures count == |Signature(pattern, 0)| && bytes[..count] == Signature(pattern, 0)
    ensures forall k :: count <= k < bytes.Length ==> bytes[k] == old(bytes[k])
  {
    count := 0;
    var current := 0;
    while current < |pattern|
      invariant count <= bytes.Length
      invariant bytes[..count] + Signature(pattern, current) == Signature(pattern, 0)
      invariant forall k :: count <= k < bytes.Length ==> bytes[k] == old(bytes[k])
      decreases |pattern| - current
    {
      var value, next := PatternToken(pattern, current);
      ghost var done := bytes[..count];
      assert |done + Signature(pattern, current)| == |Signature(pattern, 0)|;
      assert Signature(pattern, current) == [value] + Signature(pattern, next);
      bytes[count] := value;
      assert bytes[..count + 1] == done + [value];
      assert done + ([value] + Signature(pattern, next)) == done + [value] + Signature(pattern, next);
      count := count + 1;
      current := next;
    }
  }

  // ---------------------------------------------------------------- scanning

  // The pattern matches at a; its wildcard bytes match anything.
  ghost predicate MatchesAt(mem: seq<byte>, a: nat, pattern: seq<byte>) {
    forall j :: 0 <= j < |pattern| ==> AgreesAt(mem, a, j, pattern)
  }

  predicate AgreesAt(mem: seq<byte>, a: nat, j: nat, pattern: seq<byte>)
    requires j < |pattern|
  {
    pattern[j] == WILDCARD || At(mem, a + j) == pattern[j]
  }

  // The least i from `from` on, below size, where the pattern matches; size if there is none.
  ghost function FirstMatch(mem: seq<byte>, base: nat, size: nat, pattern: seq<byte>, from: nat): (i: nat)
    requires from <= size
    ensures from <= i <= size && (i < size ==> MatchesAt(mem, base + i, pattern))
    ensures forall a :: base + from <= a < base + i ==> !MatchesAt(mem, a, pattern)
    decreases size - from
  {
    if from == size || MatchesAt(mem, base + from, pattern) then from
    else FirstMatch(mem, base, size, pattern, from + 1)
  }

  // What a scan returns: zero for no module, no usable pattern or no match.
  ghost function Found(mem: seq<byte>, base: nat, size: nat, pattern: seq<byte>, offset: nat): nat {
    if base == 0 || size == 0 || pattern == [] || |pattern| >= MAX_PATTERN_LENGTH then 0
    else
      var i := FirstMatch(mem, base, size, pattern, 0);
      if i == size then 0 else Wrap64(base + i + offset)
  }

  // The inner loop of a scan.
  method Compare(mem: seq<byte>, a: nat, patternBytes: array<byte>, patternLength: nat, ghost pattern: seq<byte>)
    returns (found: bool)
    requires patternLength <= patternBytes.Length && patternBytes[..patternLength] == pattern
    ensures found == MatchesAt(mem, a, pattern)
  {
    found := true;
    var j := 0;
    while j < patternLength
      invariant 0 <= j <= patternLength
      invariant forall k :: 0 <= k < j ==> AgreesAt(mem, a, k, pattern)
    {
      assert patternBytes[j] == pattern[j];
      if At(mem, a + j) != patternBytes[j] && patternBytes[j] != WILDCARD {
        assert !AgreesAt(mem, a, j, pattern);
        return false;
      }
      j := j + 1;
    }
  }

  method Scan(mem: seq<byte>, base: nat, size: nat, signature: string, offset: nat) returns (address: nat)
    requires |Signature(signature, 0)| <= MAX_PATTERN_LENGTH
    ensures address == Found(mem, base, size, Signature(signature, 0), offset)
  {
    if base == 0 || size == 0 {
      return 0;
    }
    var patternBytes := new byte[MAX_PATTERN_LENGTH](_ => 0);
    var patternLength := PatternToByte(signature, patternBytes);
    if patternLength == 0 || patternLength >= MAX_PATTERN_LENGTH {
      return 0;
    }
    ghost var pattern := Signature(signature, 0);
    var i := 0;
    while i < size
      invariant 0 <= i <= size && patternBytes[..patternLength] == pattern
      invariant FirstMatch(mem, base, size, pattern, 0) == FirstMatch(mem, base, size, pattern, i)
    {
      var found := Compare(mem, base + i, patternBytes, patternLength, pattern);
      if found {
        return Wrap64(base + i + offset);
      }
      i := i + 1;
    }
    return 0;
  }

  // ---------------------------------------------------------------- what a scan finds

  // A scan returns the least match, moved by the offset, and zero exactly when there is no match, no module, or no
  // usable pattern.
  lemma ScanFindsLeast(mem: seq<byte>, base: nat, size: nat, pattern: seq<byte>, offset: nat)
    requires base + size + offset < TWO64
    ensures var r := Found(mem, base, size, pattern, offset);
            && (r == 0 <==>
                  base == 0 || pattern == [] || |pattern| >= 512
                  || forall a :: base <= a < base + size ==> !MatchesAt(mem, a, pattern))
            && (r != 0 ==>
                  && base <= r - offset < base + size && MatchesAt(mem, r - offset, pattern)
                  && forall a :: base <= a < r - offset ==> !MatchesAt(mem, a, pattern))
  {
    if size > 0 && base > 0 {
      var i := FirstMatch(mem, base, size, pattern, 0);
    }
  }

  // Blanks in front of a byte are skipped, however many there are.
  lemma {:induction false} SkipsBlanks(s: string, i: nat, k: nat)
    requires i <= k < |s| && (forall j :: i <= j < k ==> IsSpace(s[j])) && !IsSpace(s[k])
    ensures SkipSpace(s, i) == k
    decreases k - i
  {
    if i < k {
      SkipsBlanks(s, i + 1, k);
    }
  }

  lemma SpacedByteReads(s: string, i: nat, k: nat)
    requires i <= k && k + 2 <= |s| && (forall j :: i <= j < k ==> IsSpace(s[j]))
    requires IsHex(s[k]) && IsHex(s[k + 1]) && (k + 2 < |s| ==> s[k + 2] == ' ')
    ensures ReadToken(s, i) == Token(16 * HexValue(s[k]) + HexValue(s[k + 1]), k + 3)
  {
    SkipsBlanks(s, i, k);
    ReadsByte(s, k, s[k], s[k + 1]);
    NumberBehindBlanks(s, i, k);
  }

  lemma NumberBehindBlanks(s: string, i: nat, k: nat)
    requires SkipSpace(s, i) == k && SkipSpace(s, k) == k && ReadNumber(s, k).end > k
    ensures ReadNumber(s, i) == ReadNumber(s, k)
  {
  }

  // But a blank in front of a wildcard is a byte of its own, a zero.
  lemma BlankBeforeWildcardReads(s: string, i: nat)
    requires i + 1 < |s| && s[i] == ' ' && s[i + 1] == '?'
    ensures ReadToken(s, i) == Token(0, i + 1)
  {
    SkipsBlanks(s, i, i + 1);
    assert ReadDigits(s, i + 1, 0) == Number(0, i + 1);
  }

  // ---------------------------------------------------------------- rendering signatures

  // What a signature is written from: a byte in two hexadecimal digits, or a wildcard.
  datatype Item = Byte(value: byte, upper: bool) | Any(double: bool) {
    function Text(): string {
      match this
      case Byte(v, upper) => [Digit(v / 16, upper), Digit(v % 16, upper)]
      case Any(double) => if double then "??" else "?"
    }

    function Meaning(): byte {
      match this
      case Byte(v, _) => v
      case Any(_) => WILDCARD
    }
  }

  function Digit(v: nat, upper: bool): (c: char)
    requires v < 16
    ensures IsHex(c) && HexValue(c) == v
  {
    if v < 10 then '0' + v as char
    else if upper then 'A' + (v - 10) as char
    else 'a' + (v - 10) as char
  }

  function Render(items: seq<Item>): string {
    if items == [] then ""
    else if |items| == 1 then items[0].Text()
    else items[0].Text() + " " + Render(items[1..])
  }

  function Meanings(items: seq<Item>): (bytes: seq<byte>)
    ensures |bytes| == |items|
  {
    if items == [] then [] else [items[0].Meaning()] + Meanings(items[1..])
  }

  // A signature without wildcards, in lower case.
  function Literal(bytes: seq<byte>): (items: seq<Item>)
    ensures |items| == |bytes|
  {
    if bytes == [] then [] else [Byte(bytes[0], false)] + Literal(bytes[1..])
  }

  // The text of s from i on starts with one rendered item, and the item ends there.
  ghost predicate ItemAt(s: string, i: nat, item: Item) {
    var n := |item.Text()|;
    && i + n <= |s| && s[i..i + n] == item.Text()
    && (i + n < |s| ==> s[i + n] == ' ')
  }

  lemma ReadsByte(s: string, i: nat, hi: char, lo: char)
    requires i + 2 <= |s| && s[i] == hi && s[i + 1] == lo && IsHex(hi) && IsHex(lo)
    requires i + 2 < |s| ==> s[i + 2] == ' '
    ensures ReadNumber(s, i) == Number(16 * HexValue(hi) + HexValue(lo), i + 2)
  {
    var v := HexValue(hi);
    assert SkipSpace(s, i) == i;
    assert ReadDigits(s, i + 2, 16 * v + HexValue(lo)) == Number(16 * v + HexValue(lo), i + 2);
    assert ReadDigits(s, i + 1, v) == ReadDigits(s, i + 2, 16 * v + HexValue(lo));
    assert ReadDigits(s, i, 0) == ReadDigits(s, i + 1, v);
  }

  lemma ReadsItem(s: string, i: nat, item: Item)
    requires ItemAt(s, i, item)
    ensures ReadToken(s, i) == Token(item.Meaning(), i + |item.Text()| + 1)
  {
    var n := |item.Text()|;
    assert s[i..i + n][0] == s[i];
    match item {
      case Byte(v, upper) =>
        assert s[i..i + n][1] == s[i + 1];
        ReadsByte(s, i, Digit(v / 16, upper), Digit(v % 16, upper));
      case Any(double) =>
        if double {
          assert s[i..i + n][1] == s[i + 1];
        }
    }
  }

  lemma ItemBefore(s: string, i: nat, item: Item, more: string)
    requires i <= |s| && s[i..] == item.Text() + " " + more
    ensures ItemAt(s, i, item) && i + |item.Text()| + 1 <= |s| && s[i + |item.Text()| + 1..] == more
  {
    var rest, n := s[i..], |item.Text()|;
    assert s[i..i + n] == rest[..n] == item.Text();
    assert s[i + n] == rest[n] == ' ';
    assert s[i + n + 1..] == rest[n + 1..] == more;
  }

  lemma SignatureStarts(s: string, i: nat, t: Token)
    requires i < |s| && ReadToken(s, i) == t
    ensures i < t.next && Signature(s, i) == [t.value] + Signature(s, t.next)
  {
  }

  // One item at i, then a space and more text.
  lemma ReadsFirst(s: string, i: nat, item: Item, more: string)
    requires i <= |s| && s[i..] == item.Text() + " " + more
    ensures var j := i + |item.Text()| + 1; j <= |s| && s[j..] == more && Signature(s, i) == [item.Meaning()] + Signature(s, j)
  {
    ItemBefore(s, i, item, more);
    ReadsItem(s, i, item);
    SignatureStarts(s, i, Token(item.Meaning(), i + |item.Text()| + 1));
  }

  lemma ReadsLast(s: string, i: nat, item: Item)
    requires i <= |s| && s[i..] == item.Text()
    ensures Signature(s, i) == [item.Meaning()]
  {
    var rest, n := s[i..], |item.Text()|;
    assert s[i..i + n] == rest[..n] == item.Text();
    ReadsItem(s, i, item);
    assert Signature(s, i + n + 1) == [];
  }

  lemma RendersFirst(items: seq<Item>)
    requires |items| > 1
    ensures Render(items) == items[0].Text() + " " + Render(items[1..])
    ensures Meanings(items) == [items[0].Meaning()] + Meanings(items[1..])
  {
  }

  lemma ReadsNothing(s: string, i: nat)
    requires i == |s|
    ensures Signature(s, i) == []
  {
  }

  lemma SameFirst(m: byte, a: seq<byte>, a': seq<byte>, b: seq<byte>, b': seq<byte>)
    requires a == [m] + a' && b == [m] + b' && a' == b'
    ensures a == b
  {
  }

  lemma {:induction false} ReadsItems(s: string, i: nat, items: seq<Item>)
    requires i <= |s| && s[i..] == Render(items)
    ensures Signature(s, i) == Meanings(items)
    decreases |items|
  {
    if items == [] {
      ReadsNothing(s, i);
    } else if |items| == 1 {
      ReadsLast(s, i, items[0]);
    } else {
      var item, more := items[0], Render(items[1..]);
      RendersFirst(items);
      ItemBefore(s, i, item, more);
      var j := i + |item.Text()| + 1;
      ReadsItems(s, j, items[1..]);
      ReadsFirst(s, i, item, more);
      SameFirst(item.Meaning(), Signature(s, i), Signature(s, j), Meanings(items), Meanings(items[1..]));
    }
  }

  lemma {:induction false} LiteralMeans(bytes: seq<byte>)
    ensures Meanings(Literal(bytes)) == bytes
  {
    if bytes != [] {
      LiteralMeans(bytes[1..]);
      assert Literal(bytes)[1..] == Literal(bytes[1..]);
    }
  }

  // Reading a rendered signature gives its bytes back, wildcards as ff.
  lemma SignatureRoundTrip(items: seq<Item>)
    ensures Signature(Render(items), 0) == Meanings(items)
  {
    ReadsItems(Render(items), 0, items);
  }

  lemma LiteralSignature(bytes: seq<byte>)
    ensures Signature(Render(Literal(bytes)), 0) == bytes
  {
    SignatureRoundTrip(Literal(bytes));
    LiteralMeans(bytes);
  }
}
