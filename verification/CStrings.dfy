/** Characters and strings as the C library sees them. */
module CStrings {
  // The character at i; the terminator after the last one.
  function CharAt(s: string, i: nat): char {
    if i < |s| then s[i] else '\0'
  }

  predicate IsSpace(c: char) {
    c in {' ', '\t', '\n', '\r', '\U{0b}', '\U{0c}'}
  }

  // Where c first is in s from i on; the length of s if it is not there.
  function IndexFrom(s: string, c: char, i: nat): (k: nat)
    requires i <= |s|
    ensures i <= k <= |s| && (k < |s| ==> s[k] == c) && c !in s[i..k]
    decreases |s| - i
  {
    if i == |s| || s[i] == c then i else IndexFrom(s, c, i + 1)
  }

  function IndexOf(s: string, c: char): (k: nat)
    ensures k <= |s| && (k < |s| ==> s[k] == c) && c !in s[..k]
  {
    IndexFrom(s, c, 0)
  }

  // What strncpy keeps in a buffer of size bytes whose last byte is set to the terminator.
  function Cut(s: string, size: nat): (r: string)
    requires size > 0
    ensures r <= s && |r| < size && (|s| < size ==> r == s)
  {
    if |s| < size then s else s[..size - 1]
  }

  function TrimLeft(s: string): (r: string)
    ensures |r| <= |s| && (r != "" ==> !IsSpace(r[0]))
  {
    if s != "" && IsSpace(s[0]) then TrimLeft(s[1..]) else s
  }

  function TrimRight(s: string): (r: string)
    ensures r <= s && (r != "" ==> !IsSpace(r[|r| - 1]))
  {
    if s != "" && IsSpace(s[|s| - 1]) then TrimRight(s[..|s| - 1]) else s
  }

  // A string without the spaces at its ends.
  function Trim(s: string): string {
    TrimRight(TrimLeft(s))
  }

  predicate Trimmed(s: string) {
    s == "" || (!IsSpace(s[0]) && !IsSpace(s[|s| - 1]))
  }

  predicate Blank(s: string) {
    forall c :: c in s ==> IsSpace(c)
  }

  // ---------------------------------------------------------------- laws

  lemma {:induction false} TrimLeftDrops(a: string, s: string)
    requires Blank(a) && (s == "" || !IsSpace(s[0]))
    ensures TrimLeft(a + s) == s
  {
    if a == "" {
      assert a + s == s;
    } else {
      assert a[0] in a;
      assert (a + s)[1..] == a[1..] + s;
      TrimLeftDrops(a[1..], s);
    }
  }

  lemma {:induction false} TrimRightDrops(s: string, b: string)
    requires Blank(b) && (s == "" || !IsSpace(s[|s| - 1]))
    ensures TrimRight(s + b) == s
  {
    if b == "" {
      assert s + b == s;
    } else {
      var n := |b| - 1;
      assert b[n] in b;
      assert (s + b)[..|s + b| - 1] == s + b[..n];
      TrimRightDrops(s, b[..n]);
    }
  }

  // Trimming takes exactly the spaces around a trimmed string away.
  lemma TrimDrops(a: string, s: string, b: string)
    requires Blank(a) && Blank(b) && Trimmed(s)
    ensures Trim(a + s + b) == s
  {
    if s == "" {
      assert Blank(a + b);
      assert a + s + b == (a + b) + "";
      TrimLeftDrops(a + b, "");
    } else {
      assert a + s + b == a + (s + b);
      TrimLeftDrops(a, s + b);
      TrimRightDrops(s, b);
    }
  }

  // The trimmed form of a string that starts with spaces and then c starts with c.
  lemma TrimStarts(a: string, s: string)
    requires Blank(a) && s != "" && !IsSpace(s[0])
    ensures Trim(a + s) != "" && Trim(a + s)[0] == s[0]
  {
    TrimLeftDrops(a, s);
    TrimRightKeepsFirst(s);
  }

  lemma {:induction false} TrimRightKeepsFirst(s: string)
    requires s != "" && !IsSpace(s[0])
    ensures TrimRight(s) != "" && TrimRight(s)[0] == s[0]
  {
    if IsSpace(s[|s| - 1]) {
      TrimRightKeepsFirst(s[..|s| - 1]);
    }
  }

  // The first c of a text is after a part without it.
  lemma {:induction false} IndexAfter(a: string, c: char, b: string, i: nat)
    requires c !in a && i <= |a|
    ensures IndexFrom(a + [c] + b, c, i) == |a|
    decreases |a| - i
  {
    if i < |a| {
      assert (a + [c] + b)[i] == a[i];
      assert a[i] in a;
      IndexAfter(a, c, b, i + 1);
    }
  }

  lemma {:induction false} IndexNone(a: string, c: char, i: nat)
    requires c !in a && i <= |a|
    ensures IndexFrom(a, c, i) == |a|
    decreases |a| - i
  {
    if i < |a| {
      assert a[i] in a;
      IndexNone(a, c, i + 1);
    }
  }

  // ---------------------------------------------------------------- code

  // trim_whitespace: two positions move inwards over the spaces.
  method TrimWhitespace(str: string) returns (r: string)
    ensures r == Trim(str)
  {
    var start := 0;
    while start < |str| && IsSpace(str[start])
      invariant start <= |str| && TrimLeft(str) == TrimLeft(str[start..])
    {
      assert str[start..][1..] == str[start + 1..];
      start := start + 1;
    }
    var rest := str[start..];
    assert rest == TrimLeft(str);
    r := TrimEnd(rest);
  }

  method TrimEnd(rest: string) returns (r: string)
    requires rest == "" || !IsSpace(rest[0])
    ensures r == TrimRight(rest)
  {
    if rest == "" {
      return rest;
    }
    var end := |rest| - 1;
    assert rest[..end + 1] == rest;
    while end > 0 && IsSpace(rest[end])
      invariant 0 <= end < |rest| && TrimRight(rest) == TrimRight(rest[..end + 1])
    {
      assert rest[..end + 1][..end] == rest[..end];
      end := end - 1;
    }
    return rest[..end + 1];
  }

  method FindChar(s: string, c: char) returns (k: nat)
    ensures k == IndexOf(s, c)
  {
    k := 0;
    while k < |s| && s[k] != c
      invariant k <= |s| && IndexOf(s, c) == IndexFrom(s, c, k)
    {
      k := k + 1;
    }
  }
}
