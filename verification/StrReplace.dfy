/** Rewriting text into a buffer of fixed size. */
module StrReplace {
  import opened CStrings

  datatype Mode = ReplaceMatch | AddBefore | AddAfter | ReplaceLine | Unknown

  // What the head of a text turns into, the text left to read, and the room that is asked for before writing.
  datatype Piece = Piece(text: string, rest: string, asked: nat)

  function Rewrite(s: string, search: string, replacement: string, mode: Mode): (p: Piece)
    requires s != "" && search != ""
    ensures |p.rest| < |s| && |p.text| <= p.asked + 1 && p.asked <= |p.text| + 1
    ensures p.asked > |p.text| ==> p.rest == ""
    ensures p.asked < |p.text| ==> p.asked == 0 && p.text == [s[0]]
  {
    var r := replacement;
    if mode == Unknown || !(search <= s) then Piece([s[0]], s[1..], 0)
    else if mode == ReplaceLine then
      var end := IndexOf(s, '\n');
      if end < |s| then Piece(r + "\n", s[end + 1..], |r| + 1) else Piece(r, "", |r| + 1)
    else
      var text := if mode == ReplaceMatch then r else if mode == AddBefore then r + search else search + r;
      Piece(text, s[|search|..], |text|)
  }

  // What the head of a text turns into, for every text.
  type Rewriter = string -> Piece

  function Rewriting(search: string, replacement: string, mode: Mode): Rewriter
    requires search != ""
  {
    (s: string) => if s == "" then Piece("", "", 0) else Rewrite(s, search, replacement, mode)
  }

  // Each piece reads on, and asks for the room that it takes; only the last one asks for more, and only a
  // single character for less.
  ghost predicate Fair(rw: Rewriter) {
    forall s | s != "" ::
      var p := rw(s);
      && |p.rest| < |s| && |p.text| <= p.asked + 1 && p.asked <= |p.text| + 1
      && (p.asked > |p.text| ==> p.rest == "")
      && (p.asked < |p.text| ==> p.asked == 0)
  }

  lemma RewritingIsFair(search: string, replacement: string, mode: Mode)
    requires search != ""
    ensures Fair(Rewriting(search, replacement, mode))
  {
  }

  // The text rewritten from left to right, without a limit.
  ghost function Ideal(rw: Rewriter, s: string): string
    requires Fair(rw)
    decreases |s|
  {
    if s == "" then "" else rw(s).text + Ideal(rw, rw(s).rest)
  }

  // What is written of it when used characters of room are taken.
  ghost function Bounded(rw: Rewriter, s: string, used: nat, room: nat): string
    requires Fair(rw)
    decreases |s|
  {
    if s == "" || used >= room || used + rw(s).asked >= room then ""
    else rw(s).text + Bounded(rw, rw(s).rest, used + |rw(s).text|, room)
  }

  // ---------------------------------------------------------------- laws

  // What is written is the beginning of the rewritten text and fits.
  lemma {:induction false} BoundedIsPrefix(rw: Rewriter, s: string, used: nat, room: nat)
    requires Fair(rw) && used <= room
    ensures Bounded(rw, s, used, room) <= Ideal(rw, s)
    ensures used + |Bounded(rw, s, used, room)| <= room
    decreases |s|
  {
    if s != "" && used < room && used + rw(s).asked < room {
      BoundedIsPrefix(rw, rw(s).rest, used + |rw(s).text|, room);
    }
  }

  // The spare room that the last written piece needs: none for a copied character, one after a match,
  // two after a line that no newline ends.
  ghost function Spare(rw: Rewriter, s: string): nat
    requires Fair(rw)
    decreases |s|
  {
    if s == "" then 0
    else if Ideal(rw, rw(s).rest) != "" then Spare(rw, rw(s).rest)
    else rw(s).asked + 1 - |rw(s).text|
  }

  lemma SameTail(head: string, a: string, b: string)
    ensures head + a == head + b <==> a == b
  {
    assert (head + a)[|head|..] == a && (head + b)[|head|..] == b;
  }

  // Nothing is lost exactly when the whole result and its spare room fit.
  lemma {:induction false} CompleteWhen(rw: Rewriter, s: string, used: nat, room: nat)
    requires Fair(rw) && used <= room
    ensures Bounded(rw, s, used, room) == Ideal(rw, s) <==>
              Ideal(rw, s) == "" || used + |Ideal(rw, s)| + Spare(rw, s) <= room
    decreases |s|
  {
    if s != "" && used < room {
      var p := rw(s);
      if used + p.asked < room {
        CompleteWhen(rw, p.rest, used + |p.text|, room);
        SameTail(p.text, Bounded(rw, p.rest, used + |p.text|, room), Ideal(rw, p.rest));
        assert Bounded(rw, s, used, room) == p.text + Bounded(rw, p.rest, used + |p.text|, room);
      } else {
        assert Bounded(rw, s, used, room) == "";
      }
      assert Ideal(rw, s) == p.text + Ideal(rw, p.rest);
    }
  }

  // Writing stops only at the end of the text or where the next piece does not fit.
  lemma {:induction false} BoundedIsLongest(rw: Rewriter, s: string, used: nat, room: nat) returns (rest: string)
    requires Fair(rw) && used <= room
    ensures Ideal(rw, s) == Bounded(rw, s, used, room) + Ideal(rw, rest)
    ensures rest != "" ==> used + |Bounded(rw, s, used, room)| + rw(rest).asked >= room
    decreases |s|
  {
    rest := s;
    if s != "" && used < room && used + rw(s).asked < room {
      var p := rw(s);
      rest := BoundedIsLongest(rw, p.rest, used + |p.text|, room);
      var more := Bounded(rw, p.rest, used + |p.text|, room);
      assert p.text + (more + Ideal(rw, rest)) == p.text + more + Ideal(rw, rest);
    } else {
      assert Bounded(rw, s, used, room) == "";
    }
  }

  // Only what each piece turns into matters.
  lemma {:induction false} SamePiecesSameText(rw: Rewriter, rw': Rewriter, s: string, used: nat, room: nat)
    requires Fair(rw) && Fair(rw') && forall t | t != "" :: rw(t) == rw'(t)
    ensures Bounded(rw, s, used, room) == Bounded(rw', s, used, room)
    decreases |s|
  {
    if s != "" && used < room && used + rw(s).asked < room {
      SamePiecesSameText(rw, rw', rw(s).rest, used + |rw(s).text|, room);
    }
  }

  // Adding before or after a match is replacing it with itself and the addition.
  lemma AddIsReplace(s: string, search: string, r: string, room: nat)
    requires search != ""
    ensures var before, after := Rewriting(search, r, AddBefore), Rewriting(search, r, AddAfter);
            var before', after' := Rewriting(search, r + search, ReplaceMatch), Rewriting(search, search + r, ReplaceMatch);
            && Fair(before) && Fair(after) && Fair(before') && Fair(after')
            && Bounded(before, s, 0, room) == Bounded(before', s, 0, room)
            && Bounded(after, s, 0, room) == Bounded(after', s, 0, room)
  {
    RewritingIsFair(search, r, AddBefore);
    RewritingIsFair(search, r, AddAfter);
    RewritingIsFair(search, r + search, ReplaceMatch);
    RewritingIsFair(search, search + r, ReplaceMatch);
    SamePiecesSameText(Rewriting(search, r, AddBefore), Rewriting(search, r + search, ReplaceMatch), s, 0, room);
    SamePiecesSameText(Rewriting(search, r, AddAfter), Rewriting(search, search + r, ReplaceMatch), s, 0, room);
  }

  // Character k of a text is copied.
  ghost predicate CopiedAt(rw: Rewriter, s: string, k: nat) {
    k < |s| && rw(s[k..]) == Piece([s[k]], s[k + 1..], 0)
  }

  lemma {:induction false} CopiesStay(rw: Rewriter, s: string, i: nat, at: nat)
    requires Fair(rw) && i <= at <= |s| && forall k :: i <= k < at ==> CopiedAt(rw, s, k)
    ensures Ideal(rw, s[i..]) == s[i..at] + Ideal(rw, s[at..])
    decreases at - i
  {
    if i < at {
      CopiesStay(rw, s, i + 1, at);
      assert CopiedAt(rw, s, i);
      var t, rest := s[i..], Ideal(rw, s[at..]);
      assert Ideal(rw, t) == [s[i]] + Ideal(rw, s[i + 1..]);
      assert s[i..at] == [s[i]] + s[i + 1..at];
      assert [s[i]] + (s[i + 1..at] + rest) == [s[i]] + s[i + 1..at] + rest;
    } else {
      assert s[i..at] == [];
    }
  }

  lemma NoMatchIsCopied(s: string, search: string, r: string, mode: Mode, k: nat)
    requires search != "" && k < |s| && !(search <= s[k..])
    ensures CopiedAt(Rewriting(search, r, mode), s, k)
  {
    assert s[k..][1..] == s[k + 1..];
  }

  // What stands before the next match is copied.
  lemma NoMatchCopies(s: string, search: string, r: string, mode: Mode, at: nat)
    requires search != "" && at <= |s| && forall k :: 0 <= k < at ==> !(search <= s[k..])
    ensures Fair(Rewriting(search, r, mode))
    ensures Ideal(Rewriting(search, r, mode), s) == s[..at] + Ideal(Rewriting(search, r, mode), s[at..])
  {
    RewritingIsFair(search, r, mode);
    forall k | 0 <= k < at ensures CopiedAt(Rewriting(search, r, mode), s, k) {
      NoMatchIsCopied(s, search, r, mode, k);
    }
    CopiesStay(Rewriting(search, r, mode), s, 0, at);
    assert s[0..] == s && s[0..at] == s[..at];
  }

  lemma IdealStarts(rw: Rewriter, s: string, p: Piece)
    requires Fair(rw) && s != "" && rw(s) == p
    ensures Ideal(rw, s) == p.text + Ideal(rw, p.rest)
    ensures p.rest == "" ==> Ideal(rw, s) == p.text
  {
  }

  lemma HeadIsRewritten(s: string, search: string, r: string, mode: Mode)
    requires search != "" && mode != Unknown && search <= s && Fair(Rewriting(search, r, mode))
    ensures var rw, behind, end := Rewriting(search, r, mode), s[|search|..], IndexOf(s, '\n');
            Ideal(rw, s) ==
              match mode
              case ReplaceMatch => r + Ideal(rw, behind)
              case AddBefore => r + search + Ideal(rw, behind)
              case AddAfter => search + r + Ideal(rw, behind)
              case ReplaceLine => if end < |s| then r + "\n" + Ideal(rw, s[end + 1..]) else r
  {
    IdealStarts(Rewriting(search, r, mode), s, Rewrite(s, search, r, mode));
  }

  // In a mode that is none of the four the text is copied, matches and all.
  lemma {:induction false} UnknownCopies(s: string, search: string, r: string)
    requires search != ""
    ensures Fair(Rewriting(search, r, Unknown)) && Ideal(Rewriting(search, r, Unknown), s) == s
    decreases |s|
  {
    RewritingIsFair(search, r, Unknown);
    if s != "" {
      var rw := Rewriting(search, r, Unknown);
      UnknownCopies(s[1..], search, r);
      var p := Piece([s[0]], s[1..], 0);
      assert rw(s) == p;
      IdealStarts(rw, s, p);
      assert p.text + p.rest == s;
    }
  }

  // The first match is rewritten behind an unchanged beginning, and rewriting goes on behind it: behind the match
  // itself, or in line mode behind the newline that ends its line.
  lemma FirstMatchIsRewritten(s: string, search: string, r: string, mode: Mode, at: nat)
    requires search != "" && mode != Unknown && at < |s| && search <= s[at..]
    requires forall k :: 0 <= k < at ==> !(search <= s[k..])
    ensures var rw, t := Rewriting(search, r, mode), s[at..];
            var behind, end := t[|search|..], IndexOf(t, '\n');
            && Fair(rw)
            && Ideal(rw, s) == s[..at] +
                 match mode
                 case ReplaceMatch => r + Ideal(rw, behind)
                 case AddBefore => r + search + Ideal(rw, behind)
                 case AddAfter => search + r + Ideal(rw, behind)
                 case ReplaceLine => if end < |t| then r + "\n" + Ideal(rw, t[end + 1..]) else r
  {
    NoMatchCopies(s, search, r, mode, at);
    HeadIsRewritten(s[at..], search, r, mode);
  }

  // ---------------------------------------------------------------- code

  // memcpy into the output.
  method Append(output: array<char>, outLen: nat, s: string) returns (len: nat)
    requires outLen + |s| < output.Length
    modifies output
    ensures len == outLen + |s| && output[..len] == old(output[..outLen]) + s
  {
    var i := 0;
    while i < |s|
      invariant 0 <= i <= |s|
      invariant forall k :: 0 <= k < outLen ==> output[k] == old(output[k])
      invariant forall k :: 0 <= k < i ==> output[outLen + k] == s[k]
    {
      output[outLen + i] := s[i];
      i := i + 1;
    }
    return outLen + |s|;
  }

  // One piece: what the head of the input turns into and where reading goes on.
  method ReadPiece(input: string, pos: nat, search: string, replacement: string, mode: Mode)
    returns (text: string, next: nat, asked: nat)
    requires search != "" && pos < |input|
    ensures pos < next <= |input|
    ensures Piece(text, input[next..], asked) == Rewrite(input[pos..], search, replacement, mode)
  {
    if search <= input[pos..] {
      match mode {
        case ReplaceMatch =>
          return replacement, pos + |search|, |replacement|;
        case AddBefore =>
          return replacement + search, pos + |search|, |replacement| + |search|;
        case AddAfter =>
          return search + replacement, pos + |search|, |search| + |replacement|;
        case ReplaceLine =>
          var end := FindChar(input[pos..], '\n');
          var lineEnd := pos + end;
          if lineEnd < |input| {
            assert input[pos..][end + 1..] == input[lineEnd + 1..];
            return replacement + "\n", lineEnd + 1, |replacement| + 1;
          }
          return replacement, lineEnd, |replacement| + 1;
        case Unknown =>
      }
    }
    return [input[pos]], pos + 1, 0;
  }

  ghost function Rest(rw: Rewriter, s: string, done: string, room: nat): string
    requires Fair(rw)
  {
    done + Bounded(rw, s, |done|, room)
  }

  // One piece moves from what is to come to what is done.
  lemma RestSteps(rw: Rewriter, s: string, done: string, room: nat, p: Piece)
    requires Fair(rw) && s != "" && |done| < room && p == rw(s)
    ensures Rest(rw, s, done, room) ==
              if |done| + p.asked >= room then done else Rest(rw, p.rest, done + p.text, room)
  {
    if |done| + p.asked < room {
      var more := Bounded(rw, p.rest, |done + p.text|, room);
      assert done + (p.text + more) == done + p.text + more;
    }
  }

  // Nothing is to come at the end of the input, nor without room.
  lemma RestEnds(rw: Rewriter, s: string, done: string, room: nat)
    requires Fair(rw) && (s == "" || |done| >= room)
    ensures Rest(rw, s, done, room) == done
  {
  }

  // A piece is written if the room that it asks for is there.
  method WritePiece(text: string, asked: nat, output: array<char>, outLen: nat) returns (fits: bool, len: nat)
    requires outLen < output.Length - 1 && |text| <= asked + 1
    modifies output
    ensures fits == (outLen + asked < output.Length - 1) && len < output.Length
    ensures output[..len] == old(output[..outLen]) + if fits then text else ""
  {
    if outLen + asked >= output.Length - 1 {
      return false, outLen;
    }
    len := Append(output, outLen, text);
    fits := true;
  }

  // The text that is left in the output, in front of its terminator.
  method Replace(input: string, search: string, replacement: string, output: array<char>, mode: Mode) returns (outLen: nat)
    requires search != "" && output.Length > 0
    modifies output
    ensures outLen < output.Length && output[outLen] == '\0'
    ensures var rw := Rewriting(search, replacement, mode);
            Fair(rw) && output[..outLen] == Bounded(rw, input, 0, output.Length - 1)
  {
    var pos := 0;
    outLen := 0;
    ghost var rw, room := Rewriting(search, replacement, mode), output.Length - 1;
    RewritingIsFair(search, replacement, mode);
    ghost var all := Bounded(rw, input, 0, room);
    assert input[0..] == input && output[..0] == [];
    ghost var full := false;
    while pos < |input| && outLen < output.Length - 1
      invariant pos <= |input| && outLen <= room && !full
      invariant Rest(rw, input[pos..], output[..outLen], room) == all
      decreases |input| - pos
    {
      var text, next, asked := ReadPiece(input, pos, search, replacement, mode);
      RestSteps(rw, input[pos..], output[..outLen], room, Piece(text, input[next..], asked));
      var fits;
      fits, outLen := WritePiece(text, asked, output, outLen);
      if !fits {
        full := true;
        break;
      }
      pos := next;
    }
    if !full {
      RestEnds(rw, input[pos..], output[..outLen], room);
    }
    ghost var written := output[..outLen];
    output[outLen] := '\0';
    assert output[..outLen] == written;
  }
}
