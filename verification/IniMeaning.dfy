/** What a loaded text answers: the last pair with the key in the last block of the section. */
module IniMeaning {
  import opened IniFormat
  import opened IniValues

  predicate IsHeader(l: Line, name: string) {
    l.Header? && l.name == name
  }

  predicate IsPair(l: Line, key: string) {
    l.Pair? && l.key == key
  }

  // ---------------------------------------------------------------- places in a text

  // Where the section starts for the last time; -1 if it does not.
  function LastHeader(ls: seq<Line>, name: string): (i: int)
    ensures -1 <= i < |ls| && (i >= 0 ==> IsHeader(ls[i], name))
  {
    if ls == [] then -1
    else if IsHeader(ls[|ls| - 1], name) then |ls| - 1
    else LastHeader(ls[..|ls| - 1], name)
  }

  // Where the block ends that starts at i: at the next section of any name.
  function BlockEnd(ls: seq<Line>, i: nat): (j: nat)
    requires i <= |ls|
    ensures i <= j <= |ls| && (j < |ls| ==> ls[j].Header?)
    decreases |ls| - i
  {
    if i == |ls| || ls[i].Header? then i else BlockEnd(ls, i + 1)
  }

  // The last pair with the key between two places; -1 if there is none.
  function LastPair(ls: seq<Line>, lo: nat, hi: nat, key: string): (p: int)
    requires lo <= hi <= |ls|
    ensures p == -1 || (lo <= p < hi && IsPair(ls[p], key))
    decreases hi - lo
  {
    if lo == hi then -1
    else if IsPair(ls[hi - 1], key) then hi - 1
    else LastPair(ls, lo, hi - 1, key)
  }

  function ValueAt(ls: seq<Line>, p: int): Option<string>
    requires p < |ls| && (p >= 0 ==> ls[p].Pair?)
  {
    if p < 0 then None else Some(ls[p].value)
  }

  // The value of the last pair with the key in the block that starts at i.
  function ValueIn(ls: seq<Line>, i: nat, key: string): Option<string>
    requires i <= |ls|
  {
    ValueAt(ls, LastPair(ls, i, BlockEnd(ls, i), key))
  }

  // The value of the last pair with the key in the last block of the section.
  function Meaning(ls: seq<Line>, name: string, key: string): Option<string> {
    var i := LastHeader(ls, name);
    if i < 0 then None else ValueIn(ls, i + 1, key)
  }

  // Nothing comes after what these find.
  lemma {:induction false} LastHeaderIsLast(ls: seq<Line>, name: string)
    ensures forall k :: LastHeader(ls, name) < k < |ls| ==> !IsHeader(ls[k], name)
  {
    if ls != [] && !IsHeader(ls[|ls| - 1], name) {
      LastHeaderIsLast(ls[..|ls| - 1], name);
      assert forall k :: 0 <= k < |ls| - 1 ==> ls[k] == ls[..|ls| - 1][k];
    }
  }

  lemma {:induction false} BlockEndIsFirst(ls: seq<Line>, i: nat)
    requires i <= |ls|
    ensures forall k :: i <= k < BlockEnd(ls, i) ==> !ls[k].Header?
    decreases |ls| - i
  {
    if i < |ls| && !ls[i].Header? {
      BlockEndIsFirst(ls, i + 1);
    }
  }

  lemma {:induction false} LastPairIsLast(ls: seq<Line>, lo: nat, hi: nat, key: string)
    requires lo <= hi <= |ls|
    ensures forall k :: lo <= k < hi && k > LastPair(ls, lo, hi, key) ==> !IsPair(ls[k], key)
    decreases hi - lo
  {
    if lo < hi && !IsPair(ls[hi - 1], key) {
      LastPairIsLast(ls, lo, hi - 1, key);
    }
  }

  // The value in a block is that of a pair with the key, with no other one behind it; without a value there is
  // no such pair.
  ghost predicate IsLastIn(ls: seq<Line>, lo: nat, hi: nat, key: string, r: Option<string>)
    requires lo <= hi <= |ls|
  {
    match r
    case None => forall k :: lo <= k < hi ==> !IsPair(ls[k], key)
    case Some(v) => exists p :: lo <= p < hi && IsPair(ls[p], key) && ls[p].value == v &&
                                forall k :: p < k < hi ==> !IsPair(ls[k], key)
  }

  lemma ValueIsLast(ls: seq<Line>, i: nat, key: string)
    requires i <= |ls|
    ensures forall k :: i <= k < BlockEnd(ls, i) ==> !ls[k].Header?
    ensures IsLastIn(ls, i, BlockEnd(ls, i), key, ValueIn(ls, i, key))
  {
    BlockEndIsFirst(ls, i);
    LastPairIsLast(ls, i, BlockEnd(ls, i), key);
    var p := LastPair(ls, i, BlockEnd(ls, i), key);
    assert p >= 0 ==> IsPair(ls[p], key);
  }

  // The meaning is the last value in the block behind the last header of the section.
  lemma MeaningIsLast(ls: seq<Line>, name: string, key: string)
    ensures var i, r := LastHeader(ls, name), Meaning(ls, name, key);
            && (forall k :: i < k < |ls| ==> !IsHeader(ls[k], name))
            && if i < 0 then r == None
               else
                 var j := BlockEnd(ls, i + 1);
                 IsHeader(ls[i], name) && (forall k :: i < k < j ==> !ls[k].Header?) && IsLastIn(ls, i + 1, j, key, r)
  {
    var i := LastHeader(ls, name);
    LastHeaderIsLast(ls, name);
    if i >= 0 {
      ValueIsLast(ls, i + 1, key);
    }
  }

  // ---------------------------------------------------------------- one line more

  lemma LastHeaderOnto(ls: seq<Line>, l: Line, name: string)
    ensures LastHeader(ls + [l], name) == if IsHeader(l, name) then |ls| else LastHeader(ls, name)
  {
    assert (ls + [l])[..|ls|] == ls;
  }

  lemma {:induction false} BlockEndOnto(ls: seq<Line>, l: Line, i: nat)
    requires i <= |ls|
    ensures var j := BlockEnd(ls, i);
            BlockEnd(ls + [l], i) == if j < |ls| || l.Header? then j else |ls| + 1
    decreases |ls| - i
  {
    if i < |ls| {
      assert (ls + [l])[i] == ls[i];
      if !ls[i].Header? {
        BlockEndOnto(ls, l, i + 1);
      }
    } else {
      assert (ls + [l])[i] == l;
    }
  }

  lemma {:induction false} LastPairOnto(ls: seq<Line>, l: Line, lo: nat, hi: nat, key: string)
    requires lo <= hi <= |ls|
    ensures LastPair(ls + [l], lo, hi, key) == LastPair(ls, lo, hi, key)
    decreases hi - lo
  {
    if lo < hi {
      assert (ls + [l])[hi - 1] == ls[hi - 1];
      LastPairOnto(ls, l, lo, hi - 1, key);
    }
  }

  // The block of the section is still open at the end of the lines.
  predicate IsOpen(ls: seq<Line>, name: string) {
    var i := LastHeader(ls, name);
    i >= 0 && BlockEnd(ls, i + 1) == |ls|
  }

  // How a line changes which block is open.
  lemma OpenOnto(ls: seq<Line>, l: Line, name: string)
    ensures IsOpen(ls + [l], name) <==> if l.Header? then l.name == name else IsOpen(ls, name)
  {
    var all := ls + [l];
    LastHeaderOnto(ls, l, name);
    if !IsHeader(l, name) && LastHeader(ls, name) >= 0 {
      BlockEndOnto(ls, l, LastHeader(ls, name) + 1);
    }
  }

  // A line behind the others is the last pair of a block if it is one and the block is still open.
  lemma LastOfBlockOnto(ls: seq<Line>, l: Line, i: nat, key: string)
    requires i <= |ls|
    ensures var j, p := BlockEnd(ls, i), LastPair(ls, i, BlockEnd(ls, i), key);
            LastPair(ls + [l], i, BlockEnd(ls + [l], i), key) == if j == |ls| && IsPair(l, key) then |ls| else p
  {
    var all, j := ls + [l], BlockEnd(ls, i);
    BlockEndOnto(ls, l, i);
    LastPairOnto(ls, l, i, j, key);
    assert all[|ls|] == l;
  }

  lemma HeaderEmptiesSection(ls: seq<Line>, l: Line, name: string, key: string)
    requires IsHeader(l, name)
    ensures Meaning(ls + [l], name, key) == None
  {
    LastHeaderOnto(ls, l, name);
    assert BlockEnd(ls + [l], |ls| + 1) == |ls| + 1;
  }

  lemma ValueOnto(ls: seq<Line>, l: Line, p: int, p': int, taken: bool)
    requires p < |ls| && (p >= 0 ==> ls[p].Pair?) && (taken ==> l.Pair?)
    requires p' == if taken then |ls| else p
    ensures ValueAt(ls + [l], p') == if taken then Some(l.value) else ValueAt(ls, p)
  {
  }

  lemma LineInBlock(ls: seq<Line>, l: Line, i: nat, key: string)
    requires i <= |ls|
    ensures ValueIn(ls + [l], i, key) ==
              if IsPair(l, key) && BlockEnd(ls, i) == |ls| then Some(l.value) else ValueIn(ls, i, key)
  {
    var j := BlockEnd(ls, i);
    var p := LastPair(ls, i, j, key);
    var p' := LastPair(ls + [l], i, BlockEnd(ls + [l], i), key);
    LastOfBlockOnto(ls, l, i, key);
    ValueOnto(ls, l, p, p', IsPair(l, key) && j == |ls|);
  }

  // How a line changes the meaning: a header empties its section, a pair sets a key of the open one.
  lemma MeaningOnto(ls: seq<Line>, l: Line, name: string, key: string)
    ensures Meaning(ls + [l], name, key) ==
              if IsHeader(l, name) then None
              else if IsPair(l, key) && IsOpen(ls, name) then Some(l.value)
              else Meaning(ls, name, key)
  {
    LastHeaderOnto(ls, l, name);
    if IsHeader(l, name) {
      HeaderEmptiesSection(ls, l, name, key);
    } else if LastHeader(ls, name) >= 0 {
      LineInBlock(ls, l, LastHeader(ls, name) + 1, key);
    }
  }

  // ---------------------------------------------------------------- loading

  // The store answers what the lines say, and its first section is the open one.
  ghost predicate Answers(ini: Ini, ls: seq<Line>) {
    && (forall name, key :: Get(ini, name, key) == Meaning(ls, name, key))
    && (forall name :: IsOpen(ls, name) <==> ini.sections != [] && ini.sections[0].name == name)
  }

  lemma {:induction false} AddLinesLast(ini: Ini, ls: seq<Line>, l: Line)
    ensures AddLines(ini, ls + [l]) == AddLine(AddLines(ini, ls), l)
    decreases |ls|
  {
    if ls == [] {
      assert ls + [l] == [l];
      assert AddLines(AddLine(ini, l), []) == AddLine(ini, l);
    } else {
      assert (ls + [l])[1..] == ls[1..] + [l];
      AddLinesLast(AddLine(ini, ls[0]), ls[1..], l);
    }
  }

  // Comments change no lookup.
  lemma PendingIsNoKey(ini: Ini, comments: seq<string>, name: string)
    ensures KeysOf(WithPending(ini, comments).sections, name) == KeysOf(ini.sections, name)
  {
    if ini.sections != [] {
      var s := ini.sections[0];
      KeysOfFirst(s, ini.sections[1..], name);
      KeysOfFirst(s.(before := comments), ini.sections[1..], name);
      assert ini.sections == [s] + ini.sections[1..];
    }
  }

  lemma KeysOfFirst(s: Section, rest: seq<Section>, name: string)
    ensures KeysOf([s] + rest, name) == if s.name == name then s.keys else KeysOf(rest, name)
  {
    KeysOfOnto(s, rest, name);
  }

  lemma AddLineGets(ini: Ini, l: Line, name: string, key: string)
    ensures Get(AddLine(ini, l), name, key) ==
              if IsHeader(l, name) then None
              else if IsPair(l, key) && ini.sections != [] && ini.sections[0].name == name then Some(l.value)
              else Get(ini, name, key)
  {
    match l {
      case Remark(text) => PendingIsNoKey(ini, Pending(ini) + [text], name);
      case Header(n, c) =>
        PendingIsNoKey(ini, [], name);
        KeysOfFirst(Section(n, c, [], []), WithPending(ini, []).sections, name);
      case Pair(k, v, c) =>
        if ini.sections != [] {
          var s, rest := ini.sections[0], ini.sections[1..];
          var kv := KeyValue(k, v, c, s.before);
          assert ini.sections == [s] + rest;
          KeysOfFirst(s, rest, name);
          KeysOfFirst(s.(before := [], keys := [kv] + s.keys), rest, name);
          KeyIndexOnto(kv, s.keys, key);
        }
      case Ignored =>
    }
  }

  lemma AddLineAnswers(ini: Ini, ls: seq<Line>, l: Line)
    requires Answers(ini, ls)
    ensures Answers(AddLine(ini, l), ls + [l])
  {
    forall name, key ensures Get(AddLine(ini, l), name, key) == Meaning(ls + [l], name, key) {
      AddLineGets(ini, l, name, key);
      MeaningOnto(ls, l, name, key);
      assert IsOpen(ls, name) <==> ini.sections != [] && ini.sections[0].name == name;
      assert Get(ini, name, key) == Meaning(ls, name, key);
    }
    forall name
      ensures IsOpen(ls + [l], name) <==> AddLine(ini, l).sections != [] && AddLine(ini, l).sections[0].name == name
    {
      OpenOnto(ls, l, name);
      assert IsOpen(ls, name) <==> ini.sections != [] && ini.sections[0].name == name;
    }
  }

  lemma {:induction false} LinesAnswer(ls: seq<Line>)
    ensures Answers(AddLines(EMPTY, ls), ls)
    decreases |ls|
  {
    if ls != [] {
      var before, l := ls[..|ls| - 1], ls[|ls| - 1];
      assert ls == before + [l];
      LinesAnswer(before);
      AddLinesLast(EMPTY, before, l);
      AddLineAnswers(AddLines(EMPTY, before), before, l);
    }
  }

  // For every text, a lookup after loading returns the value of the last pair with the key inside
  // the last block of the section, and nothing if that block lacks the key or there is no such block.
  lemma LoadMeaning(text: string, name: string, key: string)
    ensures Get(Load(text), name, key) == Meaning(Lines(text), name, key)
  {
    LinesAnswer(Lines(text));
  }
}
