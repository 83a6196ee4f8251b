/** Settings kept in an INI file: every read and write loads the file and may save it. */
module Settings {
  import opened IniFormat
  import opened IniValues
  import opened IniRoundTrip
  import opened IniStore
  import opened IniFiles
  import IniMeaning

  // ---------------------------------------------------------------- one access

  function Write(file: string, name: string, id: string, value: string): string {
    Save(Set(Load(file), name, id, value, None))
  }

  // A read of a missing setting stores "0" and delivers nothing.
  function Read(file: string, name: string, id: string): (string, string) {
    match Get(Load(file), name, id)
    case Some(value) => (file, value)
    case None => (Write(file, name, id, "0"), "")
  }

  // An empty value fits any buffer; others are cut to fit, which takes a buffer that is not empty.
  predicate Fits(value: string, size: nat) {
    value == "" || size > 0
  }

  // How many characters of a value reach the caller's buffer.
  function Delivered(value: string, size: nat): (n: nat)
    requires Fits(value, size)
    ensures n <= |value| && n <= size
  {
    if |value| > size then size - 1 else |value|
  }

  // A read of a setting that the text holds delivers its meaning and leaves the file alone; of one that it does not
  // hold, it delivers nothing and stores "0" under its names.
  lemma ReadAnswers(file: string, name: string, id: string)
    ensures var (file', v) := Read(file, name, id);
            match IniMeaning.Meaning(Lines(file), name, id)
            case Some(value) => file' == file && v == value
            case None => v == "" && file' == Write(file, name, id, "0")
  {
    IniMeaning.LoadMeaning(file, name, id);
  }

  // Set one pair of a loaded file and print it.
  method StoreSetting(ini: IniFile, name: string, id: string, value: string) returns (file: string)
    requires ini.Valid()
    modifies ini.Repr
    ensures file == Save(Set(old(ini.Contents()), name, id, value, None))
  {
    ini.IniSet(name, id, value, None);
    file := IniSave(ini);
  }

  method WriteSetting(file: string, name: string, id: string, value: string) returns (file': string)
    ensures file' == Write(file, name, id, value)
  {
    var ini := IniLoad(file);
    file' := StoreSetting(ini, name, id, value);
  }

  method ReadSetting(file: string, name: string, id: string) returns (file': string, v2: string)
    ensures (file', v2) == Read(file, name, id)
  {
    var ini := IniLoad(file);
    var v := ini.IniGet(name, id);
    if v == None {
      file' := StoreSetting(ini, name, id, "0");
      v2 := "";
    } else {
      file', v2 := file, v.value;
    }
  }

  method ReadWriteLocalSettings(file: string, name: string, id: string, value: string, wantRead: bool, dataOut: array<char>)
    returns (file': string)
    requires wantRead ==> Fits(Read(file, name, id).1, dataOut.Length)
    modifies dataOut
    ensures !wantRead ==> file' == Write(file, name, id, value) && dataOut[..] == old(dataOut[..])
    ensures wantRead ==> file' == Read(file, name, id).0
    ensures wantRead ==> dataOut[..] == Overwrite(old(dataOut[..]), Read(file, name, id).1)
  {
    if wantRead {
      var v2;
      file', v2 := ReadSetting(file, name, id);
      var n := if |v2| > dataOut.Length then dataOut.Length - 1 else |v2|;
      CopyOut(v2, n, dataOut);
    } else {
      file' := WriteSetting(file, name, id, value);
    }
  }

  // The front of the caller's buffer is the front of the value, and the rest of it stays.
  lemma OverwritesFront(buffer: string, value: string, i: nat)
    requires Fits(value, |buffer|) && i < |buffer|
    ensures var n := if |value| <= |buffer| then |value| else |buffer| - 1;
            && |Overwrite(buffer, value)| == |buffer|
            && Overwrite(buffer, value)[i] == if i < n then value[i] else buffer[i]
  {
  }

  // The caller's buffer after a read.
  function Overwrite(buffer: string, value: string): string
    requires Fits(value, |buffer|)
  {
    var n := Delivered(value, |buffer|);
    value[..n] + buffer[n..]
  }

  // memcpy into the buffer.
  method CopyOut(s: string, n: nat, data: array<char>)
    requires n <= |s| && n <= data.Length
    modifies data
    ensures data[..] == s[..n] + old(data[..])[n..]
  {
    var i := 0;
    while i < n
      invariant 0 <= i <= n
      invariant forall k :: 0 <= k < i ==> data[k] == s[k]
      invariant forall k :: i <= k < data.Length ==> data[k] == old(data[k])
    {
      data[i] := s[i];
      i := i + 1;
    }
  }

  // ---------------------------------------------------------------- lookups survive a save

  lemma KeyIndexJoins(a: seq<KeyValue>, b: seq<KeyValue>, key: string)
    ensures KeyIndex(a + b, key) == if KeyIndex(a, key) < |a| then KeyIndex(a, key) else |a| + KeyIndex(b, key)
  {
    var i, j := KeyIndex(a, key), KeyIndex(b, key);
    KeyIndexOf(a + b, key, if i < |a| then i else |a| + j);
  }

  lemma FindKeyJoins(a: seq<KeyValue>, b: seq<KeyValue>, key: string)
    ensures FindKey(a + b, key) == if FindKey(a, key).Some? then FindKey(a, key) else FindKey(b, key)
  {
    KeyIndexJoins(a, b, key);
  }

  // The last pair with the key.
  function FindLastKey(keys: seq<KeyValue>, key: string): Option<KeyValue> {
    if keys == [] then None
    else
      var later := FindLastKey(keys[1..], key);
      if later.Some? then later else if keys[0].key == key then Some(keys[0]) else None
  }

  // The value is the last pair with the key, by its position; without one there is no such pair.
  ghost predicate IsLastKey(keys: seq<KeyValue>, key: string, r: Option<KeyValue>) {
    match r
    case None => forall i :: 0 <= i < |keys| ==> keys[i].key != key
    case Some(kv) => kv.key == key && exists i :: 0 <= i < |keys| && keys[i] == kv &&
                                        forall j :: i < j < |keys| ==> keys[j].key != key
  }

  lemma {:induction false} LastKeyIsLast(keys: seq<KeyValue>, key: string)
    ensures IsLastKey(keys, key, FindLastKey(keys, key))
  {
    if keys != [] {
      LastKeyIsLast(keys[1..], key);
      if FindLastKey(keys[1..], key).Some? {
        var i :| 0 <= i < |keys| - 1 && keys[1..][i] == FindLastKey(keys[1..], key).value &&
                 forall j :: i < j < |keys| - 1 ==> keys[1..][j].key != key;
        assert keys[i + 1] == keys[1..][i];
        assert forall j :: i + 1 < j < |keys| ==> keys[j] == keys[1..][j - 1];
      } else {
        assert forall j :: 0 < j < |keys| ==> keys[j] == keys[1..][j - 1];
      }
    }
  }

  // Reversed, a list answers with its last pair.
  lemma {:induction false} ReverseFindsLastKey(keys: seq<KeyValue>, key: string)
    ensures FindKey(Reverse(keys), key) == FindLastKey(keys, key)
  {
    if keys != [] {
      ReverseFindsLastKey(keys[1..], key);
      FindKeyJoins(Reverse(keys[1..]), [keys[0]], key);
    }
  }

  // With unique names the last pair is the first.
  lemma {:induction false} UniqueKeyIsLast(keys: seq<KeyValue>, key: string)
    requires UniqueKeys(keys)
    ensures FindLastKey(keys, key) == FindKey(keys, key)
  {
    if keys != [] {
      var first, rest := [keys[0]], keys[1..];
      assert keys == first + rest;
      assert forall i :: 0 <= i < |rest| ==> rest[i].key != keys[0].key;
      UniqueKeyIsLast(rest, key);
      FindKeyJoins(first, rest, key);
    }
  }

  predicate UniqueSections(sections: seq<Section>) {
    forall i, j :: 0 <= i < j < |sections| ==> sections[i].name != sections[j].name
  }

  lemma SectionIndexJoins(a: seq<Section>, b: seq<Section>, name: string)
    ensures SectionIndex(a + b, name) ==
              if SectionIndex(a, name) < |a| then SectionIndex(a, name) else |a| + SectionIndex(b, name)
  {
    var i, j := SectionIndex(a, name), SectionIndex(b, name);
    SectionIndexOf(a + b, name, if i < |a| then i else |a| + j);
  }

  predicate HasSection(sections: seq<Section>, name: string) {
    SectionIndex(sections, name) < |sections|
  }

  lemma KeysOfJoins(a: seq<Section>, b: seq<Section>, name: string)
    ensures HasSection(a + b, name) == (HasSection(a, name) || HasSection(b, name))
    ensures KeysOf(a + b, name) == if HasSection(a, name) then KeysOf(a, name) else KeysOf(b, name)
  {
    SectionIndexJoins(a, b, name);
  }

  // The keys of the last section with the name.
  function LastKeysOf(sections: seq<Section>, name: string): seq<KeyValue> {
    if sections == [] then []
    else if HasSection(sections[1..], name) then LastKeysOf(sections[1..], name)
    else if sections[0].name == name then sections[0].keys
    else []
  }

  // The keys are those of the last section with the name, by its position; without one there are none.
  ghost predicate AreLastKeys(sections: seq<Section>, name: string, keys: seq<KeyValue>) {
    if !HasSection(sections, name) then keys == []
    else exists i :: 0 <= i < |sections| && sections[i].name == name && sections[i].keys == keys &&
                     forall j :: i < j < |sections| ==> sections[j].name != name
  }

  lemma {:induction false} LastSectionIsLast(sections: seq<Section>, name: string)
    ensures AreLastKeys(sections, name, LastKeysOf(sections, name))
  {
    if sections != [] {
      var rest := sections[1..];
      LastSectionIsLast(rest, name);
      KeysOfJoins([sections[0]], rest, name);
      assert sections == [sections[0]] + rest;
      if HasSection(rest, name) {
        var i :| 0 <= i < |rest| && rest[i].name == name && rest[i].keys == LastKeysOf(rest, name) &&
                 forall j :: i < j < |rest| ==> rest[j].name != name;
        assert sections[i + 1] == rest[i];
        assert forall j :: i + 1 < j < |sections| ==> sections[j] == rest[j - 1];
      } else if sections[0].name == name {
        assert forall j :: 0 < j < |sections| ==> sections[j] == rest[j - 1];
      }
    }
  }

  lemma {:induction false} ReverseLastKeysOf(sections: seq<Section>, name: string)
    ensures HasSection(Reverse(sections), name) == HasSection(sections, name)
    ensures KeysOf(Reverse(sections), name) == LastKeysOf(sections, name)
  {
    if sections != [] {
      var first, rest := [sections[0]], sections[1..];
      assert sections == first + rest;
      ReverseLastKeysOf(rest, name);
      KeysOfJoins(first, rest, name);
      KeysOfJoins(Reverse(rest), first, name);
    }
  }

  lemma {:induction false} UniqueSectionIsLast(sections: seq<Section>, name: string)
    requires UniqueSections(sections)
    ensures LastKeysOf(sections, name) == KeysOf(sections, name)
  {
    if sections != [] {
      var first, rest := [sections[0]], sections[1..];
      assert sections == first + rest;
      assert forall i :: 0 <= i < |rest| ==> rest[i].name != sections[0].name;
      UniqueSectionIsLast(rest, name);
      KeysOfJoins(first, rest, name);
    }
  }

  lemma {:induction false} BareLastKeysOf(sections: seq<Section>, name: string)
    ensures HasSection(BareAll(sections), name) == HasSection(sections, name)
    ensures LastKeysOf(BareAll(sections), name) == Reverse(LastKeysOf(sections, name))
  {
    if sections != [] {
      BareLastKeysOf(sections[1..], name);
      assert BareAll(sections)[1..] == BareAll(sections[1..]);
    }
  }

  lemma MarkKeysOf(sections: seq<Section>, name: string)
    ensures KeysOf(MarkFirst(sections), name) == KeysOf(sections, name)
  {
    if sections != [] {
      KeysOfOnto(sections[0], sections[1..], name);
      KeysOfOnto(sections[0].(before := [""]), sections[1..], name);
      assert sections == [sections[0]] + sections[1..];
    }
  }

  lemma {:induction false} BareNames(sections: seq<Section>, i: nat)
    requires i < |sections|
    ensures BareAll(sections)[i] == Bare(sections[i])
  {
    if i > 0 {
      BareNames(sections[1..], i - 1);
    }
  }

  lemma ReloadedHasSection(ini: Ini, name: string)
    ensures HasSection(Reloaded(ini).sections, name) == HasSection(ini.sections, name)
  {
    var bare := BareAll(ini.sections);
    var r := Reverse(bare);
    BareLastKeysOf(ini.sections, name);
    ReverseLastKeysOf(bare, name);
    SectionIndexOf(MarkFirst(r), name, SectionIndex(r, name));
  }

  // The last pair with the key in the last section with the name.
  function FindLast(ini: Ini, name: string, key: string): Option<KeyValue> {
    FindLastKey(LastKeysOf(ini.sections, name), key)
  }

  // By positions: the last pair with the key among the keys of the last section with the name.
  ghost predicate IsLast(ini: Ini, name: string, key: string, r: Option<KeyValue>) {
    exists keys :: AreLastKeys(ini.sections, name, keys) && IsLastKey(keys, key, r)
  }

  // After a cycle a lookup gives the last such pair of the last such section.
  lemma ReloadedFindsLast(ini: Ini, name: string, key: string)
    ensures Find(Reloaded(ini), name, key) == FindLast(ini, name, key)
    ensures IsLast(ini, name, key, Find(Reloaded(ini), name, key))
  {
    LastSectionIsLast(ini.sections, name);
    LastKeyIsLast(LastKeysOf(ini.sections, name), key);
    var bare := BareAll(ini.sections);
    MarkKeysOf(Reverse(bare), name);
    ReverseLastKeysOf(bare, name);
    BareLastKeysOf(ini.sections, name);
    ReverseFindsLastKey(LastKeysOf(ini.sections, name), key);
  }

  // So a pair of a well-formed file survives exactly when it is the last one too.
  lemma SurvivesWhenLast(ini: Ini, name: string, key: string)
    requires WellFormed(ini)
    ensures Find(Load(Save(ini)), name, key) == Find(ini, name, key) <==> Find(ini, name, key) == FindLast(ini, name, key)
  {
    RoundTrip(ini);
    ReloadedFindsLast(ini, name, key);
  }

  // With unique names every pair survives, with its comments.
  lemma ReloadedFinds(ini: Ini, name: string, key: string)
    requires Unique(ini)
    ensures Find(Reloaded(ini), name, key) == Find(ini, name, key)
  {
    ReloadedFindsLast(ini, name, key);
    UniqueSectionIsLast(ini.sections, name);
    UniqueKeyIsLast(KeysOf(ini.sections, name), key);
  }

  // A file with one key twice: a cycle changes its value.
  const TWICE := Ini([], [Section("s", "", [], [KeyValue("k", "1", "", []), KeyValue("k", "2", "", [])])])

  lemma DigitIsWellFormed(d: char)
    requires d in {'1', '2'}
    ensures WellFormedKey(KeyValue("k", [d], "", []))
  {
    PlainIsKept(KeyItem(KeyValue("k", [d], "", [])));
  }

  lemma TwiceIsWellFormed()
    ensures WellFormed(TWICE)
  {
    DigitIsWellFormed('1');
    DigitIsWellFormed('2');
    PlainIsKept(SectionItem("s"));
  }

  lemma TwiceAnswers()
    ensures Get(TWICE, "s", "k") == Some("1") && FindLast(TWICE, "s", "k") == Some(KeyValue("k", "2", "", []))
  {
    var keys := TWICE.sections[0].keys;
    assert LastKeysOf(TWICE.sections, "s") == keys && KeysOf(TWICE.sections, "s") == keys;
    assert FindLastKey(keys[1..], "k") == Some(keys[1]);
  }

  lemma DuplicateChanges()
    ensures WellFormed(TWICE) && Get(TWICE, "s", "k") == Some("1") && Get(Load(Save(TWICE)), "s", "k") == Some("2")
  {
    TwiceIsWellFormed();
    TwiceAnswers();
    RoundTrip(TWICE);
    ReloadedFindsLast(TWICE, "s", "k");
  }
}
