/** Settings over whole runs: the file keeps denoting the map that the writes built. */
module Persistence {
  import opened CStrings
  import opened IniFormat
  import opened IniValues
  import opened IniRoundTrip
  import opened Settings

  // ---------------------------------------------------------------- reloading keeps files well formed

  lemma {:induction false} ReverseAt<T>(s: seq<T>, k: nat)
    requires k < |s|
    ensures Reverse(s)[k] == s[|s| - 1 - k]
  {
    if k < |s| - 1 {
      ReverseAt(s[1..], k);
    }
  }

  lemma ReverseKeysWellFormed(keys: seq<KeyValue>)
    requires WellFormedKeys(keys)
    ensures WellFormedKeys(Reverse(keys))
  {
    forall i | 0 <= i < |keys| ensures WellFormedKey(Reverse(keys)[i]) {
      ReverseAt(keys, i);
    }
  }

  lemma ReverseKeysUnique(keys: seq<KeyValue>)
    requires UniqueKeys(keys)
    ensures UniqueKeys(Reverse(keys))
  {
    forall i, j | 0 <= i < j < |keys| ensures Reverse(keys)[i].key != Reverse(keys)[j].key {
      ReverseAt(keys, i);
      ReverseAt(keys, j);
    }
  }

  // The form in which a section comes back is as good as the section.
  lemma BareIsWellFormed(s: Section, before: seq<string>)
    requires WellFormedSection(s) && UniqueKeys(s.keys) && WellFormedComments(before)
    ensures var r := Bare(s).(before := before); WellFormedSection(r) && UniqueKeys(r.keys) && r.name == s.name
  {
    ReverseKeysWellFormed(s.keys);
    ReverseKeysUnique(s.keys);
  }

  // Section i of a reloaded file is the bare form of a section of the file.
  lemma ReloadedAt(ini: Ini, i: nat)
    requires i < |ini.sections|
    ensures |Reloaded(ini).sections| == |ini.sections|
    ensures Reloaded(ini).sections[i] ==
              Bare(ini.sections[|ini.sections| - 1 - i]).(before := if i == 0 then [""] else [])
  {
    var bare := BareAll(ini.sections);
    ReverseAt(bare, i);
    BareNames(ini.sections, |ini.sections| - 1 - i);
  }

  lemma ReloadedSectionIsWellFormed(ini: Ini, i: nat)
    requires WellFormed(ini) && Unique(ini) && i < |ini.sections|
    ensures |Reloaded(ini).sections| == |ini.sections|
    ensures var r := Reloaded(ini).sections[i];
            WellFormedSection(r) && UniqueKeys(r.keys) && r.name == ini.sections[|ini.sections| - 1 - i].name
  {
    ReloadedAt(ini, i);
    BareIsWellFormed(ini.sections[|ini.sections| - 1 - i], if i == 0 then [""] else []);
  }

  lemma ReloadedNamesDiffer(ini: Ini, i: nat, j: nat)
    requires WellFormed(ini) && Unique(ini) && i < j < |ini.sections|
    ensures |Reloaded(ini).sections| == |ini.sections|
    ensures Reloaded(ini).sections[i].name != Reloaded(ini).sections[j].name
  {
    ReloadedSectionIsWellFormed(ini, i);
    ReloadedSectionIsWellFormed(ini, j);
  }

  lemma ReloadedIsWellFormed(ini: Ini)
    requires WellFormed(ini) && Unique(ini)
    ensures WellFormed(Reloaded(ini)) && Unique(Reloaded(ini))
  {
    var r := Reloaded(ini).sections;
    if ini.sections != [] {
      ReloadedAt(ini, 0);
      forall i | 0 <= i < |r| ensures WellFormedSection(r[i]) && UniqueKeys(r[i].keys) {
        ReloadedSectionIsWellFormed(ini, i);
      }
      forall i, j | 0 <= i < j < |r| ensures r[i].name != r[j].name {
        ReloadedNamesDiffer(ini, i, j);
      }
    }
  }

  // ---------------------------------------------------------------- two cycles

  // What a file holds besides the comments that a load drops.
  function Contents(sections: seq<Section>): (r: seq<Section>)
    ensures |r| == |sections|
    ensures forall i :: 0 <= i < |r| ==> r[i] == sections[i].(before := [])
  {
    if sections == [] then [] else [sections[0].(before := [])] + Contents(sections[1..])
  }

  lemma ReverseTwice<T>(s: seq<T>)
    ensures Reverse(Reverse(s)) == s
  {
    forall k | 0 <= k < |s| ensures Reverse(Reverse(s))[k] == s[k] {
      ReverseAt(Reverse(s), k);
      ReverseAt(s, |s| - 1 - k);
    }
  }

  lemma ReloadedTwiceAt(ini: Ini, i: nat)
    requires i < |ini.sections|
    ensures |Reloaded(Reloaded(ini)).sections| == |ini.sections|
    ensures Reloaded(Reloaded(ini)).sections[i].(before := []) == ini.sections[i].(before := [])
  {
    var once, j := Reloaded(ini), |ini.sections| - 1 - i;
    ReloadedAt(ini, j);
    ReloadedAt(once, i);
    ReverseTwice(ini.sections[i].keys);
    assert Bare(Bare(ini.sections[i])) == ini.sections[i].(before := []);
  }

  // Two cycles of saving and loading restore the order of sections and of keys.
  lemma TwoCyclesRestore(ini: Ini)
    requires WellFormed(ini) && Unique(ini)
    ensures Contents(Load(Save(Load(Save(ini)))).sections) == Contents(ini.sections)
  {
    RoundTrip(ini);
    ReloadedIsWellFormed(ini);
    RoundTrip(Reloaded(ini));
    ReloadedTwice(ini);
  }

  lemma ReloadedTwice(ini: Ini)
    ensures Contents(Reloaded(Reloaded(ini)).sections) == Contents(ini.sections)
  {
    if ini.sections != [] {
      ReloadedTwiceAt(ini, 0);
      forall i | 0 <= i < |ini.sections|
        ensures Contents(Reloaded(Reloaded(ini)).sections)[i] == Contents(ini.sections)[i]
      {
        ReloadedTwiceAt(ini, i);
      }
    }
  }

  // ---------------------------------------------------------------- what can be stored

  // A section is there already, or can be made.
  predicate StorableIn(ini: Ini, name: string) {
    HasSection(ini.sections, name) || (HeadingFits(name, "") && MarksKept(SectionItem(name), ""))
  }

  // A value that can be printed under these names beside this comment.
  predicate Storable(ini: Ini, name: string, id: string, value: string, comment: string) {
    StorableIn(ini, name) && WellFormedKey(KeyValue(id, value, comment, []))
  }

  function CommentAt(ini: Ini, name: string, id: string): string {
    match Find(ini, name, id)
    case Some(kv) => kv.comment
    case None => ""
  }

  lemma SetKeyIsWellFormed(keys: seq<KeyValue>, id: string, value: string)
    requires WellFormedKeys(keys)
    requires WellFormedKey(KeyValue(id, value, if FindKey(keys, id).Some? then FindKey(keys, id).value.comment else "", []))
    ensures WellFormedKeys(SetKey(keys, id, value, None))
  {
    var k, keys' := KeyIndex(keys, id), SetKey(keys, id, value, None);
    assert FindKey(keys, id).Some? ==> FindKey(keys, id).value == keys[k];
    forall i | 0 <= i < |keys'| ensures WellFormedKey(keys'[i]) {
      if k < |keys| && i == k {
        assert keys'[k] == KeyValue(id, value, keys[k].comment, keys[k].before);
        assert WellFormedKey(keys[k]);
      } else if k == |keys| && i == 0 {
        assert keys'[0] == KeyValue(id, value, "", []);
      } else {
        assert WellFormedKey(keys[if k < |keys| then i else i - 1]);
      }
    }
  }

  lemma StorableIsShort(ini: Ini, name: string, id: string, value: string, comment: string)
    requires WellFormed(ini) && Storable(ini, name, id, value, comment)
    ensures ShortNames(name, id)
  {
    if HasSection(ini.sections, name) {
      assert WellFormedSection(ini.sections[SectionIndex(ini.sections, name)]);
    }
  }

  lemma NewKeysAreWellFormed(s: Section, keys: seq<KeyValue>)
    requires WellFormedSection(s) && WellFormedKeys(keys)
    ensures WellFormedSection(s.(keys := keys))
  {
  }

  lemma NewSectionIsWellFormed(name: string, keys: seq<KeyValue>)
    requires HeadingFits(name, "") && MarksKept(SectionItem(name), "") && WellFormedKeys(keys)
    ensures WellFormedSection(Section(name, "", [], keys))
  {
  }

  lemma UpdatedIsWellFormed(ini: Ini, i: nat, s: Section)
    requires WellFormed(ini) && i < |ini.sections| && WellFormedSection(s)
    ensures WellFormed(ini.(sections := ini.sections[i := s]))
  {
  }

  lemma PrependedIsWellFormed(ini: Ini, s: Section)
    requires WellFormed(ini) && WellFormedSection(s)
    ensures WellFormed(ini.(sections := [s] + ini.sections))
  {
    var all := [s] + ini.sections;
    assert forall j :: 1 <= j < |all| ==> all[j] == ini.sections[j - 1];
  }

  lemma SetInOldIsWellFormed(ini: Ini, name: string, id: string, value: string)
    requires WellFormed(ini) && HasSection(ini.sections, name)
    requires Storable(ini, name, id, value, CommentAt(ini, name, id))
    ensures WellFormed(Set(ini, name, id, value, None))
  {
    var i := SectionIndex(ini.sections, name);
    var s := ini.sections[i];
    SetKeyIsWellFormed(s.keys, id, value);
    NewKeysAreWellFormed(s, SetKey(s.keys, id, value, None));
    UpdatedIsWellFormed(ini, i, s.(keys := SetKey(s.keys, id, value, None)));
  }

  lemma SetInNewIsWellFormed(ini: Ini, name: string, id: string, value: string)
    requires WellFormed(ini) && !HasSection(ini.sections, name)
    requires Storable(ini, name, id, value, CommentAt(ini, name, id))
    ensures WellFormed(Set(ini, name, id, value, None))
  {
    SetKeyIsWellFormed([], id, value);
    NewSectionIsWellFormed(name, SetKey([], id, value, None));
    PrependedIsWellFormed(ini, Section(name, "", [], SetKey([], id, value, None)));
  }

  lemma SetIsWellFormed(ini: Ini, name: string, id: string, value: string)
    requires WellFormed(ini) && Storable(ini, name, id, value, CommentAt(ini, name, id))
    ensures WellFormed(Set(ini, name, id, value, None))
  {
    if HasSection(ini.sections, name) {
      SetInOldIsWellFormed(ini, name, id, value);
    } else {
      SetInNewIsWellFormed(ini, name, id, value);
    }
  }

  // ---------------------------------------------------------------- runs

  datatype Access = Reading(name: string, id: string) | Writing(name: string, id: string, value: string)

  // The file after an access, and what a read delivers.
  function Perform(file: string, a: Access): (string, string) {
    match a
    case Reading(name, id) => Read(file, name, id)
    case Writing(name, id, value) => (Write(file, name, id, value), "")
  }

  function PerformAll(file: string, accesses: seq<Access>): string {
    if accesses == [] then file
    else Perform(PerformAll(file, accesses[..|accesses| - 1]), accesses[|accesses| - 1]).0
  }

  // The same accesses on a map: a read of a missing pair sets it to "0".
  function Fold(m: Pairs, a: Access): Pairs {
    match a
    case Reading(name, id) => if (name, id) in m then m else m[(name, id) := "0"]
    case Writing(name, id, value) => m[(name, id) := value]
  }

  function FoldAll(m: Pairs, accesses: seq<Access>): Pairs {
    if accesses == [] then m else Fold(FoldAll(m, accesses[..|accesses| - 1]), accesses[|accesses| - 1])
  }

  // Values can be printed beside the comments that the file started with.
  predicate Admissible(first: Ini, a: Access) {
    match a
    case Reading(name, id) => Find(first, name, id).Some? || Storable(first, name, id, "0", "")
    case Writing(name, id, value) => Storable(first, name, id, value, CommentAt(first, name, id))
  }

  ghost predicate Holds(first: Ini, file: string, m: Pairs) {
    && WellFormed(Load(file)) && Unique(Load(file)) && Denotes(Load(file), m)
    && (forall name, id :: CommentAt(Load(file), name, id) == CommentAt(first, name, id))
    && (forall name, id :: Find(first, name, id).Some? ==> (name, id) in m)
    && forall name :: HasSection(first.sections, name) ==> HasSection(Load(file).sections, name)
  }

  lemma SetHasSection(ini: Ini, name: string, id: string, value: string, name': string)
    requires HasSection(ini.sections, name')
    ensures HasSection(Set(ini, name, id, value, None).sections, name')
  {
    var i, after := SectionIndex(ini.sections, name'), Set(ini, name, id, value, None).sections;
    assert ini.sections[i].name == name';
    if SectionIndex(ini.sections, name) < |ini.sections| {
      assert after[i].name == name';
    } else {
      assert after[i + 1] == ini.sections[i];
    }
  }

  // What one stored value does to a lookup.
  lemma StoredFinds(ini: Ini, name: string, id: string, value: string, n: string, k: string)
    requires Unique(ini) && ShortNames(name, id) && |value| < MAX_VALUE_LENGTH
    ensures var after := Reloaded(Set(ini, name, id, value, None));
            && Get(after, n, k) == (if n == name && k == id then Some(value) else Get(ini, n, k))
            && CommentAt(after, n, k) == CommentAt(ini, n, k)
  {
    SetKeepsUnique(ini, name, id, value, None);
    ReloadedFinds(Set(ini, name, id, value, None), n, k);
    SetFinds(ini, name, id, value, None, n, k);
  }

  // One stored value: the file denotes the map with that pair set, and every comment stays.
  lemma StoringHolds(first: Ini, file: string, m: Pairs, name: string, id: string, value: string)
    requires Holds(first, file, m) && Storable(first, name, id, value, CommentAt(first, name, id))
    ensures Holds(first, Write(file, name, id, value), m[(name, id) := value])
  {
    var ini := Load(file);
    var after := Set(ini, name, id, value, None);
    assert CommentAt(ini, name, id) == CommentAt(first, name, id);
    SetIsWellFormed(ini, name, id, value);
    StorableIsShort(ini, name, id, value, CommentAt(ini, name, id));
    SetKeepsUnique(ini, name, id, value, None);
    RoundTrip(after);
    ReloadedIsWellFormed(after);
    forall n | HasSection(first.sections, n) ensures HasSection(Reloaded(after).sections, n) {
      SetHasSection(ini, name, id, value, n);
      ReloadedHasSection(after, n);
    }
    forall n, k
      ensures Get(Reloaded(after), n, k) == if n == name && k == id then Some(value) else Get(ini, n, k)
      ensures CommentAt(Reloaded(after), n, k) == CommentAt(ini, n, k)
    {
      StoredFinds(ini, name, id, value, n, k);
    }
    StoredDenotes(ini, m, Reloaded(after), name, id, value);
  }

  lemma StoredDenotes(ini: Ini, m: Pairs, after: Ini, name: string, id: string, value: string)
    requires Denotes(ini, m)
    requires forall n, k :: Get(after, n, k) == if n == name && k == id then Some(value) else Get(ini, n, k)
    ensures Denotes(after, m[(name, id) := value])
  {
    var m' := m[(name, id) := value];
    forall n, k ensures Get(after, n, k) == if (n, k) in m' then Some(m'[(n, k)]) else None {
      assert Get(ini, n, k) == if (n, k) in m then Some(m[(n, k)]) else None;
    }
  }

  lemma AccessHolds(first: Ini, file: string, m: Pairs, a: Access)
    requires Holds(first, file, m) && Admissible(first, a)
    ensures Holds(first, Perform(file, a).0, Fold(m, a))
    ensures a.Reading? ==> Perform(file, a).1 == if (a.name, a.id) in m then m[(a.name, a.id)] else ""
  {
    match a {
      case Writing(name, id, value) => StoringHolds(first, file, m, name, id, value);
      case Reading(name, id) =>
        assert Get(Load(file), name, id) == if (name, id) in m then Some(m[(name, id)]) else None;
        if (name, id) !in m {
          assert Find(first, name, id) == None;
          StoringHolds(first, file, m, name, id, "0");
        }
    }
  }

  // After any sequence of reads and writes the file denotes the map that they fold to,
  // although every saved access reverses the order of what it holds.
  lemma {:induction false} SettingsPersist(file: string, m: Pairs, accesses: seq<Access>)
    requires WellFormed(Load(file)) && Unique(Load(file)) && Denotes(Load(file), m)
    requires forall i :: 0 <= i < |accesses| ==> Admissible(Load(file), accesses[i])
    ensures Holds(Load(file), PerformAll(file, accesses), FoldAll(m, accesses))
    decreases |accesses|
  {
    if accesses != [] {
      var before := accesses[..|accesses| - 1];
      SettingsPersist(file, m, before);
      AccessHolds(Load(file), PerformAll(file, before), FoldAll(m, before), accesses[|accesses| - 1]);
    }
  }

  // A read delivers the last value written under its names, or the first value if none was.
  lemma ReadDelivers(file: string, m: Pairs, accesses: seq<Access>, name: string, id: string)
    requires WellFormed(Load(file)) && Unique(Load(file)) && Denotes(Load(file), m)
    requires forall i :: 0 <= i < |accesses| ==> Admissible(Load(file), accesses[i])
    ensures var now := FoldAll(m, accesses);
            Read(PerformAll(file, accesses), name, id).1 == if (name, id) in now then now[(name, id)] else ""
  {
    SettingsPersist(file, m, accesses);
    var now := FoldAll(m, accesses);
    assert Get(Load(PerformAll(file, accesses)), name, id) == if (name, id) in now then Some(now[(name, id)]) else None;
  }

  // ---------------------------------------------------------------- what the reader gets

  function Zeros(size: nat): (s: string)
    ensures |s| == size
  {
    seq<char>(size, i => '\0')
  }

  // The string in a buffer; none if nothing ends it.
  function StringIn(buffer: string): Option<string> {
    var k := IndexOf(buffer, '\0');
    if k < |buffer| then Some(buffer[..k]) else None
  }

  // In a zeroed buffer: the value if it is shorter than the buffer, its beginning if it is longer, and no string
  // if it is exactly as long.
  lemma ZeroedBufferHolds(value: string, size: nat)
    requires '\0' !in value && size > 0
    ensures StringIn(Overwrite(Zeros(size), value)) ==
              if |value| < size then Some(value) else if |value| == size then None else Some(value[..size - 1])
  {
    var n, buffer := Delivered(value, size), Overwrite(Zeros(size), value);
    if n < size {
      assert buffer == value[..n] + ['\0'] + Zeros(size)[n + 1..];
      IndexAfter(value[..n], '\0', Zeros(size)[n + 1..], 0);
      assert buffer[..n] == value[..n] && (n == |value| ==> value[..n] == value);
    } else {
      assert n == |value| && Zeros(size)[n..] == [] && value[..n] == value;
      assert buffer == value;
      IndexNone(buffer, '\0', 0);
    }
  }

  // No value that a well-formed file answers holds a terminator.
  lemma AnswersAreStrings(ini: Ini, name: string, id: string)
    requires WellFormed(ini)
    ensures Get(ini, name, id).Some? ==> '\0' !in Get(ini, name, id).value
  {
    var i := SectionIndex(ini.sections, name);
    if i < |ini.sections| {
      var keys := ini.sections[i].keys;
      var j := KeyIndex(keys, id);
      if j < |keys| {
        assert WellFormedSection(ini.sections[i]) && WellFormedKey(keys[j]);
      }
    }
  }

  // After any run, what a read leaves in a zeroed buffer is the string last written under its names, if it fits.
  lemma ReadDeliversString(file: string, m: Pairs, accesses: seq<Access>, name: string, id: string, size: nat)
    requires WellFormed(Load(file)) && Unique(Load(file)) && Denotes(Load(file), m)
    requires forall i :: 0 <= i < |accesses| ==> Admissible(Load(file), accesses[i])
    requires size > 0
    ensures var now := FoldAll(m, accesses);
            var value := if (name, id) in now then now[(name, id)] else "";
            StringIn(Overwrite(Zeros(size), Read(PerformAll(file, accesses), name, id).1)) ==
              if |value| < size then Some(value) else if |value| == size then None else Some(value[..size - 1])
  {
    SettingsPersist(file, m, accesses);
    ReadDelivers(file, m, accesses, name, id);
    AnswersAreStrings(Load(PerformAll(file, accesses)), name, id);
    ZeroedBufferHolds(Read(PerformAll(file, accesses), name, id).1, size);
  }
}
