/** The INI store on values: looking up, setting and deleting in lists that are searched from the front. */
module IniValues {
  import opened CStrings
  import opened IniFormat

  datatype Option<+T> = None | Some(value: T)

  // ---------------------------------------------------------------- lookups

  // The first item with the name; the length if there is none.
  function KeyIndex(keys: seq<KeyValue>, key: string): (i: nat)
    ensures i <= |keys| && (i < |keys| ==> keys[i].key == key)
    ensures forall j :: 0 <= j < i ==> keys[j].key != key
  {
    if keys == [] || keys[0].key == key then 0 else 1 + KeyIndex(keys[1..], key)
  }

  function SectionIndex(sections: seq<Section>, name: string): (i: nat)
    ensures i <= |sections| && (i < |sections| ==> sections[i].name == name)
    ensures forall j :: 0 <= j < i ==> sections[j].name != name
  {
    if sections == [] || sections[0].name == name then 0 else 1 + SectionIndex(sections[1..], name)
  }

  function FindKey(keys: seq<KeyValue>, key: string): Option<KeyValue> {
    var i := KeyIndex(keys, key);
    if i < |keys| then Some(keys[i]) else None
  }

  // The keys of the first section with the name; none if there is no such section.
  function KeysOf(sections: seq<Section>, name: string): seq<KeyValue> {
    var i := SectionIndex(sections, name);
    if i < |sections| then sections[i].keys else []
  }

  function Find(ini: Ini, name: string, key: string): Option<KeyValue> {
    FindKey(KeysOf(ini.sections, name), key)
  }

  function Get(ini: Ini, name: string, key: string): Option<string> {
    match Find(ini, name, key)
    case Some(kv) => Some(kv.value)
    case None => None
  }

  // ---------------------------------------------------------------- updates

  function SetKey(keys: seq<KeyValue>, key: string, value: string, comment: Option<string>): seq<KeyValue> {
    var i := KeyIndex(keys, key);
    if i < |keys| then keys[i := Assign(keys[i], value, comment)]
    else [Assign(KeyValue(Cut(key, MAX_KEY_LENGTH), "", "", []), value, comment)] + keys
  }

  function Assign(kv: KeyValue, value: string, comment: Option<string>): KeyValue {
    kv.(value := Cut(value, MAX_VALUE_LENGTH),
        comment := if comment.Some? then Cut(comment.value, MAX_COMMENT_LENGTH) else kv.comment)
  }

  // ini_set_with_comment: a new section and a new key go to the front of their lists.
  function Set(ini: Ini, name: string, key: string, value: string, comment: Option<string>): Ini {
    var i := SectionIndex(ini.sections, name);
    if i < |ini.sections| then
      var s := ini.sections[i];
      ini.(sections := ini.sections[i := s.(keys := SetKey(s.keys, key, value, comment))])
    else
      ini.(sections := [Section(Cut(name, MAX_SECTION_LENGTH), "", [], SetKey([], key, value, comment))] + ini.sections)
  }

  // A list without its i-th item.
  function Without<T>(s: seq<T>, i: nat): (r: seq<T>)
    requires i < |s|
    ensures |r| == |s| - 1
    ensures forall j :: 0 <= j < |r| ==> r[j] == s[if j < i then j else j + 1]
  {
    seq(|s| - 1, j requires 0 <= j < |s| - 1 => if j < i then s[j] else s[j + 1])
  }

  function WithoutKey(keys: seq<KeyValue>, key: string): seq<KeyValue> {
    var i := KeyIndex(keys, key);
    if i < |keys| then Without(keys, i) else keys
  }

  function DeleteKey(ini: Ini, name: string, key: string): Ini {
    var i := SectionIndex(ini.sections, name);
    if i < |ini.sections| then
      var s := ini.sections[i];
      ini.(sections := ini.sections[i := s.(keys := WithoutKey(s.keys, key))])
    else ini
  }

  function DeleteSection(ini: Ini, name: string): Ini {
    var i := SectionIndex(ini.sections, name);
    if i < |ini.sections| then ini.(sections := Without(ini.sections, i)) else ini
  }

  // ---------------------------------------------------------------- unique names

  predicate UniqueKeys(keys: seq<KeyValue>) {
    forall i, j :: 0 <= i < j < |keys| ==> keys[i].key != keys[j].key
  }

  predicate Unique(ini: Ini) {
    && (forall i, j :: 0 <= i < j < |ini.sections| ==> ini.sections[i].name != ini.sections[j].name)
    && (forall i :: 0 <= i < |ini.sections| ==> UniqueKeys(ini.sections[i].keys))
  }

  // ---------------------------------------------------------------- laws of key lists

  lemma KeyIndexOf(keys: seq<KeyValue>, key: string, i: nat)
    requires i <= |keys| && (i < |keys| ==> keys[i].key == key)
    requires forall j :: 0 <= j < i ==> keys[j].key != key
    ensures KeyIndex(keys, key) == i
  {
    var k := KeyIndex(keys, key);
  }

  lemma KeyIndexOnto(kv: KeyValue, keys: seq<KeyValue>, key: string)
    ensures KeyIndex([kv] + keys, key) == if kv.key == key then 0 else 1 + KeyIndex(keys, key)
  {
    assert ([kv] + keys)[1..] == keys;
  }

  lemma UpdateKeepsKeyIndex(keys: seq<KeyValue>, i: nat, kv: KeyValue, key: string)
    requires i < |keys| && kv.key == keys[i].key
    ensures KeyIndex(keys[i := kv], key) == KeyIndex(keys, key)
  {
    KeyIndexOf(keys[i := kv], key, KeyIndex(keys, key));
  }

  lemma SetKeyFinds(keys: seq<KeyValue>, key: string, value: string, comment: Option<string>, key': string)
    requires |key| < MAX_KEY_LENGTH
    ensures FindKey(SetKey(keys, key, value, comment), key') ==
              if key' != key then FindKey(keys, key')
              else Some(Assign(if FindKey(keys, key).Some? then FindKey(keys, key).value else KeyValue(key, "", "", []),
                               value, comment))
  {
    var i := KeyIndex(keys, key);
    if i < |keys| {
      UpdateKeepsKeyIndex(keys, i, Assign(keys[i], value, comment), key');
    } else {
      KeyIndexOnto(Assign(KeyValue(key, "", "", []), value, comment), keys, key');
    }
  }

  lemma SetKeyKeepsUnique(keys: seq<KeyValue>, key: string, value: string, comment: Option<string>)
    requires |key| < MAX_KEY_LENGTH && UniqueKeys(keys)
    ensures UniqueKeys(SetKey(keys, key, value, comment))
  {
    var i := KeyIndex(keys, key);
    if i == |keys| {
      var keys' := SetKey(keys, key, value, comment);
      assert forall j :: 1 <= j < |keys'| ==> keys'[j] == keys[j - 1];
    }
  }

  lemma WithoutKeyFinds(keys: seq<KeyValue>, key: string, key': string)
    requires UniqueKeys(keys)
    ensures FindKey(WithoutKey(keys, key), key') == if key' == key then None else FindKey(keys, key')
    ensures UniqueKeys(WithoutKey(keys, key))
  {
    var i, k := KeyIndex(keys, key), KeyIndex(keys, key');
    if i < |keys| {
      var rest := Without(keys, i);
      if key' == key {
        assert forall j :: 0 <= j < |rest| ==> rest[j].key != key;
        KeyIndexOf(rest, key, |rest|);
      } else {
        KeyIndexOf(rest, key', if k < i then k else k - 1);
      }
    }
  }

  // ---------------------------------------------------------------- laws of section lists

  lemma SectionIndexOf(sections: seq<Section>, name: string, i: nat)
    requires i <= |sections| && (i < |sections| ==> sections[i].name == name)
    requires forall j :: 0 <= j < i ==> sections[j].name != name
    ensures SectionIndex(sections, name) == i
  {
    var k := SectionIndex(sections, name);
  }

  lemma KeysOfUpdated(sections: seq<Section>, i: nat, s: Section, name: string)
    requires i < |sections| && s.name == sections[i].name && i == SectionIndex(sections, s.name)
    ensures KeysOf(sections[i := s], name) == if name == s.name then s.keys else KeysOf(sections, name)
  {
    SectionIndexOf(sections[i := s], name, SectionIndex(sections, name));
  }

  lemma KeysOfOnto(s: Section, sections: seq<Section>, name: string)
    ensures KeysOf([s] + sections, name) == if s.name == name then s.keys else KeysOf(sections, name)
  {
    assert ([s] + sections)[1..] == sections;
  }

  predicate ShortNames(name: string, key: string) {
    |name| < MAX_SECTION_LENGTH && |key| < MAX_KEY_LENGTH
  }

  // Setting a pair changes that pair alone.
  lemma SetFinds(ini: Ini, name: string, key: string, value: string, comment: Option<string>, name': string, key': string)
    requires ShortNames(name, key)
    ensures Find(Set(ini, name, key, value, comment), name', key') ==
              if name' == name && key' == key then
                var was := if Find(ini, name, key).Some? then Find(ini, name, key).value else KeyValue(key, "", "", []);
                Some(KeyValue(key, Cut(value, MAX_VALUE_LENGTH),
                              if comment.Some? then Cut(comment.value, MAX_COMMENT_LENGTH) else was.comment, was.before))
              else Find(ini, name', key')
  {
    var i := SectionIndex(ini.sections, name);
    var keys := KeysOf(ini.sections, name);
    SetKeyFinds(keys, key, value, comment, key');
    if i < |ini.sections| {
      KeysOfUpdated(ini.sections, i, ini.sections[i].(keys := SetKey(keys, key, value, comment)), name');
    } else {
      KeysOfOnto(Section(name, "", [], SetKey([], key, value, comment)), ini.sections, name');
    }
  }

  // No section of these has the name, no key of these is the key.
  predicate NoSection(sections: seq<Section>, name: string) {
    forall s :: s in sections ==> s.name != name
  }

  predicate NoKey(keys: seq<KeyValue>, key: string) {
    forall kv :: kv in keys ==> kv.key != key
  }

  lemma FirstSectionAt(x: seq<Section>, s: Section, y: seq<Section>)
    requires NoSection(x, s.name)
    ensures SectionIndex(x + [s] + y, s.name) == |x|
  {
    var all := x + [s] + y;
    assert all[|x|] == s;
    forall j | 0 <= j < |x| ensures all[j].name != s.name {
      assert all[j] == x[j] && x[j] in x;
    }
  }

  lemma FirstKeyAt(a: seq<KeyValue>, kv: KeyValue, b: seq<KeyValue>)
    requires NoKey(a, kv.key)
    ensures KeyIndex(a + [kv] + b, kv.key) == |a|
  {
    var all := a + [kv] + b;
    assert all[|a|] == kv;
    forall j | 0 <= j < |a| ensures all[j].key != kv.key {
      assert all[j] == a[j] && a[j] in a;
    }
  }

  lemma KeyNowhere(keys: seq<KeyValue>, key: string)
    requires NoKey(keys, key)
    ensures KeyIndex(keys, key) == |keys|
  {
    assert forall j :: 0 <= j < |keys| ==> keys[j] in keys;
  }

  lemma SectionNowhere(sections: seq<Section>, name: string)
    requires NoSection(sections, name)
    ensures SectionIndex(sections, name) == |sections|
  {
    assert forall j :: 0 <= j < |sections| ==> sections[j] in sections;
  }

  // A set overwrites the value, and the comment if it gives one, of the first such key of the first such section, and
  // leaves all else as it is and where it is.
  lemma SetOverwritesFirst(h: seq<string>, x: seq<Section>, s: Section, y: seq<Section>, a: seq<KeyValue>, kv: KeyValue,
                           b: seq<KeyValue>, value: string, comment: Option<string>)
    requires NoSection(x, s.name) && NoKey(a, kv.key) && s.keys == a + [kv] + b && |value| < MAX_VALUE_LENGTH
    requires comment.Some? ==> |comment.value| < MAX_COMMENT_LENGTH
    ensures Set(Ini(h, x + [s] + y), s.name, kv.key, value, comment) ==
              var now := kv.(value := value, comment := if comment.Some? then comment.value else kv.comment);
              Ini(h, x + [s.(keys := a + [now] + b)] + y)
  {
    FirstSectionAt(x, s, y);
    FirstKeyAt(a, kv, b);
    var now := kv.(value := value, comment := if comment.Some? then comment.value else kv.comment);
    assert s.keys[|a| := now] == a + [now] + b;
    var s' := s.(keys := a + [now] + b);
    assert (x + [s] + y)[|x| := s'] == x + [s'] + y;
  }

  // A new key goes to the front of its section.
  lemma SetAddsKey(h: seq<string>, x: seq<Section>, s: Section, y: seq<Section>, key: string, value: string)
    requires NoSection(x, s.name) && NoKey(s.keys, key) && |key| < MAX_KEY_LENGTH && |value| < MAX_VALUE_LENGTH
    ensures Set(Ini(h, x + [s] + y), s.name, key, value, None) ==
              Ini(h, x + [s.(keys := [KeyValue(key, value, "", [])] + s.keys)] + y)
  {
    FirstSectionAt(x, s, y);
    KeyNowhere(s.keys, key);
    var s' := s.(keys := [KeyValue(key, value, "", [])] + s.keys);
    assert (x + [s] + y)[|x| := s'] == x + [s'] + y;
  }

  // A new section goes to the front of the file.
  lemma SetAddsSection(h: seq<string>, sections: seq<Section>, name: string, key: string, value: string)
    requires NoSection(sections, name) && ShortNames(name, key) && |value| < MAX_VALUE_LENGTH
    ensures Set(Ini(h, sections), name, key, value, None) ==
              Ini(h, [Section(name, "", [], [KeyValue(key, value, "", [])])] + sections)
  {
    SectionNowhere(sections, name);
    var kv := KeyValue(key, value, "", []);
    assert KeyIndex([], key) == 0 && [kv] + [] == [kv];
    assert SetKey([], key, value, None) == [kv];
  }

  // A deletion takes out the first such key of the first such section, and only that.
  lemma DeleteKeyTakesFirst(h: seq<string>, x: seq<Section>, s: Section, y: seq<Section>, a: seq<KeyValue>, kv: KeyValue,
                            b: seq<KeyValue>)
    requires NoSection(x, s.name) && NoKey(a, kv.key) && s.keys == a + [kv] + b
    ensures DeleteKey(Ini(h, x + [s] + y), s.name, kv.key) == Ini(h, x + [s.(keys := a + b)] + y)
  {
    FirstSectionAt(x, s, y);
    FirstKeyAt(a, kv, b);
    WithoutMiddle(a, kv, b);
    var s' := s.(keys := a + b);
    assert (x + [s] + y)[|x| := s'] == x + [s'] + y;
  }

  // So does the deletion of a section.
  lemma DeleteSectionTakesFirst(h: seq<string>, x: seq<Section>, s: Section, y: seq<Section>)
    requires NoSection(x, s.name)
    ensures DeleteSection(Ini(h, x + [s] + y), s.name) == Ini(h, x + y)
  {
    FirstSectionAt(x, s, y);
    WithoutMiddle(x, s, y);
  }

  lemma WithoutMiddle<T>(a: seq<T>, t: T, b: seq<T>)
    ensures Without(a + [t] + b, |a|) == a + b
  {
    var all, rest := a + [t] + b, Without(a + [t] + b, |a|);
    forall j | 0 <= j < |a + b| ensures rest[j] == (a + b)[j] {
      assert rest[j] == if j < |a| then all[j] else all[j + 1];
    }
  }

  lemma SetKeepsUnique(ini: Ini, name: string, key: string, value: string, comment: Option<string>)
    requires ShortNames(name, key) && Unique(ini)
    ensures Unique(Set(ini, name, key, value, comment))
  {
    var i := SectionIndex(ini.sections, name);
    var ini' := Set(ini, name, key, value, comment);
    if i < |ini.sections| {
      SetKeyKeepsUnique(ini.sections[i].keys, key, value, comment);
    } else {
      SetKeyKeepsUnique([], key, value, comment);
      assert forall j :: 1 <= j < |ini'.sections| ==> ini'.sections[j] == ini.sections[j - 1];
    }
  }

  lemma DeleteKeyFinds(ini: Ini, name: string, key: string, name': string, key': string)
    requires Unique(ini)
    ensures Find(DeleteKey(ini, name, key), name', key') ==
              if name' == name && key' == key then None else Find(ini, name', key')
  {
    var i := SectionIndex(ini.sections, name);
    if i < |ini.sections| {
      var s := ini.sections[i];
      WithoutKeyFinds(s.keys, key, key');
      KeysOfUpdated(ini.sections, i, s.(keys := WithoutKey(s.keys, key)), name');
    }
  }

  lemma DeleteKeyKeepsUnique(ini: Ini, name: string, key: string)
    requires Unique(ini)
    ensures Unique(DeleteKey(ini, name, key))
  {
    var i := SectionIndex(ini.sections, name);
    if i < |ini.sections| {
      WithoutKeyFinds(ini.sections[i].keys, key, key);
    }
  }

  lemma SectionIndexWithout(ini: Ini, i: nat, name: string)
    requires Unique(ini) && i < |ini.sections|
    ensures var rest, k := Without(ini.sections, i), SectionIndex(ini.sections, name);
            SectionIndex(rest, name) == if name == ini.sections[i].name then |rest| else if k < i then k else k - 1
  {
    var rest, k := Without(ini.sections, i), SectionIndex(ini.sections, name);
    SectionIndexOf(rest, name, if name == ini.sections[i].name then |rest| else if k < i then k else k - 1);
  }

  lemma DeleteSectionFinds(ini: Ini, name: string, name': string, key': string)
    requires Unique(ini)
    ensures Find(DeleteSection(ini, name), name', key') == if name' == name then None else Find(ini, name', key')
  {
    var i := SectionIndex(ini.sections, name);
    if i < |ini.sections| {
      SectionIndexWithout(ini, i, name');
      var rest, k := Without(ini.sections, i), SectionIndex(ini.sections, name');
      assert KeysOf(rest, name') ==
             if name' == name || k == |ini.sections| then [] else rest[if k < i then k else k - 1].keys;
    }
  }

  lemma DeleteSectionKeepsUnique(ini: Ini, name: string)
    requires Unique(ini)
    ensures Unique(DeleteSection(ini, name))
  {
  }

  // ---------------------------------------------------------------- runs

  datatype Op =
    | SetPair(name: string, key: string, text: string, remark: Option<string>)
    | DropKey(name: string, key: string)
    | DropSection(name: string)

  function Apply(ini: Ini, op: Op): Ini {
    match op
    case SetPair(name, key, text, remark) => Set(ini, name, key, text, remark)
    case DropKey(name, key) => DeleteKey(ini, name, key)
    case DropSection(name) => DeleteSection(ini, name)
  }

  function ApplyAll(ini: Ini, ops: seq<Op>): Ini {
    if ops == [] then ini else Apply(ApplyAll(ini, ops[..|ops| - 1]), ops[|ops| - 1])
  }

  // The same operations on a map from pairs of names to values.
  type Pairs = map<(string, string), string>

  function ApplyToMap(m: Pairs, op: Op): Pairs {
    match op
    case SetPair(name, key, text, _) => m[(name, key) := Cut(text, MAX_VALUE_LENGTH)]
    case DropKey(name, key) => m - {(name, key)}
    case DropSection(name) => map p | p in m && p.0 != name :: m[p]
  }

  function ApplyAllToMap(m: Pairs, ops: seq<Op>): Pairs {
    if ops == [] then m else ApplyToMap(ApplyAllToMap(m, ops[..|ops| - 1]), ops[|ops| - 1])
  }

  ghost predicate Denotes(ini: Ini, m: Pairs) {
    forall name, key :: Get(ini, name, key) == if (name, key) in m then Some(m[(name, key)]) else None
  }

  predicate ShortOp(op: Op) {
    op.SetPair? ==> ShortNames(op.name, op.key)
  }

  // The store is a map, over every sequence of operations: names stay unique, a lookup returns
  // the last value set, cut to its field, and nothing else changes.
  lemma {:induction false} StoreRefinesMap(ops: seq<Op>)
    requires forall i :: 0 <= i < |ops| ==> ShortOp(ops[i])
    ensures Unique(ApplyAll(EMPTY, ops))
    ensures Denotes(ApplyAll(EMPTY, ops), ApplyAllToMap(map[], ops))
    decreases |ops|
  {
    if ops != [] {
      var before, op := ops[..|ops| - 1], ops[|ops| - 1];
      StoreRefinesMap(before);
      ApplyRefines(ApplyAll(EMPTY, before), ApplyAllToMap(map[], before), op);
    }
  }

  lemma ApplyRefines(ini: Ini, m: Pairs, op: Op)
    requires ShortOp(op) && Unique(ini) && Denotes(ini, m)
    ensures Unique(Apply(ini, op)) && Denotes(Apply(ini, op), ApplyToMap(m, op))
  {
    if op.SetPair? {
      SetKeepsUnique(ini, op.name, op.key, op.text, op.remark);
    } else if op.DropKey? {
      DeleteKeyKeepsUnique(ini, op.name, op.key);
    } else {
      DeleteSectionKeepsUnique(ini, op.name);
    }
    forall name, key
      ensures Get(Apply(ini, op), name, key) ==
                if (name, key) in ApplyToMap(m, op) then Some(ApplyToMap(m, op)[(name, key)]) else None
    {
      ApplyFinds(ini, m, op, name, key);
    }
  }

  lemma ApplyFinds(ini: Ini, m: Pairs, op: Op, name: string, key: string)
    requires ShortOp(op) && Unique(ini) && Denotes(ini, m)
    ensures Get(Apply(ini, op), name, key) ==
              if (name, key) in ApplyToMap(m, op) then Some(ApplyToMap(m, op)[(name, key)]) else None
  {
    assert Get(ini, name, key) == if (name, key) in m then Some(m[(name, key)]) else None;
    match op {
      case SetPair(n, k, text, remark) => SetFinds(ini, n, k, text, remark, name, key);
      case DropKey(n, k) => DeleteKeyFinds(ini, n, k, name, key);
      case DropSection(n) => DeleteSectionFinds(ini, n, name, key);
    }
  }
}
