/** The INI store in memory: sections and keys in linked lists that are relinked in place. */
module IniStore {
  import opened CStrings
  import opened IniFormat
  import opened IniValues

  class KeyNode {
    var key: string
    var value: string
    var comment: string
    var commentsBefore: seq<string>
    var next: KeyNode?
    ghost const owner: SectionNode

    constructor (key: string, next: KeyNode?, ghost owner: SectionNode)
      ensures this.owner == owner
      ensures Item() == KeyValue(Cut(key, MAX_KEY_LENGTH), "", "", []) && this.next == next
    {
      this.key, value, comment, commentsBefore := Cut(key, MAX_KEY_LENGTH), "", "", [];
      this.next, this.owner := next, owner;
    }

    function Item(): KeyValue
      reads this
    {
      KeyValue(key, value, comment, commentsBefore)
    }
  }

  predicate Distinct<T(==)>(s: seq<T>) {
    forall i, j :: 0 <= i < j < |s| ==> s[i] != s[j]
  }

  lemma DistinctOnto<T>(x: T, s: seq<T>)
    requires Distinct(s) && x !in s
    ensures Distinct([x] + s)
  {
  }

  lemma DistinctWithout<T>(s: seq<T>, i: nat)
    requires Distinct(s) && i < |s|
    ensures Distinct(Without(s, i))
  {
  }

  lemma UpdatedOnce<T>(was: seq<T>, now: seq<T>, i: nat)
    requires |now| == |was| && i < |now| && forall j :: 0 <= j < |now| && j != i ==> now[j] == was[j]
    ensures now == was[i := now[i]]
  {
  }

  lemma SeqOnto<T>(x: T, was: seq<T>, now: seq<T>)
    requires |now| == |was| + 1 && now[0] == x && forall i :: 0 <= i < |was| ==> now[i + 1] == was[i]
    ensures now == [x] + was
  {
  }

  ghost function Objects(nodes: seq<KeyNode>): set<object> {
    set k | k in nodes
  }

  // The node after position i of a list.
  ghost function KeyAfter(nodes: seq<KeyNode>, i: nat): KeyNode? {
    if i < |nodes| then nodes[i] else null
  }

  // A chain that skips position i is the chain of the other nodes.
  lemma ChainWithout(nodes: seq<KeyNode>, i: nat)
    requires 0 < i < |nodes|
    requires forall j :: 0 <= j < |nodes| ==> nodes[j].next == KeyAfter(nodes, if j == i - 1 then i + 1 else j + 1)
    ensures var rest := Without(nodes, i); forall j :: 0 <= j < |rest| ==> rest[j].next == KeyAfter(rest, j + 1)
  {
  }

  class SectionNode {
    var name: string
    var comment: string
    var commentsBefore: seq<string>
    var keys: KeyNode?
    var next: SectionNode?
    ghost var keyNodes: seq<KeyNode>

    // keyNodes are the nodes that next pointers lead through, each once.
    ghost predicate Valid()
      reads this`keys, this`keyNodes, keyNodes
    {
      && keys == KeyAfter(keyNodes, 0)
      && (forall i :: 0 <= i < |keyNodes| ==> keyNodes[i].next == KeyAfter(keyNodes, i + 1))
      && Distinct(keyNodes)
      && (forall k :: k in keyNodes ==> k.owner == this)
    }

    ghost function Items(): (items: seq<KeyValue>)
      reads this`keyNodes, keyNodes
      ensures |items| == |keyNodes|
    {
      var ns := keyNodes;
      seq(|ns|, i requires 0 <= i < |ns| reads ns => ns[i].Item())
    }

    ghost function Contents(): Section
      reads this, keyNodes
    {
      Section(name, comment, commentsBefore, Items())
    }

    constructor (name: string, next: SectionNode?)
      ensures Valid() && keyNodes == [] && this.next == next
      ensures Contents() == Section(Cut(name, MAX_SECTION_LENGTH), "", [], [])
    {
      this.name, comment, commentsBefore := Cut(name, MAX_SECTION_LENGTH), "", [];
      keys, keyNodes := null, [];
      this.next := next;
    }

    // find_key
    method FindKey(key: string) returns (node: KeyNode?, ghost i: nat)
      requires Valid()
      ensures i == KeyIndex(Items(), key)
      ensures node == KeyAfter(keyNodes, KeyIndex(Items(), key))
    {
      node, i := keys, 0;
      while node != null && node.key != key
        invariant 0 <= i <= |keyNodes| && node == KeyAfter(keyNodes, i)
        invariant forall j :: 0 <= j < i ==> Items()[j].key != key
        decreases |keyNodes| - i
      {
        node, i := node.next, i + 1;
      }
      KeyIndexOf(Items(), key, i);
    }

    // The value of the first node with the key.
    method Lookup(key: string) returns (value: Option<string>)
      requires Valid()
      ensures value == match IniValues.FindKey(Items(), key) case Some(kv) => Some(kv.value) case None => None
    {
      var kv, i := FindKey(key);
      if kv == null {
        return None;
      }
      assert Items()[i] == kv.Item();
      return Some(kv.value);
    }

    // create_key
    method CreateKey(key: string) returns (node: KeyNode)
      requires Valid()
      modifies this`keys, this`keyNodes
      ensures Valid() && fresh(node) && keyNodes == [node] + old(keyNodes)
      ensures Items() == [KeyValue(Cut(key, MAX_KEY_LENGTH), "", "", [])] + old(Items())
    {
      node := new KeyNode(key, keys, this);
      ghost var before, items := keyNodes, Items();
      keys, keyNodes := node, [node] + before;
      DistinctOnto(node, before);
      forall i | 0 <= i < |before|
        ensures keyNodes[i + 1].next == KeyAfter(keyNodes, i + 2) && keyNodes[i + 1].Item() == items[i]
      {
        assert keyNodes[i + 1] == before[i];
      }
    }

    // A loaded key: it takes the comments that wait at the section.
    method AddKey(key: string, value: string, comment: string)
      requires Valid() && |key| < MAX_KEY_LENGTH
      modifies this`keys, this`keyNodes, this`commentsBefore
      ensures Valid() && commentsBefore == []
      ensures Items() == [KeyValue(key, value, comment, old(commentsBefore))] + old(Items())
      ensures |keyNodes| > 0 && fresh(keyNodes[0]) && keyNodes[1..] == old(keyNodes)
    {
      var node := CreateKey(key);
      FillFirst(node, value, comment, commentsBefore);
      commentsBefore := [];
    }

    // One node's item changes, and no link.
    twostate lemma NodeUpdated(i: nat)
      requires old(Valid()) && i < |keyNodes| && unchanged(this`keys, this`keyNodes) && keyNodes[i].next == old(keyNodes[i].next)
      requires forall j :: 0 <= j < |keyNodes| && j != i ==> unchanged(keyNodes[j])
      ensures Valid() && Items() == old(Items())[i := keyNodes[i].Item()]
    {
      forall j | 0 <= j < |keyNodes| && j != i ensures keyNodes[j].Item() == old(keyNodes[j].Item()) {
      }
    }

    method FillFirst(node: KeyNode, value: string, comment: string, before: seq<string>)
      requires Valid() && keyNodes != [] && node == keyNodes[0]
      modifies node`value, node`comment, node`commentsBefore
      ensures Valid()
      ensures Items() == [KeyValue(old(Items())[0].key, value, comment, before)] + old(Items())[1..]
    {
      node.value, node.comment, node.commentsBefore := value, comment, before;
      NodeUpdated(0);
      ghost var items := old(Items());
      assert items[0 := node.Item()] == [node.Item()] + items[1..];
    }

    // Store a value, and a comment if there is one, in a node of the list.
    method AssignNode(node: KeyNode, ghost i: nat, value: string, comment: Option<string>)
      requires Valid() && i < |keyNodes| && keyNodes[i] == node
      modifies node`value, node`comment
      ensures Valid() && Items() == old(Items())[i := Assign(old(Items())[i], value, comment)]
    {
      node.value := Cut(value, MAX_VALUE_LENGTH);
      if comment.Some? {
        node.comment := Cut(comment.value, MAX_COMMENT_LENGTH);
      }
      NodeUpdated(i);
    }

    // A new key with its value.
    method CreateWith(key: string, value: string, comment: Option<string>)
      requires Valid()
      modifies this`keys, this`keyNodes
      ensures Valid() && Items() == [Assign(KeyValue(Cut(key, MAX_KEY_LENGTH), "", "", []), value, comment)] + old(Items())
      ensures forall n :: n in keyNodes ==> n in old(keyNodes) || fresh(n)
    {
      var node := CreateKey(key);
      AssignNode(node, 0, value, comment);
    }

    // The key part of ini_set_with_comment.
    method SetKey(key: string, value: string, comment: Option<string>)
      requires Valid()
      modifies this`keys, this`keyNodes, keyNodes
      ensures Valid() && Items() == IniValues.SetKey(old(Items()), key, value, comment)
      ensures forall n :: n in keyNodes ==> n in old(keyNodes) || fresh(n)
    {
      var node, i := FindKey(key);
      if node == null {
        CreateWith(key, value, comment);
      } else {
        AssignNode(node, i, value, comment);
      }
    }

    // The search of ini_delete_key: the node with the key and the one before it.
    method FindWithPrevious(key: string) returns (prev: KeyNode?, current: KeyNode?, ghost i: nat)
      requires Valid()
      ensures i == KeyIndex(Items(), key)
      ensures current == KeyAfter(keyNodes, KeyIndex(Items(), key))
      ensures prev == if i == 0 then null else keyNodes[i - 1]
    {
      prev, current, i := null, keys, 0;
      while current != null && current.key != key
        invariant 0 <= i <= |keyNodes| && current == KeyAfter(keyNodes, i)
        invariant prev == if i == 0 then null else keyNodes[i - 1]
        invariant forall j :: 0 <= j < i ==> Items()[j].key != key
        decreases |keyNodes| - i
      {
        prev, current, i := current, current.next, i + 1;
      }
      KeyIndexOf(Items(), key, i);
    }

    method UnlinkFirst()
      requires Valid() && keyNodes != []
      modifies this`keys, this`keyNodes
      ensures Valid() && keyNodes == Without(old(keyNodes), 0) && Items() == Without(old(Items()), 0)
    {
      keys := keys.next;
      keyNodes := Without(keyNodes, 0);
    }

    method UnlinkAfter(prev: KeyNode, ghost i: nat)
      requires Valid() && 0 < i < |keyNodes| && prev == keyNodes[i - 1]
      modifies this`keyNodes, prev`next
      ensures Valid() && keyNodes == Without(old(keyNodes), i) && Items() == Without(old(Items()), i)
    {
      ghost var before, items := keyNodes, Items();
      assert prev.next == before[i] && before[i].next == KeyAfter(before, i + 1);
      prev.next := prev.next.next;
      keyNodes := Without(before, i);
      forall j | 0 <= j < |before|
        ensures before[j].next == KeyAfter(before, if j == i - 1 then i + 1 else j + 1) && before[j].Item() == items[j]
      {
        assert j != i - 1 ==> before[j] != prev;
      }
      Relinked(before, items, i);
    }

    // The nodes but for one, each with its item.
    lemma Relinked(nodes: seq<KeyNode>, items: seq<KeyValue>, i: nat)
      requires 0 < i < |nodes| == |items| && keyNodes == Without(nodes, i) && keys == nodes[0]
      requires Distinct(nodes) && forall n :: n in nodes ==> n.owner == this
      requires forall j :: 0 <= j < |nodes| ==> nodes[j].next == KeyAfter(nodes, if j == i - 1 then i + 1 else j + 1)
      requires forall j :: 0 <= j < |nodes| ==> nodes[j].Item() == items[j]
      ensures Valid() && Items() == Without(items, i)
    {
      DistinctWithout(nodes, i);
      ChainWithout(nodes, i);
    }

    // ini_delete_key within its section.
    method DeleteKey(key: string) returns (deleted: bool)
      requires Valid()
      modifies this`keys, this`keyNodes, keyNodes
      ensures Valid() && Items() == WithoutKey(old(Items()), key)
      ensures deleted == (KeyIndex(old(Items()), key) < |old(Items())|)
      ensures forall n :: n in keyNodes ==> n in old(keyNodes)
    {
      var prev, current, i := FindWithPrevious(key);
      if current == null {
        return false;
      }
      if prev != null {
        UnlinkAfter(prev, i);
      } else {
        UnlinkFirst();
      }
      return true;
    }
  }

  ghost function SectionAfter(nodes: seq<SectionNode>, i: nat): SectionNode? {
    if i < |nodes| then nodes[i] else null
  }

  lemma ChainOnto(node: SectionNode, nodes: seq<SectionNode>)
    requires node.next == SectionAfter(nodes, 0)
    requires forall i :: 0 <= i < |nodes| ==> nodes[i].next == SectionAfter(nodes, i + 1)
    ensures forall i :: 0 <= i <= |nodes| ==> ([node] + nodes)[i].next == SectionAfter([node] + nodes, i + 1)
  {
  }

  // A section whose node and keys are untouched keeps its contents.
  twostate lemma SectionStays(n: SectionNode)
    requires old(n.Valid()) && unchanged(n)
    requires forall k :: k in n.keyNodes ==> unchanged(k)
    ensures n.Valid() && n.Contents() == old(n.Contents())
  {
    assert forall i :: 0 <= i < |n.keyNodes| ==> n.keyNodes[i] in n.keyNodes;
  }

  // So does one whose next section alone changes.
  twostate lemma RelinkedSectionStays(n: SectionNode)
    requires old(n.Valid()) && unchanged(n`name, n`comment, n`commentsBefore, n`keys, n`keyNodes)
    requires forall k :: k in n.keyNodes ==> unchanged(k)
    ensures n.Valid() && n.Contents() == old(n.Contents())
  {
    assert forall i :: 0 <= i < |n.keyNodes| ==> n.keyNodes[i] in n.keyNodes;
  }

  class IniFile {
    var sections: SectionNode?
    var headerComments: seq<string>
    var modified: bool
    ghost var nodes: seq<SectionNode>
    ghost var Repr: set<object>

    // nodes are the sections that next pointers lead through, each once; Repr holds them and their keys.
    ghost predicate Valid()
      reads this, Repr
    {
      && this in Repr
      && (forall n :: n in nodes ==> n in Repr)
      && (forall n, k :: n in nodes && k in n.keyNodes ==> k in Repr)
      && sections == SectionAfter(nodes, 0)
      && (forall i :: 0 <= i < |nodes| ==> nodes[i].next == SectionAfter(nodes, i + 1))
      && Distinct(nodes)
      && (forall n :: n in nodes ==> n.Valid())
    }

    ghost function Sections(): (items: seq<Section>)
      requires Valid()
      reads this, Repr
      ensures |items| == |nodes|
    {
      seq(|nodes|, i requires 0 <= i < |nodes| && Valid() reads this, Repr => nodes[i].Contents())
    }

    ghost function Contents(): Ini
      requires Valid()
      reads this, Repr
    {
      Ini(headerComments, Sections())
    }

    constructor ()
      ensures Valid() && fresh(Repr) && Contents() == EMPTY && !modified
    {
      sections, headerComments, modified, nodes := null, [], false, [];
      Repr := {this};
    }

    // find_section
    method FindSection(name: string) returns (node: SectionNode?, ghost i: nat)
      requires Valid()
      ensures i == SectionIndex(Sections(), name)
      ensures node == SectionAfter(nodes, SectionIndex(Sections(), name))
    {
      node, i := sections, 0;
      while node != null && node.name != name
        invariant 0 <= i <= |nodes| && node == SectionAfter(nodes, i)
        invariant forall j :: 0 <= j < i ==> Sections()[j].name != name
        decreases |nodes| - i
      {
        node, i := node.next, i + 1;
      }
      SectionIndexOf(Sections(), name, i);
    }

    // create_section
    method CreateSection(name: string) returns (node: SectionNode)
      requires Valid()
      modifies this
      ensures Valid() && fresh(node) && nodes == [node] + old(nodes) && Repr == old(Repr) + {node}
      ensures headerComments == old(headerComments) && modified == old(modified) && node.keyNodes == []
      ensures Sections() == [Section(Cut(name, MAX_SECTION_LENGTH), "", [], [])] + old(Sections())
    {
      node := new SectionNode(name, sections);
      sections, nodes, Repr := node, [node] + nodes, Repr + {node};
      AllSectionsStay();
      PrependedIsValid(node);
      PrependedSections(node);
    }

    // A valid section in front of the others, which keep their links.
    twostate lemma PrependedIsValid(new node: SectionNode)
      requires old(Valid()) && node.Valid() && node.next == old(sections) && node.keyNodes == []
      requires sections == node && nodes == [node] + old(nodes) && Repr == old(Repr) + {node} && node !in old(Repr)
      requires forall n: SectionNode :: n in old(nodes) ==> n.Valid() && unchanged(n`next) && unchanged(n`keyNodes)
      ensures Valid()
    {
      ghost var before := old(nodes);
      DistinctOnto(node, before);
      forall i | 0 <= i < |before| ensures before[i].next == SectionAfter(before, i + 1) {
        assert before[i] in old(nodes) && old(before[i].next) == SectionAfter(before, i + 1);
      }
      ChainOnto(node, before);
    }

    twostate lemma PrependedSections(new node: SectionNode)
      requires old(Valid()) && Valid() && nodes == [node] + old(nodes)
      requires forall n: SectionNode :: n in old(nodes) ==> n.Contents() == old(n.Contents())
      ensures Sections() == [node.Contents()] + old(Sections())
    {
      forall i | 0 <= i < |old(nodes)| ensures Sections()[i + 1] == old(Sections())[i] {
        PrependedSection(node, i);
      }
      SectionAt(0);
      SeqOnto(node.Contents(), old(Sections()), Sections());
    }

    twostate lemma PrependedSection(new node: SectionNode, i: nat)
      requires old(Valid()) && Valid() && nodes == [node] + old(nodes) && i < |old(nodes)|
      requires forall n: SectionNode :: n in old(nodes) ==> n.Contents() == old(n.Contents())
      ensures Sections()[i + 1] == old(Sections())[i]
    {
      SectionAt(i + 1);
      assert nodes[i + 1] == old(nodes)[i];
      assert old(nodes)[i] in old(nodes);
    }

    lemma SectionAt(i: nat)
      requires Valid() && i < |nodes|
      ensures Sections()[i] == nodes[i].Contents()
    {
    }

    // Sections that are untouched with their keys keep their contents.
    twostate lemma AllSectionsStay()
      requires old(Valid())
      requires forall n: SectionNode :: n in old(nodes) ==> unchanged(n)
      requires forall k: KeyNode :: k in old(Repr) ==> unchanged(k)
      ensures forall n: SectionNode :: n in old(nodes) ==> n.Valid() && n.Contents() == old(n.Contents())
    {
      forall n: SectionNode | n in old(nodes) ensures n.Valid() && n.Contents() == old(n.Contents()) {
        assert old(n.Valid()) && forall k :: k in n.keyNodes ==> k in old(Repr);
        SectionStays(n);
      }
    }

    // ini_get
    method IniGet(name: string, key: string) returns (value: Option<string>)
      requires Valid()
      ensures value == Get(Contents(), name, key)
    {
      var section, i := FindSection(name);
      if section == null {
        return None;
      }
      SectionAt(i);
      assert section in nodes && section.Items() == KeysOf(Sections(), name);
      value := section.Lookup(key);
    }

    // Setting a key of one section leaves the other sections alone.
    method SetInSection(section: SectionNode, ghost i: nat, key: string, value: string, comment: Option<string>)
      requires Valid() && i < |nodes| && nodes[i] == section
      modifies this`Repr, section`keys, section`keyNodes, section.keyNodes
      ensures Valid() && fresh(Repr - old(Repr))
      ensures Sections() == old(Sections())[i := old(Sections())[i].(keys := IniValues.SetKey(old(Sections())[i].keys, key, value, comment))]
    {
      ghost var item := section.Contents();
      SectionAt(i);
      section.SetKey(key, value, comment);
      assert section.Contents() == item.(keys := IniValues.SetKey(item.keys, key, value, comment));
      Repr := Repr + Objects(section.keyNodes);
      SectionReplaced(i);
    }

    // One section changes, but for its place in the list.
    twostate lemma SectionReplaced(i: nat)
      requires old(Valid()) && nodes == old(nodes) && sections == old(sections) && i < |nodes|
      requires this in Repr && old(Repr) <= Repr && nodes[i].next == old(nodes[i].next) && nodes[i].Valid()
      requires forall k :: k in nodes[i].keyNodes ==> k in Repr
      requires forall n: SectionNode :: n in nodes && n != nodes[i] ==> unchanged(n)
      requires forall k: KeyNode :: k in old(Repr) && k !in old(nodes[i].keyNodes) ==> unchanged(k)
      ensures Valid() && Sections() == old(Sections())[i := nodes[i].Contents()]
    {
      OtherSectionsStay(nodes[i]);
      LinksStay(nodes[i]);
      assert Valid();
      SectionUpdated(i);
    }

    twostate lemma LinksStay(section: SectionNode)
      requires old(Valid()) && nodes == old(nodes) && section in nodes && section.next == old(section.next)
      requires forall n: SectionNode :: n in nodes && n != section ==> unchanged(n)
      ensures forall i :: 0 <= i < |nodes| ==> nodes[i].next == SectionAfter(nodes, i + 1)
    {
      forall i | 0 <= i < |nodes| ensures nodes[i].next == SectionAfter(nodes, i + 1) {
        assert nodes[i] in nodes && old(nodes[i].next) == SectionAfter(old(nodes), i + 1);
      }
    }

    // One section has new contents.
    twostate lemma SectionUpdated(i: nat)
      requires old(Valid()) && Valid() && nodes == old(nodes) && i < |nodes|
      requires forall n: SectionNode :: n in nodes && n != nodes[i] ==> n.Contents() == old(n.Contents())
      ensures Sections() == old(Sections())[i := nodes[i].Contents()]
    {
      forall j | 0 <= j < |nodes| && j != i ensures Sections()[j] == old(Sections())[j] {
        SectionAt(j);
        var n := nodes[j];
        assert n in nodes && n != nodes[i] && old(Sections())[j] == old(n.Contents());
      }
      SectionAt(i);
      UpdatedOnce(old(Sections()), Sections(), i);
    }

    // Sections whose keys are untouched keep their contents.
    twostate lemma OtherSectionsStay(section: SectionNode)
      requires old(Valid()) && nodes == old(nodes) && section in nodes
      requires forall n: SectionNode :: n in nodes && n != section ==> unchanged(n)
      requires forall k: KeyNode :: k in old(Repr) && k !in old(section.keyNodes) ==> unchanged(k)
      ensures forall n: SectionNode :: n in nodes && n != section ==> n.Valid() && n.Contents() == old(n.Contents())
    {
      forall n: SectionNode | n in nodes && n != section ensures n.Valid() && n.Contents() == old(n.Contents()) {
        assert old(n.Valid()) && old(section.Valid());
        assert forall k :: k in old(section.keyNodes) ==> k.owner == section;
        SectionStays(n);
      }
    }

    // The section with the name, made first if there is none.
    method FindOrCreateSection(name: string) returns (section: SectionNode, ghost i: nat)
      requires Valid()
      modifies this
      ensures Valid() && fresh(Repr - old(Repr)) && i < |nodes| && nodes[i] == section
      ensures headerComments == old(headerComments)
      ensures var sections := old(Sections());
              var found := SectionIndex(sections, name);
              if found < |sections| then i == found && Sections() == sections
              else i == 0 && Sections() == [Section(Cut(name, MAX_SECTION_LENGTH), "", [], [])] + sections
    {
      var node;
      node, i := FindSection(name);
      if node == null {
        section := CreateSection(name);
        i := 0;
      } else {
        section := node;
      }
    }

    method MarkModified()
      requires Valid()
      modifies this`modified
      ensures Valid() && Contents() == old(Contents()) && modified
    {
      modified := true;
      AllSectionsStay();
    }

    method MarkSaved()
      requires Valid()
      modifies this`modified
      ensures Valid() && Contents() == old(Contents()) && !modified
    {
      modified := false;
      AllSectionsStay();
    }

    // ini_set_with_comment
    method IniSet(name: string, key: string, value: string, comment: Option<string>)
      requires Valid()
      modifies Repr
      ensures Valid() && fresh(Repr - old(Repr)) && modified
      ensures Contents() == Set(old(Contents()), name, key, value, comment)
    {
      SetUnmarked(name, key, value, comment);
      MarkModified();
    }

    method SetUnmarked(name: string, key: string, value: string, comment: Option<string>)
      requires Valid()
      modifies Repr
      ensures Valid() && fresh(Repr - old(Repr))
      ensures Contents() == Set(old(Contents()), name, key, value, comment)
    {
      ghost var before := Contents();
      var section, i := FindOrCreateSection(name);
      SetOnto(before, Sections(), name, key, value, comment);
      SetInSection(section, i, key, value, comment);
    }

    // A change to the first section.
    twostate lemma FirstSectionChanged()
      requires old(Valid()) && nodes != [] && nodes == old(nodes) && sections == old(sections)
      requires this in Repr && old(Repr) <= Repr && nodes[0].next == old(nodes[0].next) && nodes[0].Valid()
      requires forall k :: k in nodes[0].keyNodes ==> k in Repr
      requires forall n: SectionNode :: n in nodes && n != nodes[0] ==> unchanged(n)
      requires forall k: KeyNode :: k in old(Repr) && k !in old(nodes[0].keyNodes) ==> unchanged(k)
      ensures Valid() && Sections() == [nodes[0].Contents()] + old(Sections())[1..]
    {
      SectionReplaced(0);
    }

    // Comments wait at the header until there is a section, then at the first section.
    method AddRemark(text: string)
      requires Valid()
      modifies Repr
      ensures Valid() && fresh(Repr - old(Repr)) && Contents() == AddLine(old(Contents()), Remark(text))
    {
      if sections == null {
        headerComments := headerComments + [text];
      } else {
        sections.commentsBefore := sections.commentsBefore + [text];
        FirstSectionChanged();
      }
    }

    method DropPending()
      requires Valid()
      modifies Repr
      ensures Valid() && Repr == old(Repr) && Contents() == WithPending(old(Contents()), [])
    {
      if sections == null {
        headerComments := [];
      } else {
        sections.commentsBefore := [];
        FirstSectionChanged();
      }
    }

    method CommentFirst(comment: string)
      requires Valid() && nodes != []
      modifies Repr
      ensures Valid() && Repr == old(Repr) && headerComments == old(headerComments)
      ensures Sections() == [old(Sections())[0].(comment := comment)] + old(Sections())[1..]
    {
      sections.comment := comment;
      FirstSectionChanged();
    }

    method AddHeader(name: string, comment: string)
      requires Valid() && |name| < MAX_SECTION_LENGTH
      modifies Repr
      ensures Valid() && fresh(Repr - old(Repr)) && Contents() == AddLine(old(Contents()), Header(name, comment))
    {
      DropPending();
      ghost var dropped := Sections();
      var node := CreateSection(name);
      CommentFirst(comment);
      assert Sections() == [Section(name, comment, [], [])] + dropped;
    }

    // A pair goes to the front of the first section and takes the comments that wait there.
    method AddPair(key: string, value: string, comment: string)
      requires Valid() && |key| < MAX_KEY_LENGTH
      modifies Repr
      ensures Valid() && fresh(Repr - old(Repr)) && Contents() == AddLine(old(Contents()), Pair(key, value, comment))
    {
      var current := sections;
      if current == null {
        return;
      }
      AddToFirst(current, key, value, comment);
    }

    method AddToFirst(current: SectionNode, key: string, value: string, comment: string)
      requires Valid() && nodes != [] && current == nodes[0] && |key| < MAX_KEY_LENGTH
      modifies this`Repr, current`keys, current`keyNodes, current`commentsBefore
      ensures Valid() && fresh(Repr - old(Repr))
      ensures Sections() == [old(current.Contents()).(before := [],
                               keys := [KeyValue(key, value, comment, old(current.commentsBefore))] + old(current.Items()))]
                            + old(Sections())[1..]
    {
      current.AddKey(key, value, comment);
      Repr := Repr + {current.keyNodes[0]};
      assert forall k :: k in current.keyNodes ==> k == current.keyNodes[0] || k in old(current.keyNodes);
      FirstSectionChanged();
    }

    // Deleting a key of one section leaves the other sections alone.
    method DeleteInSection(section: SectionNode, ghost i: nat, key: string) returns (deleted: bool)
      requires Valid() && i < |nodes| && nodes[i] == section
      modifies section`keys, section`keyNodes, section.keyNodes
      ensures Valid() && deleted == (KeyIndex(old(Sections())[i].keys, key) < |old(Sections())[i].keys|)
      ensures Sections() == old(Sections())[i := old(Sections())[i].(keys := WithoutKey(old(Sections())[i].keys, key))]
    {
      ghost var item := section.Contents();
      SectionAt(i);
      deleted := section.DeleteKey(key);
      assert section.Contents() == item.(keys := WithoutKey(item.keys, key));
      SectionReplaced(i);
    }

    // ini_delete_key
    method IniDeleteKey(name: string, key: string) returns (deleted: bool)
      requires Valid()
      modifies Repr
      ensures Valid() && fresh(Repr - old(Repr))
      ensures Contents() == DeleteKey(old(Contents()), name, key)
      ensures deleted == Find(old(Contents()), name, key).Some?
      ensures modified == (deleted || old(modified))
    {
      var section, i := FindSection(name);
      if section == null {
        return false;
      }
      deleted := DeleteInSection(section, i, key);
      assert Contents() == DeleteKey(old(Contents()), name, key);
      if deleted {
        MarkModified();
      }
    }

    // The search of ini_delete_section.
    method FindSectionWithPrevious(name: string) returns (prev: SectionNode?, current: SectionNode?, ghost i: nat)
      requires Valid()
      ensures i == SectionIndex(Sections(), name)
      ensures current == SectionAfter(nodes, SectionIndex(Sections(), name))
      ensures prev == if i == 0 then null else nodes[i - 1]
    {
      prev, current, i := null, sections, 0;
      while current != null && current.name != name
        invariant 0 <= i <= |nodes| && current == SectionAfter(nodes, i)
        invariant prev == if i == 0 then null else nodes[i - 1]
        invariant forall j :: 0 <= j < i ==> Sections()[j].name != name
        decreases |nodes| - i
      {
        prev, current, i := current, current.next, i + 1;
      }
      SectionIndexOf(Sections(), name, i);
    }

    method UnlinkFirstSection()
      requires Valid() && nodes != []
      modifies this`sections, this`nodes
      ensures Valid() && Sections() == Without(old(Sections()), 0)
    {
      ghost var before, items := nodes, Sections();
      sections := sections.next;
      nodes := Without(before, 0);
      DistinctWithout(before, 0);
      AllSectionsStay();
      forall j | 0 <= j < |nodes|
        ensures nodes[j].next == SectionAfter(nodes, j + 1) && nodes[j].Contents() == Without(items, 0)[j]
      {
        assert nodes[j] == before[j + 1];
      }
    }

    method UnlinkSectionAfter(prev: SectionNode, ghost i: nat)
      requires Valid() && 0 < i < |nodes| && prev == nodes[i - 1]
      modifies this`nodes, prev`next
      ensures Valid() && Sections() == Without(old(Sections()), i)
    {
      ghost var before, items := nodes, Sections();
      prev.next := prev.next.next;
      nodes := Without(before, i);
      DistinctWithout(before, i);
      RelinkedSectionsStay();
      forall j | 0 <= j < |nodes|
        ensures nodes[j].next == SectionAfter(nodes, j + 1) && nodes[j].Contents() == Without(items, i)[j]
      {
        if j < i - 1 {
          assert nodes[j] == before[j] && before[j] != before[i - 1];
        } else if j == i - 1 {
          assert nodes[j] == prev;
        } else {
          assert nodes[j] == before[j + 1] && before[j + 1] != before[i - 1];
        }
      }
    }

    // Relinking sections does not change what is in them.
    twostate lemma RelinkedSectionsStay()
      requires old(Valid())
      requires forall n: SectionNode :: n in old(nodes) ==>
                 unchanged(n`name, n`comment, n`commentsBefore, n`keys, n`keyNodes)
      requires forall k: KeyNode :: k in old(Repr) ==> unchanged(k)
      ensures forall n: SectionNode :: n in old(nodes) ==> n.Valid() && n.Contents() == old(n.Contents())
    {
      forall n: SectionNode | n in old(nodes) ensures n.Valid() && n.Contents() == old(n.Contents()) {
        assert old(n.Valid()) && forall k :: k in n.keyNodes ==> k in old(Repr);
        RelinkedSectionStays(n);
      }
    }

    method UnlinkSection(prev: SectionNode?, ghost i: nat)
      requires Valid() && i < |nodes| && prev == if i == 0 then null else nodes[i - 1]
      modifies this`sections, this`nodes, nodes
      ensures Valid() && Sections() == Without(old(Sections()), i)
    {
      if prev != null {
        UnlinkSectionAfter(prev, i);
      } else {
        UnlinkFirstSection();
      }
    }

    // ini_delete_section
    method IniDeleteSection(name: string) returns (deleted: bool)
      requires Valid()
      modifies Repr
      ensures Valid() && fresh(Repr - old(Repr))
      ensures Contents() == DeleteSection(old(Contents()), name)
      ensures deleted == (SectionIndex(old(Sections()), name) < |old(Sections())|)
      ensures modified == (deleted || old(modified))
    {
      var prev, current, i := FindSectionWithPrevious(name);
      if current == null {
        return false;
      }
      UnlinkSection(prev, i);
      assert Contents() == DeleteSection(old(Contents()), name);
      MarkModified();
      return true;
    }
  }

  // Setting a pair is making its section if it is missing and setting the key there.
  lemma SetOnto(ini: Ini, created: seq<Section>, name: string, key: string, value: string, comment: Option<string>)
    requires var found := SectionIndex(ini.sections, name);
             created == if found < |ini.sections| then ini.sections
                        else [Section(Cut(name, MAX_SECTION_LENGTH), "", [], [])] + ini.sections
    ensures var found := SectionIndex(ini.sections, name);
            var i := if found < |ini.sections| then found else 0;
            Set(ini, name, key, value, comment)
            == ini.(sections := created[i := created[i].(keys := IniValues.SetKey(created[i].keys, key, value, comment))])
  {
  }
}
