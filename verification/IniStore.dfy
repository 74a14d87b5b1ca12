/**
 The INI store as the program keeps it: a linked list of sections, each with a linked list of records,
 first and last pointers and counters, all updated in place.  It refines the ordered map of IniModel.
 */
module IniStore {
  import opened Options
  import opened CStrings
  import opened IniModel
  import opened IniText

  class Record {
    var key: string
    var value: string
    var next: Record?
    /** Which section, and which place in it, the record has. */
    ghost var home: nat
    ghost var place: nat

    constructor (key: string, value: string, ghost home: nat, ghost place: nat)
      ensures this.key == key && this.value == value && next == null
      ensures this.home == home && this.place == place
    {
      this.key, this.value, this.next := key, value, null;
      this.home, this.place := home, place;
    }
  }

  class SectionNode {
    var name: string
    var dataFirst: Record?
    var dataLast: Record?
    var dataSize: nat
    var next: SectionNode?
    ghost var place: nat

    constructor (name: string, ghost place: nat)
      ensures this.name == name && next == null && dataFirst == null && dataLast == null && dataSize == 0
      ensures this.place == place
    {
      this.name, this.next := name, null;
      this.dataFirst, this.dataLast, this.dataSize := null, null, 0;
      this.place := place;
    }
  }

  /** The key-value pairs a list of records holds. */
  ghost function PairsOf(rs: seq<Record>): (r: seq<Pair>)
    reads rs
    ensures |r| == |rs| && forall k :: 0 <= k < |r| ==> r[k] == Pair(rs[k].key, rs[k].value)
  {
    if rs == [] then [] else PairsOf(rs[..|rs| - 1]) + [Pair(rs[|rs| - 1].key, rs[|rs| - 1].value)]
  }

  ghost function Last<T>(nodes: seq<T>): T
    requires nodes != []
  {
    nodes[|nodes| - 1]
  }

  /** The last node of a list, if there is one. */
  ghost function Tail<T>(nodes: seq<T>): (r: set<T>)
    ensures nodes == [] ==> r == {}
    ensures nodes != [] ==> r == {nodes[|nodes| - 1]}
  {
    if nodes == [] then {} else {nodes[|nodes| - 1]}
  }

  /** The nodes of the sections in the order clear releases them. */
  ghost function ReleaseOrder(sections: seq<SectionNode>, records: seq<seq<Record>>): seq<object>
    requires |records| == |sections|
  {
    if sections == [] then []
    else
      var n := |sections| - 1;
      ReleaseOrder(sections[..n], records[..n]) + records[n] + [sections[n]]
  }

  class Content {
    var sectionSize: nat
    var first: SectionNode?
    var last: SectionNode?

    ghost var sections: seq<SectionNode>
    ghost var records: seq<seq<Record>>
    ghost var Repr: set<object>
    /** What has been handed to free, in order. */
    ghost var freed: seq<object>

    // -------------------------------------------------------------- validity

    /** Every node is ours and knows its place; so no node is in the lists twice. */
    ghost predicate Shape()
      reads this, Repr
    {
      && this in Repr && |records| == |sections|
      && (forall i :: 0 <= i < |sections| ==> sections[i] in Repr && sections[i].place == i)
      && (forall i :: 0 <= i < |records| ==> Placed(i))
    }

    ghost predicate Placed(i: nat)
      requires i < |records|
      reads this, Repr
    {
      forall k :: 0 <= k < |records[i]| ==>
        records[i][k] in Repr && records[i][k].home == i && records[i][k].place == k
    }

    ghost function NodeAt(i: nat): SectionNode?
      reads this
    {
      if i < |sections| then sections[i] else null
    }

    static ghost function RecordAt(rs: seq<Record>, k: nat): Record? {
      if k < |rs| then rs[k] else null
    }

    /** The list starts at first, ends at last, and section_size is its length. */
    ghost predicate SectionsLinked()
      requires Shape()
      reads this, Repr
    {
      && first == NodeAt(0) && sectionSize == |sections|
      && (sections != [] ==> last == sections[|sections| - 1])
      && forall i :: 0 <= i < |sections| ==> sections[i].next == NodeAt(i + 1)
    }

    ghost predicate RecordsLinked(i: nat)
      requires Shape() && i < |sections|
      reads this, Repr
    {
      var s, rs := sections[i], records[i];
      assert Placed(i);
      && s.dataFirst == RecordAt(rs, 0) && s.dataSize == |rs|
      && (rs != [] ==> s.dataLast == rs[|rs| - 1])
      && forall k :: 0 <= k < |rs| ==> rs[k].next == RecordAt(rs, k + 1)
    }

    ghost function Model(): (r: Store)
      requires Shape()
      reads this, Repr
      ensures |r| == |sections|
      ensures forall i :: 0 <= i < |r| ==> r[i] == Section(sections[i].name, PairsOf(records[i]))
    {
      seq(|sections|, i requires 0 <= i < |sections| && Shape() reads this, Repr =>
        assert Placed(i); Section(sections[i].name, PairsOf(records[i])))
    }

    ghost predicate Linked()
      requires Shape()
      reads this, Repr
    {
      SectionsLinked() && forall i :: 0 <= i < |sections| ==> RecordsLinked(i)
    }

    ghost predicate Valid()
      reads this, Repr
      ensures Valid() ==> this in Repr
    {
      Shape() && Linked() && WellFormed(Model())
    }

    /** init_content. */
    constructor ()
      ensures Valid() && fresh(Repr) && Model() == [] && freed == []
    {
      sectionSize, first, last := 0, null, null;
      sections, records, Repr, freed := [], [], {this}, [];
    }

    // -------------------------------------------------------------- searching

    method GetSection(name: string) returns (s: SectionNode?)
      requires Valid()
      ensures s == NodeAt(SectionIndex(Model(), name))
    {
      hide WellFormed, RecordsLinked, PairsOf, Model, SectionIndex;
      s := first;
      ghost var i := 0;
      while s != null
        invariant 0 <= i <= |sections| && s == NodeAt(i)
        invariant forall j :: 0 <= j < i ==> Model()[j].name != name
        decreases |sections| - i
      {
        if s.name == name {
          SectionIndexUnique(Model(), name, i);
          return;
        }
        s := s.next;
        i := i + 1;
      }
      SectionIndexUnique(Model(), name, i);
    }

    method GetRecord(s: SectionNode?, key: string, ghost i: nat) returns (r: Record?)
      requires Valid() && s == NodeAt(i)
      ensures s == null ==> r == null
      ensures s != null ==> r == RecordAt(records[i], KeyIndex(PairsOf(records[i]), key))
    {
      hide WellFormed, SectionsLinked, KeyIndex, PairsOf;
      if s == null {
        return null;
      }
      assert RecordsLinked(i);
      r := FindRecord(s.dataFirst, key, records[i]);
    }

    /** The loop of get_record over one list. */
    static method FindRecord(dataFirst: Record?, key: string, ghost rs: seq<Record>) returns (r: Record?)
      requires dataFirst == RecordAt(rs, 0) && forall k :: 0 <= k < |rs| ==> rs[k].next == RecordAt(rs, k + 1)
      ensures r == RecordAt(rs, KeyIndex(PairsOf(rs), key))
    {
      r := dataFirst;
      ghost var k := 0;
      while r != null
        invariant 0 <= k <= |rs| && r == RecordAt(rs, k)
        invariant forall j :: 0 <= j < k ==> PairsOf(rs)[j].key != key
        decreases |rs| - k
      {
        if key == r.key {
          KeyIndexUnique(PairsOf(rs), key, k);
          return;
        }
        r := r.next;
        k := k + 1;
      }
      KeyIndexUnique(PairsOf(rs), key, k);
    }

    /** get_value; the empty string when there is no such record. */
    method GetValue(name: string, key: string) returns (value: string)
      requires Valid()
      ensures value == IniModel.GetValue(Model(), name, key)
    {
      hide WellFormed, SectionsLinked, RecordsLinked, SectionIndex, KeyIndex, PairsOf;
      ghost var i := SectionIndex(Model(), name);
      var s := GetSection(name);
      var r := GetRecord(s, key, i);
      if r != null {
        value := r.value;
      } else {
        value := "";
      }
    }

    // -------------------------------------------------------------- adding and replacing

    /** Section i and its records are the objects they were, with the fields they had. */
    twostate predicate SameSection(i: nat)
      requires old(Shape()) && Shape() && i < |old(sections)| && i < |sections|
      reads this, Repr
    {
      assert Placed(i) && old(Placed(i));
      && sections[i] == old(sections[i]) && records[i] == old(records[i])
      && sections[i].name == old(sections[i].name) && sections[i].dataSize == old(sections[i].dataSize)
      && sections[i].dataFirst == old(sections[i].dataFirst) && sections[i].dataLast == old(sections[i].dataLast)
      && forall k :: 0 <= k < |records[i]| ==>
           && records[i][k].key == old(records[i][k].key) && records[i][k].value == old(records[i][k].value)
           && records[i][k].next == old(records[i][k].next)
    }

    twostate lemma SameSectionKept(i: nat)
      requires old(Shape()) && Shape() && i < |old(sections)| && i < |sections| && SameSection(i)
      ensures old(RecordsLinked(i)) ==> RecordsLinked(i)
      ensures PairsOf(records[i]) == old(PairsOf(records[i])) && sections[i].name == old(sections[i].name)
    {
    }

    /** Puts a new node behind the last one; nothing but the old last node's next pointer changes. */
    method LinkSection(temp: SectionNode)
      requires Shape() && SectionsLinked() && temp !in Repr && temp.next == null && temp.place == |sections|
      modifies this, Tail(sections)`next
      ensures sections == old(sections) + [temp] && records == old(records) + [[]] && Repr == old(Repr) + {temp}
      ensures freed == old(freed) && sectionSize == old(sectionSize) + 1 && last == temp
      ensures first == sections[0]
      ensures forall i :: 0 <= i < |old(sections)| ==> sections[i].next == sections[i + 1]
    {
      HasTailSection();
      sectionSize := sectionSize + 1;
      if first == null {
        first := temp;
        last := temp;
      } else {
        last.next := temp;
        last := temp;
      }
      sections := sections + [temp];
      records := records + [[]];
      Repr := Repr + {temp};
    }

    lemma NowSectionsLinked()
      requires Shape() && sections != [] && sectionSize == |sections|
      requires first == sections[0] && last == Last(sections) && last.next == null
      requires forall i :: 0 <= i < |sections| - 1 ==> sections[i].next == sections[i + 1]
      ensures SectionsLinked()
    {
    }

    lemma HasTailSection()
      requires Shape() && SectionsLinked()
      ensures sectionSize == |sections| && (sections != [] ==> Last(sections) in Repr)
    {
    }

    method NewSection(name: string)
      requires Shape() && SectionsLinked()
      modifies this, Tail(sections)`next
      ensures Shape() && SectionsLinked() && fresh(Repr - old(Repr)) && freed == old(freed)
      ensures |sections| == |old(sections)| + 1 && records == old(records) + [[]]
      ensures forall i :: 0 <= i < |old(sections)| ==> SameSection(i)
      ensures var s := sections[|old(sections)|];
              s.name == name && s.dataFirst == null && s.dataSize == 0
    {
      hide PairsOf, SectionsLinked;
      ghost var n := |sections|;
      HasTailSection();
      var temp := new SectionNode(name, |sections|);
      LinkSection(temp);
      assert forall i :: 0 <= i < n ==> sections[i] == old(sections)[i] && records[i] == old(records)[i];
      forall i | 0 <= i < |records|
        ensures Placed(i)
      {
        assert i < n ==> old(Placed(i));
      }
      assert Shape();
      forall i | 0 <= i < n
        ensures SameSection(i)
      {
        assert old(Placed(i));
      }
      NowSectionsLinked();
    }

    /** The part of add_section that runs when there is no section of the name. */
    method AppendSection(name: string)
      requires Valid() && SectionIndex(Model(), name) == |Model()|
      modifies Repr
      ensures Valid() && fresh(Repr - old(Repr)) && Model() == AddSection(old(Model()), name)
      ensures freed == old(freed)
    {
      hide WellFormed, SectionIndex, AddSection, PairsOf, SectionsLinked, SameSection, Placed, RecordsLinked;
      ghost var before := Model();
      NewSectionIsLast(before, name);
      HasTailSection();
      NewSection(name);
      forall i | 0 <= i < |before|
        ensures RecordsLinked(i) && Model()[i] == before[i]
      {
        SameSectionKept(i);
      }
      NoPairsOf();
      EmptyIsLinked(|before|);
      assert Model() == before + [Section(name, [])];
    }

    lemma EmptyIsLinked(i: nat)
      requires Shape() && i < |sections| && records[i] == [] && sections[i].dataFirst == null && sections[i].dataSize == 0
      ensures RecordsLinked(i)
    {
    }

    /** Puts a new record behind the last one of a section. */
    method LinkRecord(s: SectionNode, temp: Record, ghost i: nat)
      requires Shape() && i < |sections| && s == sections[i] && RecordsLinked(i)
      requires temp !in Repr && temp.next == null && temp.home == i && temp.place == |records[i]|
      modifies this`records, this`Repr, s`dataFirst, s`dataLast, s`dataSize
      modifies Tail(records[i])`next
      ensures records == old(records)[i := old(records[i]) + [temp]] && Repr == old(Repr) + {temp}
      ensures s.dataSize == |records[i]| && s.dataLast == temp && s.dataFirst == records[i][0]
      ensures forall k :: 0 <= k < |old(records[i])| ==> records[i][k].next == records[i][k + 1]
    {
      assert Placed(i);
      s.dataSize := s.dataSize + 1;
      if s.dataFirst == null {
        s.dataFirst := temp;
        s.dataLast := temp;
      } else {
        s.dataLast.next := temp;
        s.dataLast := temp;
      }
      records := records[i := records[i] + [temp]];
      Repr := Repr + {temp};
    }

    method NewRecord(s: SectionNode, key: string, value: string, ghost i: nat)
      requires Shape() && SectionsLinked() && i < |sections| && s == sections[i] && RecordsLinked(i)
      modifies this`records, this`Repr, s`dataFirst, s`dataLast, s`dataSize
      modifies Tail(records[i])`next
      ensures Shape() && SectionsLinked() && RecordsLinked(i) && fresh(Repr - old(Repr))
      ensures forall j :: 0 <= j < |sections| && j != i ==> SameSection(j)
      ensures PairsOf(records[i]) == old(PairsOf(records[i])) + [Pair(key, value)]
    {
      hide PairsOf, SectionsLinked, RecordsLinked;
      HasTail(i);
      var temp := new Record(key, value, i, |records[i]|);
      assert Placed(i);
      LinkRecord(s, temp, i);
      assert forall j :: 0 <= j < |records| && j != i ==> records[j] == old(records)[j];
      forall j | 0 <= j < |records| && j != i
        ensures Placed(j)
      {
        assert old(Placed(j));
      }
      assert Placed(i) by {
        assert old(Placed(i));
      }
      assert Shape();
      forall j | 0 <= j < |sections| && j != i
        ensures SameSection(j)
      {
        assert old(Placed(j)) && old(Placed(i)) && Placed(j);
      }
      SectionsStayLinked();
      NowLinked(i);
      PairsGrow(i, temp);
    }

    lemma HasTail(i: nat)
      requires Shape() && i < |sections| && RecordsLinked(i)
      ensures records[i] != [] ==> Last(records[i]).next == null
    {
    }

    twostate lemma SectionsStayLinked()
      requires old(Shape()) && Shape() && sections == old(sections) && first == old(first) && last == old(last)
      requires sectionSize == old(sectionSize)
      requires forall j :: 0 <= j < |sections| ==> sections[j].next == old(sections[j].next)
      ensures old(SectionsLinked()) ==> SectionsLinked()
    {
    }

    lemma NowLinked(i: nat)
      requires Shape() && i < |sections| && records[i] != []
      requires var s, rs := sections[i], records[i];
               s.dataSize == |rs| && s.dataLast == Last(rs) && s.dataFirst == rs[0]
      requires forall k :: 0 <= k < |records[i]| - 1 ==> records[i][k].next == records[i][k + 1]
      requires Last(records[i]).next == null
      ensures RecordsLinked(i)
    {
    }

    twostate lemma PairsGrow(i: nat, new temp: Record)
      requires i < |old(records)| && i < |records| && records[i] == old(records[i]) + [temp]
      requires forall k :: 0 <= k < |old(records[i])| ==>
                 records[i][k].key == old(records[i][k].key) && records[i][k].value == old(records[i][k].value)
      ensures PairsOf(records[i]) == old(PairsOf(records[i])) + [Pair(temp.key, temp.value)]
    {
    }

    /** The part of _append that adds a record to a section that lacks the key. */
    method AppendRecord(s: SectionNode, key: string, value: string, ghost i: nat)
      requires Valid() && i < |sections| && s == sections[i]
      requires KeyIndex(PairsOf(records[i]), key) == |records[i]|
      modifies Repr
      ensures Valid() && fresh(Repr - old(Repr)) && freed == old(freed)
      ensures Model() == PutAt(old(Model()), i, key, value)
    {
      hide WellFormed, PairsOf, SectionsLinked, RecordsLinked, SameSection, KeyIndex, PutPair;
      ghost var before := Model();
      PutAtIsUpdate(before, i, key, value);
      assert Placed(i);
      NewRecord(s, key, value, i);
      forall j | 0 <= j < |sections|
        ensures RecordsLinked(j) && Model()[j] == PutAt(before, i, key, value)[j]
      {
        if j != i {
          SameSectionKept(j);
        } else {
          PutPairAppends(before[i].pairs, key, value);
        }
      }
      assert Model() == PutAt(before, i, key, value);
    }

    twostate lemma ChainKept(i: nat)
      requires old(Shape()) && Shape() && i < |sections| && sections == old(sections) && records == old(records)
      requires sections[i].dataFirst == old(sections[i].dataFirst) && sections[i].dataLast == old(sections[i].dataLast)
      requires sections[i].dataSize == old(sections[i].dataSize)
      requires forall n :: 0 <= n < |records[i]| ==> records[i][n].next == old(records[i][n].next)
      ensures old(RecordsLinked(i)) ==> RecordsLinked(i)
    {
    }

    method WriteRecord(r: Record, key: string, value: string, ghost i: nat, ghost k: nat)
      requires Shape() && SectionsLinked() && i < |sections| && k < |records[i]| && r == records[i][k] && RecordsLinked(i)
      modifies r`key, r`value
      ensures Shape() && SectionsLinked() && r.key == key && r.value == value
      ensures forall j :: 0 <= j < |sections| && j != i ==> SameSection(j)
      ensures RecordsLinked(i)
      ensures PairsOf(records[i]) == old(PairsOf(records[i]))[k := Pair(key, value)]
    {
      hide PairsOf, SectionsLinked, RecordsLinked;
      r.key := key;
      r.value := value;
      forall j | 0 <= j < |records|
        ensures Placed(j)
      {
        assert old(Placed(j));
      }
      assert Shape();
      forall j | 0 <= j < |sections| && j != i
        ensures SameSection(j)
      {
        assert old(Placed(j)) && old(Placed(i)) && Placed(j);
      }
      assert old(Placed(i));
      SectionsStayLinked();
      ChainKept(i);
      assert PairsOf(records[i]) == old(PairsOf(records[i]))[k := Pair(key, value)];
    }

    /** The part of _append that overwrites a record. */
    method ReplaceRecord(r: Record, key: string, value: string, ghost i: nat, ghost k: nat)
      requires Valid() && i < |sections| && k < |records[i]| && r == records[i][k]
      requires k == KeyIndex(PairsOf(records[i]), key)
      modifies r`key, r`value
      ensures Valid() && Model() == PutAt(old(Model()), i, key, value)
    {
      hide WellFormed, PairsOf, KeyIndex, PutPair, RecordsLinked, SectionsLinked, SameSection;
      ghost var before := Model();
      PutAtIsUpdate(before, i, key, value);
      WriteRecord(r, key, value, i, k);
      PutPairReplaces(before[i].pairs, key, value);
      forall j | 0 <= j < |sections|
        ensures RecordsLinked(j) && Model()[j] == PutAt(before, i, key, value)[j]
      {
        if j != i {
          SameSectionKept(j);
        }
      }
      assert Model() == PutAt(before, i, key, value);
    }

    /** add_section.  On a section that exists the original writes the name it already has. */
    method AddSectionNode(name: string)
      requires Valid()
      modifies Repr
      ensures Valid() && fresh(Repr - old(Repr)) && freed == old(freed)
      ensures Model() == AddSection(old(Model()), name)
    {
      var temp := GetSection(name);
      if temp == null {
        AppendSection(name);
      }
    }

    /** _append: the self-call comes after the missing section was added, so it is the last. */
    method Append(name: string, key: string, value: string)
      requires Valid()
      modifies Repr
      ensures Valid() && fresh(Repr - old(Repr)) && freed == old(freed)
      ensures Model() == Put(old(Model()), name, key, value)
      decreases if SectionIndex(Model(), name) < |Model()| then 0 else 1
    {
      hide WellFormed, SectionIndex, KeyIndex, PairsOf, PutAt, SectionsLinked, RecordsLinked, Put, AddSection;
      ghost var before := Model();
      ghost var i := SectionIndex(before, name);
      var tmpSec := GetSection(name);
      if tmpSec != null {
        PutAtIsUpdate(before, i, key, value);
        var temp := GetRecord(tmpSec, key, i);
        if temp == null {
          AppendRecord(tmpSec, key, value, i);
        } else {
          assert Placed(i);
          ReplaceRecord(temp, key, value, i, KeyIndex(PairsOf(records[i]), key));
        }
      } else {
        PutAfterAdd(before, name, key, value);
        AddSectionNode(name);
        Append(name, key, value);
      }
    }

    /** set_value; its result is false when there was no error, and none is modelled. */
    method SetValue(name: string, key: string, value: string) returns (r: bool)
      requires Valid()
      modifies Repr
      ensures Valid() && fresh(Repr - old(Repr)) && freed == old(freed)
      ensures Model() == Put(old(Model()), name, key, value) && !r
    {
      Append(name, key, value);
      return false;
    }

    // -------------------------------------------------------------- the file

    /** The inner loop of _save over one section; comments are not modelled. */
    method SaveRecords(s: SectionNode, ghost i: nat) returns (stream: string)
      requires Valid() && i < |sections| && s == sections[i]
      ensures stream == PairsText(PairsOf(records[i]))
    {
      hide WellFormed, PairText;
      stream := "";
      ghost var pairs := PairsOf(records[i]);
      ghost var k := 0;
      var rec := s.dataFirst;
      assert RecordsLinked(i);
      assert pairs[0..] == pairs && "" + PairsText(pairs) == PairsText(pairs);
      while rec != null
        invariant 0 <= k <= |pairs| && rec == RecordAt(records[i], k)
        invariant stream + PairsText(pairs[k..]) == PairsText(pairs)
        decreases |pairs| - k
      {
        PairsTextAt(stream, pairs, k);
        stream := stream + PrintPair(rec.key, rec.value);
        rec := rec.next;
        k := k + 1;
      }
      assert pairs[k..] == [] && stream + "" == stream;
    }

    /** _save. */
    method Save() returns (stream: string)
      requires Valid()
      ensures stream == SaveText(Model())
    {
      hide WellFormed, RecordsLinked, PairsText, PairsOf, SectionText;
      stream := "";
      ghost var store := Model();
      ghost var i := 0;
      var sec := first;
      assert store[0..] == store && "" + SaveText(store) == SaveText(store);
      while sec != null
        invariant 0 <= i <= |store| && sec == NodeAt(i)
        invariant stream + SaveText(store[i..]) == SaveText(store)
        decreases |store| - i
      {
        var body := SaveRecords(sec, i);
        SaveTextAt(stream, store, i, sec.name, body);
        stream := stream + ("[" + sec.name + "]\n") + body;
        sec := sec.next;
        i := i + 1;
      }
      assert store[i..] == [] && stream + "" == stream;
    }

    /** load, from the text of the file; an opening failure is not modelled. */
    method LoadFile(text: string) returns (success: bool)
      requires Valid()
      modifies Repr
      ensures Valid() && fresh(Repr - old(Repr)) && freed == old(freed)
      ensures var r := Run(Loader(old(Model()), "", true, false), Lines(text));
              Model() == r.store && success == (r.ok && r.any)
    {
      hide WellFormed, Put, AddSection, ParseLine, Linked, PairsOf, Run, Lines, TrimLine, LineLength;
      ghost var whole := Run(Loader(Model(), "", true, false), Lines(text));
      var rest, currentSection, sthLoaded := text, "", false;
      while rest != ""
        invariant Valid() && fresh(Repr - old(Repr)) && freed == old(freed)
        invariant Run(Loader(Model(), currentSection, true, sthLoaded), Lines(rest)) == whole
        decreases |rest|
      {
        ghost var st := Loader(Model(), currentSection, true, sthLoaded);
        var n := LineLength(rest, 0);
        var buffer := TrimLine(rest[..n]);
        var line := Classify(buffer);
        RunFirst(st, rest);
        match line {
          case Header(name) =>
            currentSection := name;
            AddSectionNode(currentSection);
            sthLoaded := true;
          case Comment =>
            sthLoaded := true;
          case Blank =>
          case Entry(key, value) =>
            if currentSection == "" {
              FailureSticks(Step(st, line), Lines(rest[n..]));
              return false;
            }
            Append(currentSection, key, value);
            sthLoaded := true;
          case Bad =>
            FailureSticks(Step(st, line), Lines(rest[n..]));
            return false;
        }
        rest := rest[n..];
      }
      NoLines(Loader(Model(), currentSection, true, sthLoaded));
      return sthLoaded;
    }

    // -------------------------------------------------------------- releasing

    method RemoveAll(s: SectionNode, ghost i: nat) returns (removed: nat)
      requires Shape() && i < |sections| && s == sections[i] && RecordsLinked(i)
      modifies this`freed, s`dataFirst, s`dataSize
      ensures removed == |records[i]| && s.dataFirst == null && s.dataSize == 0
      ensures freed == old(freed) + records[i]
    {
      removed := 0;
      var tmp := s.dataFirst;
      ghost var rs := records[i];
      assert Placed(i);
      while tmp != null
        invariant removed <= |rs| && tmp == RecordAt(rs, removed) == s.dataFirst
        invariant s.dataSize == |rs| - removed && records[i] == rs && sections[i] == s
        invariant freed == old(freed) + rs[..removed]
        decreases |rs| - removed
      {
        s.dataFirst := tmp.next;
        s.dataSize := s.dataSize - 1;
        TakeOneMore(old(freed), rs, removed);
        freed := freed + [tmp];
        removed := removed + 1;
        tmp := s.dataFirst;
      }
      assert rs[..|rs|] == rs;
    }

    /** The lists are intact from section i on. */
    ghost predicate LinkedFrom(i: nat)
      requires Shape()
      reads this, Repr
    {
      forall j :: i <= j < |sections| ==> RecordsLinked(j) && sections[j].next == NodeAt(j + 1)
    }

    /** One pass of the loop of clear. */
    method ReleaseFirst(tmp: SectionNode, ghost i: nat)
      requires Shape() && i < |sections| && LinkedFrom(i) && tmp == sections[i] && sectionSize == |sections| - i
      modifies this`first, this`sectionSize, this`freed, tmp`dataFirst, tmp`dataSize
      ensures Shape() && LinkedFrom(i + 1) && first == NodeAt(i + 1) && sectionSize == |sections| - i - 1
      ensures freed == old(freed) + records[i] + [sections[i]]
    {
      hide PairsOf, WellFormed, SectionsLinked;
      first := tmp.next;
      sectionSize := sectionSize - 1;
      forall j | 0 <= j < |records|
        ensures Placed(j)
      {
        assert old(Placed(j));
      }
      assert RecordsLinked(i) by {
        assert old(RecordsLinked(i));
      }
      var removed := RemoveAll(tmp, i);
      freed := freed + [tmp];
      forall j | 0 <= j < |records|
        ensures Placed(j)
      {
        assert old(Placed(j));
      }
      assert Shape();
      forall j | i + 1 <= j < |sections|
        ensures RecordsLinked(j) && sections[j].next == NodeAt(j + 1)
      {
        assert old(RecordsLinked(j)) && old(Placed(j)) && sections[j] != tmp;
      }
    }

    lemma StartsLinked()
      requires Shape() && Linked()
      ensures LinkedFrom(0) && first == NodeAt(0) && sectionSize == |sections|
      ensures ReleaseOrder(sections[..0], records[..0]) == []
    {
    }

    /** The loop of clear. */
    method ReleaseAll()
      requires Shape() && Linked()
      modifies Repr
      ensures sections == old(sections) && records == old(records) && Repr == old(Repr)
      ensures first == null && sectionSize == 0
      ensures freed == old(freed) + ReleaseOrder(sections, records)
    {
      hide RecordsLinked, ReleaseOrder, SectionsLinked, Placed;
      StartsLinked();
      var tmp := first;
      ghost var i := 0;
      while tmp != null
        invariant 0 <= i <= |sections| && Shape() && LinkedFrom(i) && Repr == old(Repr)
        invariant sections == old(sections) && records == old(records)
        invariant tmp == NodeAt(i) == first && sectionSize == |sections| - i
        invariant freed == old(freed) + ReleaseOrder(sections[..i], records[..i])
        decreases |sections| - i
      {
        ReleaseFirst(tmp, i);
        tmp := first;
        i := i + 1;
        ReleaseOrderSnoc(old(freed), sections, records, i);
      }
      assert sections[..i] == sections && records[..i] == records;
    }

    /** clear: every record and every section is released once, in list order, and nothing is left. */
    method Clear()
      requires Valid()
      modifies Repr
      ensures Valid() && fresh(Repr - old(Repr)) && Model() == [] && sectionSize == 0 && first == null
      ensures freed == old(freed) + ReleaseOrder(old(sections), old(records))
    {
      hide WellFormed, RecordsLinked, ReleaseOrder, SectionsLinked, Placed;
      ReleaseAll();
      sections, records, Repr := [], [], {this};
      EmptyIsValid();
    }

    /** The object is a section before the i-th or one of its records. */
    ghost predicate InFirst(o: object, i: nat)
      requires i <= |sections| == |records|
      reads this
    {
      exists j :: 0 <= j < i && (o == sections[j] || o in records[j])
    }

    lemma OnceInSection(i: nat, o: object)
      requires Shape() && i < |sections|
      ensures multiset(records[i])[o] <= 1
      ensures o in records[i] ==> !InFirst(o, i) && o != sections[i]
      ensures o == sections[i] ==> !InFirst(o, i)
    {
      var rs: seq<object> := records[i];
      assert Placed(i);
      assert forall k, n :: 0 <= k < n < |rs| ==> rs[k] != rs[n] by {
        forall k, n | 0 <= k < n < |rs| ensures rs[k] != rs[n] {
          assert records[i][k].place == k && records[i][n].place == n;
        }
      }
      AtMostOnce(rs, o);
      if InFirst(o, i) {
        var j :| 0 <= j < i && (o == sections[j] || o in records[j]);
        assert Placed(j);
      }
    }

    lemma InFirstStep(o: object, i: nat)
      requires |sections| == |records| && 0 < i <= |sections|
      ensures InFirst(o, i) <==> InFirst(o, i - 1) || o == sections[i - 1] || o in records[i - 1]
    {
    }

    /** No node is released twice, and exactly the nodes of the lists are released. */
    lemma {:induction false} ReleasedOnce(i: nat, o: object)
      requires Shape() && i <= |sections|
      ensures multiset(ReleaseOrder(sections[..i], records[..i]))[o] == if InFirst(o, i) then 1 else 0
      decreases i
    {
      hide Placed, ReleaseOrder, InFirst;
      if i > 0 {
        ReleasedOnce(i - 1, o);
        OnceInSection(i - 1, o);
        InFirstStep(o, i);
        ReleaseOrderCount(sections, records, i, o);
      } else {
        NothingReleased(o);
      }
    }

    lemma NothingReleased(o: object)
      requires |sections| == |records|
      ensures !InFirst(o, 0) && ReleaseOrder(sections[..0], records[..0]) == []
    {
    }

    lemma EmptyIsValid()
      requires this in Repr && sections == [] && records == [] && first == null && sectionSize == 0
      ensures Valid() && Model() == []
    {
    }
  }

  lemma ReleaseOrderSnoc(before: seq<object>, sections: seq<SectionNode>, records: seq<seq<Record>>, i: nat)
    requires |records| == |sections| && 0 < i <= |sections|
    ensures before + ReleaseOrder(sections[..i], records[..i])
         == before + ReleaseOrder(sections[..i - 1], records[..i - 1]) + records[i - 1] + [sections[i - 1]]
  {
    assert sections[..i][..i - 1] == sections[..i - 1] && records[..i][..i - 1] == records[..i - 1];
    var order := ReleaseOrder(sections[..i - 1], records[..i - 1]);
    assert before + (order + records[i - 1] + [sections[i - 1]]) == before + order + records[i - 1] + [sections[i - 1]];
  }

  lemma ReleaseOrderCount(sections: seq<SectionNode>, records: seq<seq<Record>>, i: nat, o: object)
    requires |records| == |sections| && 0 < i <= |sections|
    ensures multiset(ReleaseOrder(sections[..i], records[..i]))[o]
         == multiset(ReleaseOrder(sections[..i - 1], records[..i - 1]))[o]
          + multiset(records[i - 1])[o] + (if o == sections[i - 1] then 1 else 0)
  {
    hide ReleaseOrder;
    var rs: seq<object> := records[i - 1];
    var last: seq<object> := [sections[i - 1]];
    ReleaseOrderSnoc([], sections, records, i);
    var before := ReleaseOrder(sections[..i - 1], records[..i - 1]);
    var all := ReleaseOrder(sections[..i], records[..i]);
    assert [] + before == before && [] + all == all;
    CountInParts(before, rs, last, o);
    CountOne(last, o);
  }

  lemma CountOne<T>(s: seq<T>, o: T)
    requires |s| == 1
    ensures multiset(s)[o] == if o == s[0] then 1 else 0
  {
    assert s == [s[0]];
  }

  lemma TakeOneMore(freed: seq<object>, rs: seq<Record>, k: nat)
    requires k < |rs|
    ensures freed + rs[..k] + [rs[k]] == freed + rs[..k + 1]
  {
    assert rs[..k] + [rs[k]] == rs[..k + 1];
  }

  lemma CountInParts<T>(a: seq<T>, b: seq<T>, c: seq<T>, o: T)
    ensures multiset(a + b + c)[o] == multiset(a)[o] + multiset(b)[o] + multiset(c)[o]
  {
  }

  function PrintPair(key: string, value: string): string {
    key + "=" + value + "\n"
  }

  lemma PairsTextAt(stream: string, pairs: seq<Pair>, k: nat)
    requires k < |pairs|
    ensures stream + PairsText(pairs[k..])
         == stream + PrintPair(pairs[k].key, pairs[k].value) + PairsText(pairs[k + 1..])
  {
    assert pairs[k..][0] == pairs[k] && pairs[k..][1..] == pairs[k + 1..];
  }

  lemma SaveTextAt(stream: string, store: Store, i: nat, name: string, body: string)
    requires i < |store| && store[i].name == name && PairsText(store[i].pairs) == body
    ensures stream + SaveText(store[i..]) == stream + ("[" + name + "]\n") + body + SaveText(store[i + 1..])
  {
    hide PairsText;
    assert store[i..][0] == store[i] && store[i..][1..] == store[i + 1..];
    var head, rest := "[" + name + "]\n", SaveText(store[i + 1..]);
    assert SaveText(store[i..]) == head + body + rest;
    assert stream + (head + body + rest) == stream + head + body + rest;
  }

  lemma RunFirst(st: Loader, text: string)
    requires text != ""
    ensures var n := LineLength(text, 0);
            Run(st, Lines(text)) == Run(Step(st, ParseLine(TrimLine(text[..n]))), Lines(text[n..]))
  {
    hide ParseLine, TrimLine, Step;
    var n := LineLength(text, 0);
    var l := ParseLine(TrimLine(text[..n]));
    assert ([l] + Lines(text[n..]))[1..] == Lines(text[n..]);
  }

  lemma NoLines(st: Loader)
    ensures Run(st, Lines("")) == st
  {
  }

  /** The switch on the first character of the buffer. */
  method Classify(buffer: string) returns (line: Line)
    ensures line == ParseLine(buffer)
  {
    if buffer == "" {
      return Blank;
    }
    match buffer[0] {
      case '[' =>
        var pdest := FindLast(buffer, ']');
        if pdest.None? {
          return Bad;
        }
        return Header(buffer[1..pdest.value]);
      case '#' =>
        return Comment;
      case ';' =>
        return Comment;
      case _ =>
        var pdest := Find(buffer, '=', 0);
        if pdest.None? {
          return Bad;
        }
        return Entry(buffer[..pdest.value], buffer[pdest.value + 1..]);
    }
  }

  lemma {:induction false} AtMostOnce<T>(s: seq<T>, o: T)
    requires forall k, n :: 0 <= k < n < |s| ==> s[k] != s[n]
    ensures multiset(s)[o] <= 1
  {
    if s != [] {
      AtMostOnce(s[1..], o);
      assert s == [s[0]] + s[1..];
    }
  }

  lemma PutAfterAdd(store: Store, name: string, key: string, value: string)
    requires WellFormed(store)
    ensures Put(AddSection(store, name), name, key, value) == Put(store, name, key, value)
    ensures SectionIndex(AddSection(store, name), name) < |AddSection(store, name)|
  {
    AddSectionIsUpdate(store, name, name, key);
  }

  /** The model with a pair put into section i. */
  function PutAt(store: Store, i: nat, key: string, value: string): Store
    requires i < |store|
  {
    store[i := Section(store[i].name, PutPair(store[i].pairs, key, value))]
  }

  lemma PutAtIsUpdate(store: Store, i: nat, key: string, value: string)
    requires WellFormed(store) && i < |store|
    ensures WellFormed(PutAt(store, i, key, value))
    ensures Put(store, store[i].name, key, value) == PutAt(store, i, key, value)
  {
    SectionIndexUnique(store, store[i].name, i);
    PutIsUpdate(store, store[i].name, key, value, "", "");
  }

  lemma PutPairReplaces(pairs: seq<Pair>, key: string, value: string)
    requires KeyIndex(pairs, key) < |pairs|
    ensures PutPair(pairs, key, value) == pairs[KeyIndex(pairs, key) := Pair(key, value)]
  {
  }

  lemma PutPairAppends(pairs: seq<Pair>, key: string, value: string)
    requires KeyIndex(pairs, key) == |pairs|
    ensures PutPair(pairs, key, value) == pairs + [Pair(key, value)]
  {
  }


  lemma NoPairsOf()
    ensures PairsOf([]) == []
  {
  }

  lemma NewSectionIsLast(store: Store, name: string)
    requires WellFormed(store) && SectionIndex(store, name) == |store|
    ensures AddSection(store, name) == store + [Section(name, [])]
    ensures WellFormed(store + [Section(name, [])])
  {
    AddSectionIsUpdate(store, name, "", "");
  }
}
