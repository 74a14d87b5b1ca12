/**
 The INI store as a value: an ordered map from section names to ordered maps from keys to values, and
 what a sequence of parsed lines makes of it.
 */
module IniModel {
  import opened Options

  datatype Pair = Pair(key: string, value: string)
  datatype Section = Section(name: string, pairs: seq<Pair>)
  type Store = seq<Section>

  // ---------------------------------------------------------------- the ordered maps

  predicate DistinctKeys(pairs: seq<Pair>) {
    forall i, j :: 0 <= i < j < |pairs| ==> pairs[i].key != pairs[j].key
  }

  predicate DistinctNames(store: Store) {
    forall i, j :: 0 <= i < j < |store| ==> store[i].name != store[j].name
  }

  predicate WellFormed(store: Store) {
    DistinctNames(store) && forall i :: 0 <= i < |store| ==> DistinctKeys(store[i].pairs)
  }

  /** The position of a section, the number of sections when there is none of the name. */
  function SectionIndex(store: Store, name: string): (i: nat)
    ensures i <= |store| && (i < |store| ==> store[i].name == name)
    ensures forall j :: 0 <= j < i ==> store[j].name != name
  {
    if store == [] || store[0].name == name then 0 else 1 + SectionIndex(store[1..], name)
  }

  function KeyIndex(pairs: seq<Pair>, key: string): (i: nat)
    ensures i <= |pairs| && (i < |pairs| ==> pairs[i].key == key)
    ensures forall j :: 0 <= j < i ==> pairs[j].key != key
  {
    if pairs == [] || pairs[0].key == key then 0 else 1 + KeyIndex(pairs[1..], key)
  }

  function PutPair(pairs: seq<Pair>, key: string, value: string): seq<Pair> {
    var i := KeyIndex(pairs, key);
    if i < |pairs| then pairs[i := Pair(key, value)] else pairs + [Pair(key, value)]
  }

  function AddSection(store: Store, name: string): Store {
    if SectionIndex(store, name) < |store| then store else store + [Section(name, [])]
  }

  /** _append: the section is added when it is missing, the pair replaced or added at the end. */
  function Put(store: Store, name: string, key: string, value: string): Store {
    var added := AddSection(store, name);
    var i := SectionIndex(added, name);
    if i < |added| then added[i := Section(name, PutPair(added[i].pairs, key, value))] else added
  }

  function Lookup(store: Store, name: string, key: string): Option<string> {
    var i := SectionIndex(store, name);
    if i == |store| then None
    else
      var j := KeyIndex(store[i].pairs, key);
      if j == |store[i].pairs| then None else Some(store[i].pairs[j].value)
  }

  /** get_value cannot tell a missing value from an empty one. */
  function GetValue(store: Store, name: string, key: string): string {
    var r := Lookup(store, name, key);
    if r.None? then "" else r.value
  }

  function Names(store: Store): (r: seq<string>)
    ensures |r| == |store| && forall i :: 0 <= i < |r| ==> r[i] == store[i].name
  {
    seq(|store|, i requires 0 <= i < |store| => store[i].name)
  }

  function Keys(pairs: seq<Pair>): (r: seq<string>)
    ensures |r| == |pairs| && forall i :: 0 <= i < |r| ==> r[i] == pairs[i].key
  {
    seq(|pairs|, i requires 0 <= i < |pairs| => pairs[i].key)
  }

  function KeysOf(store: Store, name: string): seq<string> {
    var i := SectionIndex(store, name);
    if i < |store| then Keys(store[i].pairs) else []
  }

  /** A new entry goes last, an old one keeps its place. */
  function AddLast(names: seq<string>, name: string): seq<string> {
    if name in names then names else names + [name]
  }

  lemma {:induction false} SectionIndexSnoc(store: Store, s: Section, name: string)
    ensures SectionIndex(store + [s], name) ==
            if SectionIndex(store, name) < |store| then SectionIndex(store, name)
            else if s.name == name then |store| else |store| + 1
  {
    if store == [] {
      assert (store + [s])[1..] == [];
    } else {
      assert (store + [s])[1..] == store[1..] + [s];
      SectionIndexSnoc(store[1..], s, name);
    }
  }

  lemma {:induction false} KeyIndexSnoc(pairs: seq<Pair>, p: Pair, key: string)
    ensures KeyIndex(pairs + [p], key) ==
            if KeyIndex(pairs, key) < |pairs| then KeyIndex(pairs, key)
            else if p.key == key then |pairs| else |pairs| + 1
  {
    if pairs == [] {
      assert (pairs + [p])[1..] == [];
    } else {
      assert (pairs + [p])[1..] == pairs[1..] + [p];
      KeyIndexSnoc(pairs[1..], p, key);
    }
  }

  lemma SectionIndexUnique(store: Store, name: string, i: nat)
    requires i <= |store| && (i < |store| ==> store[i].name == name)
    requires forall j :: 0 <= j < i ==> store[j].name != name
    ensures SectionIndex(store, name) == i
  {
  }

  lemma KeyIndexUnique(pairs: seq<Pair>, key: string, i: nat)
    requires i <= |pairs| && (i < |pairs| ==> pairs[i].key == key)
    requires forall j :: 0 <= j < i ==> pairs[j].key != key
    ensures KeyIndex(pairs, key) == i
  {
  }

  /** The written pair reads back, every other pair of the section is unchanged, a new key goes last. */
  lemma PutPairIsUpdate(pairs: seq<Pair>, key: string, value: string, k: string)
    requires DistinctKeys(pairs)
    ensures var r := PutPair(pairs, key, value);
            && DistinctKeys(r) && Keys(r) == AddLast(Keys(pairs), key)
            && KeyIndex(r, key) < |r| && r[KeyIndex(r, key)].value == value
            && (k != key ==>
                  (KeyIndex(r, k) < |r| <==> KeyIndex(pairs, k) < |pairs|)
                  && (KeyIndex(pairs, k) < |pairs| ==>
                        KeyIndex(r, k) == KeyIndex(pairs, k) && r[KeyIndex(r, k)] == pairs[KeyIndex(pairs, k)]))
  {
    var r := PutPair(pairs, key, value);
    var i := KeyIndex(pairs, key);
    if i < |pairs| {
      assert Keys(pairs)[i] == key;
      assert Keys(r) == Keys(pairs);
      KeyIndexUnique(r, key, i);
      KeyIndexUnique(r, k, KeyIndex(pairs, k));
    } else {
      assert key !in Keys(pairs);
      assert Keys(r) == Keys(pairs) + [key];
      KeyIndexSnoc(pairs, Pair(key, value), key);
      KeyIndexSnoc(pairs, Pair(key, value), k);
    }
  }

  lemma AddSectionIsUpdate(store: Store, name: string, n: string, k: string)
    requires WellFormed(store)
    ensures var r := AddSection(store, name);
            && WellFormed(r) && Names(r) == AddLast(Names(store), name)
            && SectionIndex(r, name) < |r| && KeysOf(r, n) == KeysOf(store, n)
            && Lookup(r, n, k) == Lookup(store, n, k)
  {
    var r := AddSection(store, name);
    var i := SectionIndex(store, name);
    if i < |store| {
      assert Names(store)[i] == name;
    } else {
      assert name !in Names(store);
      assert Names(r) == Names(store) + [name];
      SectionIndexSnoc(store, Section(name, []), name);
      SectionIndexSnoc(store, Section(name, []), n);
    }
  }

  /** Put is an update of an ordered map of ordered maps: the store stays well formed, the written pair
      reads back, every other pair and every position is unchanged, what is new goes last. */
  lemma PutIsUpdate(store: Store, name: string, key: string, value: string, n: string, k: string)
    requires WellFormed(store)
    ensures var r := Put(store, name, key, value);
            && WellFormed(r) && Names(r) == AddLast(Names(store), name)
            && KeysOf(r, name) == AddLast(KeysOf(store, name), key)
            && (n != name ==> KeysOf(r, n) == KeysOf(store, n))
            && Lookup(r, name, key) == Some(value)
            && (n != name || k != key ==> Lookup(r, n, k) == Lookup(store, n, k))
  {
    var added := AddSection(store, name);
    var i := SectionIndex(added, name);
    AddSectionIsUpdate(store, name, n, k);
    AddSectionIsUpdate(store, name, name, key);
    PutPairIsUpdate(added[i].pairs, key, value, k);
    ReplaceSection(added, i, Section(name, PutPair(added[i].pairs, key, value)), n);
  }

  lemma ReplaceSection(store: Store, i: nat, s: Section, n: string)
    requires WellFormed(store) && i < |store| && s.name == store[i].name && DistinctKeys(s.pairs)
    ensures var r := store[i := s];
            && WellFormed(r) && Names(r) == Names(store) && SectionIndex(r, n) == SectionIndex(store, n)
            && SectionIndex(r, s.name) == i
  {
    var r := store[i := s];
    assert Names(r) == Names(store);
    SectionIndexUnique(r, n, SectionIndex(store, n));
    SectionIndexUnique(r, s.name, i);
  }

  // ---------------------------------------------------------------- many set_value calls

  datatype Setting = Setting(name: string, key: string, value: string)

  /** The store after a run of set_value calls. */
  function PutAll(store: Store, settings: seq<Setting>): Store
    decreases |settings|
  {
    if settings == [] then store
    else
      var last := settings[|settings| - 1];
      Put(PutAll(store, settings[..|settings| - 1]), last.name, last.key, last.value)
  }

  /** The names that call i writes. */
  predicate Writes(settings: seq<Setting>, i: nat, name: string, key: string)
    requires i < |settings|
  {
    settings[i].name == name && settings[i].key == key
  }

  /** The value of the last call that writes the pair. */
  function LastWritten(settings: seq<Setting>, name: string, key: string): Option<string>
    decreases |settings|
  {
    if settings == [] then None
    else
      var n := |settings| - 1;
      if Writes(settings, n, name, key) then Some(settings[n].value) else LastWritten(settings[..n], name, key)
  }

  ghost predicate WritesLast(settings: seq<Setting>, i: nat, name: string, key: string) {
    && i < |settings| && Writes(settings, i, name, key)
    && forall j: nat :: i < j < |settings| ==> !Writes(settings, j, name, key)
  }

  lemma {:induction false} LastWrittenIsLast(settings: seq<Setting>, name: string, key: string)
    ensures match LastWritten(settings, name, key)
            case Some(value) => exists i: nat :: WritesLast(settings, i, name, key) && settings[i].value == value
            case None => forall i: nat :: i < |settings| ==> !Writes(settings, i, name, key)
    decreases |settings|
  {
    if settings != [] {
      var n := |settings| - 1;
      if Writes(settings, n, name, key) {
        assert WritesLast(settings, n, name, key);
      } else {
        var front := settings[..n];
        LastWrittenIsLast(front, name, key);
        assert forall i: nat :: i < n ==> (Writes(front, i, name, key) <==> Writes(settings, i, name, key));
        if LastWritten(front, name, key).Some? {
          var i: nat :| WritesLast(front, i, name, key) && front[i].value == LastWritten(front, name, key).value;
          assert WritesLast(settings, i, name, key);
        }
      }
    }
  }

  lemma {:induction false} PutAllIsUpdate(store: Store, settings: seq<Setting>, name: string, key: string)
    requires WellFormed(store)
    ensures var r := PutAll(store, settings);
            && WellFormed(r) && Names(store) <= Names(r) && KeysOf(store, name) <= KeysOf(r, name)
            && Lookup(r, name, key) ==
               (var written := LastWritten(settings, name, key); if written.Some? then written else Lookup(store, name, key))
    decreases |settings|
  {
    hide WellFormed, Names, KeysOf, Lookup, Put;
    if settings != [] {
      var front, last := settings[..|settings| - 1], settings[|settings| - 1];
      PutAllIsUpdate(store, front, name, key);
      PutIsUpdate(PutAll(store, front), last.name, last.key, last.value, name, key);
    }
  }

  /** After any run of set_value calls: a pair holds the value of the last call that wrote it, the old
      value when there is none; sections and keys that were there keep their order, new ones follow. */
  lemma SettingsKeepLastValues(store: Store, settings: seq<Setting>, name: string, key: string)
    requires WellFormed(store)
    ensures var r := PutAll(store, settings);
            && WellFormed(r) && Names(store) <= Names(r) && KeysOf(store, name) <= KeysOf(r, name)
            && if exists i: nat :: i < |settings| && Writes(settings, i, name, key)
               then exists i: nat :: WritesLast(settings, i, name, key) && Lookup(r, name, key) == Some(settings[i].value)
               else Lookup(r, name, key) == Lookup(store, name, key)
  {
    hide WellFormed, Names, KeysOf, Lookup, PutAll, LastWritten, Writes;
    PutAllIsUpdate(store, settings, name, key);
    LastWrittenIsLast(settings, name, key);
  }

  // ---------------------------------------------------------------- parsed lines

  datatype Line =
    | Blank
    | Comment
    | Header(name: string)
    | Entry(key: string, value: string)
    | Bad

  /** The variables of load: the store, the current section, whether parsing goes on, and whether
      anything was found. */
  datatype Loader = Loader(store: Store, current: string, ok: bool, any: bool)

  const FRESH := Loader([], "", true, false)

  function Step(st: Loader, line: Line): Loader {
    if !st.ok then st
    else match line
      case Blank => st
      case Comment => st.(any := true)
      case Header(name) => st.(store := AddSection(st.store, name), current := name, any := true)
      case Entry(key, value) =>
        if st.current == "" then st.(ok := false)
        else st.(store := Put(st.store, st.current, key, value), any := true)
      case Bad => st.(ok := false)
  }

  function Run(st: Loader, lines: seq<Line>): Loader
    decreases |lines|
  {
    if lines == [] then st else Run(Step(st, lines[0]), lines[1..])
  }

  lemma {:induction false} RunConcat(st: Loader, a: seq<Line>, b: seq<Line>)
    ensures Run(st, a + b) == Run(Run(st, a), b)
    decreases |a|
  {
    if a == [] {
      assert a + b == b;
    } else {
      assert (a + b)[1..] == a[1..] + b;
      RunConcat(Step(st, a[0]), a[1..], b);
    }
  }

  lemma RunSnoc(st: Loader, lines: seq<Line>, line: Line)
    ensures Run(st, lines + [line]) == Step(Run(st, lines), line)
  {
    RunConcat(st, lines, [line]);
    assert [line][1..] == [];
  }

  // ---------------------------------------------------------------- what repeated headers and keys mean

  /** The section that line i belongs to: the nearest header above it. */
  function HeaderAbove(lines: seq<Line>, i: nat): string
    requires i <= |lines|
  {
    if i == 0 then ""
    else if lines[i - 1].Header? then lines[i - 1].name
    else HeaderAbove(lines, i - 1)
  }

  predicate Sets(lines: seq<Line>, i: nat, name: string, key: string)
    requires i < |lines|
  {
    lines[i].Entry? && lines[i].key == key && HeaderAbove(lines, i) == name
  }

  /** Line i is the last that sets the key in the section. */
  ghost predicate SetsLast(lines: seq<Line>, i: nat, name: string, key: string) {
    i < |lines| && Sets(lines, i, name, key) && forall j: nat :: i < j < |lines| ==> !Sets(lines, j, name, key)
  }

  /** The names of the headers in the order of their first occurrence. */
  function HeaderNames(lines: seq<Line>): seq<string> {
    if lines == [] then []
    else
      var front := HeaderNames(lines[..|lines| - 1]);
      var last := lines[|lines| - 1];
      if last.Header? then AddLast(front, last.name) else front
  }

  /** The keys set in a section in the order of their first occurrence. */
  function EntryKeys(lines: seq<Line>, name: string): seq<string> {
    if lines == [] then []
    else
      var front := EntryKeys(lines[..|lines| - 1], name);
      var n := |lines| - 1;
      if lines[n].Entry? && HeaderAbove(lines, n) == name then AddLast(front, lines[n].key) else front
  }

  lemma {:induction false} HeaderAbovePrefix(lines: seq<Line>, n: nat, i: nat)
    requires i <= n <= |lines|
    ensures HeaderAbove(lines[..n], i) == HeaderAbove(lines, i)
  {
    if i > 0 {
      HeaderAbovePrefix(lines, n, i - 1);
    }
  }

  /** The value of the last line that sets the key in the section. */
  function LastSet(lines: seq<Line>, name: string, key: string): Option<string> {
    if lines == [] then None
    else
      var n := |lines| - 1;
      if Sets(lines, n, name, key) then Some(lines[n].value) else LastSet(lines[..n], name, key)
  }

  lemma {:induction false} LastSetIsLast(lines: seq<Line>, name: string, key: string)
    ensures forall i: nat :: SetsLast(lines, i, name, key) ==> LastSet(lines, name, key) == Some(lines[i].value)
    ensures (forall i: nat :: i < |lines| ==> !Sets(lines, i, name, key)) ==> LastSet(lines, name, key) == None
    decreases |lines|
  {
    if lines != [] {
      var n := |lines| - 1;
      var front := lines[..n];
      LastSetIsLast(front, name, key);
      SetsPrefix(lines, name, key);
      if !Sets(lines, n, name, key) {
        forall i: nat | SetsLast(lines, i, name, key)
          ensures SetsLast(front, i, name, key)
        {
        }
      }
    }
  }

  /** What the store is like after a run of lines: each pair holds the last value set, sections and
      keys stand in the order of their first occurrence. */
  ghost predicate Reflects(st: Loader, lines: seq<Line>, name: string, key: string) {
    && WellFormed(st.store)
    && st.current == HeaderAbove(lines, |lines|)
    && (st.current == "" || st.current in Names(st.store))
    && Names(st.store) == HeaderNames(lines)
    && KeysOf(st.store, name) == EntryKeys(lines, name)
    && Lookup(st.store, name, key) == LastSet(lines, name, key)
  }

  lemma {:induction false} FailureSticks(st: Loader, lines: seq<Line>)
    requires !st.ok
    ensures Run(st, lines) == st
    decreases |lines|
  {
    if lines != [] {
      FailureSticks(st, lines[1..]);
    }
  }

  lemma {:induction false} LoadedStoreReflectsLines(lines: seq<Line>, name: string, key: string)
    requires Run(FRESH, lines).ok
    ensures Reflects(Run(FRESH, lines), lines, name, key)
    decreases |lines|
  {
    if lines != [] {
      hide Reflects, Step;
      var n := |lines| - 1;
      var front := lines[..n];
      assert lines == front + [lines[n]];
      RunSnoc(FRESH, front, lines[n]);
      FailureStays(Run(FRESH, front), lines[n]);
      LoadedStoreReflectsLines(front, name, key);
      ReflectsStep(lines, name, key, Run(FRESH, front));
    }
  }

  lemma FailureStays(st: Loader, line: Line)
    ensures Step(st, line).ok ==> st.ok
  {
  }

  lemma SetsPrefix(lines: seq<Line>, name: string, key: string)
    requires lines != []
    ensures var front := lines[..|lines| - 1];
            forall i: nat :: i < |front| ==> (Sets(front, i, name, key) <==> Sets(lines, i, name, key))
  {
    var n := |lines| - 1;
    forall i: nat | i <= n ensures HeaderAbove(lines[..n], i) == HeaderAbove(lines, i) {
      HeaderAbovePrefix(lines, n, i);
    }
  }

  lemma ReflectsStep(lines: seq<Line>, name: string, key: string, st: Loader)
    requires lines != [] && st.ok && Reflects(st, lines[..|lines| - 1], name, key)
    requires Step(st, lines[|lines| - 1]).ok
    ensures Reflects(Step(st, lines[|lines| - 1]), lines, name, key)
  {
    hide WellFormed, Lookup, KeysOf, AddSection, Put, Names, AddLast;
    var n := |lines| - 1;
    var line := lines[n];
    HeaderAbovePrefix(lines, n, n);
    if line.Header? {
      AddSectionIsUpdate(st.store, line.name, name, key);
      HeaderIsListed(st.store, line.name);
    } else if line.Entry? {
      PutIsUpdate(st.store, st.current, line.key, line.value, name, key);
      ListedStays(Names(st.store), st.current);
    }
  }

  lemma ListedStays(names: seq<string>, name: string)
    ensures name in names ==> AddLast(names, name) == names
  {
  }

  lemma HeaderIsListed(store: Store, name: string)
    ensures name in Names(AddSection(store, name))
  {
    var r := AddSection(store, name);
    var i := SectionIndex(store, name);
    assert Names(r)[i] == name;
  }

  /** After a load that succeeds, get_value returns the value of the last line that sets the key in the
      section, the empty string when there is none; sections and keys keep first-occurrence order. */
  lemma LoadKeepsLastValues(lines: seq<Line>, name: string, key: string)
    requires Run(FRESH, lines).ok
    ensures var store := Run(FRESH, lines).store;
            && (forall i: nat :: SetsLast(lines, i, name, key) ==> GetValue(store, name, key) == lines[i].value)
            && ((forall i: nat :: i < |lines| ==> !Sets(lines, i, name, key)) ==> GetValue(store, name, key) == "")
            && Names(store) == HeaderNames(lines) && KeysOf(store, name) == EntryKeys(lines, name)
  {
    hide Lookup, KeysOf, Names, Run, LastSet;
    LoadedStoreReflectsLines(lines, name, key);
    LastSetIsLast(lines, name, key);
  }
}
