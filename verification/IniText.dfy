/**
 The text form of an INI store: how a file is cut into lines and parsed, how a store is printed, and
 exactly which stores come back from their own text.
 */
module IniText {
  import opened Options
  import opened CStrings
  import opened IniModel

  /** sizeof(buffer) is 255, so fgets stores at most 254 characters. */
  const LINE_MAX := 254

  // ---------------------------------------------------------------- parsing

  /** How many characters one fgets call takes: through the first newline, or a full buffer. */
  function LineLength(text: string, i: nat): (n: nat)
    requires i <= LINE_MAX && i <= |text|
    ensures i <= n <= |text| && n <= LINE_MAX
    ensures i < LINE_MAX && i < |text| ==> i < n
    decreases |text| - i
  {
    if i == LINE_MAX || i == |text| then i
    else if text[i] == '\n' then i + 1
    else LineLength(text, i + 1)
  }

  function DropLast(s: string, c: char): (r: string)
    ensures r <= s
  {
    if s != "" && s[|s| - 1] == c then s[..|s| - 1] else s
  }

  /** trim on the buffer fgets has filled.  On an empty line the original looks at the byte in front of
      the buffer for a carriage return; it is taken not to be one. */
  function TrimLine(raw: string): string {
    DropLast(DropLast(CString(raw), '\n'), '\r')
  }

  function ParseLine(b: string): Line {
    if b == "" then Blank
    else if b[0] == '[' then
      var p := FindLast(b, ']');
      if p.None? then Bad else Header(b[1..p.value])
    else if b[0] == '#' || b[0] == ';' then Comment
    else
      var p := Find(b, '=', 0);
      if p.None? then Bad else Entry(b[..p.value], b[p.value + 1..])
  }

  /** The parsed lines of a file. */
  function Lines(text: string): seq<Line>
    decreases |text|
  {
    if text == "" then []
    else
      var n := LineLength(text, 0);
      [ParseLine(TrimLine(text[..n]))] + Lines(text[n..])
  }

  /** The store after load, whether it failed or not. */
  function Load(text: string): Loader {
    Run(FRESH, Lines(text))
  }

  // ---------------------------------------------------------------- printing

  function PairText(p: Pair): string {
    p.key + "=" + p.value + "\n"
  }

  function PairsText(pairs: seq<Pair>): string {
    if pairs == [] then "" else PairText(pairs[0]) + PairsText(pairs[1..])
  }

  function SectionText(s: Section): string {
    "[" + s.name + "]\n" + PairsText(s.pairs)
  }

  /** What _save writes for a store without comments. */
  function SaveText(store: Store): string {
    if store == [] then "" else SectionText(store[0]) + SaveText(store[1..])
  }

  // ---------------------------------------------------------------- which stores the text form can hold

  /** One line of a file, of a C string, that fits the buffer of 255 bytes. */
  predicate OneLine(s: string) {
    |s| <= 254 && '\n' !in s && 0 as char !in s
  }

  predicate StorablePair(p: Pair) {
    && OneLine(p.key + "=" + p.value) && '=' !in p.key
    && (p.key != "" ==> p.key[0] != '[' && p.key[0] != '#' && p.key[0] != ';')
  }

  predicate StorablePairs(pairs: seq<Pair>) {
    forall i :: 0 <= i < |pairs| ==> StorablePair(pairs[i])
  }

  predicate StorableSection(s: Section) {
    OneLine("[" + s.name + "]") && StorablePairs(s.pairs) && (s.name == "" ==> s.pairs == [])
  }

  predicate Storable(store: Store) {
    forall i :: 0 <= i < |store| ==> StorableSection(store[i])
  }

  /** Without one carriage return at its end, if there is one. */
  function WithoutReturn(s: string): (r: string)
    ensures r == DropLast(s, '\r')
  {
    if s != "" && s[|s| - 1] == '\r' then s[..|s| - 1] else s
  }

  predicate NoReturnAtEnd(store: Store) {
    forall i, j :: 0 <= i < |store| && 0 <= j < |store[i].pairs| ==>
      store[i].pairs[j].value == WithoutReturn(store[i].pairs[j].value)
  }

  // ---------------------------------------------------------------- one printed line read back

  lemma {:induction false} LineLengthOfLine(line: string, rest: string, i: nat)
    requires '\n' !in line && |line| <= LINE_MAX && i <= |line|
    ensures LineLength(line + "\n" + rest, i) == if |line| < LINE_MAX then |line| + 1 else |line|
    decreases |line| - i
  {
    var text := line + "\n" + rest;
    if i < |line| {
      assert text[i] == line[i];
      LineLengthOfLine(line, rest, i + 1);
    } else {
      assert text[i] == '\n';
    }
  }

  lemma TrimOfLine(line: string)
    requires OneLine(line)
    ensures TrimLine(line + "\n") == TrimLine(line) == DropLast(line, '\r')
  {
    assert (line + "\n")[..|line|] == line;
    assert 0 as char !in line + "\n";
    assert DropLast(line + "\n", '\n') == line;
    assert line != "" ==> line[|line| - 1] in line;
    assert DropLast(line, '\n') == line;
    assert CString(line) == line && CString(line + "\n") == line + "\n";
  }

  /** A printed line is one parsed line, followed by a blank one when it fills the buffer. */
  lemma LinesOfLine(line: string, rest: string)
    requires OneLine(line)
    ensures Lines(line + "\n" + rest) ==
            [ParseLine(DropLast(line, '\r'))] + (if |line| < LINE_MAX then [] else [Blank]) + Lines(rest)
  {
    hide TrimLine, ParseLine;
    var text := line + "\n" + rest;
    var l := ParseLine(DropLast(line, '\r'));
    LineLengthOfLine(line, rest, 0);
    TrimOfLine(line);
    if |line| < LINE_MAX {
      assert text[..|line| + 1] == line + "\n" && text[|line| + 1..] == rest;
      assert Lines(text) == [l] + Lines(rest) == [l] + [] + Lines(rest);
    } else {
      assert text[..|line|] == line && text[|line|..] == "\n" + rest;
      NewlineAlone(rest);
      assert Lines(text) == [l] + ([Blank] + Lines(rest)) == [l] + [Blank] + Lines(rest);
    }
  }

  lemma NewlineAlone(rest: string)
    ensures Lines("\n" + rest) == [Blank] + Lines(rest)
  {
    var text := "\n" + rest;
    assert text[..1] == "\n" && text[1..] == rest;
    assert DropLast("", '\r') == "" && CString("\n") == "\n" && DropLast("\n", '\n') == "";
  }

  lemma RunLine(st: Loader, line: string, rest: string)
    requires OneLine(line)
    ensures Run(st, Lines(line + "\n" + rest)) == Run(Step(st, ParseLine(DropLast(line, '\r'))), Lines(rest))
  {
    hide ParseLine, Lines;
    var l := ParseLine(DropLast(line, '\r'));
    var tail := Lines(rest);
    LinesOfLine(line, rest);
    if |line| < LINE_MAX {
      assert [l] + [] + tail == [l] + tail;
      assert ([l] + tail)[1..] == tail;
    } else {
      RunConcat(st, [l, Blank], tail);
      assert [l] + [Blank] + tail == [l, Blank] + tail;
      RunTwo(st, l, Blank);
    }
  }

  lemma RunTwo(st: Loader, a: Line, b: Line)
    ensures Run(st, [a, b]) == Step(Step(st, a), b)
  {
    hide Step;
    assert [a, b][1..] == [b] && [b][1..] == [];
    assert Run(st, [a, b]) == Run(Step(st, a), [b]) == Run(Step(Step(st, a), b), []);
  }

  lemma ParseHeader(name: string)
    ensures ParseLine("[" + name + "]") == Header(name)
  {
    var b := "[" + name + "]";
    assert b[|b| - 1] == ']';
    assert b[1..|b| - 1] == name;
  }

  lemma FindFirst(b: string, c: char, i: nat, k: nat)
    requires i <= k < |b| && b[k] == c && c !in b[i..k]
    ensures Find(b, c, i) == Some(k)
    decreases k - i
  {
    if i < k {
      assert b[i] in b[i..k];
      assert b[i + 1..k] == b[i..k][1..];
      FindFirst(b, c, i + 1, k);
    }
  }

  lemma ParsePair(key: string, value: string)
    requires '=' !in key && (key != "" ==> key[0] != '[' && key[0] != '#' && key[0] != ';')
    ensures ParseLine(key + "=" + value) == Entry(key, value)
  {
    var b := key + "=" + value;
    assert b[0..|key|] == key && b[|key|] == '=';
    FindFirst(b, '=', 0, |key|);
    assert b[|key| + 1..] == value;
    assert b[0] == if key == "" then '=' else key[0];
  }

  lemma DropLastOfPair(key: string, value: string)
    ensures DropLast(key + "=" + value, '\r') == key + "=" + DropLast(value, '\r')
  {
    var b := key + "=" + value;
    if value != "" {
      assert b[|b| - 1] == value[|value| - 1];
      assert b[..|b| - 1] == key + "=" + value[..|value| - 1];
    } else {
      assert b == key + "=";
    }
  }

  // ---------------------------------------------------------------- what comes back

  /** Each value without one carriage return at its end. */
  function Chomp(p: Pair): Pair {
    Pair(p.key, WithoutReturn(p.value))
  }

  function ChompPairs(pairs: seq<Pair>): (r: seq<Pair>)
    ensures |r| == |pairs| && forall i :: 0 <= i < |r| ==> r[i] == Chomp(pairs[i])
  {
    if pairs == [] then [] else [Chomp(pairs[0])] + ChompPairs(pairs[1..])
  }

  function ChompStore(store: Store): (r: Store)
    ensures |r| == |store|
    ensures forall i :: 0 <= i < |r| ==> r[i] == Section(store[i].name, ChompPairs(store[i].pairs))
  {
    if store == [] then []
    else [Section(store[0].name, ChompPairs(store[0].pairs))] + ChompStore(store[1..])
  }

  lemma PutAtEnd(store: Store, s: Section, key: string, value: string)
    requires SectionIndex(store, s.name) == |store| && KeyIndex(s.pairs, key) == |s.pairs|
    ensures Put(store + [s], s.name, key, value) == store + [Section(s.name, s.pairs + [Pair(key, value)])]
  {
    SectionIndexSnoc(store, s, s.name);
    assert (store + [s])[|store|] == s;
  }

  /** The loader in the middle of a section: the sections before it, then the section so far. */
  function Inside(before: Store, s: Section): Loader {
    Loader(before + [s], s.name, true, true)
  }

  function Grown(s: Section, more: seq<Pair>): Section {
    Section(s.name, s.pairs + more)
  }

  predicate NoneOf(pairs: seq<Pair>, keys: seq<Pair>) {
    forall i :: 0 <= i < |keys| ==> KeyIndex(pairs, keys[i].key) == |pairs|
  }

  lemma PairReadsBack(before: Store, s: Section, p: Pair, rest: string)
    requires s.name != "" && SectionIndex(before, s.name) == |before|
    requires StorablePair(p) && NoneOf(s.pairs, [p])
    ensures Run(Inside(before, s), Lines(PairText(p) + rest)) == Run(Inside(before, Grown(s, [Chomp(p)])), Lines(rest))
  {
    hide Lines, Run, ParseLine, DropLast, Put;
    assert [p][0] == p;
    RunLine(Inside(before, s), p.key + "=" + p.value, rest);
    DropLastOfPair(p.key, p.value);
    ParsePair(p.key, DropLast(p.value, '\r'));
    PutAtEnd(before, s, p.key, DropLast(p.value, '\r'));
  }

  lemma NoneOfStep(pairs: seq<Pair>, keys: seq<Pair>)
    requires keys != [] && DistinctKeys(keys) && NoneOf(pairs, keys)
    ensures NoneOf(pairs + [Chomp(keys[0])], keys[1..]) && DistinctKeys(keys[1..])
    ensures NoneOf(pairs, [keys[0]])
  {
    forall i | 0 <= i < |keys[1..]|
      ensures KeyIndex(pairs + [Chomp(keys[0])], keys[1..][i].key) == |pairs| + 1
    {
      assert keys[1..][i] == keys[i + 1];
      KeyIndexSnoc(pairs, Chomp(keys[0]), keys[i + 1].key);
    }
  }

  lemma PairsTextFirst(pairs: seq<Pair>, rest: string)
    requires pairs != []
    ensures PairsText(pairs) + rest == PairText(pairs[0]) + (PairsText(pairs[1..]) + rest)
  {
    hide PairText;
    Regroup(PairText(pairs[0]), PairsText(pairs[1..]), rest);
  }

  lemma {:induction false} PairsReadBack(before: Store, s: Section, pairs: seq<Pair>, rest: string)
    requires s.name != "" && SectionIndex(before, s.name) == |before|
    requires StorablePairs(pairs) && DistinctKeys(pairs) && NoneOf(s.pairs, pairs)
    ensures Run(Inside(before, s), Lines(PairsText(pairs) + rest))
         == Run(Inside(before, Grown(s, ChompPairs(pairs))), Lines(rest))
    decreases |pairs|
  {
    hide *;
    if pairs == [] {
      NoPairs(s, rest);
    } else {
      PairsTextFirst(pairs, rest);
      StorableRest(pairs);
      NoneOfStep(s.pairs, pairs);
      PairReadsBack(before, s, pairs[0], PairsText(pairs[1..]) + rest);
      GrownTwice(s, pairs);
      PairsReadBack(before, Grown(s, [Chomp(pairs[0])]), pairs[1..], rest);
    }
  }

  lemma NoPairs(s: Section, rest: string)
    ensures PairsText([]) + rest == rest && Grown(s, ChompPairs([])) == s
  {
    assert s.pairs + [] == s.pairs;
    assert "" + rest == rest;
  }

  lemma StorableRest(pairs: seq<Pair>)
    requires pairs != [] && StorablePairs(pairs)
    ensures StorablePair(pairs[0]) && StorablePairs(pairs[1..])
  {
  }

  lemma GrownTwice(s: Section, pairs: seq<Pair>)
    requires pairs != []
    ensures Grown(Grown(s, [Chomp(pairs[0])]), ChompPairs(pairs[1..])) == Grown(s, ChompPairs(pairs))
    ensures Grown(s, [Chomp(pairs[0])]).name == s.name
    ensures Grown(s, [Chomp(pairs[0])]).pairs == s.pairs + [Chomp(pairs[0])]
  {
    assert s.pairs + [Chomp(pairs[0])] + ChompPairs(pairs[1..]) == s.pairs + ([Chomp(pairs[0])] + ChompPairs(pairs[1..]));
  }

  lemma HeaderReadsBack(st: Loader, name: string, rest: string)
    requires st.ok && OneLine("[" + name + "]") && SectionIndex(st.store, name) == |st.store|
    ensures Run(st, Lines("[" + name + "]\n" + rest)) ==
            Run(Loader(st.store + [Section(name, [])], name, true, true), Lines(rest))
  {
    hide Lines, Run, ParseLine;
    assert "[" + name + "]\n" + rest == "[" + name + "]" + "\n" + rest;
    RunLine(st, "[" + name + "]", rest);
    ParseHeader(name);
  }

  lemma SectionReadsBack(st: Loader, s: Section, rest: string)
    requires st.ok && StorableSection(s) && DistinctKeys(s.pairs) && SectionIndex(st.store, s.name) == |st.store|
    ensures Run(st, Lines(SectionText(s) + rest)) ==
            Run(Loader(st.store + [Section(s.name, ChompPairs(s.pairs))], s.name, true, true), Lines(rest))
  {
    hide Lines, Run, PairsText, StorablePairs;
    var more := PairsText(s.pairs) + rest;
    assert SectionText(s) + rest == "[" + s.name + "]\n" + more;
    HeaderReadsBack(st, s.name, more);
    var empty := Section(s.name, []);
    if s.pairs == [] {
      assert PairsText(s.pairs) == "" by { NoPairsText(); }
      assert more == rest;
    } else {
      PairsReadBack(st.store, empty, s.pairs, rest);
      assert [] + ChompPairs(s.pairs) == ChompPairs(s.pairs);
    }
  }

  lemma NoPairsText()
    ensures PairsText([]) == ""
  {
  }

  predicate NoneNamed(store: Store, names: Store) {
    forall i :: 0 <= i < |names| ==> SectionIndex(store, names[i].name) == |store|
  }

  lemma NoneNamedStep(store: Store, names: Store, s: Section)
    requires names != [] && WellFormed(names) && NoneNamed(store, names) && s.name == names[0].name
    ensures NoneNamed(store + [s], names[1..]) && WellFormed(names[1..])
  {
    forall i | 0 <= i < |names[1..]|
      ensures SectionIndex(store + [s], names[1..][i].name) == |store| + 1
    {
      assert names[1..][i] == names[i + 1];
      SectionIndexSnoc(store, s, names[i + 1].name);
    }
  }

  function After(st: Loader, s: Section): Loader {
    Loader(st.store + [Section(s.name, ChompPairs(s.pairs))], s.name, true, true)
  }

  /** The loader after all sections of the store came back. */
  ghost predicate CameBack(st: Loader, store: Store, r: Loader) {
    r.store == st.store + ChompStore(store) && r.ok && (r.any <==> st.any || store != [])
  }

  lemma CameBackStep(st: Loader, store: Store, r: Loader)
    requires store != [] && CameBack(After(st, store[0]), store[1..], r)
    ensures CameBack(st, store, r)
  {
    hide ChompPairs;
    var back := Section(store[0].name, ChompPairs(store[0].pairs));
    assert ChompStore(store) == [back] + ChompStore(store[1..]);
    Regroup(st.store, [back], ChompStore(store[1..]));
  }

  lemma Regroup<T>(a: seq<T>, b: seq<T>, c: seq<T>)
    ensures a + b + c == a + (b + c)
  {
  }

  lemma NothingCameBack(st: Loader)
    requires st.ok
    ensures CameBack(st, [], Run(st, Lines(SaveText([]))))
  {
    assert st.store + [] == st.store;
  }

  lemma FirstSection(st: Loader, store: Store)
    requires store != [] && Storable(store) && WellFormed(store) && NoneNamed(st.store, store) && st.ok
    ensures Run(st, Lines(SaveText(store))) == Run(After(st, store[0]), Lines(SaveText(store[1..])))
    ensures After(st, store[0]).ok && NoneNamed(After(st, store[0]).store, store[1..])
    ensures Storable(store[1..]) && WellFormed(store[1..])
  {
    hide Lines, Run, SectionText, StorableSection, SectionIndex, DistinctKeys;
    SectionReadsBack(st, store[0], SaveText(store[1..]));
    NoneNamedStep(st.store, store, Section(store[0].name, ChompPairs(store[0].pairs)));
  }

  lemma {:induction false} StoreReadsBack(st: Loader, store: Store)
    requires st.ok && Storable(store) && WellFormed(store) && NoneNamed(st.store, store)
    ensures CameBack(st, store, Run(st, Lines(SaveText(store))))
    decreases |store|
  {
    hide *;
    if store == [] {
      NothingCameBack(st);
    } else {
      FirstSection(st, store);
      StoreReadsBack(After(st, store[0]), store[1..]);
      CameBackStep(st, store, Run(st, Lines(SaveText(store))));
    }
  }

  // ---------------------------------------------------------------- what a load can produce at all

  lemma CStringHasNoNul(s: string)
    ensures 0 as char !in CString(s)
  {
  }

  lemma PrefixHasNo(a: string, b: string, c: char)
    requires a <= b && c !in b
    ensures c !in a
  {
    assert forall i :: 0 <= i < |a| ==> a[i] == b[i];
  }

  lemma {:induction false} LineHasOneNewline(text: string, i: nat)
    requires i <= LINE_MAX && i <= |text| && '\n' !in text[..i]
    ensures var n := LineLength(text, i); n > 0 ==> '\n' !in text[..n - 1]
    decreases |text| - i
  {
    if i < LINE_MAX && i < |text| {
      if text[i] != '\n' {
        assert text[..i + 1] == text[..i] + [text[i]];
        LineHasOneNewline(text, i + 1);
      }
    } else if i > 0 {
      PrefixHasNo(text[..i - 1], text[..i], '\n');
    }
  }

  lemma ChoppedHasNo(s: string, c: char)
    requires s != "" ==> c !in s[..|s| - 1]
    ensures c !in DropLast(s, c)
  {
    if s != "" {
      assert s == s[..|s| - 1] + [s[|s| - 1]];
    }
  }

  lemma TrimmedIsOneLine(text: string)
    ensures OneLine(TrimLine(text[..LineLength(text, 0)]))
  {
    hide LineLength, CString;
    var n := LineLength(text, 0);
    var c := CString(text[..n]);
    var d := DropLast(c, '\n');
    LineHasOneNewline(text, 0);
    CStringHasNoNul(text[..n]);
    if c != "" {
      PrefixHasNo(c[..|c| - 1], text[..n - 1], '\n');
    }
    ChoppedHasNo(c, '\n');
    PrefixHasNo(d, c, 0 as char);
    PrefixHasNo(DropLast(d, '\r'), d, 0 as char);
    PrefixHasNo(DropLast(d, '\r'), d, '\n');
  }

  /** What a parsed line says fits one printed line again. */
  predicate StorableLine(l: Line) {
    (l.Header? ==> OneLine("[" + l.name + "]")) && (l.Entry? ==> StorablePair(Pair(l.key, l.value)))
  }

  lemma ParsedLineIsStorable(b: string)
    requires OneLine(b)
    ensures StorableLine(ParseLine(b))
  {
    var l := ParseLine(b);
    if l.Header? {
      var p := FindLast(b, ']').value;
      assert "[" + l.name + "]" == b[..p + 1];
      PrefixHasNo(b[..p + 1], b, '\n');
      PrefixHasNo(b[..p + 1], b, 0 as char);
    } else if l.Entry? {
      var p := Find(b, '=', 0).value;
      assert b[..p] == b[0..p];
      assert l.key + "=" + l.value == b;
    }
  }

  lemma {:induction false} AllLinesStorable(text: string)
    ensures forall i :: 0 <= i < |Lines(text)| ==> StorableLine(Lines(text)[i])
    decreases |text|
  {
    if text != "" {
      hide StorableLine, ParseLine, TrimLine;
      var n := LineLength(text, 0);
      TrimmedIsOneLine(text);
      ParsedLineIsStorable(TrimLine(text[..n]));
      AllLinesStorable(text[n..]);
    }
  }

  /** What every loader state reached from a file is like. */
  predicate StorableLoader(st: Loader) {
    WellFormed(st.store) && Storable(st.store) && OneLine("[" + st.current + "]")
  }

  lemma StepKeepsStorable(st: Loader, l: Line)
    requires StorableLoader(st) && StorableLine(l)
    ensures StorableLoader(Step(st, l))
  {
    hide OneLine, StorablePair, WellFormed, Put, AddSection;
    if st.ok && l.Header? {
      AddSectionIsUpdate(st.store, l.name, "", "");
      AddSectionKeepsStorable(st.store, l.name);
    } else if st.ok && l.Entry? && st.current != "" {
      PutIsUpdate(st.store, st.current, l.key, l.value, "", "");
      PutKeepsStorable(st.store, st.current, l.key, l.value);
    }
  }

  lemma AddSectionKeepsStorable(store: Store, name: string)
    requires Storable(store) && OneLine("[" + name + "]")
    ensures Storable(AddSection(store, name))
  {
    hide OneLine, StorablePair;
  }

  lemma PutKeepsStorable(store: Store, name: string, key: string, value: string)
    requires Storable(store) && StorablePair(Pair(key, value)) && name != "" && OneLine("[" + name + "]")
    ensures Storable(Put(store, name, key, value))
  {
    hide OneLine, StorablePair;
    AddSectionKeepsStorable(store, name);
    var added := AddSection(store, name);
    var i := SectionIndex(added, name);
    if i < |added| {
      assert StorableSection(added[i]);
    }
  }

  lemma {:induction false} RunKeepsStorable(st: Loader, lines: seq<Line>)
    requires StorableLoader(st) && forall i :: 0 <= i < |lines| ==> StorableLine(lines[i])
    ensures StorableLoader(Run(st, lines))
    decreases |lines|
  {
    if lines != [] {
      hide StorableLoader, StorableLine, Step;
      StepKeepsStorable(st, lines[0]);
      RunKeepsStorable(Step(st, lines[0]), lines[1..]);
    }
  }

  /** Whatever the file, a load leaves a well-formed store of which every line fits the text form. */
  lemma LoadGivesStorable(text: string)
    ensures WellFormed(Load(text).store) && Storable(Load(text).store)
  {
    hide Lines, StorableLine, Run;
    AllLinesStorable(text);
    assert OneLine("[" + "" + "]");
    RunKeepsStorable(FRESH, Lines(text));
  }

  // ---------------------------------------------------------------- the law

  lemma {:induction false} ChompPairsSame(pairs: seq<Pair>)
    ensures ChompPairs(pairs) == pairs <==> forall i :: 0 <= i < |pairs| ==> pairs[i].value == DropLast(pairs[i].value, '\r')
  {
    hide DropLast;
    if forall i :: 0 <= i < |pairs| ==> pairs[i].value == DropLast(pairs[i].value, '\r') {
      assert forall i :: 0 <= i < |pairs| ==> ChompPairs(pairs)[i] == pairs[i];
    }
    if ChompPairs(pairs) == pairs {
      forall i | 0 <= i < |pairs| ensures pairs[i].value == DropLast(pairs[i].value, '\r') {
        assert ChompPairs(pairs)[i] == Chomp(pairs[i]);
      }
    }
  }

  lemma ChompSameExactly(store: Store)
    ensures ChompStore(store) == store <==> NoReturnAtEnd(store)
  {
    hide DropLast, ChompPairs;
    forall i | 0 <= i < |store|
      ensures ChompStore(store)[i] == store[i] <==>
              forall j :: 0 <= j < |store[i].pairs| ==> store[i].pairs[j].value == DropLast(store[i].pairs[j].value, '\r')
    {
      ChompPairsSame(store[i].pairs);
    }
    if NoReturnAtEnd(store) {
      assert forall i :: 0 <= i < |store| ==> ChompStore(store)[i] == store[i];
    }
    if ChompStore(store) == store {
      assert forall i :: 0 <= i < |store| ==> ChompStore(store)[i] == store[i];
    }
  }

  /** Loading what _save wrote rebuilds the store, every section, key and value in its place, if and
      only if every line fits the text form and no value ends in a carriage return.  Section names may
      contain ']' and values '='.  load then reports success exactly when there was anything. */
  lemma LoadUndoesSaveExactly(store: Store)
    requires WellFormed(store)
    ensures Load(SaveText(store)).store == store <==> Storable(store) && NoReturnAtEnd(store)
    ensures Storable(store) ==>
              var r := Load(SaveText(store));
              r.store == ChompStore(store) && r.ok && (r.any <==> store != [])
  {
    hide Lines, Run, SaveText, StorableSection, WellFormed, ChompStore, NoReturnAtEnd;
    LoadGivesStorable(SaveText(store));
    ChompSameExactly(store);
    if Storable(store) {
      NothingNamed(store);
      StoreReadsBack(FRESH, store);
      assert [] + ChompStore(store) == ChompStore(store);
    }
  }

  lemma NothingNamed(store: Store)
    ensures NoneNamed([], store)
  {
  }

  function PairsLength(pairs: seq<Pair>): nat {
    if pairs == [] then 0 else |pairs[0].key| + |pairs[0].value| + 2 + PairsLength(pairs[1..])
  }

  function StoreLength(store: Store): nat {
    if store == [] then 0 else |store[0].name| + 3 + PairsLength(store[0].pairs) + StoreLength(store[1..])
  }

  lemma {:induction false} PairsTextLength(pairs: seq<Pair>)
    ensures |PairsText(pairs)| == PairsLength(pairs)
  {
    if pairs != [] {
      PairsTextLength(pairs[1..]);
    }
  }

  /** The saved text holds nothing but names between brackets, keys and values around an equals sign, and one
      line end behind each of them. */
  lemma {:induction false} SavedTextIsMinimal(store: Store)
    ensures |SaveText(store)| == StoreLength(store)
  {
    if store != [] {
      PairsTextLength(store[0].pairs);
      SavedTextIsMinimal(store[1..]);
    }
  }

  // ---------------------------------------------------------------- a line between others

  /** The text is over, or ends in a line end. */
  predicate WholeLines(a: string) {
    a == "" || a[|a| - 1] == '\n'
  }

  lemma {:induction false} LineLengthInFront(a: string, b: string, i: nat)
    requires WholeLines(a) && a != "" && i <= LINE_MAX && i < |a|
    ensures LineLength(a + b, i) == LineLength(a, i)
    decreases |a| - i
  {
    if i < LINE_MAX {
      assert (a + b)[i] == a[i];
      if a[i] != '\n' {
        LineLengthInFront(a, b, i + 1);
      }
    }
  }

  /** Whole lines are parsed alike whatever follows. */
  lemma {:induction false} LinesConcat(a: string, b: string)
    requires WholeLines(a)
    ensures Lines(a + b) == Lines(a) + Lines(b)
    decreases |a|
  {
    hide LineLength, TrimLine, ParseLine;
    if a == "" {
      assert a + b == b;
      assert [] + Lines(b) == Lines(b);
    } else {
      var n := LineLength(a, 0);
      LineLengthInFront(a, b, 0);
      assert (a + b)[..n] == a[..n] && (a + b)[n..] == a[n..] + b;
      assert n < |a| ==> a[n..][|a[n..]| - 1] == a[|a| - 1];
      LinesConcat(a[n..], b);
      var l := ParseLine(TrimLine(a[..n]));
      assert [l] + (Lines(a[n..]) + Lines(b)) == [l] + Lines(a[n..]) + Lines(b);
    }
  }

  /** A line between others is one more step of the loader. */
  lemma LineBetween(a: string, line: string, b: string)
    requires WholeLines(a) && OneLine(line)
    ensures Load(a + (line + "\n" + b)) == Run(Step(Load(a), ParseLine(DropLast(line, '\r'))), Lines(b))
    ensures Load(a + b) == Run(Load(a), Lines(b))
  {
    hide Lines, ParseLine, Step;
    LinesConcat(a, line + "\n" + b);
    LinesConcat(a, b);
    RunConcat(FRESH, Lines(a), Lines(line + "\n" + b));
    RunConcat(FRESH, Lines(a), Lines(b));
    RunLine(Load(a), line, b);
  }

  /** Two loaders that differ at most in whether anything was found. */
  ghost predicate SameLoad(x: Loader, y: Loader) {
    x.store == y.store && x.current == y.current && x.ok == y.ok && (y.any ==> x.any)
  }

  lemma {:induction false} FoundMakesNoDifference(x: Loader, y: Loader, lines: seq<Line>)
    requires SameLoad(x, y)
    ensures SameLoad(Run(x, lines), Run(y, lines)) && (x.any ==> Run(x, lines).any)
    decreases |lines|
  {
    hide AddSection, Put;
    if lines != [] {
      FoundMakesNoDifference(Step(x, lines[0]), Step(y, lines[0]), lines[1..]);
    }
  }

  /** For all texts in front and behind: a line that starts with '#' or ';' leaves the store and the success
      of parsing as they are without it, and counts as something found where parsing gets there. */
  lemma CommentLineIsSkipped(a: string, c: string, b: string)
    requires WholeLines(a) && OneLine(c) && c != "" && (c[0] == '#' || c[0] == ';')
    ensures SameLoad(Load(a + (c + "\n" + b)), Load(a + b))
    ensures Load(a).ok ==> Load(a + (c + "\n" + b)).any
  {
    hide Lines;
    var u := DropLast(c, '\r');
    assert u != "" && u[0] == c[0];
    LineBetween(a, c, b);
    FoundMakesNoDifference(Step(Load(a), ParseLine(u)), Load(a), Lines(b));
  }

  /** An empty line, with or without a carriage return, changes nothing. */
  lemma BlankLineIsSkipped(a: string, c: string, b: string)
    requires WholeLines(a) && (c == "" || c == "\r")
    ensures Load(a + (c + "\n" + b)) == Load(a + b)
  {
    hide Lines;
    assert DropLast(c, '\r') == "";
    LineBetween(a, c, b);
  }

  /** A header without ']', or a line that is no comment and has no '=', as it stands before its line end. */
  predicate Faulty(c: string) {
    c != "" && if c[0] == '[' then ']' !in c else c[0] != '#' && c[0] != ';' && '=' !in c
  }

  /** Load stops at the first faulty line, with the store it has by then. */
  lemma FaultyLineStopsLoad(a: string, c: string, b: string)
    requires WholeLines(a) && OneLine(c) && Faulty(c) && c[|c| - 1] != '\r'
    ensures Load(a + (c + "\n" + b)) == Load(a).(ok := false)
  {
    hide Lines;
    assert DropLast(c, '\r') == c;
    assert c[0..] == c;
    LineBetween(a, c, b);
    FailureSticks(Load(a).(ok := false), Lines(b));
  }

  /** So it does at a pair in front of every header. */
  lemma PairWithoutSectionStopsLoad(a: string, c: string, b: string)
    requires WholeLines(a) && OneLine(c) && c != "" && c[0] != '[' && c[0] != '#' && c[0] != ';' && '=' in c
    requires Load(a).current == ""
    ensures Load(a + (c + "\n" + b)) == Load(a).(ok := false)
  {
    hide Lines;
    var u := DropLast(c, '\r');
    var k :| 0 <= k < |c| && c[k] == '=';
    assert k < |u| && u[k] == '=' && u[0] == c[0];
    assert u[0..] == u && u[k] in u;
    LineBetween(a, c, b);
    FailureSticks(Load(a).(ok := false), Lines(b));
  }

  /** A header line: the name goes to the last ']', and what follows it does not matter. */
  lemma HeaderLineIsRead(a: string, name: string, rest: string, b: string)
    requires WholeLines(a) && OneLine("[" + name + "]" + rest) && ']' !in rest && Load(a).ok
    ensures var r := Load(a);
            Load(a + ("[" + name + "]" + rest + "\n" + b))
            == Run(Loader(AddSection(r.store, name), name, true, true), Lines(b))
  {
    hide Lines, AddSection, ParseLine, DropLast;
    var c := "[" + name + "]" + rest;
    DropLastBehind("[" + name + "]", rest);
    HeaderOf(name, DropLast(rest, '\r'));
    LineBetween(a, c, b);
  }

  lemma HeaderOf(name: string, rest: string)
    requires ']' !in rest
    ensures ParseLine("[" + name + "]" + rest) == Header(name)
  {
    hide FindLast;
    var u := "[" + name + "]" + rest;
    LastOf(u, "[" + name, rest);
    assert u[1..|name| + 1] == name;
  }

  lemma DropLastBehind(front: string, rest: string)
    requires front != "" && front[|front| - 1] != '\r'
    ensures DropLast(front + rest, '\r') == front + DropLast(rest, '\r')
  {
    var t := front + rest;
    if rest != "" {
      assert t[|t| - 1] == rest[|rest| - 1] && t[..|t| - 1] == front + rest[..|rest| - 1];
    } else {
      assert t == front;
    }
  }

  lemma {:induction false} LastOf(u: string, front: string, rest: string)
    requires u == front + "]" + rest && ']' !in rest
    ensures FindLast(u, ']') == Some(|front|)
    decreases |rest|
  {
    if rest != "" {
      assert u[|u| - 1] == rest[|rest| - 1];
      LastOf(u[..|u| - 1], front, rest[..|rest| - 1]);
    }
  }

  /** A pair below a header: the key goes to the first '=', and the value loses one carriage return at its
      end. */
  lemma PairLineIsRead(a: string, key: string, value: string, b: string)
    requires WholeLines(a) && StorablePair(Pair(key, value)) && Load(a).ok && Load(a).current != ""
    ensures var r := Load(a);
            Load(a + (key + "=" + value + "\n" + b))
            == Run(Loader(Put(r.store, r.current, key, WithoutReturn(value)), r.current, true, true), Lines(b))
  {
    hide Lines, Put, ParseLine;
    DropLastOfPair(key, value);
    ParsePair(key, WithoutReturn(value));
    LineBetween(a, key + "=" + value, b);
  }
}
