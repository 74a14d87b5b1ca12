/**
 What parsing can make of a text, by a count of its characters: a quote, a bracket and the letter c weigh
 one, a backslash two, everything else nothing.  The printed text of a value weighs as much as the value;
 parsing never adds weight, and an escape or an overwritten key loses some.  So a text from which a value
 of its own weight came back held no escape.
 */
module JsonWeights {
  import opened Options
  import opened CStrings
  import opened JsonText
  import opened JsonBrackets
  import opened JsonValue
  import opened JsonWriter
  import opened JsonReader

  // ---------------------------------------------------------------- weights of texts

  function CharWeight(c: char): nat {
    if c == '\\' then 2
    else if c == '"' || c == 'c' || c == 'C' || c == '[' || c == ']' || c == '{' || c == '}' then 1
    else 0
  }

  function Weight(t: string): nat {
    if t == "" then 0 else CharWeight(t[0]) + Weight(t[1..])
  }

  lemma {:induction false} WeightConcat(a: string, b: string)
    ensures Weight(a + b) == Weight(a) + Weight(b)
    decreases |a|
  {
    hide CharWeight;
    if a == "" {
      assert a + b == b;
    } else {
      assert (a + b)[1..] == a[1..] + b;
      WeightConcat(a[1..], b);
    }
  }

  lemma WeightSplit(t: string, i: nat)
    requires i <= |t|
    ensures Weight(t) == Weight(t[..i]) + Weight(t[i..])
  {
    hide Weight;
    assert t == t[..i] + t[i..];
    WeightConcat(t[..i], t[i..]);
  }

  lemma WeightOfChar(c: char)
    ensures Weight([c]) == CharWeight(c) && Weight("") == 0
  {
    assert [c][1..] == "";
  }

  lemma {:induction false} WeightlessText(t: string)
    requires forall i :: 0 <= i < |t| ==> CharWeight(t[i]) == 0
    ensures Weight(t) == 0
  {
    if t != "" {
      WeightlessText(t[1..]);
    }
  }

  /** White space weighs nothing. */
  lemma WeightOfTrim(t: string)
    ensures Weight(Trim(t)) == Weight(t) && Weight(TrimBack(t)) == Weight(t)
  {
    WeightOfTrimFront(t);
    WeightOfTrimBack(t);
    WeightOfTrimBack(TrimFront(t));
  }

  lemma SpaceIsWeightless(c: char)
    requires IsSpace(c)
    ensures CharWeight(c) == 0
  {
  }

  lemma {:induction false} WeightOfTrimFront(t: string)
    ensures Weight(TrimFront(t)) == Weight(t)
  {
    hide CharWeight, IsSpace;
    if t != "" && IsSpace(t[0]) {
      SpaceIsWeightless(t[0]);
      WeightOfTrimFront(t[1..]);
    }
  }

  lemma {:induction false} WeightOfTrimBack(t: string)
    ensures Weight(TrimBack(t)) == Weight(t)
  {
    hide CharWeight, IsSpace, Weight;
    if t != "" && IsSpace(t[|t| - 1]) {
      SpaceIsWeightless(t[|t| - 1]);
      var front := t[..|t| - 1];
      WeightOfTrimBack(front);
      assert t == front + [t[|t| - 1]];
      WeightConcat(front, [t[|t| - 1]]);
      WeightOfChar(t[|t| - 1]);
    }
  }

  // ---------------------------------------------------------------- escapes lose weight

  /** Only the digits 5c stand for a backslash, and c weighs something. */
  lemma HexBackslash(t: string)
    requires |t| <= 2 && ByteChar(HexNumber(t)) == '\\'
    ensures |t| == 2 && (t[1] == 'c' || t[1] == 'C')
  {
    hide HexValue, TrimFront;
    var u := TrimFront(t);
    assert HexNumber(t) == 92;
    assert |u| == 2 && u == t;
    assert HexValue(u[1]) == 12;
    TwelveIsC(u[1]);
  }

  lemma TwelveIsC(c: char)
    requires IsHex(c) && HexValue(c) == 12
    ensures c == 'c' || c == 'C'
  {
  }

  lemma PieceOfHexWeighs(t: string)
    requires |t| <= 2
    ensures Weight([ByteChar(HexNumber(t))]) < 2 + Weight(t)
  {
    hide HexNumber, ByteChar, Weight;
    var c := ByteChar(HexNumber(t));
    WeightOfChar(c);
    if c == '\\' {
      HexBackslash(t);
      WeightSplit(t, 1);
      assert t[1..] == [t[1]];
      WeightOfChar(t[1]);
    }
  }

  /** What stands at position i of a text and what it stands for: an escape loses weight. */
  lemma PieceWeighs(s: string, i: nat)
    requires i < |s| && EscapeAt(s, i).Some?
    ensures var (piece, next) := EscapeAt(s, i).value;
            Weight(piece) <= Weight(s[i..Min(next, |s|)])
            && (s[i] == '\\' && i + 1 < |s| ==> Weight(piece) < Weight(s[i..Min(next, |s|)]))
  {
    hide Weight, HexNumber, ByteChar;
    var (piece, next) := EscapeAt(s, i).value;
    var raw := s[i..Min(next, |s|)];
    WeightSplit(raw, 1);
    assert raw[..1] == [s[i]];
    WeightOfChar(s[i]);
    if s[i] == '\\' && i + 1 < |s| {
      if s[i + 1] == 'u' {
        var hex := s[i + 4..Min(i + 6, |s|)];
        assert raw[1..] == s[i + 1..i + 4] + hex;
        WeightConcat(s[i + 1..i + 4], hex);
        PieceOfHexWeighs(hex);
      } else {
        ShortEscapeWeighs(s[i + 1]);
        assert raw[1..] == [s[i + 1]];
        WeightOfChar(s[i + 1]);
      }
    } else {
      assert raw == [s[i]];
    }
  }

  lemma ShortEscapeWeighs(c: char)
    ensures Weight(ShortEscape(c)) < 2 + CharWeight(c)
  {
    hide Weight;
    var r := ShortEscape(c);
    if r == "" {
      WeightOfChar(c);
    } else {
      WeightOfChar(r[0]);
      assert r == [r[0]];
    }
  }

  /** The pieces of a text, put together: next is where the piece at i ends. */
  lemma UnescapeStep(s: string, i: nat)
    requires i < |s| && UnescapeFrom(s, i).Some?
    ensures EscapeAt(s, i).Some?
    ensures var (piece, next) := EscapeAt(s, i).value;
            && UnescapeFrom(s, next).Some? && UnescapeFrom(s, i).value == piece + UnescapeFrom(s, next).value
            && Weight(s[i..]) == Weight(s[i..Min(next, |s|)]) + Weight(s[Min(next, |s|)..])
  {
    hide Weight, EscapeAt;
    var (piece, next) := EscapeAt(s, i).value;
    var j := Min(next, |s|);
    WeightSplit(s[i..], j - i);
    assert s[i..][..j - i] == s[i..j] && s[i..][j - i..] == s[j..];
  }

  lemma {:induction false} UnescapeWeighs(s: string, i: nat)
    requires UnescapeFrom(s, i).Some?
    ensures Weight(UnescapeFrom(s, i).value) <= Weight(s[Min(i, |s|)..])
    ensures i + 1 < |s| && s[i] == '\\' ==> Weight(UnescapeFrom(s, i).value) < Weight(s[i..])
    decreases |s| - Min(i, |s|)
  {
    hide Weight, EscapeAt;
    if i >= |s| {
      assert UnescapeFrom(s, i).value == "" == s[|s|..];
    } else {
      UnescapeStep(s, i);
      PieceWeighs(s, i);
      var (piece, next) := EscapeAt(s, i).value;
      WeightConcat(piece, UnescapeFrom(s, next).value);
      UnescapeWeighs(s, next);
    }
  }

  /** An escape anywhere loses weight. */
  lemma {:induction false} UnescapeLoses(s: string, i: nat, k: nat)
    requires i <= k && k + 1 < |s| && s[k] == '\\' && (forall j :: i <= j < k ==> s[j] != '\\')
    requires UnescapeFrom(s, i).Some?
    ensures Weight(UnescapeFrom(s, i).value) < Weight(s[i..])
    decreases k - i
  {
    hide Weight, UnescapeFrom, EscapeAt;
    if i == k {
      UnescapeWeighs(s, i);
    } else {
      PlainCharacterStands(s, i);
      UnescapeLoses(s, i + 1, k);
      WeightSplit(s[i..], 1);
      assert s[i..][..1] == [s[i]] && s[i..][1..] == s[i + 1..];
      WeightConcat([s[i]], UnescapeFrom(s, i + 1).value);
    }
  }

  /** Decoding never adds weight, and keeps it only when there is no escape. */
  lemma DecodedWeighs(s: string)
    requires Unescape(s).Some?
    ensures Weight(Unescape(s).value) <= Weight(s)
    ensures Weight(Unescape(s).value) == Weight(s) ==> Verbatim(s)
  {
    hide Weight, UnescapeFrom, Trim;
    var u := UnescapeFrom(s, 0).value;
    WeightOfTrim(u);
    UnescapeWeighs(s, 0);
    assert s[0..] == s;
    if !Verbatim(s) {
      var k := FirstBackslash(s, 0);
      UnescapeLoses(s, 0, k);
    }
  }

  // ---------------------------------------------------------------- weights of values

  function Need(v: Value): nat
    decreases v, 1
  {
    match v
    case Str(s) => 2 + Weight(s)
    case Arr(items) => 2 + NeedItems(items)
    case Obj(fields) => 2 + NeedMembers(fields)
    case _ => 0
  }

  function NeedItems(items: seq<Value>): nat
    decreases items, 0
  {
    if items == [] then 0 else Need(items[0]) + NeedItems(items[1..])
  }

  function NeedMembers(fields: seq<Member>): nat
    decreases fields, 0
  {
    if fields == [] then 0
    else 2 + Weight(fields[0].key) + Need(fields[0].value) + NeedMembers(fields[1..])
  }

  lemma {:induction false} NeedItemsConcat(a: seq<Value>, b: seq<Value>)
    ensures NeedItems(a + b) == NeedItems(a) + NeedItems(b)
    decreases |a|
  {
    hide Need;
    if a == [] {
      assert a + b == b;
    } else {
      assert (a + b)[1..] == a[1..] + b;
      NeedItemsConcat(a[1..], b);
    }
  }

  lemma {:induction false} NeedMembersConcat(a: seq<Member>, b: seq<Member>)
    ensures NeedMembers(a + b) == NeedMembers(a) + NeedMembers(b)
    decreases |a|
  {
    hide Need, Weight;
    if a == [] {
      assert a + b == b;
    } else {
      assert (a + b)[1..] == a[1..] + b;
      NeedMembersConcat(a[1..], b);
    }
  }

  lemma NeedOfOne(v: Value, m: Member)
    ensures NeedItems([v]) == Need(v)
    ensures NeedMembers([m]) == 2 + Weight(m.key) + Need(m.value)
  {
    hide Need, Weight;
    assert [v][1..] == [] && [m][1..] == [];
  }

  lemma {:induction false} InsertWeighs(fields: seq<Member>, key: string, value: Value)
    ensures NeedMembers(Insert(fields, key, value)) <= NeedMembers(fields) + 2 + Weight(key) + Need(value)
    ensures (exists i :: 0 <= i < |fields| && fields[i].key == key) && Sorted(fields) ==>
              NeedMembers(Insert(fields, key, value)) < NeedMembers(fields) + 2 + Weight(key) + Need(value)
    decreases |fields|
  {
    hide Need, Weight, Less;
    var m := Member(key, value);
    NeedOfOne(value, m);
    if fields == [] {
    } else if fields[0].key == key {
      NeedMembersConcat([m], fields[1..]);
    } else if Less(key, fields[0].key) {
      NeedMembersConcat([m], fields);
      if (exists i :: 0 <= i < |fields| && fields[i].key == key) && Sorted(fields) {
        var i :| 0 <= i < |fields| && fields[i].key == key;
        NotBeforeTheFirst(fields, i);
      }
    } else {
      var rest := fields[1..];
      InsertWeighs(rest, key, value);
      NeedMembersConcat([fields[0]], Insert(rest, key, value));
      NeedOfOne(fields[0].value, fields[0]);
      if (exists i :: 0 <= i < |fields| && fields[i].key == key) && Sorted(fields) {
        var i :| 0 <= i < |fields| && fields[i].key == key;
        assert rest[i - 1].key == key;
      }
    }
  }

  lemma NotBeforeTheFirst(fields: seq<Member>, i: nat)
    requires Sorted(fields) && i < |fields|
    ensures !Less(fields[i].key, fields[0].key)
  {
    LessIsStrict(fields[0].key, fields[i].key);
  }

  // ---------------------------------------------------------------- a printed value weighs what it needs

  lemma {:induction false} NeedIsWeight(v: Value)
    requires DoubleFree(v)
    ensures Weight(ValueText(v)) == Need(v)
    decreases v, 2
  {
    hide Weight;
    match v {
      case Str(s) => WeightBetween("\"", s, "\"");
      case Arr(items) =>
        ItemsWeight(items);
        WeightBetween("[", ItemsText(items), "]");
      case Obj(fields) =>
        MembersWeight(fields);
        WeightBetween("{", MembersText(fields), "}");
      case _ => ScalarIsWeightless(v);
    }
  }

  lemma WeightBetween(open: string, t: string, close: string)
    ensures Weight(open + t + close) == Weight(open) + Weight(t) + Weight(close)
    ensures Weight("\"") == Weight("[") == Weight("]") == Weight("{") == Weight("}") == 1 && Weight(",") == Weight(":") == 0
  {
    hide Weight;
    WeightConcat(open + t, close);
    WeightConcat(open, t);
    WeightOfChar('"');
    WeightOfChar('[');
    WeightOfChar(']');
    WeightOfChar('{');
    WeightOfChar('}');
    WeightOfChar(',');
    WeightOfChar(':');
  }

  lemma ScalarIsWeightless(v: Value)
    requires v.Null? || v.Bool? || v.Int?
    ensures Weight(ValueText(v)) == 0
  {
    var t := ValueText(v);
    if v.Int? {
      assert forall i :: 0 <= i < |t| ==> t[i] == '-' || IsDigit(t[i]);
    }
    WeightlessText(t);
  }

  lemma {:induction false} ItemsWeight(items: seq<Value>)
    requires forall i :: 0 <= i < |items| ==> DoubleFree(items[i])
    ensures Weight(ItemsText(items)) == NeedItems(items)
    decreases items, 1
  {
    hide Weight, Need, ValueText, DoubleFree;
    if items == [] {
      WeightOfChar(',');
    } else {
      NeedIsWeight(items[0]);
      ItemsWeight(items[1..]);
      if |items| > 1 {
        WeightBetween(ValueText(items[0]), ",", ItemsText(items[1..]));
      }
    }
  }

  lemma PairWeight(key: string, t: string)
    ensures Weight("\"" + key + "\":" + t) == 2 + Weight(key) + Weight(t)
  {
    hide Weight;
    assert "\"" + key + "\":" + t == "\"" + key + "\"" + (":" + t);
    WeightBetween("\"", key, "\"");
    WeightConcat("\"" + key + "\"", ":" + t);
    WeightConcat(":", t);
  }

  lemma MemberWeight(m: Member)
    requires DoubleFree(m.value)
    ensures Weight(MemberText(m)) == 2 + Weight(m.key) + Weight(ValueText(m.value))
  {
    hide Weight, ValueText;
    PairWeight(m.key, ValueText(m.value));
  }

  lemma {:induction false} MembersWeight(fields: seq<Member>)
    requires forall i :: 0 <= i < |fields| ==> DoubleFree(fields[i].value)
    ensures Weight(MembersText(fields)) == NeedMembers(fields)
    decreases fields, 1
  {
    hide Weight, Need, ValueText, MemberText, DoubleFree;
    if fields == [] {
      WeightOfChar(',');
    } else {
      NeedIsWeight(fields[0].value);
      MemberWeight(fields[0]);
      MembersWeight(fields[1..]);
      if |fields| > 1 {
        WeightBetween(MemberText(fields[0]), ",", MembersText(fields[1..]));
      }
    }
  }

  // ---------------------------------------------------------------- parsing never adds weight

  /** A value and what is left of the text weigh no more than the text. */
  ghost predicate Conserves(text: string, r: Outcome) {
    r.Done? && !r.failed ==> Need(r.value) + Weight(r.rest) <= Weight(text)
  }

  lemma ScalarConserves(str: string, stack: Stack)
    ensures Conserves(str, ReadScalar(str, stack))
    ensures var r := ReadScalar(str, stack); r.Done? && !r.failed ==> Need(r.value) == 0
  {
    hide Weight, Lex, ScalarValue;
    var (i, s) := Lex(str, 0, Lexeme("", false, false, false, stack, false));
    WeightSplit(str, i);
    ScalarNeedsNothing(s);
  }

  lemma ScalarNeedsNothing(s: Lexeme)
    ensures ScalarValue(s).Some? ==> Need(ScalarValue(s).value) == 0
  {
    hide SameIgnoringCase, DecimalFloat, LongValue, CString;
  }

  /** The parts of a text that starts with a quotation. */
  lemma QuotationParts(str: string, end: nat)
    requires 1 <= end < |str| && str[0] == '"' && str[end] == '"'
    ensures Weight(str) == 2 + Weight(str[1..end]) + Weight(str[end + 1..])
  {
    hide Weight;
    var head := "\"" + str[1..end] + "\"";
    assert str[..end + 1] == head by { TakenApart(str[..end + 1]); }
    assert str == str[..end + 1] + str[end + 1..];
    WeightConcat(head, str[end + 1..]);
    WeightBetween("\"", str[1..end], "\"");
  }

  /** A string keeps the weight of its text only when there was no escape in it. */
  lemma QuotedConserves(str: string, stack: Stack)
    requires str != "" && str[0] == '"'
    ensures Conserves(str, ReadQuoted(str, stack))
    ensures var r, end := ReadQuoted(str, stack), QuotePos(str, 1, false);
            r.Done? && !r.failed ==>
              && end.Some? && r.value.Str? && Some(r.value.s) == Unescape(str[1..end.value]) && r.rest == str[end.value + 1..]
              && (Need(r.value) + Weight(r.rest) == Weight(str) ==> Verbatim(str[1..end.value]))
  {
    hide Weight, QuotePos, Unescape, Verbatim;
    var end := QuotePos(str, 1, false);
    if end.Some? && Unescape(str[1..end.value]).Some? {
      QuotationParts(str, end.value);
      DecodedWeighs(str[1..end.value]);
    }
  }

  /** Text that is consumed and text that is left, around one character. */
  lemma CutWeighs(str: string, i: nat)
    requires i <= |str|
    ensures Weight(str[..i]) + Weight(str[Min(i + 1, |str|)..]) <= Weight(str)
  {
    hide Weight;
    WeightSplit(str, i);
    if i < |str| {
      WeightSplit(str[i..], 1);
      assert str[i..][1..] == str[i + 1..];
    } else {
      assert str[i..] == "" == str[Min(i + 1, |str|)..];
    }
  }

  lemma {:induction false} ValueConserves(text: string, stack: Stack)
    ensures Conserves(text, ReadValue(text, stack))
    decreases |text|, 3
  {
    hide ReadValue, ReadNested, ReadQuoted, ReadScalar, Trim, Weight, Need;
    var str := Trim(text);
    WeightOfTrim(text);
    ValueBranches(text, stack);
    if str == "" {
      NullNeedsNothing();
    } else if str[0] == '[' {
      NestedConserves(str, stack, InArray);
    } else if str[0] == '{' {
      NestedConserves(str, stack, InObject);
    } else if str[0] == '"' {
      QuotedConserves(str, stack);
    } else {
      ScalarConserves(str, stack);
    }
  }

  lemma NullNeedsNothing()
    ensures Need(Null) == 0 && Weight("") == 0
  {
  }

  /** A nested value weighs no more than the text up to the end that the scan found. */
  lemma {:induction false} NestedConserves(str: string, stack: Stack, kind: Bracket)
    requires str != ""
    ensures Conserves(str, ReadNested(str, stack, kind))
    ensures var r, m := ReadNested(str, stack, kind), Scan(str, 1, false, stack + [kind], |stack| + 1);
            r.Done? && !r.failed ==>
              && m.End? && m.pos < |str| && r.rest == str[m.pos + 1..] && Need(r.value) <= Weight(str[..m.pos + 1])
    decreases |str|, 2
  {
    hide Scan, ReadArray, ReadWhole, Weight, Need;
    var m := Scan(str, 1, false, stack + [kind], |stack| + 1);
    if m.End? {
      var inner := str[..Min(m.pos + 1, |str|)];
      if kind == InArray {
        ArrayConserves(inner, m.stack);
      } else {
        WholeConserves(inner, m.stack);
      }
      if m.pos < |str| {
        WeightSplit(str, m.pos + 1);
      }
    }
  }

  lemma TakenApart(s: string)
    requires |s| >= 2
    ensures s == [s[0]] + s[1..|s| - 1] + [s[|s| - 1]]
  {
  }

  lemma StrippedWeighs(str: string)
    requires |str| >= 2 && CharWeight(str[0]) == 1 && CharWeight(str[|str| - 1]) == 1
    ensures Weight(str) == 2 + Weight(str[1..|str| - 1])
  {
    hide Weight, CharWeight;
    var open, close := [str[0]], [str[|str| - 1]];
    TakenApart(str);
    WeightBetween(open, str[1..|str| - 1], close);
    WeightOfChar(str[0]);
    WeightOfChar(str[|str| - 1]);
  }

  lemma {:induction false} ArrayConserves(text: string, stack: Stack)
    ensures var r := ReadArray(text, stack); r.Part? ==> Need(r.value) <= Weight(text)
    decreases |text|, 0
  {
    hide ReadElements, Trim, Weight, NeedItems;
    var str := Trim(text);
    WeightOfTrim(text);
    if InsideArray(str).Some? {
      if |str| >= 2 {
        StrippedWeighs(str);
      }
      ElementsConserve(str[1..|str| - 1], [], stack);
      NoItemsNeedNothing();
    }
  }

  lemma NoItemsNeedNothing()
    ensures NeedItems([]) == 0 && NeedMembers([]) == 0
  {
  }

  /** What the loop over array elements returns: null, or an array that begins with what was there. */
  ghost predicate Extends(a: seq<Value>, str: string, r: Part) {
    r.Part? ==>
      || r.value.Null?
      || (r.value.Arr? && a <= r.value.items && NeedItems(r.value.items) <= NeedItems(a) + Weight(str))
  }

  lemma PushedNeeds(a: seq<Value>, value: Value)
    ensures var b := if value.Null? then a else a + [value];
            a <= b && NeedItems(b) == NeedItems(a) + Need(value)
  {
    hide NeedItems;
    NeedOfOne(value, Member("", value));
    NeedItemsConcat(a, [value]);
  }

  lemma {:induction false} ElementsConserve(str: string, a: seq<Value>, stack: Stack)
    ensures Extends(a, str, ReadElements(str, a, stack))
    decreases |str|, 4
  {
    hide ReadElements, ReadValue, FirstStop, OpensFirst, Weight, Need, NeedItems;
    if str == "" {
      NoElementsLeft(a, stack);
      NullNeedsNothing();
    } else {
      ElementsPass(str, a, stack);
      var i, whole := FirstStop(str, 0), OpensFirst(str);
      var text := if whole then str else str[..i];
      var r := ReadValue(text, stack);
      ValueConserves(text, stack);
      CutWeighs(str, i);
      if r.Done? && !r.failed {
        PushedNeeds(a, r.value);
        ElementsConserve(if whole then r.rest else str[Min(i + 1, |str|)..],
                         if r.value.Null? then a else a + [r.value], r.stack);
      }
    }
  }

  lemma {:induction false} WholeConserves(text: string, stack: Stack)
    ensures var r := ReadWhole(text, stack); r.Part? ==> Need(r.value) <= Weight(text)
    decreases |text|, 1
  {
    hide ReadArray, ReadMembers, Trim, Weight, NeedMembers, NeedItems;
    var str := Trim(text);
    WeightOfTrim(text);
    if str != "" && Opens(str[0]) {
      ArrayConserves(str, stack + [InArray]);
      if |str| >= 2 && str[0] == '{' && str[|str| - 1] == '}' {
        StrippedWeighs(str);
        MembersConserve(str[1..|str| - 1], [], stack + [InObject]);
        NoItemsNeedNothing();
      }
    }
  }

  /** What the loop over object members returns. */
  ghost predicate Stores(obj: seq<Member>, str: string, r: Part) {
    r.Part? ==>
      || r.value.Null?
      || (r.value.Obj? && NeedMembers(r.value.fields) <= NeedMembers(obj) + Weight(str))
  }

  lemma NextKeyWeighs(str: string)
    ensures NextKey(str).Some? ==> 2 + Weight(NextKey(str).value.0) + Weight(NextKey(str).value.1) <= Weight(str)
  {
    hide Weight, QuotePos, Find;
    if NextKey(str).Some? {
      var open := QuotePos(str, 0, false).value;
      var close := QuotePos(str, open + 1, false).value;
      var colon := Find(str, ':', close).value;
      WeightSplit(str, open);
      var u := str[open..];
      QuotationParts(u, close - open);
      assert u[1..close - open] == str[open + 1..close];
      assert u[close - open + 1..] == str[close + 1..];
      assert str[close] == '"' && colon > close;
      WeightSplit(str[close + 1..], colon - close);
      assert str[close + 1..][colon - close..] == str[colon + 1..];
    }
  }

  lemma {:induction false} MembersConserve(str: string, obj: seq<Member>, stack: Stack)
    ensures Stores(obj, str, ReadMembers(str, obj, stack))
    decreases |str|, 4
  {
    hide ReadMembers, ReadValue, NextKey, Insert, Weight, Need, NeedMembers;
    if str == "" {
      NoMembersLeft(obj, stack);
      NullNeedsNothing();
    } else {
      MembersPass(str, obj, stack);
      NextKeyWeighs(str);
      var pair := NextKey(str);
      if pair.Some? {
        var (key, text) := pair.value;
        var r := ReadValue(text, stack);
        ValueConserves(text, stack);
        if r.Done? && !r.failed {
          InsertWeighs(obj, key, r.value);
          MembersConserve(r.rest, Insert(obj, key, r.value), r.stack);
        }
      }
    }
  }

  // ---------------------------------------------------------------- keys


  /** A pair that the object loop has stored is in what it returns, or weight was lost. */
  lemma {:induction false} StoredPairStays(str: string, obj: seq<Member>, stack: Stack, m: Member)
    requires Sorted(obj) && m in obj
    ensures var r := ReadMembers(str, obj, stack);
            r.Part? && r.value.Obj? ==>
              m in r.value.fields || NeedMembers(r.value.fields) < NeedMembers(obj) + Weight(str)
    decreases |str|
  {
    hide ReadMembers, ReadValue, NextKey, Insert, Weight, Need, NeedMembers, Sorted;
    if str == "" {
      NoMembersLeft(obj, stack);
    } else {
      MembersPass(str, obj, stack);
      NextKeyWeighs(str);
      var pair := NextKey(str);
      if pair.Some? {
        var (key, text) := pair.value;
        var r := ReadValue(text, stack);
        ValueConserves(text, stack);
        if r.Done? && !r.failed {
          InsertKeepsSorted(obj, key, r.value);
          InsertWeighs(obj, key, r.value);
          if key == m.key {
            assert exists i :: 0 <= i < |obj| && obj[i].key == key by { var i :| 0 <= i < |obj| && obj[i] == m; }
            MembersConserve(r.rest, Insert(obj, key, r.value), r.stack);
          } else {
            InsertChangesOnePair(obj, key, r.value, m);
            StoredPairStays(r.rest, Insert(obj, key, r.value), r.stack, m);
          }
        }
      }
    }
  }

  lemma NextKeyIsDelimited(str: string)
    ensures NextKey(str).Some? ==> NextKey(str).value.0 != "" && Delimited(NextKey(str).value.0)
  {
    hide QuotePos, Find, Delimited;
    if NextKey(str).Some? {
      var open := QuotePos(str, 0, false).value;
      var close := QuotePos(str, open + 1, false).value;
      var key := str[open + 1..close];
      assert At(str, open + 1, key + "\"") by { assert str[open + 1..close + 1] == key + "\""; }
      ClosingQuoteExactlyWhenDelimited(str, open + 1, key);
    }
  }

  /** Every key that the object loop stores is not empty and was found between its quotes. */
  lemma {:induction false} StoredKeysAreDelimited(str: string, obj: seq<Member>, stack: Stack, m: Member)
    requires Sorted(obj)
    ensures var r := ReadMembers(str, obj, stack);
            r.Part? && r.value.Obj? && m in r.value.fields ==> m in obj || (m.key != "" && Delimited(m.key))
    decreases |str|
  {
    hide ReadMembers, ReadValue, NextKey, Insert, Delimited, Sorted;
    if str == "" {
      NoMembersLeft(obj, stack);
    } else {
      MembersPass(str, obj, stack);
      NextKeyIsDelimited(str);
      var pair := NextKey(str);
      if pair.Some? {
        var r := ReadValue(pair.value.1, stack);
        if r.Done? && !r.failed {
          InsertKeepsSorted(obj, pair.value.0, r.value);
          InsertChangesOnePair(obj, pair.value.0, r.value, m);
          StoredKeysAreDelimited(r.rest, Insert(obj, pair.value.0, r.value), r.stack, m);
        }
      }
    }
  }
}
