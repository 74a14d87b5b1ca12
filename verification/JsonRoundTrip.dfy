/**
 What the parser makes of a document.  The array reader looks for separators without regard to quotes,
 strings lose their outer blanks, and an object that holds nothing but white space is an error.  For every
 document whose strings, keys and inner ends can be found, ReadBack says exactly what comes back.
 */
module JsonRoundTrip {
  import opened Options
  import opened CStrings
  import opened JsonText
  import opened JsonBrackets
  import opened JsonValue
  import opened JsonWriter
  import opened JsonReader
  import opened JsonPrinted
  import opened JsonDocument

  // ---------------------------------------------------------------- what comes back

  /** A separator in a direct array element that no opening bracket shields from the array reader. */
  predicate Exposed(s: string)
    ensures Exposed(s) <==> FirstStop(s, 0) < |s| && Separator(s[FirstStop(s, 0)])
  {
    exists k ::
      && 0 <= k < |s| && (s[k] == ',' || s[k] == ']')
      && forall j :: 0 <= j < k ==> s[j] != '[' && s[j] != '{'
  }

  predicate ExposedElement(items: seq<Element>) {
    items != [] && ((items[0].doc.Quote? && Exposed(items[0].doc.raw)) || ExposedElement(items[1..]))
  }

  predicate AnyEmptyKey(pairs: seq<Pair>) {
    pairs != [] && (pairs[0].key == "" || AnyEmptyKey(pairs[1..]))
  }

  /** An object without members but with white space inside. */
  predicate Hollow(d: Document) {
    d.Object? && d.pairs == [] && d.end != ""
  }

  /** What comes back of a document: nulls in arrays go, members are stored one after the other. */
  function ReadBack(d: Document): Value
    decreases d, 1
  {
    match d
    case Word(v) => v
    case Number(n) => Double(NumeralText(n))
    case Quote(raw) => if Unescape(raw).None? then Null else Str(Unescape(raw).value)
    case Array(items, _) => if ExposedElement(items) then Null else Arr(ReadBackElements(items))
    case Object(pairs, _) => if Hollow(d) || AnyEmptyKey(pairs) then Null else Obj(StoreAll([], pairs))
  }

  function ReadBackElements(items: seq<Element>): seq<Value>
    decreases items, 0
  {
    if items == [] then []
    else
      var first := ReadBack(items[0].doc);
      (if first.Null? then [] else [first]) + ReadBackElements(items[1..])
  }

  function StoreAll(obj: seq<Member>, pairs: seq<Pair>): seq<Member>
    decreases pairs, 0
  {
    if pairs == [] then obj
    else StoreAll(Insert(obj, pairs[0].key, ReadBack(pairs[0].doc)), pairs[1..])
  }

  /** No empty key and no hollow object that the parser gets to see. */
  predicate Filled(d: Document) {
    match d
    case Array(items, _) => FilledElements(items)
    case Object(pairs, _) => !Hollow(d) && FilledPairs(pairs)
    case _ => true
  }

  predicate FilledElements(items: seq<Element>) {
    forall i :: 0 <= i < |items| ==> Filled(items[i].doc)
  }

  predicate FilledPairs(pairs: seq<Pair>) {
    forall i :: 0 <= i < |pairs| ==> pairs[i].key != "" && Filled(pairs[i].doc)
  }

  // ---------------------------------------------------------------- one element, one member

  lemma FirstStopInHead(t: string, tail: string)
    requires FirstStop(t, 0) < |t|
    ensures FirstStop(t + tail, 0) == FirstStop(t, 0) && OpensFirst(t + tail) == OpensFirst(t)
  {
    FirstStopUnique(t + tail, FirstStop(t, 0));
  }

  lemma FirstStopBehind(t: string, tail: string)
    requires FirstStop(t, 0) == |t| && EndsScalar(tail)
    ensures FirstStop(t + tail, 0) == |t| && !OpensFirst(t + tail)
  {
    if tail == "" {
      assert t + tail == t;
    } else {
      FirstStopUnique(t + tail, |t|);
    }
  }

  lemma {:induction false} FirstStopShifted(s: string, t: string, j: nat)
    requires t == "\"" + s + "\"" && j <= |s|
    ensures FirstStop(t, j + 1) == if FirstStop(s, j) < |s| then FirstStop(s, j) + 1 else |t|
    decreases |s| - j
  {
    if j < |s| {
      assert t[j + 1] == s[j];
      FirstStopShifted(s, t, j + 1);
    } else {
      assert FirstStop(t, |t|) == |t|;
    }
  }

  lemma FirstStopQuoted(s: string)
    ensures var k := FirstStop(s, 0);
            FirstStop("\"" + s + "\"", 0) == if k < |s| then k + 1 else |s| + 2
  {
    FirstStopShifted(s, "\"" + s + "\"", 0);
  }

  /** A word or number holds no bracket and no separator. */
  lemma ScalarHasNoStop(d: Document)
    requires Plain(d) && (d.Word? || d.Number?)
    ensures FirstStop(DocText(d), 0) == |DocText(d)|
  {
    hide IntText, NumeralText, LegalNumeral;
    var t := DocText(d);
    if d.Number? {
      NumeralCharacters(d.n);
    } else {
      ScalarTextIsBland(d.v);
      WordText(d.v);
      if d.v.Int? {
        IntTextIsCollected(d.v.n);
      }
    }
    forall k | 0 <= k < |t| ensures !Opens(t[k]) && !Separator(t[k]) {
      assert Bland(t[k]);
      assert d.Word? && d.v.Int? ==> Collected(t[k]);
    }
  }

  lemma BlanksDoNotStop(before: string, t: string)
    requires Blanks(before)
    ensures FirstStop(before + t, 0) == |before| + FirstStop(t, 0)
    ensures OpensFirst(before + t) == OpensFirst(t)
  {
    var k := FirstStop(t, 0);
    var str := before + t;
    forall j | 0 <= j < |before| + k ensures !Opens(str[j]) && !Separator(str[j]) {
      assert str[j] == if j < |before| then before[j] else t[j - |before|];
    }
    if k < |t| {
      assert str[|before| + k] == t[k];
      FirstStopUnique(str, |before| + k);
    } else {
      NoStop(str);
    }
  }

  lemma NoStop(str: string)
    requires forall j :: 0 <= j < |str| ==> !Opens(str[j]) && !Separator(str[j])
    ensures FirstStop(str, 0) == |str|
  {
  }

  /** An opening quote without its closing one, as the array reader cuts them apart at a separator, is an
      error. */
  lemma CutStringFails(before: string, s: string, w: string, stack: Stack)
    requires Delimited(s) && w <= s && Blanks(before)
    ensures var r := ReadValue(before + ("\"" + w), stack); r.Done? && r.failed && r.stack == stack
  {
    hide *;
    var u := TrimBack(w);
    var str, t := "\"" + u, s + "\"";
    QuoteIsTight();
    TrimFindsTightMiddle(before, "\"", w);
    assert str[1..] == u == t[..|u|];
    DelimitedMeans(s);
    QuotePosCut(str, 1, t, 0, false, |s|);
    ValueBranches(before + ("\"" + w), stack);
    OpenQuoteFails(str, stack);
  }

  lemma QuoteIsTight()
    ensures Tight("\"")
  {
  }

  lemma DelimitedMeans(s: string)
    ensures Delimited(s) <==> QuotePos(s + "\"", 0, false) == Some(|s|)
  {
  }

  lemma OpenQuoteFails(str: string, stack: Stack)
    requires str != "" && str[0] == '"' && QuotePos(str, 1, false) == None
    ensures ReadQuoted(str, stack) == Done(Null, true, str, stack)
  {
    hide QuotePos, Unescape;
  }

  /** The next pair after white space and an optional comma: its key and the text behind its colon. */
  lemma NextKeyOfPair(lead: string, key: string, mid: string, rest: string)
    requires Muted(lead) && Blanks(mid) && Delimited(key)
    ensures NextKey(lead + ("\"" + key + "\"" + mid + ":" + rest)) == if key == "" then None else Some((key, rest))
  {
    hide *;
    var str := lead + ("\"" + key + "\"" + mid + ":" + rest);
    var i := |lead|;
    PairParts(lead, key, mid, rest);
    AtInside(str, 0, lead);
    QuotePosSkips(str, 0, lead);
    QuoteHere(str, i);
    ClosingQuoteExactlyWhenDelimited(str, i + 1, key);
    ColonBehind(str, i + |key| + 1, mid);
    KeyBetween(str, i, i + |key| + 1, i + |key| + 2 + |mid|);
  }

  lemma AtInside(str: string, i: nat, t: string)
    requires At(str, i, t)
    ensures i + |t| <= |str|
  {
  }

  /** Where the parts of a pair stand. */
  lemma PairParts(lead: string, key: string, mid: string, rest: string)
    ensures var str, i := lead + ("\"" + key + "\"" + mid + ":" + rest), |lead|;
            var c := i + |key| + 2 + |mid|;
            && c < |str| && At(str, 0, lead) && At(str, i + 1, key + "\"") && At(str, i + |key| + 2, mid)
            && str[i] == '"' && str[i + |key| + 1] == '"' && str[c] == ':'
            && str[i + 1..i + |key| + 1] == key && str[c + 1..] == rest
  {
    var str, i := lead + ("\"" + key + "\"" + mid + ":" + rest), |lead|;
    var head := lead + ("\"" + key + "\"" + mid + ":");
    assert str == head + rest;
    assert str[|head|..] == rest;
    assert str[..i] == lead;
    assert str[i + 1..i + |key| + 1] == key;
    assert str[i + 1..i + |key| + 2] == key + "\"";
    assert str[i + |key| + 2..i + |key| + 2 + |mid|] == mid;
  }

  lemma QuoteHere(str: string, i: nat)
    requires i < |str| && str[i] == '"'
    ensures QuotePos(str, i, false) == Some(i)
  {
  }

  /** The key and the rest, when the quotes and the colon are where they should be. */
  lemma KeyBetween(str: string, open: nat, close: nat, colon: nat)
    requires open < close < colon < |str|
    requires QuotePos(str, 0, false) == Some(open) && QuotePos(str, open + 1, false) == Some(close)
    requires Find(str, ':', close) == Some(colon)
    ensures NextKey(str) == if close == open + 1 then None else Some((str[open + 1..close], str[colon + 1..]))
  {
    hide QuotePos, Find;
  }

  lemma ColonBehind(str: string, i: nat, mid: string)
    requires i + 1 + |mid| < |str| && str[i] == '"' && At(str, i + 1, mid) && Blanks(mid) && str[i + 1 + |mid|] == ':'
    ensures Find(str, ':', i) == Some(i + 1 + |mid|)
  {
    hide Find;
    var r := Find(str, ':', i);
    assert ':' in str[i..] by { assert str[i..][1 + |mid|] == ':'; }
    forall k | i <= k < i + 1 + |mid| ensures str[k] != ':' {
      if k > i {
        AtChar(str, i + 1, mid, k - i - 1);
      }
    }
  }

  // ---------------------------------------------------------------- the mutual induction

  /** What is left of the white space and the text behind a document. */
  predicate Left(ahead: string, more: string, rest: string) {
    rest == TrimBack(more) || rest == TrimBack(ahead + more)
  }

  /** A document was read as ReadBack says, leaving what is behind it; entries were only added to the
      stack, and none at all when the document is filled. */
  ghost predicate GoodValue(d: Document, ahead: string, more: string, stack: Stack, r: Outcome) {
    && r.Done? && !r.failed && r.value == ReadBack(d) && Left(ahead, more, r.rest)
    && stack <= r.stack && (Filled(d) ==> r.stack == stack)
  }

  ghost predicate GoodPart(value: Value, filled: bool, stack: Stack, r: Part) {
    r.Part? && r.value == value && stack <= r.stack && (filled ==> r.stack == stack)
  }

  lemma {:induction false} DocumentReadsBack(d: Document, before: string, ahead: string, more: string, stack: Stack)
    requires Plain(d) && Laid(d) && EndFound(d) && Blanks(before) && Blanks(ahead) && EndsScalar(more)
    ensures GoodValue(d, ahead, more, stack, ReadValue(before + (DocText(d) + (ahead + more)), stack))
    decreases d, 3
  {
    hide *;
    var t, tail := DocText(d), ahead + more;
    var rest := TrimBack(tail);
    DocEnds(d);
    TrimFindsTightMiddle(before, t, tail);
    ValueBranches(before + (t + tail), stack);
    FirstOf(t, rest);
    if d.Quote? {
      QuoteReadsBack(d, ahead, more, stack);
    } else if d.Array? || d.Object? {
      NestedReadsBack(d, rest, stack);
      NestedLeaves(d, ahead, more, stack, ReadNested(t + rest, stack, KindOfDocument(d)));
      KindOfNested(d);
    } else {
      WordReadsBack(d, ahead, more, stack);
    }
  }

  lemma FirstOf(t: string, rest: string)
    requires t != ""
    ensures t + rest != "" && (t + rest)[0] == t[0]
  {
  }

  lemma KindOfNested(d: Document)
    ensures d.Array? ==> KindOfDocument(d) == InArray
    ensures d.Object? ==> KindOfDocument(d) == InObject
  {
  }

  lemma NestedLeaves(d: Document, ahead: string, more: string, stack: Stack, r: Outcome)
    requires r.Done? && !r.failed && r.value == ReadBack(d) && r.rest == TrimBack(ahead + more)
    requires stack <= r.stack && (Filled(d) ==> r.stack == stack)
    ensures GoodValue(d, ahead, more, stack, r)
  {
    hide ReadBack, Filled, TrimBack;
  }

  lemma QuoteReadsBack(d: Document, ahead: string, more: string, stack: Stack)
    requires Plain(d) && d.Quote?
    ensures GoodValue(d, ahead, more, stack, ReadQuoted(DocText(d) + TrimBack(ahead + more), stack))
  {
    hide Unescape, Delimited, TrimBack;
    StringReadsBack(d.raw, TrimBack(ahead + more), stack);
  }

  /** What is behind a scalar after trimming: nothing, or the white space and the comma. */
  lemma BehindScalar(ahead: string, more: string)
    requires Blanks(ahead) && EndsScalar(more)
    ensures EndsScalar(TrimBack(more)) && (TrimBack(more) == "" <==> more == "")
    ensures TrimBack(ahead + more) == if more == "" then "" else ahead + TrimBack(more)
  {
    hide TrimBack;
    if more == "" {
      assert ahead + more == ahead;
      BlanksTrimAway(ahead);
      BlanksTrimAway("");
    } else {
      TrimBackKeepsHead(ahead, more);
      TrimBackKeepsHead("", more);
    }
  }

  lemma WordReadsBack(d: Document, ahead: string, more: string, stack: Stack)
    requires Plain(d) && (d.Word? || d.Number?) && Blanks(ahead) && EndsScalar(more)
    ensures GoodValue(d, ahead, more, stack, ReadScalar(DocText(d) + TrimBack(ahead + more), stack))
  {
    hide TrimBack, ReadScalar, LegalNumeral, NumeralText, ValueText, Blanks;
    BehindScalar(ahead, more);
    var a, b := if more == "" then "" else ahead, TrimBack(more);
    assert a + b == TrimBack(ahead + more);
    assert DocText(d) + (a + b) == DocText(d) + a + b;
    NoBlanks();
    if d.Word? {
      WordText(d.v);
      ScalarReadsBack(d.v, a, b, stack);
    } else {
      NumeralReadsBack(d.n, a, b, stack);
    }
  }

  lemma NoBlanks()
    ensures Blanks("")
  {
  }

  lemma {:induction false} NestedReadsBack(d: Document, tail: string, stack: Stack)
    requires Plain(d) && Laid(d) && EndFound(d) && (d.Array? || d.Object?)
    ensures var r := ReadNested(DocText(d) + tail, stack, KindOfDocument(d));
            && r.Done? && !r.failed && r.value == ReadBack(d) && r.rest == tail
            && stack <= r.stack && (Filled(d) ==> r.stack == stack)
    decreases d, 2
  {
    hide Plain, Laid, ReadBack, Filled, ReadArray, ReadWhole, Scan, DocText, EndsAtLast;
    var t, kind := DocText(d), KindOfDocument(d);
    var str := t + tail;
    DocEnds(d);
    ScanFindsEndOf(t, kind, tail, stack);
    assert str[..|t|] == t && str[|t|..] == tail;
    if d.Array? {
      ArrayReadsBack(d, stack);
    } else {
      WholeReadsBack(d, stack);
      FilledObjectIsKept(d);
    }
  }

  lemma InsideBrackets(inner: string)
    ensures InsideArray(Trim("[" + inner + "]")) == Some(inner)
  {
    hide Trim;
    var t := "[" + inner + "]";
    TrimIsIdentityExactlyOnTight(t);
    assert t[1..|t| - 1] == inner;
  }

  /** The elements of a document the parser finds its way in. */
  predicate PlainElements(items: seq<Element>) {
    forall i :: 0 <= i < |items| ==>
      Plain(items[i].doc) && EndFound(items[i].doc) && LaidElement(items[i]) && Laid(items[i].doc)
  }

  predicate PlainPairs(pairs: seq<Pair>) {
    forall i :: 0 <= i < |pairs| ==>
      && Delimited(pairs[i].key) && Plain(pairs[i].doc) && EndFound(pairs[i].doc)
      && LaidPair(pairs[i]) && Laid(pairs[i].doc)
  }

  /** The parts of an array, as the lemmas about its elements speak of them. */
  lemma ArrayParts(d: Document)
    requires Plain(d) && Laid(d) && d.Array?
    ensures PlainElements(d.items) && Blanks(d.end)
    ensures DocText(d) == "[" + ElementsText(d.items, d.end) + "]"
    ensures ReadBack(d) == ElementsValue([], d.items)
    ensures Filled(d) == FilledElements(d.items)
  {
    hide ElementsText, ReadBackElements, ExposedElement, EndFound, LaidElement, Blanks;
    assert [] + ReadBackElements(d.items) == ReadBackElements(d.items);
  }

  lemma {:induction false} ArrayReadsBack(d: Document, stack: Stack)
    requires Plain(d) && Laid(d) && d.Array?
    ensures GoodPart(ReadBack(d), Filled(d), stack, ReadArray(DocText(d), stack))
    decreases d, 0
  {
    hide Plain, Laid, ReadElements, ReadBack, Filled, DocText, ElementsText, Trim, InsideArray, PlainElements;
    ArrayParts(d);
    InsideBrackets(ElementsText(d.items, d.end));
    ElementsReadBack(d.items, d.end, [], stack);
  }

  lemma FilledObjectIsKept(d: Document)
    requires d.Object?
    ensures Filled(d) ==> !ReadBack(d).Null?
  {
    if Filled(d) {
      NoEmptyKey(d.pairs);
    }
  }

  lemma {:induction false} NoEmptyKey(pairs: seq<Pair>)
    requires FilledPairs(pairs)
    ensures !AnyEmptyKey(pairs)
  {
    if pairs != [] {
      NoEmptyKey(pairs[1..]);
    }
  }

  lemma {:induction false} WholeReadsBack(d: Document, stack: Stack)
    requires Plain(d) && Laid(d) && (d.Array? || d.Object?)
    ensures GoodPart(ReadBack(d), Filled(d) && !ReadBack(d).Null?, stack, ReadWhole(DocText(d), stack))
    decreases d, 1
  {
    hide ReadArray, ReadObject, ReadBack, Filled, Trim, TakeOff, ElementsText, PairsText, Laid, Plain;
    var t := DocText(d);
    TrimIsIdentityExactlyOnTight(t);
    if d.Array? {
      ArrayReadsBack(d, stack + [InArray]);
      TakenOff(ReadArray(t, stack + [InArray]), ReadBack(d), Filled(d), stack, InArray);
    } else {
      ObjectReadsBack(d, stack + [InObject]);
      TakenOff(ReadObject(t, stack + [InObject]), ReadBack(d), Filled(d), stack, InObject);
    }
  }

  lemma TakenOff(r: Part, value: Value, filled: bool, stack: Stack, kind: Bracket)
    requires GoodPart(value, filled, stack + [kind], r)
    ensures GoodPart(value, filled && !value.Null?, stack, TakeOff(r, kind))
  {
    assert Front(stack + [kind]) == stack;
  }

  lemma ObjectParts(d: Document)
    requires Plain(d) && Laid(d) && d.Object?
    ensures PlainPairs(d.pairs) && Blanks(d.end)
    ensures DocText(d) == "{" + PairsText(d.pairs, d.end) + "}"
    ensures ReadBack(d) == if Hollow(d) then Null else PairsValue([], d.pairs)
    ensures Filled(d) == (!Hollow(d) && FilledPairs(d.pairs))
  {
    hide PairsText, StoreAll, AnyEmptyKey, EndFound, LaidPair, Blanks, Delimited;
  }

  lemma {:induction false} ObjectReadsBack(d: Document, stack: Stack)
    requires Plain(d) && Laid(d) && d.Object?
    ensures GoodPart(ReadBack(d), Filled(d), stack, ReadObject(DocText(d), stack))
    decreases d, 0
  {
    hide Plain, Laid, ReadMembers, ReadBack, Filled, DocText, PairsText, PlainPairs;
    ObjectParts(d);
    var inner := PairsText(d.pairs, d.end);
    assert ("{" + inner + "}")[1..|inner| + 1] == inner == "" + inner;
    if Hollow(d) {
      HollowFails(d, stack);
    } else {
      PairsReadBack("", d.pairs, d.end, [], stack);
    }
  }

  /** Nothing but white space inside an object is an error. */
  lemma HollowFails(d: Document, stack: Stack)
    requires Laid(d) && Hollow(d)
    ensures ReadMembers(PairsText(d.pairs, d.end), [], stack) == Part(Null, stack)
  {
    hide NextKey, Blanks;
    MembersPass(d.end, [], stack);
    NoKeyInBlanks(d.end);
  }

  lemma NoKeyInBlanks(s: string)
    requires Blanks(s)
    ensures NextKey(s) == None
  {
    hide Find;
    assert At(s, 0, s);
    QuotePosSkips(s, 0, s);
  }

  // ---------------------------------------------------------------- the loop over array elements

  ghost function ElementsValue(a: seq<Value>, items: seq<Element>): Value {
    if ExposedElement(items) then Null else Arr(a + ReadBackElements(items))
  }

  /** The accumulator of the array loop after one element came back as value. */
  function Pushed(a: seq<Value>, value: Value): seq<Value> {
    if value.Null? then a else a + [value]
  }

  lemma FilledElementsCons(items: seq<Element>)
    requires items != []
    ensures FilledElements(items) <==> Filled(items[0].doc) && FilledElements(items[1..])
  {
    hide Filled;
    if Filled(items[0].doc) && FilledElements(items[1..]) {
      forall i | 0 <= i < |items| ensures Filled(items[i].doc) {
        assert i > 0 ==> items[i] == items[1..][i - 1];
      }
    }
  }

  lemma ElementsValueCons(items: seq<Element>, a: seq<Value>)
    requires items != []
    ensures ElementsValue(a, items) == if items[0].doc.Quote? && Exposed(items[0].doc.raw) then Null
                                       else ElementsValue(Pushed(a, ReadBack(items[0].doc)), items[1..])
  {
    hide ReadBack, Exposed;
    var first, rest := ReadBack(items[0].doc), ReadBackElements(items[1..]);
    assert ReadBackElements(items) == (if first.Null? then [] else [first]) + rest;
    assert Pushed(a, first) + rest == a + ReadBackElements(items);
  }

  /** What follows the first element: white space, and a comma with the other elements or nothing. */
  function MoreElements(items: seq<Element>, end: string): (t: string)
    requires items != []
    ensures EndsScalar(t)
  {
    if |items| == 1 then "" else "," + ElementsText(items[1..], end)
  }

  function AheadOf(items: seq<Element>, end: string): string
    requires items != []
  {
    if |items| == 1 then end else items[1].ahead
  }

  lemma FirstElementOf(items: seq<Element>, end: string)
    requires items != [] && PlainElements(items) && Blanks(end)
    ensures ElementsText(items, end)
         == items[0].before + (DocText(items[0].doc) + (AheadOf(items, end) + MoreElements(items, end)))
    ensures Blanks(AheadOf(items, end)) && Blanks(items[0].before) && PlainElements(items[1..])
  {
    hide DocText, Plain, EndFound, Blanks, Laid;
    if |items| == 1 {
      assert end + "" == end;
    }
  }

  /** Trimming what follows an element at its back drops the white space at its end only. */
  lemma {:induction false} ElementsTrimBack(items: seq<Element>, end: string)
    requires PlainElements(items) && Blanks(end)
    ensures TrimBack(ElementsText(items, end)) == ElementsText(items, "")
    ensures items != [] ==> ElementsText(items, "") != ""
    decreases |items|
  {
    hide *;
    if items == [] {
      BlanksTrimAway(end);
      NoElementsText(end);
      NoElementsText("");
    } else {
      NoBlanks();
      FirstElementOf(items, end);
      FirstElementOf(items, "");
      FirstIsPlain(items);
      var t := DocText(items[0].doc);
      DocEnds(items[0].doc);
      ElementTextIsLong(items[0].before, t, AheadOf(items, "") + MoreElements(items, ""));
      TrimTightHeadBehind(items[0].before, t, AheadOf(items, end) + MoreElements(items, end));
      if |items| == 1 {
        LastElement(items, end);
        BlanksTrimAway(end);
      } else {
        ElementsTrimBack(items[1..], end);
        InnerElement(items, end);
        InnerElement(items, "");
        TrimSeparated(items[1].ahead, ElementsText(items[1..], end));
      }
    }
  }

  lemma FirstIsPlain(items: seq<Element>)
    requires items != [] && PlainElements(items)
    ensures Plain(items[0].doc) && EndFound(items[0].doc) && Laid(items[0].doc)
  {
    hide Plain, EndFound, Laid;
  }

  lemma ElementTextIsLong(before: string, t: string, tail: string)
    requires t != ""
    ensures before + (t + tail) != ""
  {
  }

  lemma TrimTightHeadBehind(before: string, t: string, tail: string)
    requires t != "" && Tight(t)
    ensures TrimBack(before + (t + tail)) == before + (t + TrimBack(tail))
  {
    hide TrimBack;
    TrimKeepsTightHead(t, tail);
    TrimBackKeepsHead(before, t + tail);
  }

  lemma TrimSeparated(ahead: string, text: string)
    ensures TrimBack(ahead + ("," + text)) == ahead + ("," + TrimBack(text))
  {
    hide TrimBack;
    CommaIsTight();
    TrimTightHeadBehind(ahead, ",", text);
  }

  lemma CommaIsTight()
    ensures Tight(",")
  {
  }

  lemma NoElementsText(end: string)
    ensures ElementsText([], end) == end
  {
  }

  lemma LastElement(items: seq<Element>, end: string)
    requires |items| == 1
    ensures AheadOf(items, end) + MoreElements(items, end) == end && AheadOf(items, "") + MoreElements(items, "") == ""
  {
    assert end + "" == end;
  }

  lemma InnerElement(items: seq<Element>, end: string)
    requires |items| > 1
    ensures AheadOf(items, end) + MoreElements(items, end) == items[1].ahead + ("," + ElementsText(items[1..], end))
  {
    hide ElementsText;
  }

  lemma {:induction false} ElementsReadBack(items: seq<Element>, end: string, a: seq<Value>, stack: Stack)
    requires PlainElements(items) && Blanks(end)
    ensures GoodPart(ElementsValue(a, items), FilledElements(items), stack,
                     ReadElements(ElementsText(items, end), a, stack))
    decreases items, 0, 1
  {
    hide *;
    if items == [] {
      NoElementsText(end);
      BlankElement(end, a, stack);
      NoElementsLeft(a, stack);
      NoElementsValue(a, stack);
    } else {
      ElementsStep(items, end, a, stack);
    }
  }

  lemma NoElementsValue(a: seq<Value>, stack: Stack)
    ensures GoodPart(ElementsValue(a, []), FilledElements([]), stack, Part(Arr(a), stack))
  {
    assert a + [] == a;
  }

  /** White space up to the end, or up to a comma, is read as nothing. */
  lemma BlankElement(blank: string, a: seq<Value>, stack: Stack)
    requires Blanks(blank)
    ensures ReadElements(blank, a, stack) == ReadElements("", a, stack)
  {
    hide ReadValue, Trim;
    BlanksDoNotStop(blank, "");
    assert blank + "" == blank;
    assert blank[..|blank|] == blank;
    BlankReadsNull(blank, stack);
  }

  lemma BlankReadsNull(blank: string, stack: Stack)
    requires Blanks(blank)
    ensures ReadValue(blank, stack) == Done(Null, false, "", stack)
  {
    hide ReadNested, ReadScalar, ReadQuoted, Trim;
    BlanksTrimAway(blank);
  }

  /** A separator left over from a whole element costs one pass that reads nothing. */
  lemma AfterComma(ahead: string, rest: string, a: seq<Value>, stack: Stack)
    requires Blanks(ahead) && EndsScalar(rest)
    ensures ReadElements(ahead + rest, a, stack) == ReadElements(Behind(rest), a, stack)
  {
    hide ReadValue;
    if rest == "" {
      assert ahead + rest == ahead;
      BlankElement(ahead, a, stack);
    } else {
      var str := ahead + rest;
      BlanksDoNotStop(ahead, rest);
      assert str[..|ahead|] == ahead && str[|ahead| + 1..] == rest[1..];
      BlankReadsNull(ahead, stack);
    }
  }

  /** A text without its comma in front, when there is one. */
  function Behind(t: string): string {
    if t == "" then "" else t[1..]
  }

  lemma {:induction false} ElementsStep(items: seq<Element>, end: string, a: seq<Value>, stack: Stack)
    requires items != [] && PlainElements(items) && Blanks(end)
    ensures GoodPart(ElementsValue(a, items), FilledElements(items), stack,
                     ReadElements(ElementsText(items, end), a, stack))
    decreases items, 0, 0
  {
    hide *;
    var d, ahead, more := items[0].doc, AheadOf(items, end), MoreElements(items, end);
    FirstElementOf(items, end);
    FirstIsPlain(items);
    ElementsValueCons(items, a);
    FilledElementsCons(items);
    if d.Quote? && Exposed(d.raw) {
      ExposedElementFails(d, items[0].before, ahead + more, a, stack);
      FailedPart(FilledElements(items), stack);
    } else {
      var after, next := ElementReadsBack(d, items[0].before, ahead, more, a, stack);
      var left := NextElements(items, end, next);
      ElementsReadBack(items[1..], left, Pushed(a, ReadBack(d)), after);
      ComposeParts(ElementsValue(a, items), Filled(d), FilledElements(items[1..]), stack, after,
                   ReadElements(ElementsText(items, end), a, stack));
    }
  }

  lemma FailedPart(filled: bool, stack: Stack)
    ensures GoodPart(Null, filled, stack, Part(Null, stack))
  {
  }

  lemma ComposeParts(value: Value, first: bool, others: bool, stack: Stack, after: Stack, r: Part)
    requires stack <= after && (first ==> after == stack) && GoodPart(value, others, after, r)
    ensures GoodPart(value, first && others, stack, r)
  {
  }

  /** The text for the next pass is that of the elements that follow, with some white space at its end. */
  lemma NextElements(items: seq<Element>, end: string, next: string) returns (left: string)
    requires items != [] && PlainElements(items) && Blanks(end)
    requires var more := MoreElements(items, end); next == Behind(more) || next == Behind(TrimBack(more))
    ensures Blanks(left) && next == ElementsText(items[1..], left)
  {
    hide *;
    var more := MoreElements(items, end);
    NoBlanks();
    MoreElementsIs(items, end);
    if |items| == 1 {
      NoElementsText("");
      left := "";
      BlanksTrimAway("");
      BehindIs("");
    } else {
      var others := ElementsText(items[1..], end);
      FirstElementOf(items, end);
      ElementsTrimBack(items[1..], end);
      TrimmedBehind(others);
      left := if next == Behind(more) then end else "";
    }
  }

  lemma MoreElementsIs(items: seq<Element>, end: string)
    requires items != []
    ensures MoreElements(items, end) == if |items| == 1 then "" else "," + ElementsText(items[1..], end)
    ensures |items| == 1 ==> items[1..] == []
  {
    hide ElementsText;
  }

  lemma BehindIs(t: string)
    ensures Behind("," + t) == t && Behind("") == ""
  {
  }

  lemma TrimmedBehind(t: string)
    ensures Behind("," + t) == t && TrimBack("," + t) == "," + TrimBack(t) && Behind(TrimBack("," + t)) == TrimBack(t)
  {
    hide TrimBack;
    TrimSeparated("", t);
    assert "" + ("," + t) == "," + t;
    assert "" + ("," + TrimBack(t)) == "," + TrimBack(t);
  }

  lemma ExposedElementFails(d: Document, before: string, tail: string, a: seq<Value>, stack: Stack)
    requires d.Quote? && Plain(d) && Exposed(d.raw) && Blanks(before)
    ensures ReadElements(before + (DocText(d) + tail), a, stack) == Part(Null, stack)
  {
    hide ReadValue, ReadElements, Delimited, Unescape, Blanks, OpensFirst, FirstStop, DocText, Exposed;
    var k := FirstStop(d.raw, 0);
    var str := before + (DocText(d) + tail);
    QuoteStops(d.raw, before, tail);
    assert DocText(d) == "\"" + d.raw + "\"" by { QuoteText(d); }
    CutStringFails(before, d.raw, d.raw[..k], stack);
    ElementsPass(str, a, stack);
  }

  lemma QuoteText(d: Document)
    requires d.Quote?
    ensures DocText(d) == "\"" + d.raw + "\""
  {
  }

  /** The array loop stops inside of an exposed string. */
  lemma QuoteStops(raw: string, before: string, tail: string)
    requires Exposed(raw) && Blanks(before)
    ensures var k, str := FirstStop(raw, 0), before + ("\"" + raw + "\"" + tail);
            && k < |raw| && str != "" && !OpensFirst(str) && FirstStop(str, 0) == |before| + k + 1
            && str[..|before| + k + 1] == before + ("\"" + raw[..k])
  {
    hide *;
    var t, k := "\"" + raw + "\"", FirstStop(raw, 0);
    QuoteStopsAt(raw);
    FirstStopInHead(t, tail);
    BlanksDoNotStop(before, t + tail);
    CutQuote(raw, before, tail, k);
  }

  lemma QuoteStopsAt(raw: string)
    requires Exposed(raw)
    ensures var t, k := "\"" + raw + "\"", FirstStop(raw, 0);
            k < |raw| && FirstStop(t, 0) == k + 1 < |t| && !OpensFirst(t)
  {
    hide FirstStop, Exposed;
    var t, k := "\"" + raw + "\"", FirstStop(raw, 0);
    FirstStopQuoted(raw);
    assert t[k + 1] == raw[k];
  }

  lemma CutQuote(raw: string, before: string, tail: string, k: nat)
    requires k < |raw|
    ensures var str := before + ("\"" + raw + "\"" + tail);
            str != "" && str[..|before| + k + 1] == before + ("\"" + raw[..k])
  {
  }

  /** The first pass of the array loop over an element that is not exposed: the loop goes on behind
      the comma with the element pushed, unless it came back as null. */
  lemma ElementReadsBack(d: Document, before: string, ahead: string, more: string, a: seq<Value>, stack: Stack)
      returns (after: Stack, next: string)
    requires Plain(d) && Laid(d) && EndFound(d) && !(d.Quote? && Exposed(d.raw))
    requires Blanks(before) && Blanks(ahead) && EndsScalar(more)
    ensures stack <= after && (Filled(d) ==> after == stack)
    ensures next == Behind(more) || next == Behind(TrimBack(more))
    ensures ReadElements(before + (DocText(d) + (ahead + more)), a, stack)
         == ReadElements(next, Pushed(a, ReadBack(d)), after)
    decreases d, 4
  {
    hide *;
    var t := DocText(d);
    var str := before + (t + (ahead + more));
    BlanksDoNotStop(before, t + (ahead + more));
    DocEnds(d);
    ElementTextIsLong(before, t, ahead + more);
    if FirstStop(t, 0) < |t| {
      WholeOrCut(d);
      FirstStopInHead(t, ahead + more);
      DocumentReadsBack(d, before, ahead, more, stack);
      var r := ReadValue(str, stack);
      GoodMeans(d, ahead, more, stack, r);
      after := r.stack;
      WholePass(str, a, stack, r);
      next := LeftOver(ahead, more, r.rest, Pushed(a, ReadBack(d)), after);
    } else {
      StopBehind(t, ahead, more);
      NothingMore();
      DocumentReadsBack(d, before, ahead, "", stack);
      var head := before + (t + (ahead + ""));
      var r := ReadValue(head, stack);
      GoodMeans(d, ahead, "", stack, r);
      after := r.stack;
      CutParts(before, t, ahead, more);
      CutPass(head, str, more, a, stack, r);
      next := Behind(more);
    }
  }

  lemma NothingMore()
    ensures EndsScalar("")
  {
  }

  lemma GoodMeans(d: Document, ahead: string, more: string, stack: Stack, r: Outcome)
    requires GoodValue(d, ahead, more, stack, r)
    ensures r.Done? && !r.failed && r.value == ReadBack(d) && Left(ahead, more, r.rest)
    ensures stack <= r.stack && (Filled(d) ==> r.stack == stack)
  {
    hide ReadBack, Filled, Left;
  }

  /** What a whole element leaves costs a pass that reads nothing. */
  lemma LeftOver(ahead: string, more: string, rest: string, a: seq<Value>, stack: Stack) returns (next: string)
    requires Blanks(ahead) && EndsScalar(more) && Left(ahead, more, rest)
    ensures next == Behind(TrimBack(more))
    ensures ReadElements(rest, a, stack) == ReadElements(next, a, stack)
  {
    hide ReadElements, TrimBack, Blanks, EndsScalar;
    BehindScalar(ahead, more);
    NoBlanks();
    var b := TrimBack(more);
    next := Behind(b);
    AfterComma(ahead, b, a, stack);
    AfterComma("", b, a, stack);
    assert "" + b == b;
  }

  /** In a text without a stop the first one is the comma behind it. */
  lemma StopBehind(t: string, ahead: string, more: string)
    requires FirstStop(t, 0) == |t| && Blanks(ahead) && EndsScalar(more)
    ensures var str := t + (ahead + more); FirstStop(str, 0) == |t| + |ahead| && !OpensFirst(str)
  {
    hide Blanks;
    var u := t + ahead;
    FirstStopIsNone(t);
    BlanksAreNoStops(ahead);
    forall j | 0 <= j < |u| ensures !Opens(u[j]) && !Separator(u[j]) {
      assert u[j] == if j < |t| then t[j] else ahead[j - |t|];
    }
    NoStop(u);
    FirstStopBehind(u, more);
    assert u + more == t + (ahead + more);
  }

  lemma FirstStopIsNone(t: string)
    requires FirstStop(t, 0) == |t|
    ensures forall j :: 0 <= j < |t| ==> !Opens(t[j]) && !Separator(t[j])
  {
  }

  lemma BlanksAreNoStops(s: string)
    requires Blanks(s)
    ensures forall j :: 0 <= j < |s| ==> !Opens(s[j]) && !Separator(s[j])
  {
  }

  lemma WholeOrCut(d: Document)
    requires Plain(d) && !(d.Quote? && Exposed(d.raw)) && FirstStop(DocText(d), 0) < |DocText(d)|
    ensures OpensFirst(DocText(d)) && (d.Quote? || d.Array? || d.Object?)
  {
    hide ElementsText, PairsText, NumeralText, Delimited, Unescape;
    var t := DocText(d);
    if d.Quote? {
      FirstStopQuoted(d.raw);
      assert t[FirstStop(t, 0)] == d.raw[FirstStop(d.raw, 0)];
    } else if d.Word? || d.Number? {
      ScalarHasNoStop(d);
    } else {
      FirstStopUnique(t, 0);
    }
  }

  lemma WholePass(str: string, a: seq<Value>, stack: Stack, r: Outcome)
    requires OpensFirst(str) && r == ReadValue(str, stack) && r.Done? && !r.failed
    ensures ReadElements(str, a, stack) == ReadElements(r.rest, Pushed(a, r.value), r.stack)
  {
    hide ReadValue;
  }

  lemma CutParts(before: string, t: string, ahead: string, more: string)
    ensures var str, i := before + (t + (ahead + more)), |before| + |t| + |ahead|;
            && i <= |str| && str[..i] == before + (t + (ahead + ""))
            && str[Min(i + 1, |str|)..] == Behind(more)
  {
    var str, head := before + (t + (ahead + more)), before + (t + (ahead + ""));
    assert str == head + more;
    assert str[..|head|] == head;
  }

  lemma CutPass(head: string, str: string, more: string, a: seq<Value>, stack: Stack, r: Outcome)
    requires str != "" && |head| <= |str| && FirstStop(str, 0) == |head| && !OpensFirst(str) && str[..|head|] == head
    requires str[Min(|head| + 1, |str|)..] == Behind(more)
    requires r == ReadValue(head, stack) && r.Done? && !r.failed
    ensures ReadElements(str, a, stack) == ReadElements(Behind(more), Pushed(a, r.value), r.stack)
  {
    hide *;
    PushedIs(a, r.value);
    ElementsPass(str, a, stack);
  }

  lemma PushedIs(a: seq<Value>, value: Value)
    ensures Pushed(a, value) == if value.Null? then a else a + [value]
  {
  }

  // ---------------------------------------------------------------- the loop over object members

  ghost function PairsValue(obj: seq<Member>, pairs: seq<Pair>): Value {
    if AnyEmptyKey(pairs) then Null else Obj(StoreAll(obj, pairs))
  }

  function MorePairs(pairs: seq<Pair>, end: string): (t: string)
    requires pairs != []
    ensures EndsScalar(t)
  {
    if |pairs| == 1 then "" else "," + PairsText(pairs[1..], end)
  }

  function AheadOfPair(pairs: seq<Pair>, end: string): string
    requires pairs != []
  {
    if |pairs| == 1 then end else pairs[1].ahead
  }

  lemma FilledPairsCons(pairs: seq<Pair>)
    requires pairs != []
    ensures FilledPairs(pairs) <==> pairs[0].key != "" && Filled(pairs[0].doc) && FilledPairs(pairs[1..])
  {
    hide Filled;
    if pairs[0].key != "" && Filled(pairs[0].doc) && FilledPairs(pairs[1..]) {
      forall i | 0 <= i < |pairs| ensures pairs[i].key != "" && Filled(pairs[i].doc) {
        assert i > 0 ==> pairs[i] == pairs[1..][i - 1];
      }
    }
  }

  lemma PairsValueCons(pairs: seq<Pair>, obj: seq<Member>)
    requires pairs != []
    ensures PairsValue(obj, pairs) == if pairs[0].key == "" then Null
              else PairsValue(Insert(obj, pairs[0].key, ReadBack(pairs[0].doc)), pairs[1..])
  {
    hide ReadBack, Insert;
  }

  lemma FirstPairOf(pairs: seq<Pair>, end: string)
    requires pairs != [] && PlainPairs(pairs) && Blanks(end)
    ensures PairsText(pairs, end)
         == KeyText(pairs[0]) + (DocText(pairs[0].doc) + (AheadOfPair(pairs, end) + MorePairs(pairs, end)))
    ensures Blanks(AheadOfPair(pairs, end)) && LaidPair(pairs[0]) && PlainPairs(pairs[1..]) && Delimited(pairs[0].key)
    ensures Plain(pairs[0].doc) && EndFound(pairs[0].doc) && Laid(pairs[0].doc)
  {
    hide DocText, Plain, EndFound, Blanks, Laid, KeyText, Delimited;
    if |pairs| == 1 {
      assert end + "" == end;
    }
  }

  lemma NoPairsText(end: string)
    ensures PairsText([], end) == end
  {
  }

  lemma InnerPair(pairs: seq<Pair>, end: string)
    requires pairs != []
    ensures AheadOfPair(pairs, end) + MorePairs(pairs, end)
         == if |pairs| == 1 then end else pairs[1].ahead + ("," + PairsText(pairs[1..], end))
  {
    hide PairsText;
    assert end + "" == end;
  }

  /** Trimming what follows a pair at its back drops the white space at its end only. */
  lemma {:induction false} PairsTrimBack(pairs: seq<Pair>, end: string)
    requires PlainPairs(pairs) && Blanks(end)
    ensures TrimBack(PairsText(pairs, end)) == PairsText(pairs, "")
    decreases |pairs|
  {
    hide *;
    if pairs == [] {
      BlanksTrimAway(end);
      NoPairsText(end);
      NoPairsText("");
    } else {
      NoBlanks();
      FirstPairOf(pairs, end);
      FirstPairOf(pairs, "");
      DocEnds(pairs[0].doc);
      TrimTightHeadBehind(KeyText(pairs[0]), DocText(pairs[0].doc), AheadOfPair(pairs, end) + MorePairs(pairs, end));
      InnerPair(pairs, end);
      InnerPair(pairs, "");
      if |pairs| == 1 {
        BlanksTrimAway(end);
      } else {
        PairsTrimBack(pairs[1..], end);
        TrimSeparated(pairs[1].ahead, PairsText(pairs[1..], end));
      }
    }
  }

  lemma {:induction false} PairsReadBack(lead: string, pairs: seq<Pair>, end: string, obj: seq<Member>, stack: Stack)
    requires PlainPairs(pairs) && Blanks(end) && Muted(lead)
    requires pairs == [] ==> lead == "" && end == ""
    ensures GoodPart(PairsValue(obj, pairs), FilledPairs(pairs), stack,
                     ReadMembers(lead + PairsText(pairs, end), obj, stack))
    decreases pairs, 0, 1
  {
    hide *;
    if pairs == [] {
      NoPairsText("");
      assert lead + "" == "";
      NoMembersLeft(obj, stack);
      NoPairsValue(obj, stack);
    } else {
      PairsStep(lead, pairs, end, obj, stack);
    }
  }

  lemma NoPairsValue(obj: seq<Member>, stack: Stack)
    ensures GoodPart(PairsValue(obj, []), FilledPairs([]), stack, Part(Obj(obj), stack))
  {
  }

  lemma {:induction false} PairsStep(lead: string, pairs: seq<Pair>, end: string, obj: seq<Member>, stack: Stack)
    requires pairs != [] && PlainPairs(pairs) && Blanks(end) && Muted(lead)
    ensures GoodPart(PairsValue(obj, pairs), FilledPairs(pairs), stack,
                     ReadMembers(lead + PairsText(pairs, end), obj, stack))
    decreases pairs, 0, 0
  {
    hide *;
    var p, ahead, more := pairs[0], AheadOfPair(pairs, end), MorePairs(pairs, end);
    FirstPairOf(pairs, end);
    PairsValueCons(pairs, obj);
    FilledPairsCons(pairs);
    if p.key == "" {
      EmptyKeyFails(lead, p, DocText(p.doc) + (ahead + more), obj, stack);
      FailedPart(FilledPairs(pairs), stack);
    } else {
      var after, rest := PairReadsBack(lead, p, ahead, more, obj, stack);
      var next, left := NextPairs(pairs, end, rest);
      PairsReadBack(next, pairs[1..], left, Insert(obj, p.key, ReadBack(p.doc)), after);
      ComposeParts(PairsValue(obj, pairs), Filled(p.doc), FilledPairs(pairs[1..]), stack, after,
                   ReadMembers(lead + PairsText(pairs, end), obj, stack));
    }
  }

  /** What is left behind a pair: nothing, or white space, a comma and the pairs that follow. */
  lemma NextPairs(pairs: seq<Pair>, end: string, rest: string) returns (next: string, left: string)
    requires pairs != [] && PlainPairs(pairs) && Blanks(end)
    requires Left(AheadOfPair(pairs, end), MorePairs(pairs, end), rest)
    ensures Muted(next) && Blanks(left) && rest == next + PairsText(pairs[1..], left) && PlainPairs(pairs[1..])
    ensures pairs[1..] == [] ==> next == "" && left == ""
  {
    hide *;
    FirstPairOf(pairs, end);
    var ahead, more := AheadOfPair(pairs, end), MorePairs(pairs, end);
    LeftMeans(ahead, more, rest);
    NoBlanks();
    left := "";
    MorePairsIs(pairs, end);
    if |pairs| == 1 {
      BehindScalar(ahead, more);
      NoPairsText("");
      NothingIsMuted();
      next := "";
    } else {
      next := LeadOf(ahead, PairsText(pairs[1..], end), rest);
      PairsTrimBack(pairs[1..], end);
    }
  }

  lemma LeadOf(ahead: string, others: string, rest: string) returns (next: string)
    requires Blanks(ahead) && (rest == TrimBack("," + others) || rest == TrimBack(ahead + ("," + others)))
    ensures Muted(next) && rest == next + TrimBack(others)
  {
    hide TrimBack, Muted;
    TrimmedBehind(others);
    TrimSeparated(ahead, others);
    SeparatorIsMuted(ahead);
    var trimmed := TrimBack(others);
    assert ahead + ("," + trimmed) == ahead + "," + trimmed;
    next := if rest == "," + trimmed then "," else ahead + ",";
  }

  lemma LeftMeans(ahead: string, more: string, rest: string)
    requires Left(ahead, more, rest)
    ensures rest == TrimBack(more) || rest == TrimBack(ahead + more)
  {
    hide TrimBack;
  }

  lemma MorePairsIs(pairs: seq<Pair>, end: string)
    requires pairs != []
    ensures MorePairs(pairs, end) == if |pairs| == 1 then "" else "," + PairsText(pairs[1..], end)
    ensures |pairs| == 1 <==> pairs[1..] == []
  {
    hide PairsText;
  }

  lemma NothingIsMuted()
    ensures Muted("")
  {
  }

  lemma SeparatorIsMuted(ahead: string)
    requires Blanks(ahead)
    ensures Muted(",") && Muted(ahead + ",")
  {
  }

  lemma BlanksAreMuted(lead: string, before: string)
    requires Muted(lead) && Blanks(before)
    ensures Muted(lead + before)
  {
  }

  lemma KeySplits(lead: string, p: Pair, tail: string)
    ensures lead + (KeyText(p) + tail) == lead + p.before + ("\"" + p.key + "\"" + p.mid + ":" + (p.gap + tail))
  {
    var q := "\"" + p.key + "\"";
    assert KeyText(p) + tail == p.before + (q + p.mid + ":" + (p.gap + tail));
  }

  lemma EmptyKeyFails(lead: string, p: Pair, tail: string, obj: seq<Member>, stack: Stack)
    requires p.key == "" && LaidPair(p) && Muted(lead)
    ensures ReadMembers(lead + (KeyText(p) + tail), obj, stack) == Part(Null, stack)
  {
    hide NextKey, KeyText, Muted, Blanks, Delimited;
    MutedIsLegible("");
    NothingIsMuted();
    BlanksAreMuted(lead, p.before);
    KeySplits(lead, p, tail);
    NextKeyOfPair(lead + p.before, p.key, p.mid, p.gap + tail);
  }

  /** One pass of the object loop: the pair is stored and what follows is left. */
  lemma PairReadsBack(lead: string, p: Pair, ahead: string, more: string, obj: seq<Member>, stack: Stack)
      returns (after: Stack, rest: string)
    requires Delimited(p.key) && p.key != "" && Plain(p.doc) && EndFound(p.doc) && Laid(p.doc) && LaidPair(p)
    requires Muted(lead) && Blanks(ahead) && EndsScalar(more)
    ensures stack <= after && (Filled(p.doc) ==> after == stack) && Left(ahead, more, rest)
    ensures ReadMembers(lead + (KeyText(p) + (DocText(p.doc) + (ahead + more))), obj, stack)
         == ReadMembers(rest, Insert(obj, p.key, ReadBack(p.doc)), after)
    decreases p, 4
  {
    hide *;
    var tail := DocText(p.doc) + (ahead + more);
    LaidPairMeans(p);
    BlanksAreMuted(lead, p.before);
    KeySplits(lead, p, tail);
    NextKeyOfPair(lead + p.before, p.key, p.mid, p.gap + tail);
    DocumentReadsBack(p.doc, p.gap, ahead, more, stack);
    var r := ReadValue(p.gap + tail, stack);
    GoodMeans(p.doc, ahead, more, stack, r);
    after, rest := r.stack, r.rest;
    var str := lead + (KeyText(p) + tail);
    assert str != "";
    MembersPass(str, obj, stack);
  }

  lemma LaidPairMeans(p: Pair)
    requires LaidPair(p)
    ensures Blanks(p.ahead) && Blanks(p.before) && Blanks(p.mid) && Blanks(p.gap)
  {
  }
}
