/**
 Why nothing but a safe value comes back: a value of the weight of its text that came back from it was
 read without escapes, overwritten keys or brackets in the wrong place, element by element and member by
 member.  And no null is ever read into an array.
 */
module JsonConverse {
  import opened Options
  import opened CStrings
  import opened JsonText
  import opened JsonBrackets
  import opened JsonValue
  import opened JsonWriter
  import opened JsonReader
  import opened JsonPrinted
  import opened JsonDocument
  import opened JsonRoundTrip
  import opened JsonSafe
  import opened JsonWeights

  // ---------------------------------------------------------------- the parts of a printed text

  /** What follows the first element in the printed list. */
  function AfterFirst(items: seq<Value>): (t: string)
    requires items != [] && forall i :: 0 <= i < |items| ==> DoubleFree(items[i])
    ensures EndsScalar(t) && TrimBack(t) == t
    ensures Behind(t) == ItemsText(items[1..])
  {
    if |items| == 1 then "" else "," + ItemsText(items[1..])
  }

  lemma FirstElementText(items: seq<Value>)
    requires items != [] && forall i :: 0 <= i < |items| ==> DoubleFree(items[i])
    ensures ItemsText(items) == ValueText(items[0]) + AfterFirst(items)
  {
    hide DoubleFree, ValueText, Tight, TrimBack;
  }

  lemma CutText(t: string, rest: string)
    ensures (t + rest)[..|t|] == t + ""
    ensures (t + rest)[Min(|t| + 1, |t + rest|)..] == Behind(rest)
  {
  }

  function AfterFirstMember(fields: seq<Member>): (t: string)
    requires fields != [] && forall i :: 0 <= i < |fields| ==> DoubleFree(fields[i].value)
    ensures EndsScalar(t) && TrimBack(t) == t
    ensures t == if |fields| == 1 then "" else "," + MembersText(fields[1..])
  {
    if |fields| == 1 then "" else "," + MembersText(fields[1..])
  }

  lemma FirstMemberText(fields: seq<Member>)
    requires fields != [] && forall i :: 0 <= i < |fields| ==> DoubleFree(fields[i].value)
    ensures MembersText(fields) == MemberText(fields[0]) + AfterFirstMember(fields)
  {
    hide DoubleFree, MemberText, Tight, TrimBack, EndsScalar;
    Separated(MemberText(fields[0]), MembersText(fields[1..]));
  }

  lemma Separated(a: string, b: string)
    ensures a + "" == a && a + "," + b == a + ("," + b)
  {
  }

  lemma PairSplits(lead: string, m: Member, rest: string)
    requires DoubleFree(m.value)
    ensures lead + (MemberText(m) + rest) == lead + ("\"" + m.key + "\":" + (ValueText(m.value) + rest))
  {
  }

  // ---------------------------------------------------------------- nulls need nothing

  lemma {:induction false} NeedOfDropped(v: Value)
    ensures Need(DropArrayNulls(v)) == Need(v)
    decreases v, 1
  {
    hide Weight;
    match v {
      case Arr(items) => NeedOfDroppedItems(items);
      case Obj(fields) => NeedOfDroppedMembers(fields);
      case _ =>
    }
  }

  lemma {:induction false} NeedOfDroppedItems(items: seq<Value>)
    ensures NeedItems(DropItems(items)) == NeedItems(items)
    decreases items, 0
  {
    hide Weight, Need, DropArrayNulls;
    if items != [] {
      NeedOfDropped(items[0]);
      NeedOfDroppedItems(items[1..]);
      NullNeedsNothing();
      var first := DropArrayNulls(items[0]);
      NeedOfOne(first, Member("", first));
      NeedItemsConcat([first], DropItems(items[1..]));
      assert [] + DropItems(items[1..]) == DropItems(items[1..]);
    }
  }

  lemma {:induction false} NeedOfDroppedMembers(fields: seq<Member>)
    ensures NeedMembers(DropMembers(fields)) == NeedMembers(fields)
    decreases fields, 0
  {
    hide Weight, Need, DropArrayNulls;
    if fields != [] {
      NeedOfDropped(fields[0].value);
      NeedOfDroppedMembers(fields[1..]);
      var first := Member(fields[0].key, DropArrayNulls(fields[0].value));
      NeedOfOne(first.value, first);
      NeedMembersConcat([first], DropMembers(fields[1..]));
    }
  }

  // ---------------------------------------------------------------- one string

  lemma DelimitedVerbatimIsMuted(s: string)
    requires Delimited(s) && Verbatim(s)
    ensures Muted(s)
  {
    hide QuotePos;
    var t := s + "\"";
    if s != "" && s[|s| - 1] == '\\' {
      LastBackslashProtects(t, 0, |s|);
    }
    forall k | 0 <= k < |s| ensures Mute(s[k]) {
      if s[k] == '"' {
        PassedQuotesAreProtected(t, 0, false, |s|, k);
      }
    }
  }

  /** A lone backslash protects the quote behind it, so the search does not stop there. */
  lemma {:induction false} LastBackslashProtects(t: string, i: nat, e: nat)
    requires i < e < |t| && t[e] == '"' && t[e - 1] == '\\' && forall k :: i <= k < e - 1 ==> t[k] != '\\'
    ensures QuotePos(t, i, false) != Some(e)
    decreases e - i
  {
    if i + 1 == e {
      assert QuotePos(t, i, false) == QuotePos(t, e, true) == QuotePos(t, e + 1, false);
    } else if t[i] != '"' {
      LastBackslashProtects(t, i + 1, e);
    }
  }

  lemma TrimKeepsMuted(s: string)
    requires Muted(s)
    ensures Muted(Trim(s))
  {
    hide Trim;
    var a := TrimWindow(s);
    forall k | 0 <= k < |Trim(s)| ensures Mute(Trim(s)[k]) {
      assert Trim(s)[k] == s[a + k];
    }
  }

  lemma StringTextWeighs(s: string, rest: string)
    ensures Weight("\"" + s + "\"" + rest) == 2 + Weight(s) + Weight(rest)
  {
    hide Weight;
    WeightBetween("\"", s, "\"");
    WeightConcat("\"" + s + "\"", rest);
  }

  lemma QuoteAfter(s: string, rest: string)
    ensures var str := "\"" + s + "\"" + rest;
            && At(str, 1, s + "\"") && str[1..|s| + 1] == s && str[|s| + 2..] == rest && str[0] == '"'
  {
    var str := "\"" + s + "\"" + rest;
    assert str[1..|s| + 2] == s + "\"";
  }

  lemma FoundIsDelimited(str: string, e: nat)
    requires str != "" && QuotePos(str, 1, false) == Some(e)
    ensures 1 <= e < |str| && Delimited(str[1..e])
  {
    hide QuotePos, Delimited;
    var raw := str[1..e];
    assert At(str, 1, raw + "\"") by { assert str[1..e + 1] == raw + "\""; }
    ClosingQuoteExactlyWhenDelimited(str, 1, raw);
  }

  /** A string that came back from its text and lost no weight there is muted and tight. */
  lemma StringCameBack(s: string, rest: string, stack: Stack)
    requires var r := ReadQuoted("\"" + s + "\"" + rest, stack);
             r.Done? && !r.failed && r.value == Str(s) && Weight(r.rest) == Weight(rest)
    ensures Muted(s) && Tight(s) && ReadQuoted("\"" + s + "\"" + rest, stack).rest == rest
  {
    hide QuotePos, Unescape, Weight, Verbatim, Muted, Tight, Trim, Delimited, ReadQuoted, At;
    var str := "\"" + s + "\"" + rest;
    StringTextWeighs(s, rest);
    QuoteAfter(s, rest);
    QuotedConserves(str, stack);
    var e := QuotePos(str, 1, false).value;
    var raw := str[1..e];
    FoundIsDelimited(str, e);
    DelimitedVerbatimIsMuted(raw);
    DecodedVerbatim(raw);
    TrimKeepsMuted(raw);
    MutedIsLegible(s);
    ClosingQuoteExactlyWhenDelimited(str, 1, s);
    TrimIsIdentityExactlyOnTight(s);
  }

  lemma DecodedVerbatim(s: string)
    requires Verbatim(s)
    ensures Unescape(s) == Some(Trim(s))
  {
    hide Trim, Verbatim, UnescapeFrom;
    UnescapeVerbatim(s, 0);
    assert s[0..] == s;
  }

  // ---------------------------------------------------------------- one nested value

  lemma {:induction false} ScanEndsAtCloser(str: string, i: nat, quoted: bool, stack: Stack, frame: nat)
    requires 1 <= i && 1 <= frame <= |stack|
    ensures var m := Scan(str, i, quoted, stack, frame); m.End? && m.pos < |str| ==> Closes(str[m.pos])
    decreases |str| - i
  {
    if i < |str| {
      var c := str[i];
      if c == '"' {
        ScanEndsAtCloser(str, i + 1, if str[i - 1] != '\\' then !quoted else quoted, stack, frame);
      } else if !quoted && Opens(c) {
        ScanEndsAtCloser(str, i + 1, quoted, stack + [KindOf(c)], frame);
      } else if !quoted && Closes(c) {
        if Last(stack) == KindOf(c) && |stack| > frame {
          ScanEndsAtCloser(str, i + 1, quoted, Front(stack), frame);
        }
      } else {
        ScanEndsAtCloser(str, i + 1, quoted, stack, frame);
      }
    }
  }

  lemma CloserWeighs(t: string)
    requires t != "" && Closes(t[|t| - 1])
    ensures Weight(t) >= 1
  {
    hide Weight;
    WeightSplit(t, |t| - 1);
    assert t[|t| - 1..] == [t[|t| - 1]];
    WeightOfChar(t[|t| - 1]);
  }

  /** When the text before a closing bracket at pos weighs as much as t, and t ends in a closing bracket,
      the two ends are the same. */
  lemma SameEnd(t: string, rest: string, pos: nat)
    requires t != "" && Closes(t[|t| - 1]) && pos < |t + rest| && Closes((t + rest)[pos])
    requires Weight((t + rest)[..pos + 1]) == Weight(t)
    ensures pos == |t| - 1
  {
    hide Weight, Closes;
    var str := t + rest;
    if pos + 1 < |t| {
      assert str[..pos + 1] == t[..pos + 1];
      WeightSplit(t, pos + 1);
      assert t[pos + 1..][|t[pos + 1..]| - 1] == t[|t| - 1];
      CloserWeighs(t[pos + 1..]);
    } else if pos + 1 > |t| {
      var more := str[|t|..pos + 1];
      assert str[..pos + 1] == t + more;
      WeightConcat(t, more);
      assert more[|more| - 1] == str[pos];
      CloserWeighs(more);
    }
  }

  lemma ContainerText(x: Value)
    requires DoubleFree(x) && (x.Arr? || x.Obj?)
    ensures var t := ValueText(x);
            && Closes(t[|t| - 1]) && t[0] == (if x.Arr? then '[' else '{') && Tight(t)
  {
    hide ItemsText, MembersText;
  }

  /** A nested value that came back and lost no weight was cut out of the text at its own end. */
  lemma NestedCameBack(x: Value, rest: string, stack: Stack)
    requires DoubleFree(x) && (x.Arr? || x.Obj?)
    requires var r := ReadNested(ValueText(x) + rest, stack, KindOfValue(x));
             r.Done? && !r.failed && r.value == DropArrayNulls(x) && Weight(r.rest) == Weight(rest)
    ensures EndIsFound(x) && ReadNested(ValueText(x) + rest, stack, KindOfValue(x)).rest == rest
    ensures var p := if x.Arr? then ReadArray(ValueText(x), stack) else ReadWhole(ValueText(x), stack);
            p.Part? && p.value == DropArrayNulls(x)
  {
    hide Scan, ReadArray, ReadWhole, ValueText, DoubleFree, DropArrayNulls, Weight, Need, EndIsFound, Closes, Tight;
    var t, kind := ValueText(x), KindOfValue(x);
    var str := t + rest;
    NestedConserves(str, stack, kind);
    NeedIsWeight(x);
    NeedOfDropped(x);
    WeightConcat(t, rest);
    var m := Scan(str, 1, false, stack + [kind], |stack| + 1);
    WeightSplit(str, m.pos + 1);
    ScanEndsAtCloser(str, 1, false, stack + [kind], |stack| + 1);
    ContainerText(x);
    SameEnd(t, rest, m.pos);
    ScanFindsEnd(x, rest, stack);
    assert str[..|t|] == t && str[|t|..] == rest;
  }

  // ---------------------------------------------------------------- values, elements, members

  /** A value that came back from its text and lost no weight there is safe. */
  lemma {:induction false} ValueCameBack(x: Value, rest: string, stack: Stack)
    requires DoubleFree(x) && WellFormed(x) && EndsScalar(rest) && TrimBack(rest) == rest
    requires var r := ReadValue(ValueText(x) + rest, stack);
             r.Done? && !r.failed && r.value == DropArrayNulls(x) && Weight(r.rest) == Weight(rest)
    ensures Safe(x) && EndIsFound(x) && ReadValue(ValueText(x) + rest, stack).rest == rest
    decreases x, 3
  {
    hide ReadValue, ReadNested, ReadQuoted, ReadScalar, Weight, Scan, ReadArray, ReadWhole, Trim, TrimBack;
    hide DropArrayNulls, DoubleFree, WellFormed, Safe, EndIsFound, ValueText;
    var t := ValueText(x);
    TrimKeepsTightHead(t, rest);
    ValueBranches(t + rest, stack);
    assert (t + rest)[0] == t[0];
    if x.Str? {
      StringParts(x);
      StringCameBack(x.s, rest, stack);
    } else if x.Arr? || x.Obj? {
      ContainerText(x);
      NestedCameBack(x, rest, stack);
      if x.Arr? {
        ArrayCameBack(x, stack);
      } else {
        WholeCameBack(x, stack);
      }
    } else {
      ScalarIsSafe(x);
      ScalarComesBack(x, rest, stack);
    }
  }

  lemma StringParts(x: Value)
    requires x.Str?
    ensures DropArrayNulls(x) == x && DoubleFree(x) && ValueText(x) == "\"" + x.s + "\""
    ensures EndIsFound(x) && (Muted(x.s) && Tight(x.s) ==> Safe(x))
  {
    hide Muted, Tight;
  }

  lemma ScalarIsSafe(x: Value)
    requires DoubleFree(x) && !x.Str? && !x.Arr? && !x.Obj?
    ensures Safe(x) && EndIsFound(x) && DropArrayNulls(x) == x
    ensures x.Null? || x.Bool? || x.Int?
  {
  }

  lemma ScalarDocument(x: Value)
    requires x.Null? || x.Bool? || x.Int?
    ensures var d := Word(x);
            && DoubleFree(x) && DocText(d) == ValueText(x)
            && Plain(d) && Laid(d) && EndFound(d) && ReadBack(d) == x && Filled(d)
  {
    hide ValueText, DocText;
    WordText(x);
  }

  lemma ScalarComesBack(x: Value, rest: string, stack: Stack)
    requires DoubleFree(x) && (x.Null? || x.Bool? || x.Int?) && EndsScalar(rest) && TrimBack(rest) == rest
    ensures ReadValue(ValueText(x) + rest, stack) == Done(x, false, rest, stack)
  {
    hide *;
    ScalarDocument(x);
    Blankless(ValueText(x), rest);
    DocumentReadsBack(Word(x), "", "", rest, stack);
    var r := ReadValue(ValueText(x) + rest, stack);
    GoodMeans(Word(x), "", rest, stack, r);
    LeftMeans("", rest, r.rest);
  }

  lemma Blankless(t: string, rest: string)
    ensures Blanks("") && "" + (t + ("" + rest)) == t + rest && "" + rest == rest
  {
  }

  lemma ScalarElementComesBack(x: Value, rest: string, a: seq<Value>, stack: Stack) returns (after: Stack)
    requires DoubleFree(x) && (x.Null? || x.Bool? || x.Int?) && EndsScalar(rest) && TrimBack(rest) == rest
    ensures ReadElements(ValueText(x) + rest, a, stack) == ReadElements(Behind(rest), Pushed(a, x), after)
  {
    hide *;
    ScalarDocument(x);
    Blankless(ValueText(x), rest);
    var next;
    after, next := ElementReadsBack(Word(x), "", "", rest, a, stack);
  }

  lemma {:induction false} ArrayCameBack(x: Value, stack: Stack)
    requires DoubleFree(x) && WellFormed(x) && x.Arr?
    requires var p := ReadArray(ValueText(x), stack); p.Part? && p.value == DropArrayNulls(x)
    ensures Safe(x)
    decreases x, 1
  {
    hide ReadElements, ItemsText, Trim, InsideArray, SafeItems, AnyExposed, DropItems;
    InsideBrackets(ItemsText(x.items));
    assert [] + DropItems(x.items) == DropItems(x.items);
    ElementsCameBack(x.items, [], stack);
  }

  lemma {:induction false} WholeCameBack(x: Value, stack: Stack)
    requires DoubleFree(x) && WellFormed(x) && (x.Arr? || x.Obj?)
    requires var p := ReadWhole(ValueText(x), stack); p.Part? && p.value == DropArrayNulls(x)
    ensures Safe(x)
    decreases x, 2
  {
    hide ReadArray, ReadMembers, ItemsText, MembersText, Trim, Safe, SafeMembers, DropItems, DropMembers;
    var t := ValueText(x);
    TrimIsIdentityExactlyOnTight(t);
    if x.Arr? {
      ArrayCameBack(x, stack + [InArray]);
    } else {
      var inner := MembersText(x.fields);
      assert t[1..|t| - 1] == inner == "" + inner;
      assert [] + DropMembers(x.fields) == DropMembers(x.fields);
      DroppedStaysSorted(x.fields);
      MembersCameBack("", x.fields, [], stack + [InObject]);
      SafeObject(x);
    }
  }

  lemma DroppedStaysSorted(fields: seq<Member>)
    requires Sorted(fields)
    ensures Sorted(DropMembers(fields))
  {
    hide Less, DropMembers;
  }

  lemma SafeObject(x: Value)
    requires x.Obj? && SafeMembers(x.fields)
    ensures Safe(x)
  {
    hide SafeMembers;
  }

  // ---------------------------------------------------------------- elements

  /** What came back from the text of a list of elements, behind those already read, are safe elements. */
  lemma {:induction false} ElementsCameBack(items: seq<Value>, a: seq<Value>, stack: Stack)
    requires forall i :: 0 <= i < |items| ==> DoubleFree(items[i]) && WellFormed(items[i])
    requires var p := ReadElements(ItemsText(items), a, stack); p.Part? && p.value == Arr(a + DropItems(items))
    ensures SafeItems(items) && !AnyExposed(items)
    decreases items, 1
  {
    hide *;
    if items == [] {
      NoneAreSafe();
    } else {
      TailFits(items);
      KeptGoesOn(items, a);
      var after := ElementCameBack(items, a, stack);
      ElementsCameBack(items[1..], Kept(a, items[0]), after);
      SafeItemsCons(items);
    }
  }

  /** The elements read when one more came back. */
  function Kept(a: seq<Value>, v: Value): seq<Value> {
    if v.Null? then a else a + [DropArrayNulls(v)]
  }

  lemma SafeItemsCons(items: seq<Value>)
    requires items != []
    ensures SafeItems(items) <==> Safe(items[0]) && EndIsFound(items[0]) && SafeItems(items[1..])
    ensures AnyExposed(items) <==> (items[0].Str? && Exposed(items[0].s)) || AnyExposed(items[1..])
  {
    hide Safe, EndIsFound, Exposed;
  }

  lemma TailFits(items: seq<Value>)
    requires items != [] && forall i :: 0 <= i < |items| ==> DoubleFree(items[i]) && WellFormed(items[i])
    ensures DoubleFree(items[0]) && WellFormed(items[0])
    ensures forall i :: 0 <= i < |items[1..]| ==> DoubleFree(items[1..][i]) && WellFormed(items[1..][i])
  {
    hide *;
  }

  lemma KeptGoesOn(items: seq<Value>, a: seq<Value>)
    requires items != []
    ensures a + DropItems(items) == Kept(a, items[0]) + DropItems(items[1..])
  {
    hide *;
    DroppedFirst(items);
    KeptIs(a, items[0]);
    var rest := DropItems(items[1..]);
    if items[0].Null? {
      assert [] + rest == rest;
    } else {
      var first := [DropArrayNulls(items[0])];
      assert a + (first + rest) == a + first + rest;
    }
  }

  lemma FirstOfFinal(items: seq<Value>, a: seq<Value>)
    requires items != [] && !items[0].Null?
    ensures |a + DropItems(items)| > |a| && (a + DropItems(items))[|a|] == DropArrayNulls(items[0])
  {
    hide *;
    DroppedFirst(items);
  }

  lemma DroppedFirst(items: seq<Value>)
    requires items != []
    ensures DropItems(items) == (if items[0].Null? then [] else [DropArrayNulls(items[0])]) + DropItems(items[1..])
  {
    hide DropArrayNulls;
  }

  lemma KeptIs(a: seq<Value>, v: Value)
    ensures Kept(a, v) == if v.Null? then a else a + [DropArrayNulls(v)]
  {
    hide DropArrayNulls;
  }

  /** The first of the elements: it came back, and the loop goes on behind its comma. */
  lemma {:induction false} ElementCameBack(items: seq<Value>, a: seq<Value>, stack: Stack) returns (after: Stack)
    requires items != [] && forall i :: 0 <= i < |items| ==> DoubleFree(items[i]) && WellFormed(items[i])
    requires var p := ReadElements(ItemsText(items), a, stack); p.Part? && p.value == Arr(a + DropItems(items))
    ensures Safe(items[0]) && EndIsFound(items[0]) && !(items[0].Str? && Exposed(items[0].s))
    ensures ReadElements(ItemsText(items), a, stack) == ReadElements(ItemsText(items[1..]), Kept(a, items[0]), after)
    decreases items, 0, 1
  {
    hide *;
    var x, rest := items[0], AfterFirst(items);
    FirstElementText(items);
    if x.Str? || x.Arr? || x.Obj? {
      if OpensFirst(ItemsText(items)) {
        after := WholeElementCameBack(items, a, stack);
        Blankless("", rest);
        AfterComma("", rest, Kept(a, x), after);
      } else {
        after := CutElementCameBack(items, a, stack);
      }
    } else {
      ScalarIsSafe(x);
      KeptIsPushed(a, x);
      after := ScalarElementComesBack(x, rest, a, stack);
    }
  }

  lemma KeptIsPushed(a: seq<Value>, x: Value)
    requires DropArrayNulls(x) == x
    ensures Kept(a, x) == Pushed(a, x)
  {
    hide DropArrayNulls;
  }

  /** A pass of the array loop that read y, in a run that gave the elements of the list: y is the first of
      them, and no weight was lost. */
  lemma PassGaveFirst(items: seq<Value>, a: seq<Value>, stack: Stack, r: Outcome, next: string)
    requires items != [] && forall i :: 0 <= i < |items| ==> DoubleFree(items[i]) && WellFormed(items[i])
    requires var p := ReadElements(ItemsText(items), a, stack); p.Part? && p.value == Arr(a + DropItems(items))
    requires !items[0].Null? && r.Done? && !r.failed
    requires ReadElements(ItemsText(items), a, stack) == ReadElements(next, Pushed(a, r.value), r.stack)
    requires r.value.Null? ==> Weight(next) < Weight(ItemsText(items))
    ensures r.value == DropArrayNulls(items[0])
    ensures Weight(ItemsText(items)) <= Need(r.value) + Weight(next)
  {
    hide Weight, Need, NeedItems, ReadElements, DoubleFree, WellFormed, DropItems, ItemsText, DropArrayNulls;
    var final := a + DropItems(items);
    FirstOfFinal(items, a);
    ElementsConserve(next, Pushed(a, r.value), r.stack);
    ItemsWeight(items);
    NeedOfDroppedItems(items);
    NeedItemsConcat(a, DropItems(items));
    PushedNeeds(a, r.value);
    assert NeedItems(Pushed(a, r.value)) == NeedItems(a) + Need(r.value);
    NullNeedsNothing();
    assert !r.value.Null?;
    assert final[|a|] == r.value by { assert Pushed(a, r.value) <= final; assert Pushed(a, r.value)[|a|] == r.value; }
  }

  lemma ElementStart(x: Value, rest: string)
    requires DoubleFree(x) && (x.Str? || x.Arr? || x.Obj?)
    ensures var str := ValueText(x) + rest;
            && str != "" && CharWeight(str[0]) == 1 && str[0] == ValueText(x)[0]
            && (x.Str? <==> str[0] == '"') && (x.Arr? <==> str[0] == '[') && (x.Obj? <==> str[0] == '{')
  {
    hide ItemsText, MembersText;
  }

  /** When the first value read is null though the text starts with a quote or bracket, weight is lost. */
  lemma NullLosesWeight(x: Value, rest: string, stack: Stack)
    requires DoubleFree(x) && (x.Str? || x.Arr? || x.Obj?) && TrimBack(rest) == rest
    requires var r := ReadValue(ValueText(x) + rest, stack); r.Done? && !r.failed && r.value.Null?
    ensures Weight(ReadValue(ValueText(x) + rest, stack).rest) < Weight(ValueText(x) + rest)
  {
    hide Scan, ReadNested, ReadQuoted, ReadScalar, ReadValue, ValueText, Weight, Need, Trim, TrimBack, DoubleFree, CharWeight;
    var str := ValueText(x) + rest;
    TrimKeepsTightHead(ValueText(x), rest);
    ElementStart(x, rest);
    ValueBranches(str, stack);
    if x.Str? {
      QuotedConserves(str, stack);
    } else {
      var kind := KindOfValue(x);
      NestedConserves(str, stack, kind);
      var m := Scan(str, 1, false, stack + [kind], |stack| + 1);
      WeightSplit(str, m.pos + 1);
      HeadWeighs(str[..m.pos + 1]);
    }
  }

  lemma HeadWeighs(t: string)
    requires t != "" && CharWeight(t[0]) == 1
    ensures Weight(t) >= 1
  {
  }

  lemma {:induction false} WholeElementCameBack(items: seq<Value>, a: seq<Value>, stack: Stack) returns (after: Stack)
    requires items != [] && (forall i :: 0 <= i < |items| ==> DoubleFree(items[i]) && WellFormed(items[i]))
    requires (items[0].Str? || items[0].Arr? || items[0].Obj?) && OpensFirst(ItemsText(items))
    requires var p := ReadElements(ItemsText(items), a, stack); p.Part? && p.value == Arr(a + DropItems(items))
    ensures Safe(items[0]) && EndIsFound(items[0]) && !(items[0].Str? && Exposed(items[0].s))
    ensures ReadElements(ItemsText(items), a, stack) == ReadElements(AfterFirst(items), Kept(a, items[0]), after)
    decreases items, 0, 0
  {
    hide *;
    var x, rest := items[0], AfterFirst(items);
    var str := ItemsText(items);
    FirstElementText(items);
    ElementStart(x, rest);
    ElementsPass(str, a, stack);
    var r := ReadValue(str, stack);
    WholePass(str, a, stack, r);
    if r.value.Null? {
      NullLosesWeight(x, rest, stack);
    }
    PassGaveFirst(items, a, stack, r, r.rest);
    NeedIsWeight(x);
    NeedOfDropped(x);
    WeightConcat(ValueText(x), rest);
    ValueConserves(str, stack);
    ConservesMeans(str, r);
    ValueCameBack(x, rest, stack);
    NotExposedWhenWhole(x, rest);
    KeptNonNull(a, x);
    after := r.stack;
  }

  lemma KeptNonNull(a: seq<Value>, x: Value)
    requires !x.Null?
    ensures Kept(a, x) == Pushed(a, DropArrayNulls(x))
  {
  }

  lemma ExposedIsCut(x: Value, rest: string)
    requires x.Str? && DoubleFree(x) && Exposed(x.s)
    ensures !OpensFirst(ValueText(x) + rest)
  {
    var t := ValueText(x);
    FirstStopQuoted(x.s);
    assert t[FirstStop(t, 0)] == x.s[FirstStop(x.s, 0)];
    FirstStopInHead(t, rest);
  }

  lemma NotExposedWhenWhole(x: Value, rest: string)
    requires DoubleFree(x) && OpensFirst(ValueText(x) + rest)
    ensures !(x.Str? && Exposed(x.s))
  {
    hide Exposed, OpensFirst, ValueText;
    if x.Str? && Exposed(x.s) {
      ExposedIsCut(x, rest);
    }
  }

  /** A container starts with a bracket, so it is never cut. */
  lemma CutIsString(x: Value, rest: string)
    requires DoubleFree(x) && (x.Str? || x.Arr? || x.Obj?) && !OpensFirst(ValueText(x) + rest)
    ensures x.Str?
  {
    hide ItemsText, MembersText;
  }

  /** Where the array loop cuts a string that is all of what it then hands on. */
  lemma CutAtEnd(s: string, rest: string)
    requires EndsScalar(rest) && !OpensFirst("\"" + s + "\"" + rest)
    requires |s| + 2 <= FirstStop("\"" + s + "\"" + rest, 0)
    ensures FirstStop("\"" + s + "\"" + rest, 0) == |s| + 2 && !Exposed(s)
  {
    hide FirstStop, OpensFirst;
    var t := "\"" + s + "\"";
    FirstStopQuoted(s);
    if FirstStop(t, 0) < |t| {
      FirstStopInHead(t, rest);
    } else {
      FirstStopBehind(t, rest);
    }
  }

  /** The text that the array loop hands on when it cuts, and the text it goes on with. */
  function CutHead(str: string): string {
    str[..FirstStop(str, 0)]
  }

  function CutTail(str: string): string {
    str[Min(FirstStop(str, 0) + 1, |str|)..]
  }

  lemma CutPartsWeigh(str: string)
    ensures Weight(CutHead(str)) + Weight(CutTail(str)) <= Weight(str)
    ensures |CutHead(str)| == FirstStop(str, 0)
  {
    hide Weight, FirstStop;
    CutWeighs(str, FirstStop(str, 0));
  }

  lemma CutBehind(t: string, rest: string)
    requires FirstStop(t + rest, 0) == |t|
    ensures CutHead(t + rest) == t && CutTail(t + rest) == Behind(rest)
  {
    hide FirstStop;
    CutText(t, rest);
    assert t + "" == t;
  }

  lemma CutHeadStarts(str: string)
    requires str != "" && str[0] == '"'
    ensures CutHead(str) != "" && CutHead(str)[0] == '"' && Weight(CutHead(str)) >= 1
  {
    hide Weight;
    assert FirstStop(str, 0) > 0;
    QuoteWeighs();
    HeadWeighs(CutHead(str));
  }

  lemma QuoteWeighs()
    ensures CharWeight('"') == 1
  {
  }

  lemma CutPassOf(str: string, a: seq<Value>, stack: Stack)
    requires str != "" && !OpensFirst(str)
    ensures var r := ReadValue(CutHead(str), stack);
            ReadElements(str, a, stack) ==
              if r.Abort? then Broken
              else if r.failed then Part(Null, r.stack)
              else ReadElements(CutTail(str), Pushed(a, r.value), r.stack)
  {
    hide ReadElements, ReadValue, FirstStop, OpensFirst;
    ElementsPass(str, a, stack);
  }

  /** A pass of the array loop over a text that starts with a quote, when it cuts the text and the result
      is an array. */
  lemma CutReads(str: string, a: seq<Value>, stack: Stack) returns (r: Outcome)
    requires str != "" && str[0] == '"' && !OpensFirst(str)
    requires var p := ReadElements(str, a, stack); p.Part? && p.value.Arr?
    ensures r == ReadValue(CutHead(str), stack) && r.Done? && !r.failed && r.value.Str?
    ensures |r.value.s| + 2 <= FirstStop(str, 0) && Weight(CutTail(str)) < Weight(str)
    ensures ReadElements(str, a, stack) == ReadElements(CutTail(str), Pushed(a, r.value), r.stack)
  {
    hide *;
    CutPassOf(str, a, stack);
    CutPartsWeigh(str);
    CutHeadStarts(str);
    r := ReadValue(CutHead(str), stack);
    QuotedIsShort(CutHead(str), stack);
  }

  /** A pass of the array loop that cut the text read the first of the elements, which is a string. */
  lemma CutGaveFirst(items: seq<Value>, a: seq<Value>, stack: Stack) returns (r: Outcome)
    requires items != [] && (forall i :: 0 <= i < |items| ==> DoubleFree(items[i]) && WellFormed(items[i]))
    requires (items[0].Str? || items[0].Arr? || items[0].Obj?) && !OpensFirst(ItemsText(items))
    requires var p := ReadElements(ItemsText(items), a, stack); p.Part? && p.value == Arr(a + DropItems(items))
    ensures var str := ItemsText(items);
            && r == ReadValue(CutHead(str), stack) && r.Done? && !r.failed
            && items[0].Str? && r.value == items[0] && |items[0].s| + 2 <= FirstStop(str, 0)
            && Weight(str) <= Need(r.value) + Weight(CutTail(str))
            && ReadElements(str, a, stack) == ReadElements(CutTail(str), Pushed(a, r.value), r.stack)
  {
    hide *;
    var x, rest := items[0], AfterFirst(items);
    var str := ItemsText(items);
    FirstElementText(items);
    ElementStart(x, rest);
    CutIsString(x, rest);
    StringParts(x);
    r := CutReads(str, a, stack);
    PassGaveFirst(items, a, stack, r, CutTail(str));
  }

  lemma {:induction false} CutElementCameBack(items: seq<Value>, a: seq<Value>, stack: Stack) returns (after: Stack)
    requires items != [] && (forall i :: 0 <= i < |items| ==> DoubleFree(items[i]) && WellFormed(items[i]))
    requires (items[0].Str? || items[0].Arr? || items[0].Obj?) && !OpensFirst(ItemsText(items))
    requires var p := ReadElements(ItemsText(items), a, stack); p.Part? && p.value == Arr(a + DropItems(items))
    ensures Safe(items[0]) && EndIsFound(items[0]) && !(items[0].Str? && Exposed(items[0].s))
    ensures ReadElements(ItemsText(items), a, stack) == ReadElements(ItemsText(items[1..]), Kept(a, items[0]), after)
    decreases items, 0, 0
  {
    hide *;
    var x, rest := items[0], AfterFirst(items);
    var r := CutGaveFirst(items, a, stack);
    FirstElementText(items);
    StringParts(x);
    CutStringCameBack(x, rest, stack, r);
    KeptNonNull(a, x);
    after := r.stack;
  }

  /** The string that was cut off at its end: it came back, and lost no weight. */
  lemma {:induction false} CutStringCameBack(x: Value, rest: string, stack: Stack, r: Outcome)
    requires DoubleFree(x) && WellFormed(x) && x.Str? && DropArrayNulls(x) == x && EndsScalar(rest)
    requires ValueText(x) == "\"" + x.s + "\"" && !OpensFirst(ValueText(x) + rest)
    requires var str := ValueText(x) + rest;
             && r == ReadValue(CutHead(str), stack) && r.Done? && !r.failed && r.value == x
             && |x.s| + 2 <= FirstStop(str, 0) && Weight(str) <= Need(x) + Weight(CutTail(str))
    ensures Safe(x) && EndIsFound(x) && !Exposed(x.s)
    ensures CutTail(ValueText(x) + rest) == Behind(rest)
    decreases x, 4
  {
    hide *;
    var str := ValueText(x) + rest;
    CutAtEnd(x.s, rest);
    CutBehind(ValueText(x), rest);
    assert ValueText(x) + "" == ValueText(x);
    ValueConserves(CutHead(str), stack);
    ConservesMeans(CutHead(str), r);
    CutPartsWeigh(str);
    NullNeedsNothing();
    NothingIsTrimmed();
    ValueCameBack(x, "", stack);
  }

  /** A string is shorter than the text it was read from by its two quotes. */
  lemma QuotedIsShort(text: string, stack: Stack)
    requires text != "" && text[0] == '"'
    ensures var r := ReadValue(text, stack); r.Done? && !r.failed ==> r.value.Str? && |r.value.s| + 2 <= |text|
  {
    hide ReadNested, ReadScalar, ReadValue, QuotePos, TrimBack, TrimFront, UnescapeFrom, Trim;
    QuoteIsTight();
    assert text == "\"" + text[1..];
    TrimKeepsTightHead("\"", text[1..]);
    ValueBranches(text, stack);
  }

  lemma NothingIsTrimmed()
    ensures TrimBack("") == "" && EndsScalar("")
  {
  }

  // ---------------------------------------------------------------- members

  /** What came back from the text of a list of members, behind those already stored, are safe members. */
  lemma {:induction false} MembersCameBack(lead: string, fields: seq<Member>, obj: seq<Member>, stack: Stack)
    requires forall i :: 0 <= i < |fields| ==> DoubleFree(fields[i].value) && WellFormed(fields[i].value)
    requires Sorted(obj + DropMembers(fields)) && (lead == "" || (lead == "," && fields != []))
    requires var p := ReadMembers(lead + MembersText(fields), obj, stack);
             p.Part? && p.value == Obj(obj + DropMembers(fields))
    ensures SafeMembers(fields)
    decreases fields, 1
  {
    hide *;
    if fields == [] {
      NoneAreSafe();
    } else {
      var m, rest := fields[0], AfterFirstMember(fields);
      TailMembersFit(fields);
      DroppedFirstMember(fields);
      var after := MemberCameBack(lead, fields, obj, stack);
      var b := obj + [Member(m.key, DropArrayNulls(m.value))];
      assert b + DropMembers(fields[1..]) == obj + DropMembers(fields);
      if |fields| == 1 {
        assert fields[1..] == [];
        NoneAreSafe();
      } else {
        MembersCameBack(",", fields[1..], b, after);
      }
      SafeMembersCons(fields);
    }
  }

  lemma NoneAreSafe()
    ensures SafeMembers([]) && SafeItems([]) && !AnyExposed([]) && DropMembers([]) == [] && DropItems([]) == []
  {
  }

  lemma SafeMembersCons(fields: seq<Member>)
    requires fields != []
    ensures SafeMembers(fields) <==>
              && fields[0].key != "" && Delimited(fields[0].key) && Safe(fields[0].value) && EndIsFound(fields[0].value)
              && SafeMembers(fields[1..])
  {
    hide Delimited, Safe, EndIsFound;
  }

  lemma TailMembersFit(fields: seq<Member>)
    requires fields != [] && forall i :: 0 <= i < |fields| ==> DoubleFree(fields[i].value) && WellFormed(fields[i].value)
    ensures DoubleFree(fields[0].value) && WellFormed(fields[0].value)
    ensures forall i :: 0 <= i < |fields[1..]| ==> DoubleFree(fields[1..][i].value) && WellFormed(fields[1..][i].value)
  {
    hide *;
  }

  lemma DroppedFirstMember(fields: seq<Member>)
    requires fields != []
    ensures DropMembers(fields) == [Member(fields[0].key, DropArrayNulls(fields[0].value))] + DropMembers(fields[1..])
  {
    hide DropArrayNulls;
  }

  /** The weights around one pass of the object loop that led to the whole result: nothing was lost. */
  lemma PassLostNothing(fields: seq<Member>, obj: seq<Member>, str: string, text: string, y: Value, left: string,
                        final: seq<Member>)
    requires fields != [] && forall i :: 0 <= i < |fields| ==> DoubleFree(fields[i].value)
    requires final == obj + DropMembers(fields) && Weight(str) == Weight(MembersText(fields))
    requires 2 + Weight(fields[0].key) + Weight(text) <= Weight(str) && Need(y) + Weight(left) <= Weight(text)
    requires NeedMembers(final) <= NeedMembers(obj) + 2 + Weight(fields[0].key) + Need(y) + Weight(left)
    ensures Need(y) + Weight(left) == Weight(text)
    ensures NeedMembers(final) == NeedMembers(obj) + 2 + Weight(fields[0].key) + Need(y) + Weight(left)
  {
    hide Weight, Need, NeedMembers, DoubleFree, MembersText, DropMembers;
    MembersWeight(fields);
    NeedOfDroppedMembers(fields);
    NeedMembersConcat(obj, DropMembers(fields));
  }

  lemma LeadIsWeightless(lead: string, t: string)
    requires lead == "" || lead == ","
    ensures Weight(lead + t) == Weight(t)
  {
    hide Weight;
    WeightConcat(lead, t);
    WeightBetween("", "", "");
    NullNeedsNothing();
  }

  lemma KeyComesLast(fields: seq<Member>, obj: seq<Member>)
    requires fields != [] && Sorted(obj + DropMembers(fields))
    ensures Sorted(obj) && forall i :: 0 <= i < |obj| ==> Less(obj[i].key, fields[0].key) && obj[i].key != fields[0].key
    ensures forall y :: Member(fields[0].key, y) in obj + DropMembers(fields) ==> y == DropArrayNulls(fields[0].value)
  {
    hide Less;
    var all := obj + DropMembers(fields);
    var n := |obj|;
    assert all[n] == DropMembers(fields)[0];
    forall i | 0 <= i < n ensures Less(obj[i].key, fields[0].key) && obj[i].key != fields[0].key {
      assert all[i] == obj[i];
      LessIsStrict(obj[i].key, fields[0].key);
    }
    forall i, j | 0 <= i < j < n ensures Less(obj[i].key, obj[j].key) {
      assert all[i] == obj[i] && all[j] == obj[j];
    }
    forall y | Member(fields[0].key, y) in all ensures y == DropArrayNulls(fields[0].value) {
      var i :| 0 <= i < |all| && all[i] == Member(fields[0].key, y);
      if i < n {
        LessIsStrict(all[i].key, all[n].key);
      } else if n < i {
        LessIsStrict(all[n].key, all[i].key);
      }
    }
  }

  /** The first of the members: its key was found, its value came back, and the loop goes on behind it. */
  lemma {:induction false} MemberCameBack(lead: string, fields: seq<Member>, obj: seq<Member>, stack: Stack)
    returns (after: Stack)
    requires fields != [] && (forall i :: 0 <= i < |fields| ==> DoubleFree(fields[i].value) && WellFormed(fields[i].value))
    requires Sorted(obj + DropMembers(fields)) && (lead == "" || lead == ",")
    requires var p := ReadMembers(lead + MembersText(fields), obj, stack);
             p.Part? && p.value == Obj(obj + DropMembers(fields))
    ensures var m := fields[0];
            && m.key != "" && Delimited(m.key) && Safe(m.value) && EndIsFound(m.value)
            && ReadMembers(lead + MembersText(fields), obj, stack) ==
               ReadMembers(AfterFirstMember(fields), obj + [Member(m.key, DropArrayNulls(m.value))], after)
    decreases fields, 0
  {
    hide *;
    var m, rest := fields[0], AfterFirstMember(fields);
    var str := lead + MembersText(fields);
    var final := obj + DropMembers(fields);
    FirstMemberText(fields);
    KeyComesLast(fields, obj);
    FirstKeyIsDelimited(str, fields, obj, stack);
    PairSplits(lead, m, rest);
    var text := ValueText(m.value) + rest;
    LeadIsMuted(lead);
    KeyAndColon(lead, m.key, text);
    NextKeyOfPair(lead, m.key, "", text);
    NotEmpty(lead, m, rest);
    MembersPass(str, obj, stack);
    var r := ReadValue(text, stack);
    var y := r.value;
    InsertAtEnd(obj, m.key, y);
    var b := obj + [Member(m.key, y)];
    // weights
    LeadIsWeightless(lead, MembersText(fields));
    NextKeyWeighs(str);
    ValueConserves(text, stack);
    ConservesMeans(text, r);
    MembersConserve(r.rest, b, r.stack);
    StoresMeans(b, r.rest, ReadMembers(r.rest, b, r.stack));
    NeedMembersConcat(obj, [Member(m.key, y)]);
    NeedOfOne(y, Member(m.key, y));
    PassLostNothing(fields, obj, str, text, y, r.rest, final);
    // the pair
    InsertKeepsSorted(obj, m.key, y);
    assert b[|obj|] == Member(m.key, y);
    StoredPairStays(r.rest, b, r.stack, Member(m.key, y));
    assert y == DropArrayNulls(m.value);
    NeedIsWeight(m.value);
    NeedOfDropped(m.value);
    WeightConcat(ValueText(m.value), rest);
    ValueCameBack(m.value, rest, stack);
    after := r.stack;
  }

  lemma LeadIsMuted(lead: string)
    requires lead == "" || lead == ","
    ensures Muted(lead) && Blanks("")
  {
  }

  lemma KeyAndColon(lead: string, key: string, rest: string)
    ensures lead + ("\"" + key + "\"" + "" + ":" + rest) == lead + ("\"" + key + "\":" + rest)
  {
    assert "\"" + key + "\"" + "" + ":" == "\"" + key + "\":";
  }

  lemma NotEmpty(lead: string, m: Member, rest: string)
    requires DoubleFree(m.value)
    ensures lead + (MemberText(m) + rest) != ""
  {
    hide ValueText;
  }

  lemma ConservesMeans(text: string, r: Outcome)
    requires Conserves(text, r) && r.Done? && !r.failed
    ensures Need(r.value) + Weight(r.rest) <= Weight(text)
  {
    hide Need, Weight;
  }

  lemma StoresMeans(obj: seq<Member>, str: string, r: Part)
    requires Stores(obj, str, r) && r.Part? && r.value.Obj?
    ensures NeedMembers(r.value.fields) <= NeedMembers(obj) + Weight(str)
  {
    hide NeedMembers, Weight;
  }

  lemma FirstKeyIsDelimited(str: string, fields: seq<Member>, obj: seq<Member>, stack: Stack)
    requires fields != [] && Sorted(obj + DropMembers(fields)) && Sorted(obj)
    requires forall i :: 0 <= i < |obj| ==> obj[i].key != fields[0].key
    requires var p := ReadMembers(str, obj, stack); p.Part? && p.value == Obj(obj + DropMembers(fields))
    ensures fields[0].key != "" && Delimited(fields[0].key)
  {
    hide Delimited, ReadMembers, Sorted, DropArrayNulls;
    var m := DropMembers(fields)[0];
    assert (obj + DropMembers(fields))[|obj|] == m;
    StoredKeysAreDelimited(str, obj, stack, m);
  }

  // ---------------------------------------------------------------- no null in an array

  lemma {:induction false} AppendKeepsNullFree(a: seq<Value>, v: Value)
    requires ArrayNullFreeItems(a) && !v.Null? && ArrayNullFree(v)
    ensures ArrayNullFreeItems(a + [v])
    decreases |a|
  {
    hide ArrayNullFree;
    if a == [] {
      assert (a + [v])[1..] == [];
    } else {
      assert (a + [v])[1..] == a[1..] + [v];
      AppendKeepsNullFree(a[1..], v);
    }
  }

  lemma {:induction false} InsertKeepsNullFree(fields: seq<Member>, key: string, value: Value)
    requires ArrayNullFreeMembers(fields) && ArrayNullFree(value)
    ensures ArrayNullFreeMembers(Insert(fields, key, value))
    decreases |fields|
  {
    hide ArrayNullFree, Less;
    var r := Insert(fields, key, value);
    if fields == [] {
      assert r[1..] == [];
    } else if fields[0].key == key {
      assert r[1..] == fields[1..];
    } else if Less(key, fields[0].key) {
      assert r[1..] == fields;
    } else {
      InsertKeepsNullFree(fields[1..], key, value);
      assert r[1..] == Insert(fields[1..], key, value);
    }
  }

  lemma {:induction false} ValueIsNullFree(text: string, stack: Stack)
    ensures var r := ReadValue(text, stack); r.Done? ==> ArrayNullFree(r.value)
    decreases |text|, 3
  {
    hide ReadValue, ReadNested, Trim, Lex, ScalarValue, Unescape, QuotePos;
    var str := Trim(text);
    ValueBranches(text, stack);
    if str != "" && str[0] == '[' {
      NestedIsNullFree(str, stack, InArray);
    } else if str != "" && str[0] == '{' {
      NestedIsNullFree(str, stack, InObject);
    } else if str != "" && str[0] != '"' {
      ScalarIsNullFree(str, stack);
    }
  }

  lemma ScalarIsNullFree(str: string, stack: Stack)
    ensures ArrayNullFree(ReadScalar(str, stack).value)
  {
    hide Lex, DecimalFloat, LongValue, SameIgnoringCase, CString;
  }

  lemma {:induction false} NestedIsNullFree(str: string, stack: Stack, kind: Bracket)
    requires str != ""
    ensures var r := ReadNested(str, stack, kind); r.Done? ==> ArrayNullFree(r.value)
    decreases |str|, 2
  {
    hide Scan, ReadArray, ReadWhole;
    var m := Scan(str, 1, false, stack + [kind], |stack| + 1);
    if m.End? {
      var inner := str[..Min(m.pos + 1, |str|)];
      if kind == InArray {
        ArrayIsNullFree(inner, m.stack);
      } else {
        WholeIsNullFree(inner, m.stack);
      }
    }
  }

  lemma {:induction false} ArrayIsNullFree(text: string, stack: Stack)
    ensures var r := ReadArray(text, stack); r.Part? ==> ArrayNullFree(r.value)
    decreases |text|, 0
  {
    hide ReadElements, Trim;
    var inner := InsideArray(Trim(text));
    if inner.Some? {
      ElementsAreNullFree(inner.value, [], stack);
    }
  }

  lemma {:induction false} ElementsAreNullFree(str: string, a: seq<Value>, stack: Stack)
    requires ArrayNullFreeItems(a)
    ensures var r := ReadElements(str, a, stack); r.Part? ==> ArrayNullFree(r.value)
    decreases |str|, 4
  {
    hide ReadElements, ReadValue, FirstStop, OpensFirst, ArrayNullFreeItems;
    if str == "" {
      NoElementsLeft(a, stack);
    } else {
      ElementsPass(str, a, stack);
      var i, whole := FirstStop(str, 0), OpensFirst(str);
      var text := if whole then str else str[..i];
      var r := ReadValue(text, stack);
      ValueIsNullFree(text, stack);
      if r.Done? && !r.failed {
        if !r.value.Null? {
          AppendKeepsNullFree(a, r.value);
        }
        ElementsAreNullFree(if whole then r.rest else str[Min(i + 1, |str|)..],
                            if r.value.Null? then a else a + [r.value], r.stack);
      }
    }
  }

  lemma {:induction false} WholeIsNullFree(text: string, stack: Stack)
    ensures var r := ReadWhole(text, stack); r.Part? ==> ArrayNullFree(r.value)
    decreases |text|, 1
  {
    hide ReadArray, ReadMembers, Trim;
    var str := Trim(text);
    ArrayIsNullFree(str, stack + [InArray]);
    if |str| >= 2 {
      MembersAreNullFree(str[1..|str| - 1], [], stack + [InObject]);
    }
  }

  lemma {:induction false} MembersAreNullFree(str: string, obj: seq<Member>, stack: Stack)
    requires ArrayNullFreeMembers(obj)
    ensures var r := ReadMembers(str, obj, stack); r.Part? ==> ArrayNullFree(r.value)
    decreases |str|, 4
  {
    hide ReadMembers, ReadValue, NextKey, Insert, ArrayNullFreeMembers;
    if str == "" {
      NoMembersLeft(obj, stack);
    } else {
      MembersPass(str, obj, stack);
      var pair := NextKey(str);
      if pair.Some? {
        var r := ReadValue(pair.value.1, stack);
        ValueIsNullFree(pair.value.1, stack);
        if r.Done? && !r.failed {
          InsertKeepsNullFree(obj, pair.value.0, r.value);
          MembersAreNullFree(r.rest, Insert(obj, pair.value.0, r.value), r.stack);
        }
      }
    }
  }

  /** Whatever the text: no array in what is parsed has a null as a direct element. */
  lemma ParsedIsArrayNullFree(text: string)
    ensures Parse(text).Some? ==> ArrayNullFree(Parse(text).value)
  {
    hide ReadWhole, ArrayNullFree;
    WholeIsNullFree(text, []);
  }
}
