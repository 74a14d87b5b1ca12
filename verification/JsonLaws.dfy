/**
 The laws the JSON code is there for: what parsing a document gives, and that parsing undoes serializing,
 with white space put in or not, with the exact condition under which it does.
 */
module JsonLaws {
  import opened Options
  import opened JsonText
  import opened JsonBrackets
  import opened JsonValue
  import opened JsonWriter
  import opened JsonReader
  import opened JsonPrinted
  import opened JsonDocument
  import opened JsonRoundTrip
  import opened JsonLayout
  import opened JsonSafe
  import opened JsonConverse

  /** For every document, array or object, whose strings and keys are found between their quotes and whose
      inner arrays and objects are found by the scan, with white space around it: parsing its text does not
      abort and gives exactly ReadBack.  A string may be any escaping of a text (LegalEscapingIsReadable);
      readable strings and keys are enough (ReadableIsPlain). */
  lemma ParsedDocumentIsReadBack(d: Document, lead: string, trail: string)
    requires Plain(d) && Laid(d) && (d.Array? || d.Object?) && Blanks(lead) && Blanks(trail)
    ensures Parse(lead + (DocText(d) + trail)) == Some(ReadBack(d))
  {
    hide ReadBack, Filled, Plain, Laid, Trim, TrimBack, ReadArray, ReadObject;
    var t := DocText(d);
    DocEnds(d);
    TrimFindsTightMiddle(lead, t, trail);
    BlanksTrimAway(trail);
    assert t + "" == t;
    TrimIsIdentityExactlyOnTight(t);
    SameWhole(lead + (t + trail), t, []);
    WholeReadsBack(d, []);
  }

  lemma SameWhole(a: string, b: string, stack: Stack)
    requires Trim(a) == Trim(b)
    ensures ReadWhole(a, stack) == ReadWhole(b, stack)
  {
    hide Trim;
  }

  /** White space around brackets, commas, colons, keys and values does not change what is parsed, unless it
      stands inside an object without members. */
  lemma WhiteSpaceDoesNotMatter(d: Document, lead: string, trail: string)
    requires Plain(d) && Laid(d) && (d.Array? || d.Object?) && Blanks(lead) && Blanks(trail) && !AnyHollow(d)
    ensures Parse(lead + (DocText(d) + trail)) == Parse(DocText(Strip(d)))
  {
    hide *;
    var e := Strip(d);
    ParsedDocumentIsReadBack(d, lead, trail);
    StrippedIsPlain(d);
    StrippedIsLaid(d);
    StrippedReadsBack(d);
    NoBlanks();
    ParsedDocumentIsReadBack(e, "", "");
    assert "" + (DocText(e) + "") == DocText(e);
  }

  lemma {:induction false} StrippedIsLaid(d: Document)
    ensures Laid(Strip(d))
    ensures (Strip(d).Array? <==> d.Array?) && (Strip(d).Object? <==> d.Object?)
    decreases d, 1
  {
    match d {
      case Array(items, _) => StrippedElementsAreLaid(items);
      case Object(pairs, _) => StrippedPairsAreLaid(pairs);
      case _ =>
    }
  }

  lemma {:induction false} StrippedElementsAreLaid(items: seq<Element>)
    ensures forall i :: 0 <= i < |items| ==> LaidElement(StripElements(items)[i]) && Laid(StripElements(items)[i].doc)
    decreases items, 0
  {
    hide Laid, Strip, StripElements;
    forall i | 0 <= i < |items| ensures LaidElement(StripElements(items)[i]) && Laid(StripElements(items)[i].doc) {
      StrippedIsLaid(items[i].doc);
      StrippedElementAt(items, i);
    }
  }

  lemma {:induction false} StrippedPairsAreLaid(pairs: seq<Pair>)
    ensures forall i :: 0 <= i < |pairs| ==> LaidPair(StripPairs(pairs)[i]) && Laid(StripPairs(pairs)[i].doc)
    decreases pairs, 0
  {
    hide Laid, Strip, StripPairs;
    forall i | 0 <= i < |pairs| ensures LaidPair(StripPairs(pairs)[i]) && Laid(StripPairs(pairs)[i].doc) {
      StrippedIsLaid(pairs[i].doc);
      StrippedPairAt(pairs, i);
    }
  }

  /** For every object or array without floating point, whatever its strings and keys hold: parsing undoes
      serializing up to array nulls exactly on the safe values, undoes it altogether exactly on those
      without array nulls, and then leaves the bracket stack exactly as it was found. */
  lemma ParseUndoesTextExactlyOnSafe(v: Value)
    requires WellFormed(v) && DoubleFree(v) && (v.Arr? || v.Obj?)
    ensures Parse(Text(v)) == Some(DropArrayNulls(v)) <==> Safe(v)
    ensures Parse(Text(v)) == Some(v) <==> Safe(v) && ArrayNullFree(v)
    ensures Safe(v) ==> forall stack :: ReadWhole(Text(v), stack) == Part(DropArrayNulls(v), stack)
  {
    hide ReadWhole, ReadBack, Filled, Plain, DoubleFree, WellFormed, Safe, ArrayNullFree, Compact, DocText;
    DropsNothingExactlyWhenFree(v);
    NullsStayNull(v);
    if Safe(v) {
      SafeReadsBack(v);
      CompactText(v);
      CompactKind(v);
      forall stack
        ensures ReadWhole(Text(v), stack) == Part(DropArrayNulls(v), stack)
      {
        WholeReadsBack(Compact(v), stack);
      }
    } else {
      if Parse(Text(v)) == Some(DropArrayNulls(v)) {
        WholeCameBack(v, []);
      }
      if Parse(Text(v)) == Some(v) {
        ParsedIsArrayNullFree(Text(v));
        WholeCameBack(v, []);
      }
    }
  }

  lemma {:induction false} CompactKind(v: Value)
    ensures var d := Compact(v);
            (d.Array? <==> v.Arr?) && (d.Object? <==> v.Obj?) && Laid(d) && Strip(d) == d && !Hollow(d)
    decreases v, 1
  {
    match v {
      case Arr(items) => CompactItemsAreStripped(items);
      case Obj(fields) => CompactMembersAreStripped(fields);
      case _ =>
    }
  }

  lemma {:induction false} CompactItemsAreStripped(items: seq<Value>)
    ensures var ds := CompactItems(items);
            StripElements(ds) == ds && forall i :: 0 <= i < |ds| ==> LaidElement(ds[i]) && Laid(ds[i].doc)
    decreases items, 0
  {
    hide Compact, Laid, Strip;
    if items != [] {
      CompactKind(items[0]);
      CompactItemsAreStripped(items[1..]);
      CompactItemsCons(items);
      var ds := CompactItems(items);
      assert ds == [ds[0]] + ds[1..];
    }
  }

  lemma {:induction false} CompactMembersAreStripped(fields: seq<Member>)
    ensures var ds := CompactMembers(fields);
            StripPairs(ds) == ds && forall i :: 0 <= i < |ds| ==> LaidPair(ds[i]) && Laid(ds[i].doc)
    decreases fields, 0
  {
    hide Compact, Laid, Strip;
    if fields != [] {
      CompactKind(fields[0].value);
      CompactMembersAreStripped(fields[1..]);
      CompactMembersCons(fields);
      var ds := CompactMembers(fields);
      assert ds == [ds[0]] + ds[1..];
    }
  }

  /** Only arrays and objects are texts: anything else prints as nothing, and what stands for it inside of
      them is not read alone. */
  lemma ScalarsAreNoTexts(v: Value)
    requires DoubleFree(v) && !v.Arr? && !v.Obj?
    ensures Text(v) == "" && Parse(ValueText(v)) == Some(Null)
  {
    hide Trim, IntText;
    var t := ValueText(v);
    TrimIsIdentityExactlyOnTight(t);
    assert t[0] != '[' && t[0] != '{';
  }

  // ---------------------------------------------------------------- white space put into what is printed

  /** For every safe object or array and every text of it, with any white space of RFC 8259 around
      brackets, commas, colons, keys and values: it is parsed to the value, but for its array nulls, if and
      only if there is no white space inside an object without members. */
  lemma SpacedTextComesBackExactly(v: Value, d: Document, lead: string, trail: string)
    requires Safe(v) && WellFormed(v) && DoubleFree(v) && (v.Arr? || v.Obj?)
    requires TextOf(d, v) && Blanks(lead) && Blanks(trail)
    ensures Parse(lead + (DocText(d) + trail)) == Some(DropArrayNulls(v)) <==> !AnyHollow(d)
  {
    hide *;
    SafeTextIsPlain(v, d);
    ParsedDocumentIsReadBack(d, lead, trail);
    HollowIsNoticed(d, v);
  }

  lemma SafeTextIsPlain(v: Value, d: Document)
    requires Safe(v) && WellFormed(v) && DoubleFree(v) && TextOf(d, v)
    ensures Plain(d) && Laid(d) && (d.Array? <==> v.Arr?) && (d.Object? <==> v.Obj?)
  {
    hide Safe, WellFormed, DoubleFree, Plain, Laid, Strip, Compact;
    SafeReadsBack(v);
    StrippedIsPlain(d);
    StrippedIsLaid(d);
    CompactKind(v);
  }

  /** The members of an object, each read back. */
  function ReadBackMembers(pairs: seq<Pair>): (r: seq<Member>)
    ensures |r| == |pairs| && forall i :: 0 <= i < |r| ==> r[i] == Member(pairs[i].key, ReadBack(pairs[i].doc))
  {
    if pairs == [] then [] else [Member(pairs[0].key, ReadBack(pairs[0].doc))] + ReadBackMembers(pairs[1..])
  }

  predicate KeysInOrder(obj: seq<Member>, pairs: seq<Pair>) {
    && (forall i, j :: 0 <= i < |obj| && 0 <= j < |pairs| ==> Less(obj[i].key, pairs[j].key))
    && (forall i, j :: 0 <= i < j < |pairs| ==> Less(pairs[i].key, pairs[j].key))
  }

  lemma {:induction false} StoredInOrder(obj: seq<Member>, pairs: seq<Pair>)
    requires KeysInOrder(obj, pairs)
    ensures StoreAll(obj, pairs) == obj + ReadBackMembers(pairs)
    decreases |pairs|
  {
    hide ReadBack, Insert, Less;
    if pairs == [] {
      assert obj + [] == obj;
    } else {
      var first := Member(pairs[0].key, ReadBack(pairs[0].doc));
      InsertAtEnd(obj, first.key, first.value);
      var more := obj + [first];
      forall i, j | 0 <= i < |more| && 0 <= j < |pairs[1..]| ensures Less(more[i].key, pairs[1..][j].key) {
        assert i < |obj| ==> more[i] == obj[i];
      }
      StoredInOrder(more, pairs[1..]);
      assert more + ReadBackMembers(pairs[1..]) == obj + ([first] + ReadBackMembers(pairs[1..]));
    }
  }

  /** What a text of a safe value is read as is the value, but for its array nulls, exactly when nothing in
      it is hollow. */
  lemma {:induction false} HollowIsNoticed(d: Document, v: Value)
    requires Safe(v) && WellFormed(v) && DoubleFree(v) && TextOf(d, v)
    ensures ReadBack(d) == DropArrayNulls(v) <==> !AnyHollow(d)
    decreases v, 1
  {
    hide *;
    SafeTextIs(d, v);
    if !AnyHollow(d) {
      TextIs(d, v);
      StrippedReadsBack(d);
      SafeReadsBack(v);
    } else if Hollow(d) {
      HollowReadsNull(d, v);
    } else {
      HollowIsInside(d);
      if d.Array? {
        ArrayOf(d, v);
        HollowItemIsNoticed(d.items, v.items);
        ArrayNoticed(d, v);
      } else {
        ObjectOf(d, v);
        var i :| 0 <= i < |d.pairs| && AnyHollow(d.pairs[i].doc);
        SafeTextIs(d.pairs[i].doc, v.fields[i].value);
        HollowIsNoticed(d.pairs[i].doc, v.fields[i].value);
        ObjectNoticed(d, v, i);
      }
    }
  }

  lemma HollowIsInside(d: Document)
    requires AnyHollow(d) && !Hollow(d)
    ensures d.Array? || d.Object?
  {
  }

  lemma TextIs(d: Document, v: Value)
    ensures TextOf(d, v) <==> Laid(d) && Strip(d) == Compact(v)
  {
    hide Laid, Strip, Compact;
  }

  lemma HollowReadsNull(d: Document, v: Value)
    requires Hollow(d) && TextOf(d, v)
    ensures AnyHollow(d) && ReadBack(d) != DropArrayNulls(v)
  {
    hide DropMembers;
  }

  /** The value and its text, as the lemmas about them speak of them. */
  ghost predicate SafeText(d: Document, v: Value) {
    Safe(v) && WellFormed(v) && DoubleFree(v) && TextOf(d, v)
  }

  ghost predicate SafeTexts(items: seq<Element>, vs: seq<Value>) {
    |items| == |vs| && forall i :: 0 <= i < |vs| ==> SafeText(items[i].doc, vs[i])
  }

  lemma {:induction false} SafeItemAt(items: seq<Value>, i: nat)
    requires SafeItems(items) && i < |items|
    ensures Safe(items[i])
  {
    hide Safe, EndIsFound;
    if i > 0 {
      SafeItemAt(items[1..], i - 1);
    }
  }

  lemma {:induction false} SafeMemberAt(fields: seq<Member>, i: nat)
    requires SafeMembers(fields) && i < |fields|
    ensures Safe(fields[i].value)
  {
    hide Safe, EndIsFound, Delimited;
    if i > 0 {
      SafeMemberAt(fields[1..], i - 1);
    }
  }

  lemma {:induction false} CompactItemAt(items: seq<Value>, i: nat)
    requires i < |items|
    ensures CompactItems(items)[i] == Element("", "", Compact(items[i]))
  {
    hide Compact;
    if i > 0 {
      CompactItemAt(items[1..], i - 1);
    }
  }

  lemma {:induction false} CompactMemberAt(fields: seq<Member>, i: nat)
    requires i < |fields|
    ensures CompactMembers(fields)[i] == Pair("", "", fields[i].key, "", "", Compact(fields[i].value))
  {
    hide Compact;
    if i > 0 {
      CompactMemberAt(fields[1..], i - 1);
    }
  }

  lemma ArrayOf(d: Document, v: Value)
    requires SafeText(d, v) && d.Array?
    ensures v.Arr? && SafeTexts(d.items, v.items)
    ensures AnyHollow(d) <==> exists i :: 0 <= i < |d.items| && AnyHollow(d.items[i].doc)
  {
    hide EndIsFound, LaidElement, Blanks, StripElements, CompactItems, SafeItems, AnyExposed;
    var items, vs := d.items, v.items;
    forall i | 0 <= i < |vs| ensures SafeText(items[i].doc, vs[i]) {
      hide Safe, Strip, Compact;
      StrippedElementAt(items, i);
      CompactItemAt(vs, i);
      SafeItemAt(vs, i);
    }
  }

  lemma ObjectOf(d: Document, v: Value)
    requires SafeText(d, v) && d.Object?
    ensures v.Obj? && |d.pairs| == |v.fields| && KeysInOrder([], d.pairs)
    ensures forall i :: 0 <= i < |d.pairs| ==>
              d.pairs[i].key == v.fields[i].key && SafeText(d.pairs[i].doc, v.fields[i].value)
    ensures AnyHollow(d) <==> Hollow(d) || exists i :: 0 <= i < |d.pairs| && AnyHollow(d.pairs[i].doc)
  {
    hide EndIsFound, LaidPair, Blanks, StripPairs, CompactMembers, SafeMembers, Less;
    var pairs, fields := d.pairs, v.fields;
    forall i | 0 <= i < |fields| ensures pairs[i].key == fields[i].key && SafeText(pairs[i].doc, fields[i].value) {
      hide Safe, Strip, Compact;
      StrippedPairAt(pairs, i);
      CompactMemberAt(fields, i);
      SafeMemberAt(fields, i);
    }
  }

  /** A null is read as nothing. */
  lemma NullTextReadsNull(d: Document, v: Value)
    requires SafeText(d, v) && v.Null?
    ensures ReadBack(d).Null?
  {
    hide Laid;
  }

  /** No more elements are read than the value has, but for its nulls. */
  lemma {:induction false} NoMoreElements(items: seq<Element>, vs: seq<Value>)
    requires SafeTexts(items, vs)
    ensures |ReadBackElements(items)| <= |DropItems(vs)|
    decreases |vs|
  {
    if vs != [] {
      hide ReadBack, DropArrayNulls, SafeText;
      NoMoreElements(items[1..], vs[1..]);
      if vs[0].Null? {
        NullTextReadsNull(items[0].doc, vs[0]);
      }
    }
  }

  lemma {:induction false} HollowItemIsNoticed(items: seq<Element>, vs: seq<Value>)
    requires SafeTexts(items, vs) && exists i :: 0 <= i < |items| && AnyHollow(items[i].doc)
    ensures ReadBackElements(items) != DropItems(vs)
    decreases vs, 0
  {
    hide ReadBack, DropArrayNulls, SafeText, AnyHollow, Safe, WellFormed, DoubleFree, TextOf;
    var d, v := items[0].doc, vs[0];
    var xs, ys := ReadBackElements(items[1..]), DropItems(vs[1..]);
    assert [] + xs == xs && [] + ys == ys;
    assert ReadBackElements(items) == if ReadBack(d).Null? then xs else [ReadBack(d)] + xs;
    assert DropItems(vs) == if v.Null? then ys else [DropArrayNulls(v)] + ys;
    SafeTextIs(d, v);
    HollowIsNoticed(d, v);
    NoMoreElements(items[1..], vs[1..]);
    NullsStayNull(v);
    if v.Null? {
      NullTextReadsNull(d, v);
    }
    if AnyHollow(d) {
      if !ReadBack(d).Null? {
        SameCons(ReadBack(d), xs, DropArrayNulls(v), ys);
      }
    } else {
      var i :| 0 <= i < |items| && AnyHollow(items[i].doc);
      assert items[1..][i - 1] == items[i];
      HollowItemIsNoticed(items[1..], vs[1..]);
      SameCons(ReadBack(d), xs, DropArrayNulls(v), ys);
    }
  }

  lemma SafeTextIs(d: Document, v: Value)
    ensures SafeText(d, v) <==> Safe(v) && WellFormed(v) && DoubleFree(v) && TextOf(d, v)
  {
    hide Safe, WellFormed, DoubleFree, TextOf;
  }

  lemma ArrayNoticed(d: Document, v: Value)
    requires d.Array? && v.Arr? && ReadBackElements(d.items) != DropItems(v.items)
    ensures ReadBack(d) != DropArrayNulls(v)
  {
    hide ReadBackElements, DropItems, ExposedElement;
  }

  lemma {:induction false} DroppedMemberAt(fields: seq<Member>, i: nat)
    requires i < |fields|
    ensures DropMembers(fields)[i] == Member(fields[i].key, DropArrayNulls(fields[i].value))
  {
    hide DropArrayNulls;
    if i > 0 {
      DroppedMemberAt(fields[1..], i - 1);
    }
  }

  lemma ObjectNoticed(d: Document, v: Value, i: nat)
    requires d.Object? && v.Obj? && KeysInOrder([], d.pairs) && i < |d.pairs| == |v.fields|
    requires ReadBack(d.pairs[i].doc) != DropArrayNulls(v.fields[i].value)
    ensures ReadBack(d) != DropArrayNulls(v)
  {
    hide StoreAll, DropMembers, KeysInOrder, ReadBackMembers, AnyEmptyKey;
    StoredInOrder([], d.pairs);
    var r := ReadBackMembers(d.pairs);
    assert [] + r == r;
    DroppedMemberAt(v.fields, i);
    assert r[i] == Member(d.pairs[i].key, ReadBack(d.pairs[i].doc));
  }
}
