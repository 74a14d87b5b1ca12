/**
 What the writer and the parser agree on: the values that come back from their own text.
 */
module JsonSafe {
  import opened Options
  import opened JsonText
  import opened JsonValue
  import opened JsonWriter
  import opened JsonPrinted
  import opened JsonDocument
  import opened JsonRoundTrip
  import opened JsonLayout

  // ---------------------------------------------------------------- nulls in arrays

  /** The value without the nulls that are direct elements of an array. */
  function DropArrayNulls(v: Value): Value
    decreases v, 1
  {
    match v
    case Arr(items) => Arr(DropItems(items))
    case Obj(fields) => Obj(DropMembers(fields))
    case _ => v
  }

  function DropItems(items: seq<Value>): seq<Value>
    decreases items, 0
  {
    if items == [] then []
    else (if items[0].Null? then [] else [DropArrayNulls(items[0])]) + DropItems(items[1..])
  }

  function DropMembers(fields: seq<Member>): (r: seq<Member>)
    ensures |r| == |fields| && forall i :: 0 <= i < |r| ==> r[i].key == fields[i].key
    decreases fields, 0
  {
    if fields == [] then []
    else [Member(fields[0].key, DropArrayNulls(fields[0].value))] + DropMembers(fields[1..])
  }

  predicate ArrayNullFree(v: Value)
    decreases v, 1
  {
    match v
    case Arr(items) => ArrayNullFreeItems(items)
    case Obj(fields) => ArrayNullFreeMembers(fields)
    case _ => true
  }

  predicate ArrayNullFreeItems(items: seq<Value>)
    decreases items, 0
  {
    items == [] || (!items[0].Null? && ArrayNullFree(items[0]) && ArrayNullFreeItems(items[1..]))
  }

  predicate ArrayNullFreeMembers(fields: seq<Member>)
    decreases fields, 0
  {
    fields == [] || (ArrayNullFree(fields[0].value) && ArrayNullFreeMembers(fields[1..]))
  }

  lemma SameCons<T>(x: T, xs: seq<T>, y: T, ys: seq<T>)
    ensures [x] + xs == [y] + ys <==> x == y && xs == ys
  {
    if [x] + xs == [y] + ys {
      assert ([x] + xs)[0] == x && ([y] + ys)[0] == y;
      assert ([x] + xs)[1..] == xs && ([y] + ys)[1..] == ys;
    }
  }

  lemma {:induction false} DropsNothingExactlyWhenFree(v: Value)
    ensures DropArrayNulls(v) == v <==> ArrayNullFree(v)
    decreases v, 1
  {
    match v {
      case Arr(items) => ItemsDropNothing(items);
      case Obj(fields) => MembersDropNothing(fields);
      case _ =>
    }
  }

  lemma {:induction false} ItemsDropNothing(items: seq<Value>)
    ensures |DropItems(items)| <= |items|
    ensures DropItems(items) == items <==> ArrayNullFreeItems(items)
    decreases items, 0
  {
    if items != [] {
      hide DropArrayNulls, ArrayNullFree;
      ItemsDropNothing(items[1..]);
      DropsNothingExactlyWhenFree(items[0]);
      assert items == [items[0]] + items[1..];
      SameCons(DropArrayNulls(items[0]), DropItems(items[1..]), items[0], items[1..]);
    }
  }

  lemma {:induction false} MembersDropNothing(fields: seq<Member>)
    ensures DropMembers(fields) == fields <==> ArrayNullFreeMembers(fields)
    decreases fields, 0
  {
    if fields != [] {
      hide DropArrayNulls, ArrayNullFree;
      var k, v := fields[0].key, fields[0].value;
      MembersDropNothing(fields[1..]);
      DropsNothingExactlyWhenFree(v);
      assert fields == [fields[0]] + fields[1..];
      SameCons(Member(k, DropArrayNulls(v)), DropMembers(fields[1..]), fields[0], fields[1..]);
    }
  }

  // ---------------------------------------------------------------- safe values

  predicate AnyExposed(items: seq<Value>) {
    items != [] && ((items[0].Str? && Exposed(items[0].s)) || AnyExposed(items[1..]))
  }

  /** Strings hold no quote and no backslash and have no white space at their ends, strings in arrays are
      not exposed, keys are not empty and found between their quotes, and the scan finds the end of every
      array and object inside. */
  predicate Safe(v: Value)
    decreases v, 1
  {
    match v
    case Str(s) => Muted(s) && Tight(s)
    case Arr(items) => !AnyExposed(items) && SafeItems(items)
    case Obj(fields) => SafeMembers(fields)
    case _ => true
  }

  predicate SafeItems(items: seq<Value>)
    decreases items, 0
  {
    items == [] || (Safe(items[0]) && EndIsFound(items[0]) && SafeItems(items[1..]))
  }

  predicate SafeMembers(fields: seq<Member>)
    decreases fields, 0
  {
    fields == [] ||
      (&& fields[0].key != "" && Delimited(fields[0].key)
       && Safe(fields[0].value) && EndIsFound(fields[0].value) && SafeMembers(fields[1..]))
  }

  lemma NullsStayNull(v: Value)
    ensures DropArrayNulls(v).Null? <==> v.Null?
  {
  }

  lemma SafeStringReadsBack(s: string)
    requires Muted(s) && Tight(s)
    ensures Delimited(s) && Unescape(s) == Some(s)
  {
    hide QuotePos;
    MutedIsLegible(s);
    UnescapeIsIdentityExactly(s);
  }

  /** A safe value is found by the parser in what the writer prints, and read as it is, but for its array
      nulls. */
  lemma {:induction false} SafeReadsBack(v: Value)
    requires Safe(v) && WellFormed(v) && DoubleFree(v)
    ensures var d := Compact(v); Plain(d) && ReadBack(d) == DropArrayNulls(v) && Filled(d)
    decreases v, 1
  {
    hide *;
    if v.Str? {
      SafeQuote(v.s);
    } else if v.Arr? {
      SafeArray(v);
      SafeItemsReadBack(v.items);
      ExposedAlike(v.items);
      ArrayComesBack(v);
    } else if v.Obj? {
      SafeObject(v);
      SafeMembersReadBack(v.fields, []);
      ObjectComesBack(v);
    } else {
      SafeWord(v);
    }
  }

  lemma SafeWord(v: Value)
    requires DoubleFree(v) && !v.Str? && !v.Arr? && !v.Obj?
    ensures var d := Compact(v); Plain(d) && ReadBack(d) == DropArrayNulls(v) && Filled(d)
  {
  }

  lemma SafeQuote(s: string)
    requires Safe(Str(s))
    ensures var d := Compact(Str(s)); Plain(d) && ReadBack(d) == DropArrayNulls(Str(s)) && Filled(d)
  {
    hide Delimited, Unescape, Muted, Tight;
    SafeStringReadsBack(s);
  }

  lemma SafeArray(v: Value)
    requires Safe(v) && WellFormed(v) && DoubleFree(v) && v.Arr?
    ensures SafeItems(v.items) && !AnyExposed(v.items)
    ensures forall i :: 0 <= i < |v.items| ==> WellFormed(v.items[i]) && DoubleFree(v.items[i])
  {
    hide SafeItems, AnyExposed;
  }

  lemma SafeObject(v: Value)
    requires Safe(v) && WellFormed(v) && DoubleFree(v) && v.Obj?
    ensures SafeMembers(v.fields) && Sorted([] + v.fields)
    ensures forall i :: 0 <= i < |v.fields| ==> WellFormed(v.fields[i].value) && DoubleFree(v.fields[i].value)
  {
    hide SafeMembers, Less;
    assert [] + v.fields == v.fields;
  }

  lemma ArrayComesBack(v: Value)
    requires v.Arr?
    requires var ds := CompactItems(v.items);
             UsableElements(ds) && ReadBackElements(ds) == DropItems(v.items) && FilledElements(ds) && !ExposedElement(ds)
    ensures var d := Compact(v); Plain(d) && ReadBack(d) == DropArrayNulls(v) && Filled(d)
  {
    hide UsableElements, CompactItems, ReadBackElements, DropItems, FilledElements, ExposedElement, Plain;
    ArrayIsPlain(Compact(v));
  }

  lemma ObjectComesBack(v: Value)
    requires v.Obj?
    requires var ds := CompactMembers(v.fields);
             && UsablePairs(ds) && FilledPairs(ds) && !AnyEmptyKey(ds)
             && StoreAll([], ds) == [] + DropMembers(v.fields)
    ensures var d := Compact(v); Plain(d) && ReadBack(d) == DropArrayNulls(v) && Filled(d)
  {
    hide UsablePairs, CompactMembers, StoreAll, DropMembers, FilledPairs, AnyEmptyKey, Plain;
    ObjectIsPlain(Compact(v));
    assert [] + DropMembers(v.fields) == DropMembers(v.fields);
  }

  lemma CompactEnd(v: Value)
    requires EndIsFound(v)
    ensures EndFound(Compact(v))
  {
    hide EndsAtLast, DocText, ValueText;
    CompactText(v);
  }

  lemma {:induction false} ExposedAlike(items: seq<Value>)
    ensures ExposedElement(CompactItems(items)) <==> AnyExposed(items)
  {
    if items != [] {
      hide Exposed;
      ExposedAlike(items[1..]);
    }
  }

  lemma CompactItemsCons(items: seq<Value>)
    requires items != []
    ensures CompactItems(items)[0] == Element("", "", Compact(items[0]))
    ensures CompactItems(items)[1..] == CompactItems(items[1..])
  {
    hide Compact;
  }

  lemma {:induction false} SafeItemsReadBack(items: seq<Value>)
    requires SafeItems(items) && forall i :: 0 <= i < |items| ==> WellFormed(items[i]) && DoubleFree(items[i])
    ensures var ds := CompactItems(items);
            UsableElements(ds) && ReadBackElements(ds) == DropItems(items) && FilledElements(ds)
    decreases items, 0
  {
    hide EndIsFound, Usable, Safe, ReadBack, DropArrayNulls, Filled, WellFormed, DoubleFree, CompactItems, UsableElements;
    if items != [] {
      SafeReadsBack(items[0]);
      SafeItemsReadBack(items[1..]);
      CompactEnd(items[0]);
      NullsStayNull(items[0]);
      CompactItemsCons(items);
      UsableMeans(Compact(items[0]));
      UsableElementsCons(CompactItems(items));
      FilledElementsCons(CompactItems(items));
    } else {
      NothingIsUsable();
      assert CompactItems(items) == [];
    }
  }

  lemma UsableMeans(d: Document)
    ensures Usable(d) <==> Plain(d) && EndFound(d)
  {
    hide Plain, EndFound;
  }

  lemma NothingIsUsable()
    ensures UsableElements([]) && UsablePairs([])
  {
  }

  lemma UsableElementsCons(items: seq<Element>)
    requires items != [] && Usable(items[0].doc) && UsableElements(items[1..])
    ensures UsableElements(items)
  {
    hide Usable;
    forall i | 0 <= i < |items| ensures Usable(items[i].doc) {
      assert i > 0 ==> items[i] == items[1..][i - 1];
    }
  }

  lemma UsablePairsCons(pairs: seq<Pair>)
    requires pairs != [] && UsablePair(pairs[0]) && UsablePairs(pairs[1..])
    ensures UsablePairs(pairs)
  {
    hide UsablePair;
    forall i | 0 <= i < |pairs| ensures UsablePair(pairs[i]) {
      assert i > 0 ==> pairs[i] == pairs[1..][i - 1];
    }
  }

  lemma CompactMembersCons(fields: seq<Member>)
    requires fields != []
    ensures CompactMembers(fields)[0] == Pair("", "", fields[0].key, "", "", Compact(fields[0].value))
    ensures CompactMembers(fields)[1..] == CompactMembers(fields[1..])
  {
    hide Compact;
  }

  /** Members stored one after the other, in key order, come to stand one behind the other. */
  lemma {:induction false} SafeMembersReadBack(fields: seq<Member>, obj: seq<Member>)
    requires SafeMembers(fields) && Sorted(obj + fields)
    requires forall i :: 0 <= i < |fields| ==> WellFormed(fields[i].value) && DoubleFree(fields[i].value)
    ensures var ds := CompactMembers(fields);
            && UsablePairs(ds) && FilledPairs(ds) && !AnyEmptyKey(ds)
            && StoreAll(obj, ds) == obj + DropMembers(fields)
    decreases fields, 0
  {
    hide *;
    if fields != [] {
      var m := fields[0];
      var first := Member(m.key, DropArrayNulls(m.value));
      var ds := CompactMembers(fields);
      FirstMemberIsSafe(fields);
      SafeReadsBack(m.value);
      SortedSplit(obj, fields, first);
      SafeMembersReadBack(fields[1..], obj + [first]);
      CompactEnd(m.value);
      CompactMembersCons(fields);
      UsableMeans(Compact(m.value));
      UsablePairIs(ds[0]);
      UsablePairsCons(ds);
      FilledPairsCons(ds);
      StoreFirst(ds, obj, first);
      DropMembersCons(fields);
      assert obj + [first] + DropMembers(fields[1..]) == obj + ([first] + DropMembers(fields[1..]));
    } else {
      NothingIsUsable();
      NothingIsStored(obj);
    }
  }

  lemma FirstMemberIsSafe(fields: seq<Member>)
    requires fields != [] && SafeMembers(fields)
    ensures fields[0].key != "" && Delimited(fields[0].key) && Safe(fields[0].value) && EndIsFound(fields[0].value)
    ensures SafeMembers(fields[1..])
  {
    hide Delimited, Safe, EndIsFound;
  }

  lemma UsablePairIs(p: Pair)
    ensures UsablePair(p) <==> Delimited(p.key) && Usable(p.doc)
  {
    hide Delimited, Usable;
  }

  /** The first of the members goes to the end of what is stored. */
  lemma SortedSplit(obj: seq<Member>, fields: seq<Member>, first: Member)
    requires fields != [] && Sorted(obj + fields) && first.key == fields[0].key
    ensures Insert(obj, first.key, first.value) == obj + [first]
    ensures Sorted(obj + [first] + fields[1..])
  {
    hide Less, Insert;
    var all := obj + fields;
    forall i | 0 <= i < |obj| ensures Less(obj[i].key, first.key) {
      assert all[i] == obj[i] && all[|obj|] == fields[0];
    }
    InsertAtEnd(obj, first.key, first.value);
    var behind := obj + [first] + fields[1..];
    assert |behind| == |all|;
    forall i | 0 <= i < |all| ensures behind[i].key == all[i].key {
      assert i > |obj| ==> behind[i] == fields[i - |obj|];
    }
  }

  lemma StoreFirst(ds: seq<Pair>, obj: seq<Member>, first: Member)
    requires ds != [] && ds[0].key == first.key != "" && ReadBack(ds[0].doc) == first.value
    requires Insert(obj, first.key, first.value) == obj + [first] && !AnyEmptyKey(ds[1..])
    ensures StoreAll(obj, ds) == StoreAll(obj + [first], ds[1..]) && !AnyEmptyKey(ds)
  {
    hide Insert, ReadBack;
  }

  lemma DropMembersCons(fields: seq<Member>)
    requires fields != []
    ensures DropMembers(fields) == [Member(fields[0].key, DropArrayNulls(fields[0].value))] + DropMembers(fields[1..])
  {
    hide DropArrayNulls;
  }

  lemma NothingIsStored(obj: seq<Member>)
    ensures CompactMembers([]) == [] && FilledPairs([]) && !AnyEmptyKey([])
    ensures StoreAll(obj, []) == obj + DropMembers([])
  {
    assert obj + [] == obj;
  }
}
