/**
 JSON texts as section 2 of RFC 8259 has them: with white space around every bracket, comma, colon, key
 and value, members in any order, numbers with fractions and exponents, and strings as they are written
 between their quotes.  What the bracket scan does on them, and that white space makes no difference to it.
 */
module JsonDocument {
  import opened Options
  import opened CStrings
  import opened JsonText
  import opened JsonBrackets
  import opened JsonValue
  import opened JsonWriter
  import opened JsonReader
  import opened JsonPrinted

  /** Word: null, true, false or an int.  Quote: a string, raw as it stands between its quotes.  end is
      the white space in front of the closing bracket. */
  datatype Document =
    | Word(v: Value)
    | Number(n: Numeral)
    | Quote(raw: string)
    | Array(items: seq<Element>, end: string)
    | Object(pairs: seq<Pair>, end: string)

  /** ahead is the white space in front of the comma before the element; the first one has no comma and
      ahead is not written. */
  datatype Element = Element(ahead: string, before: string, doc: Document)

  datatype Pair = Pair(ahead: string, before: string, key: string, mid: string, gap: string, doc: Document)

  // ---------------------------------------------------------------- texts

  function DocText(d: Document): string
    decreases d, 1
  {
    match d
    case Word(Null) => "null"
    case Word(Bool(b)) => if b then "true" else "false"
    case Word(Int(n)) => IntText(n)
    case Word(_) => ""
    case Number(n) => NumeralText(n)
    case Quote(raw) => "\"" + raw + "\""
    case Array(items, end) => "[" + ElementsText(items, end) + "]"
    case Object(pairs, end) => "{" + PairsText(pairs, end) + "}"
  }

  function ElementsText(items: seq<Element>, end: string): string
    decreases items, 0
  {
    if items == [] then end
    else if |items| == 1 then items[0].before + (DocText(items[0].doc) + end)
    else items[0].before + (DocText(items[0].doc) + (items[1].ahead + ("," + ElementsText(items[1..], end))))
  }

  /** The key, the colon and what is around them. */
  function KeyText(p: Pair): string {
    p.before + ("\"" + p.key + "\"") + p.mid + ":" + p.gap
  }

  function PairsText(pairs: seq<Pair>, end: string): string
    decreases pairs, 0
  {
    if pairs == [] then end
    else if |pairs| == 1 then KeyText(pairs[0]) + (DocText(pairs[0].doc) + end)
    else KeyText(pairs[0]) + (DocText(pairs[0].doc) + (pairs[1].ahead + ("," + PairsText(pairs[1..], end))))
  }

  /** What is written as white space is white space. */
  predicate Laid(d: Document) {
    match d
    case Array(items, end) =>
      Blanks(end) && forall i :: 0 <= i < |items| ==> LaidElement(items[i]) && Laid(items[i].doc)
    case Object(pairs, end) =>
      Blanks(end) && forall i :: 0 <= i < |pairs| ==> LaidPair(pairs[i]) && Laid(pairs[i].doc)
    case _ => true
  }

  predicate LaidElement(e: Element) {
    Blanks(e.ahead) && Blanks(e.before)
  }

  predicate LaidPair(p: Pair) {
    Blanks(p.ahead) && Blanks(p.before) && Blanks(p.mid) && Blanks(p.gap)
  }

  /** The document without its white space. */
  function Strip(d: Document): Document
    decreases d, 1
  {
    match d
    case Array(items, _) => Array(StripElements(items), "")
    case Object(pairs, _) => Object(StripPairs(pairs), "")
    case _ => d
  }

  function StripElements(items: seq<Element>): (r: seq<Element>)
    ensures |r| == |items|
    decreases items, 0
  {
    if items == [] then [] else [Element("", "", Strip(items[0].doc))] + StripElements(items[1..])
  }

  function StripPairs(pairs: seq<Pair>): (r: seq<Pair>)
    ensures |r| == |pairs|
    decreases pairs, 0
  {
    if pairs == [] then [] else [Pair("", "", pairs[0].key, "", "", Strip(pairs[0].doc))] + StripPairs(pairs[1..])
  }

  /** What the writer prints, as a document. */
  function Compact(v: Value): Document
    decreases v, 1
  {
    match v
    case Str(s) => Quote(s)
    case Arr(items) => Array(CompactItems(items), "")
    case Obj(fields) => Object(CompactMembers(fields), "")
    case _ => Word(v)
  }

  function CompactItems(items: seq<Value>): (r: seq<Element>)
    ensures |r| == |items|
    decreases items, 0
  {
    if items == [] then [] else [Element("", "", Compact(items[0]))] + CompactItems(items[1..])
  }

  function CompactMembers(fields: seq<Member>): (r: seq<Pair>)
    ensures |r| == |fields|
    decreases fields, 0
  {
    if fields == [] then []
    else [Pair("", "", fields[0].key, "", "", Compact(fields[0].value))] + CompactMembers(fields[1..])
  }

  /** The document is a text of the value: the same but for white space. */
  predicate TextOf(d: Document, v: Value) {
    Laid(d) && Strip(d) == Compact(v)
  }

  lemma {:induction false} CompactText(v: Value)
    requires DoubleFree(v)
    ensures DocText(Compact(v)) == ValueText(v)
    decreases v, 1
  {
    match v {
      case Arr(items) => CompactItemsText(items);
      case Obj(fields) => CompactMembersText(fields);
      case _ =>
    }
  }

  lemma {:induction false} CompactItemsText(items: seq<Value>)
    requires forall i :: 0 <= i < |items| ==> DoubleFree(items[i])
    ensures ElementsText(CompactItems(items), "") == ItemsText(items)
    decreases items, 0
  {
    hide Compact, DocText, ValueText, DoubleFree;
    if items != [] {
      CompactText(items[0]);
      CompactItemsText(items[1..]);
      var ds := CompactItems(items);
      assert ds[1..] == CompactItems(items[1..]);
      if |items| > 1 {
        assert ds[1] == CompactItems(items[1..])[0] == Element("", "", Compact(items[1]));
      }
    }
  }

  lemma {:induction false} CompactMembersText(fields: seq<Member>)
    requires forall i :: 0 <= i < |fields| ==> DoubleFree(fields[i].value)
    ensures PairsText(CompactMembers(fields), "") == MembersText(fields)
    decreases fields, 0
  {
    hide Compact, DocText, ValueText, DoubleFree;
    if fields != [] {
      CompactText(fields[0].value);
      CompactMembersText(fields[1..]);
      var ds := CompactMembers(fields);
      var t := ValueText(fields[0].value);
      assert ds[1..] == CompactMembers(fields[1..]);
      assert KeyText(ds[0]) + t == MemberText(fields[0]);
      if |fields| > 1 {
        assert ds[1] == CompactMembers(fields[1..])[0] == Pair("", "", fields[1].key, "", "", Compact(fields[1].value));
        var more := "," + MembersText(fields[1..]);
        assert KeyText(ds[0]) + (t + ("" + more)) == MemberText(fields[0]) + "," + MembersText(fields[1..]);
      } else {
        assert KeyText(ds[0]) + (t + "") == MemberText(fields[0]);
      }
    }
  }

  // ---------------------------------------------------------------- what the parser finds its way in

  function KindOfDocument(d: Document): Bracket {
    if d.Array? then InArray else InObject
  }

  /** The scan finds the end of the array or object at the last character of its text. */
  predicate EndFound(d: Document) {
    d.Array? || d.Object? ==> EndsAtLast(DocText(d), KindOfDocument(d))
  }

  /** Strings and keys are found between their quotes, strings decode, and the scan finds the end of every
      array and object inside. */
  predicate Plain(d: Document) {
    match d
    case Word(v) => v.Null? || v.Bool? || v.Int?
    case Number(n) => LegalNumeral(n)
    case Quote(raw) => Delimited(raw) && Unescape(raw).Some?
    case Array(items, _) => forall i :: 0 <= i < |items| ==> Plain(items[i].doc) && EndFound(items[i].doc)
    case Object(pairs, _) =>
      forall i :: 0 <= i < |pairs| ==> Delimited(pairs[i].key) && Plain(pairs[i].doc) && EndFound(pairs[i].doc)
  }

  /** All strings and keys are found between their quotes, also by the scan, and strings decode. */
  predicate Readable(d: Document) {
    match d
    case Word(v) => v.Null? || v.Bool? || v.Int?
    case Number(n) => LegalNumeral(n)
    case Quote(raw) => Legible(raw) && Unescape(raw).Some?
    case Array(items, _) => forall i :: 0 <= i < |items| ==> Readable(items[i].doc)
    case Object(pairs, _) => forall i :: 0 <= i < |pairs| ==> Legible(pairs[i].key) && Readable(pairs[i].doc)
  }

  lemma WordText(v: Value)
    requires v.Null? || v.Bool? || v.Int?
    ensures DocText(Word(v)) == ValueText(v)
  {
  }

  /** The first and the last character of a text. */
  lemma DocEnds(d: Document)
    requires Plain(d) || Readable(d)
    ensures var t := DocText(d);
            && t != "" && Tight(t) && t[|t| - 1] != '\\'
            && (t[0] == '[' <==> d.Array?) && (t[0] == '{' <==> d.Object?) && (t[0] == '"' <==> d.Quote?)
  {
    hide EndFound, Delimited, Legible, Unescape, ElementsText, PairsText, NumeralText;
    if d.Number? {
      NumeralCharacters(d.n);
      var t := NumeralText(d.n);
      assert Bland(t[|t| - 1]);
    } else if d.Word? {
      ScalarTextIsBland(d.v);
      WordText(d.v);
      var t := ValueText(d.v);
      assert Bland(t[|t| - 1]);
    }
  }

  // ---------------------------------------------------------------- the scan over a readable document

  lemma BlanksAreBland(s: string)
    requires Blanks(s)
    ensures forall k :: 0 <= k < |s| ==> Bland(s[k])
    ensures s != "" ==> s[|s| - 1] != '\\'
  {
  }

  lemma ScanBlanks(str: string, i: nat, s: string, stack: Stack, frame: nat)
    requires 1 <= i && 1 <= frame <= |stack| && At(str, i, s) && Blanks(s) && str[i - 1] != '\\'
    ensures Scan(str, i, false, stack, frame) == Scan(str, i + |s|, false, stack, frame)
    ensures str[i + |s| - 1] != '\\'
  {
    hide Scan;
    BlanksAreBland(s);
    ScanBland(str, i, s, stack, frame);
    if s != "" {
      AtChar(str, i, s, |s| - 1);
    }
  }

  /** Over a readable document the scan comes back to the stack it had, whatever follows. */
  lemma {:induction false} ScanDocument(str: string, i: nat, d: Document, stack: Stack, frame: nat)
    requires Readable(d) && Laid(d) && At(str, i, DocText(d))
    requires 1 <= i && 1 <= frame <= |stack| && str[i - 1] != '\\'
    ensures Scan(str, i, false, stack, frame) == Scan(str, i + |DocText(d)|, false, stack, frame)
    ensures i + |DocText(d)| <= |str| && str[i + |DocText(d)| - 1] != '\\'
    decreases d, 1
  {
    hide Scan, Readable, Laid, DocText;
    DocEnds(d);
    AtChar(str, i, DocText(d), |DocText(d)| - 1);
    if d.Array? {
      ScanArray(str, i, d, stack, frame);
    } else if d.Object? {
      ScanObject(str, i, d, stack, frame);
    } else {
      ScanFlat(str, i, d, stack, frame);
    }
  }

  lemma ScanFlat(str: string, i: nat, d: Document, stack: Stack, frame: nat)
    requires Readable(d) && !d.Array? && !d.Object? && At(str, i, DocText(d))
    requires 1 <= i && 1 <= frame <= |stack| && str[i - 1] != '\\'
    ensures Scan(str, i, false, stack, frame) == Scan(str, i + |DocText(d)|, false, stack, frame)
  {
    hide Scan, Legible, Unescape, Bland, NumeralText, ValueText, LegalNumeral, At;
    match d {
      case Quote(raw) => ScanQuotation(str, i, raw, stack, frame);
      case Number(n) =>
        NumeralCharacters(n);
        ScanBland(str, i, NumeralText(n), stack, frame);
      case Word(v) =>
        ScalarTextIsBland(v);
        WordText(v);
        ScanBland(str, i, ValueText(v), stack, frame);
    }
  }

  lemma {:induction false} ScanArray(str: string, i: nat, d: Document, stack: Stack, frame: nat)
    requires Readable(d) && Laid(d) && d.Array? && At(str, i, DocText(d)) && 1 <= i && 1 <= frame <= |stack|
    ensures Scan(str, i, false, stack, frame) == Scan(str, i + |DocText(d)|, false, stack, frame)
    decreases d, 0
  {
    hide *;
    ArrayIs(d);
    var inner := ElementsText(d.items, d.end);
    BracketKinds();
    ScanOpened(str, i, "[", inner, "]");
    ScanOpen(str, i, stack, InArray, frame);
    ScanElements(str, i + 1, d.items, d.end, stack + [InArray], frame);
    ScanClosed(str, i + 1 + |inner|, stack, InArray, frame);
  }

  lemma {:induction false} ScanObject(str: string, i: nat, d: Document, stack: Stack, frame: nat)
    requires Readable(d) && Laid(d) && d.Object? && At(str, i, DocText(d)) && 1 <= i && 1 <= frame <= |stack|
    ensures Scan(str, i, false, stack, frame) == Scan(str, i + |DocText(d)|, false, stack, frame)
    decreases d, 0
  {
    hide *;
    ObjectIs(d);
    var inner := PairsText(d.pairs, d.end);
    BracketKinds();
    ScanOpened(str, i, "{", inner, "}");
    ScanOpen(str, i, stack, InObject, frame);
    ScanPairs(str, i + 1, d.pairs, d.end, stack + [InObject], frame);
    ScanClosed(str, i + 1 + |inner|, stack, InObject, frame);
  }

  lemma ArrayIs(d: Document)
    requires Readable(d) && Laid(d) && d.Array?
    ensures ReadableElements(d.items) && Blanks(d.end) && DocText(d) == "[" + ElementsText(d.items, d.end) + "]"
  {
    hide ElementsText, Blanks, LaidElement;
  }

  lemma ObjectIs(d: Document)
    requires Readable(d) && Laid(d) && d.Object?
    ensures ReadablePairs(d.pairs) && Blanks(d.end) && DocText(d) == "{" + PairsText(d.pairs, d.end) + "}"
  {
    hide PairsText, Blanks, LaidPair, Legible;
  }

  predicate ReadableElements(items: seq<Element>) {
    forall i :: 0 <= i < |items| ==> Readable(items[i].doc) && LaidElement(items[i]) && Laid(items[i].doc)
  }

  predicate ReadablePairs(pairs: seq<Pair>) {
    forall i :: 0 <= i < |pairs| ==>
      Legible(pairs[i].key) && Readable(pairs[i].doc) && LaidPair(pairs[i]) && Laid(pairs[i].doc)
  }

  lemma {:induction false} ScanElements(str: string, i: nat, items: seq<Element>, end: string, stack: Stack, frame: nat)
    requires ReadableElements(items) && Blanks(end) && At(str, i, ElementsText(items, end))
    requires 1 <= i && 1 <= frame <= |stack| && str[i - 1] != '\\'
    ensures Scan(str, i, false, stack, frame) == Scan(str, i + |ElementsText(items, end)|, false, stack, frame)
    decreases items, 0
  {
    hide Readable, Laid, DocText, Scan, At, Blanks;
    if items == [] {
      ScanBlanks(str, i, end, stack, frame);
    } else {
      var e, t := items[0], DocText(items[0].doc);
      var tail := if |items| == 1 then end else items[1].ahead + ("," + ElementsText(items[1..], end));
      AtSplit(str, i, e.before, t + tail);
      AtSplit(str, i + |e.before|, t, tail);
      ScanBlanks(str, i, e.before, stack, frame);
      var j := i + |e.before|;
      ScanDocument(str, j, e.doc, stack, frame);
      if |items| == 1 {
        ScanBlanks(str, j + |t|, end, stack, frame);
      } else {
        var more := ElementsText(items[1..], end);
        ScanSeparator(str, j + |t|, items[1].ahead, more, stack, frame);
        ScanElements(str, j + |t| + |items[1].ahead| + 1, items[1..], end, stack, frame);
      }
    }
  }

  /** Over white space and the comma behind it. */
  lemma ScanSeparator(str: string, i: nat, ahead: string, more: string, stack: Stack, frame: nat)
    requires 1 <= i && 1 <= frame <= |stack| && At(str, i, ahead + ("," + more)) && Blanks(ahead) && str[i - 1] != '\\'
    ensures var j := i + |ahead| + 1;
            && j <= |str| && At(str, j, more) && str[j - 1] == ','
            && Scan(str, i, false, stack, frame) == Scan(str, j, false, stack, frame)
  {
    hide Scan, Blanks;
    AtSplit(str, i, ahead, "," + more);
    AtSplit(str, i + |ahead|, ",", more);
    AtChar(str, i + |ahead|, ",", 0);
    ScanBlanks(str, i, ahead, stack, frame);
    ScanBland(str, i + |ahead|, ",", stack, frame);
  }

  lemma ScanKey(str: string, i: nat, p: Pair, stack: Stack, frame: nat)
    requires 1 <= i && 1 <= frame <= |stack| && At(str, i, KeyText(p)) && LaidPair(p) && Legible(p.key) && str[i - 1] != '\\'
    ensures var j := i + |KeyText(p)|;
            && j <= |str| && str[j - 1] != '\\'
            && Scan(str, i, false, stack, frame) == Scan(str, j, false, stack, frame)
  {
    hide Scan, Blanks, Legible, At, Bland;
    var q := "\"" + p.key + "\"";
    var a := i + |p.before|;
    var b := a + |q|;
    var c := b + |p.mid|;
    KeyParts(str, i, p);
    ScanBlanks(str, i, p.before, stack, frame);
    ScanQuotation(str, a, p.key, stack, frame);
    ScanBlanks(str, b, p.mid, stack, frame);
    ColonIsBland();
    ScanBland(str, c, ":", stack, frame);
    ScanBlanks(str, c + 1, p.gap, stack, frame);
  }

  lemma ColonIsBland()
    ensures forall k :: 0 <= k < |":"| ==> Bland(":"[k])
  {
  }

  lemma KeyParts(str: string, i: nat, p: Pair)
    requires At(str, i, KeyText(p))
    ensures var q := "\"" + p.key + "\"";
            var a := i + |p.before|;
            var b := a + |q|;
            var c := b + |p.mid|;
            && c + 1 + |p.gap| == i + |KeyText(p)| <= |str|
            && At(str, i, p.before) && At(str, a, q) && At(str, b, p.mid) && At(str, c, ":") && At(str, c + 1, p.gap)
            && str[b - 1] == '"' && str[c] == ':'
  {
    var q := "\"" + p.key + "\"";
    var a := i + |p.before|;
    AtSplit(str, i, p.before + q + p.mid + ":", p.gap);
    AtSplit(str, i, p.before + q + p.mid, ":");
    AtSplit(str, i, p.before + q, p.mid);
    AtSplit(str, i, p.before, q);
    AtChar(str, a, q, |q| - 1);
    AtChar(str, a + |q| + |p.mid|, ":", 0);
  }

  lemma {:induction false} ScanPairs(str: string, i: nat, pairs: seq<Pair>, end: string, stack: Stack, frame: nat)
    requires ReadablePairs(pairs) && Blanks(end) && At(str, i, PairsText(pairs, end))
    requires 1 <= i && 1 <= frame <= |stack| && str[i - 1] != '\\'
    ensures Scan(str, i, false, stack, frame) == Scan(str, i + |PairsText(pairs, end)|, false, stack, frame)
    decreases pairs, 0
  {
    hide Readable, Laid, DocText, Scan, At, Blanks, KeyText, Legible;
    if pairs == [] {
      ScanBlanks(str, i, end, stack, frame);
    } else {
      var p, t := pairs[0], DocText(pairs[0].doc);
      var tail := if |pairs| == 1 then end else pairs[1].ahead + ("," + PairsText(pairs[1..], end));
      AtSplit(str, i, KeyText(p), t + tail);
      AtSplit(str, i + |KeyText(p)|, t, tail);
      ScanKey(str, i, p, stack, frame);
      var j := i + |KeyText(p)|;
      ScanDocument(str, j, p.doc, stack, frame);
      if |pairs| == 1 {
        ScanBlanks(str, j + |t|, end, stack, frame);
      } else {
        var more := PairsText(pairs[1..], end);
        ScanSeparator(str, j + |t|, pairs[1].ahead, more, stack, frame);
        ScanPairs(str, j + |t| + |pairs[1].ahead| + 1, pairs[1..], end, stack, frame);
      }
    }
  }

  /** The scan finds the end of every array and object of which all strings and keys are readable. */
  lemma ReadableEndIsFound(d: Document)
    requires Readable(d) && Laid(d)
    ensures EndFound(d)
  {
    hide ElementsText, PairsText, Legible, Unescape;
    var t := DocText(d);
    if d.Array? {
      assert At(t, 0, t);
      ScanOpened(t, 0, "[", ElementsText(d.items, d.end), "]");
      ScanElements(t, 1, d.items, d.end, [InArray], 1);
    } else if d.Object? {
      assert At(t, 0, t);
      ScanOpened(t, 0, "{", PairsText(d.pairs, d.end), "}");
      ScanPairs(t, 1, d.pairs, d.end, [InObject], 1);
    }
  }

  /** It is enough that all strings and keys are readable. */
  lemma {:induction false} ReadableIsPlain(d: Document)
    requires Readable(d) && Laid(d)
    ensures Plain(d) && EndFound(d)
  {
    hide EndFound, Delimited, Unescape, LaidElement, LaidPair, Blanks;
    ReadableEndIsFound(d);
    match d {
      case Array(items, _) =>
        forall i | 0 <= i < |items| ensures Plain(items[i].doc) && EndFound(items[i].doc) {
          ReadableIsPlain(items[i].doc);
        }
      case Object(pairs, _) =>
        forall i | 0 <= i < |pairs|
          ensures Delimited(pairs[i].key) && Plain(pairs[i].doc) && EndFound(pairs[i].doc)
        {
          ReadableIsPlain(pairs[i].doc);
        }
      case _ =>
    }
  }
}
