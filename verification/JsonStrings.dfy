/**
 What becomes of one string between quotes: as an object member with any key, as an array element, and
 one array deeper, where the bracket scan runs over it.
 */
module JsonStrings {
  import opened Options
  import opened CStrings
  import opened JsonText
  import opened JsonBrackets
  import opened JsonValue
  import opened JsonWriter
  import opened JsonReader
  import opened JsonPrinted
  import opened JsonDocument
  import opened JsonRoundTrip
  import opened JsonSafe
  import opened JsonLaws

  // ---------------------------------------------------------------- the closing quote

  /** The string s and what follows it, behind an opening quote that stands inside an array. */
  function Opened(s: string): string {
    "[\"" + s
  }

  /** In the sense of section 7 of RFC 8259, the quote at k closes the string that begins s. */
  predicate ClosingQuote(s: string, k: nat) {
    k < |s| && s[k] == '"' && QuotationAt(Opened(s), k + 2) == Inside
  }

  ghost predicate FirstClosingQuote(s: string, i: nat, e: nat) {
    i <= e && ClosingQuote(s, e) && forall k: nat :: i <= k < e ==> !ClosingQuote(s, k)
  }

  lemma {:induction false} QuotePosFollowsStandard(s: string, i: nat, slash: bool, e: nat)
    requires i <= |s| && QuotationAt(Opened(s), i + 2) == if slash then Protected else Inside
    ensures QuotePos(s, i, slash) == Some(e) <==> FirstClosingQuote(s, i, e)
    decreases |s| - i
  {
    if i < |s| {
      assert Opened(s)[i + 2] == s[i];
      if !(s[i] == '"' && !slash) {
        QuotePosFollowsStandard(s, i + 1, s[i] == '\\' && !slash, e);
        assert !ClosingQuote(s, i);
        assert FirstClosingQuote(s, i, e) <==> FirstClosingQuote(s, i + 1, e);
      } else {
        assert ClosingQuote(s, i);
      }
    }
  }

  /** Behind an opening quote, the search finds the closing quote of the standard, for every text. */
  lemma QuotePosIsClosingQuote(s: string, e: nat)
    ensures QuotePos(s, 0, false) == Some(e) <==> FirstClosingQuote(s, 0, e)
  {
    assert QuotationAt(Opened(s), 1) == Outside && Opened(s)[1] == '"';
    QuotePosFollowsStandard(s, 0, false, e);
  }

  // ---------------------------------------------------------------- alone in an object or array

  /** For every key and every string as its value, alone in an object: the object comes back if and only
      if the key is not empty and found between its quotes (it is not unescaped, so it may hold protected
      quotes and backslashes), and the string holds no quote and no backslash and has no white space at
      its ends. */
  lemma StringInObjectExactly(key: string, s: string)
    ensures var v := Obj([Member(key, Str(s))]);
            Parse(Text(v)) == Some(v) <==> key != "" && Delimited(key) && Muted(s) && Tight(s)
  {
    hide Parse, Text;
    var m := Member(key, Str(s));
    ParseUndoesTextExactlyOnSafe(Obj([m]));
    OneMember(m);
  }

  lemma OneMember(m: Member)
    requires m.value.Str?
    ensures var v := Obj([m]);
            && WellFormed(v) && DoubleFree(v) && ArrayNullFree(v)
            && (Safe(v) <==> m.key != "" && Delimited(m.key) && Muted(m.value.s) && Tight(m.value.s))
  {
    hide Delimited, Muted, Tight;
    var fields := [m];
    assert fields[1..] == [];
    assert SafeMembers(fields) ==
           (m.key != "" && Delimited(m.key) && Safe(m.value) && EndIsFound(m.value) && SafeMembers(fields[1..]));
    assert ArrayNullFreeMembers(fields) == (ArrayNullFree(m.value) && ArrayNullFreeMembers(fields[1..]));
  }

  /** For every string as the only element of an array: it comes back if and only if it holds no quote
      and no backslash, has no white space at its ends, and no separator in it is exposed. */
  lemma StringInArrayExactly(s: string)
    ensures var v := Arr([Str(s)]);
            Parse(Text(v)) == Some(v) <==> Muted(s) && Tight(s) && !Exposed(s)
  {
    hide Parse, Text;
    ParseUndoesTextExactlyOnSafe(Arr([Str(s)]));
    OneElement(Str(s));
  }

  lemma OneElement(x: Value)
    requires x.Str?
    ensures var v := Arr([x]);
            && WellFormed(v) && DoubleFree(v) && ArrayNullFree(v)
            && (Safe(v) <==> Muted(x.s) && Tight(x.s) && !Exposed(x.s))
  {
    hide Exposed, Muted, Tight;
    var items := [x];
    assert items[1..] == [];
    assert AnyExposed(items) == (Exposed(x.s) || AnyExposed(items[1..]));
    assert SafeItems(items) == (Safe(x) && EndIsFound(x) && SafeItems(items[1..]));
    assert ArrayNullFreeItems(items) == (ArrayNullFree(x) && ArrayNullFreeItems(items[1..]));
  }

  // ---------------------------------------------------------------- one array deeper

  /** A value that is an array or object of its own, and not closed as far as the scan can see, aborts the
      parser; only an abort inside it does so otherwise. */
  lemma NestedAbortsExactly(str: string, stack: Stack, kind: Bracket)
    requires str != ""
    ensures var closes := exists p: nat :: ClosesAt(PreviousCharacter, str, kind, p);
            var clashes := exists p: nat :: ClashesAt(PreviousCharacter, str, kind, p);
            && (!closes && !clashes ==> ReadNested(str, stack, kind).Abort?)
            && (clashes ==> !ReadNested(str, stack, kind).Abort?)
            && (ReadNested(str, stack, kind).Abort? && closes ==>
                  exists p: nat :: ClosesAt(PreviousCharacter, str, kind, p)
                                   && if kind == InArray then ReadArray(str[..p + 1], stack).Broken?
                                      else ReadWhole(str[..p + 1], stack).Broken?)
  {
    hide Scan, ClosesAt, ClashesAt, ReadArray, ReadWhole, RulesAgree;
    ScanRefinesGrammar(str, stack, kind);
    var m := Scan(str, 1, false, stack + [kind], |stack| + 1);
    if m.End? && m.pos < |str| {
      assert ClosesAt(PreviousCharacter, str, kind, m.pos);
    }
  }

  lemma ParseOfArray(inner: string)
    ensures var p := Parse("[" + inner + "]"); var r := ReadElements(inner, [], [InArray]);
            && (p.Some? ==> r.Part? && p.value == r.value)
            && (r.Part? && (r.value.Null? || r.stack != []) ==> p.Some?)
  {
    hide Trim, ReadElements, InsideArray;
    var t := "[" + inner + "]";
    TrimIsIdentityExactlyOnTight(t);
    InsideBrackets(inner);
    assert [] + [InArray] == [InArray];
    assert Tight(t) && t[0] == '[' && t[|t| - 1] == ']';
    assert ReadArray(t, [InArray]) == ReadElements(inner, [], [InArray]);
    assert ReadWhole(t, []) == TakeOff(ReadArray(t, [InArray]), InArray);
  }

  lemma ScanRunsToTheEnd(t: string, stack: Stack)
    requires stack != [] && Delimited(t) && !Legible(t)
    ensures var str := "[\"" + t + "\"]"; Scan(str, 1, false, stack, |stack|) == End(|str|, stack)
  {
    hide Delimited;
    var str := "[\"" + t + "\"]";
    assert At(str, 2, t) by { assert str[2..2 + |t|] == t; }
    DelimitedQuotes(str, 2, t);
    assert str[|t| + 1] == t[|t| - 1] == '\\';
    assert str[1] == '"' && str[0] == '[' && str[|t| + 2] == '"' && str[|t| + 3] == ']';
    ScanInside(str, 2, |str|, stack, |stack|);
    assert Scan(str, |str|, true, stack, |stack|) == End(|str|, stack);
  }

  lemma NestedHiddenEndAborts(t: string)
    requires Delimited(t) && !Legible(t)
    ensures Parse("[[\"" + t + "\"]]") == None
  {
    hide ReadArray, ReadElements, ReadQuoted, ReadScalar, Scan, Trim, Parse, Delimited, Legible;
    var inner := "[\"" + t + "\"]";
    assert "[[\"" + t + "\"]]" == "[" + inner + "]";
    assert [InArray] + [InArray] == [InArray, InArray];
    ScanRunsToTheEnd(t, [InArray, InArray]);
    assert ReadNested(inner, [InArray], InArray).Abort?;
    TrimIsIdentityExactlyOnTight(inner);
    FirstStopUnique(inner, 0);
    ElementsPass(inner, [], [InArray]);
    ParseOfArray(inner);
  }

  /** For every text that is found between its quotes and decodes, alone in an array in an array: the
      parser aborts if and only if a backslash stands in front of the closing quote; otherwise it reads the
      text, or loses the inner array when a separator in it is exposed. */
  lemma NestedStringExactly(t: string)
    requires Delimited(t) && Unescape(t).Some?
    ensures Parse("[[\"" + t + "\"]]") ==
            if !Legible(t) then None
            else if Exposed(t) then Some(Arr([]))
            else Some(Arr([Arr([Str(Unescape(t).value)])]))
  {
    hide *;
    LegibleIs(t);
    if !Legible(t) {
      NestedHiddenEndAborts(t);
    } else {
      var d := Single(Single(Quote(t)));
      NestedDocument(t);
      ReadableIsPlain(d);
      NoBlanks();
      ParsedDocumentIsReadBack(d, "", "");
      assert "" + (DocText(d) + "") == DocText(d);
    }
  }

  lemma LegibleIs(t: string)
    ensures Legible(t) ==> Delimited(t)
  {
    hide Delimited;
  }

  /** An array of one element, with no white space. */
  function Single(d: Document): Document {
    Array([Element("", "", d)], "")
  }

  lemma NestedDocument(t: string)
    requires Legible(t) && Unescape(t).Some?
    ensures var d := Single(Single(Quote(t)));
            && Readable(d) && Laid(d) && d.Array? && DocText(d) == "[[\"" + t + "\"]]"
            && ReadBack(d) == if Exposed(t) then Arr([]) else Arr([Arr([Str(Unescape(t).value)])])
  {
    hide *;
    var q := Quote(t);
    QuoteAlone(t);
    SingleDocument(q);
    SingleDocument(Single(q));
    assert "[" + ("[" + ("\"" + t + "\"") + "]") + "]" == "[[\"" + t + "\"]]";
  }

  lemma QuoteAlone(t: string)
    requires Legible(t) && Unescape(t).Some?
    ensures var q := Quote(t);
            Readable(q) && Laid(q) && DocText(q) == "\"" + t + "\"" && ReadBack(q) == Str(Unescape(t).value)
  {
    hide Legible, Unescape;
  }

  /** An array of one element: its text and what comes back. */
  lemma SingleDocument(x: Document)
    requires Readable(x) && Laid(x)
    ensures var d := Single(x);
            && Readable(d) && Laid(d) && d.Array? && DocText(d) == "[" + DocText(x) + "]"
            && ReadBack(d) == (if x.Quote? && Exposed(x.raw) then Null
                               else if ReadBack(x).Null? then Arr([]) else Arr([ReadBack(x)]))
  {
    hide Exposed, Unescape, Legible;
    var items := [Element("", "", x)];
    assert items[1..] == [];
    assert ElementsText(items, "") == DocText(x);
    assert ExposedElement(items) == (x.Quote? && Exposed(x.raw));
    var r := ReadBack(x);
    assert ReadBackElements(items) == (if r.Null? then [] else [r]) + ReadBackElements([]);
  }

  /** The same for every legal escaping of every text: inside a nested array it is read, trimmed, if and
      only if its last character is not an escaped backslash and no separator in it is exposed. */
  lemma NestedEscapingExactly(ps: seq<Piece>)
    requires LegalPieces(ps)
    ensures var t := PiecesText(ps);
            Parse("[[\"" + t + "\"]]") ==
            if ps != [] && ps[|ps| - 1] == Short('\\') then None
            else if Exposed(t) then Some(Arr([]))
            else Some(Arr([Arr([Str(Trim(PiecesMeaning(ps)))])]))
  {
    hide *;
    LegalEscapingIsReadable(ps);
    NestedStringExactly(PiecesText(ps));
  }

  /** A valid text that aborts the parser: an array in an array with one escaped backslash as its only
      string. */
  lemma EscapedBackslashAborts()
    ensures Parse("[[\"\\\\\"]]") == None
  {
    hide Parse, Exposed, Trim;
    var ps := [Short('\\')];
    assert ps[1..] == [];
    var t := PiecesText(ps);
    assert t == "\\\\" + PiecesText([]) == "\\\\";
    NestedEscapingExactly(ps);
    assert "[[\"" + t + "\"]]" == "[[\"\\\\\"]]";
  }

  /** A text that is not valid and aborts the parser: substr is asked to start behind the end. */
  lemma UnclosedArrayAborts()
    ensures Parse("[[]") == None
  {
    hide ReadElements, ReadArray, Trim, Parse;
    var inner := "[";
    assert "[[]" == "[" + inner + "]";
    assert Scan(inner, 1, false, [InArray] + [InArray], 2).End?;
    assert ReadNested(inner, [InArray], InArray).Abort?;
    TrimIsIdentityExactlyOnTight(inner);
    FirstStopUnique(inner, 0);
    ElementsPass(inner, [], [InArray]);
    ParseOfArray(inner);
  }

  // ---------------------------------------------------------------- white space alone

  /** An object with a blank in it and nothing else is not read, though it is valid. */
  lemma HollowObjectIsLost()
    ensures Parse("{ }") == Some(Null)
  {
    hide *;
    var d := Object([], " ");
    HollowDocument(d);
    NoBlanks();
    ParsedDocumentIsReadBack(d, "", "");
    assert "" + (DocText(d) + "") == DocText(d);
  }

  lemma HollowDocument(d: Document)
    requires d == Object([], " ")
    ensures Plain(d) && Laid(d) && DocText(d) == "{ }" && ReadBack(d) == Null
  {
    assert PairsText([], " ") == " ";
  }

  // ---------------------------------------------------------------- texts that are not read

  /** A text that does not start with a bracket, or ends in the other kind of bracket, is no array or object. */
  lemma OtherTextsAreNotRead(t: string, inner: string)
    requires var u := Trim(t); u == "" || (u[0] != '[' && u[0] != '{')
    ensures Parse(t) == Parse("[" + inner + "}") == Parse("{" + inner + "]") == Some(Null)
  {
    hide Trim;
    TrimIsIdentityExactlyOnTight("[" + inner + "}");
    TrimIsIdentityExactlyOnTight("{" + inner + "]");
  }

  /** What stands between the braces of an object is not read without a colon or without two quotes. */
  lemma KeylessObjectIsNotRead(inner: string)
    requires inner != "" && (':' !in inner || forall i, j :: 0 <= i < j < |inner| ==> inner[i] != '"' || inner[j] != '"')
    ensures Parse("{" + inner + "}") == Some(Null)
  {
    hide Trim, ReadMembers;
    var t := "{" + inner + "}";
    TrimIsIdentityExactlyOnTight(t);
    assert t[1..|t| - 1] == inner;
    NoKeyAndColon(inner);
    MembersPass(inner, [], [] + [InObject]);
    assert ReadObject(t, [] + [InObject]) == ReadMembers(inner, [], [] + [InObject]);
  }

  lemma NoKeyAndColon(inner: string)
    requires inner != "" && (':' !in inner || forall i, j :: 0 <= i < j < |inner| ==> inner[i] != '"' || inner[j] != '"')
    ensures NextKey(inner) == None
  {
    hide QuotePos, Find;
  }
}
