/**
 White space makes no difference to what the parser finds its way in, nor to what comes back, except
 inside an object without members.
 */
module JsonLayout {
  import opened Options
  import opened JsonText
  import opened JsonBrackets
  import opened JsonValue
  import opened JsonReader
  import opened JsonPrinted
  import opened JsonDocument
  import opened JsonRoundTrip

  // ---------------------------------------------------------------- blanks put into a text

  /** a is b with white space put in, none of it right behind a backslash; p is the character in front. */
  predicate Spaced(p: char, a: string, b: string)
    decreases |a|
  {
    if a == "" then b == ""
    else
      || (b != "" && a[0] == b[0] && Spaced(a[0], a[1..], b[1..]))
      || (Blank(a[0]) && p != '\\' && Spaced(a[0], a[1..], b))
  }

  function LastOf(p: char, a: string): char {
    if a == "" then p else a[|a| - 1]
  }

  lemma {:induction false} SpacedConcat(p: char, a: string, b: string, a': string, b': string)
    requires Spaced(p, a, b) && Spaced(LastOf(p, a), a', b')
    ensures Spaced(p, a + a', b + b')
    decreases |a|
  {
    if a == "" {
      assert a + a' == a' && b + b' == b';
    } else {
      assert (a + a')[1..] == a[1..] + a';
      if b != "" && a[0] == b[0] && Spaced(a[0], a[1..], b[1..]) {
        assert (b + b')[1..] == b[1..] + b';
        SpacedConcat(a[0], a[1..], b[1..], a', b');
      } else {
        SpacedConcat(a[0], a[1..], b, a', b');
      }
    }
  }

  lemma {:induction false} SpacedSame(p: char, a: string)
    ensures Spaced(p, a, a)
    decreases |a|
  {
    if a != "" {
      SpacedSame(a[0], a[1..]);
    }
  }

  lemma {:induction false} SpacedBlanks(p: char, a: string)
    requires Blanks(a) && p != '\\'
    ensures Spaced(p, a, "") && LastOf(p, a) != '\\'
    decreases |a|
  {
    if a != "" {
      SpacedBlanks(a[0], a[1..]);
    }
  }

  lemma {:induction false} SpacedNothing(p: char, a: string)
    requires Spaced(p, a, "")
    ensures Blanks(a)
    decreases |a|
  {
    if a != "" {
      SpacedNothing(a[0], a[1..]);
    }
  }

  /** Two scans with the same verdict and stack, and that end at the last character or not alike. */
  ghost predicate SameScan(a: string, b: string, x: Match, y: Match) {
    && x.Wrong? == y.Wrong? && x.stack == y.stack
    && (x.End? ==> (x.pos == |a| - 1 <==> y.pos == |b| - 1))
  }

  lemma SpacedStep(a: string, i: nat, b: string, j: nat)
    requires 1 <= i <= |a| && 1 <= j <= |b| && Spaced(a[i - 1], a[i..], b[j..])
    ensures i == |a| ==> j == |b|
    ensures i < |a| ==> || (j < |b| && a[i] == b[j] && Spaced(a[i], a[i + 1..], b[j + 1..]))
                        || (Blank(a[i]) && a[i - 1] != '\\' && Spaced(a[i], a[i + 1..], b[j..]))
  {
    if i < |a| {
      assert a[i..][0] == a[i] && a[i..][1..] == a[i + 1..];
      if j < |b| {
        assert b[j..][0] == b[j] && b[j..][1..] == b[j + 1..];
      }
    }
  }

  lemma ScanOneBlank(a: string, i: nat, quoted: bool, stack: Stack, frame: nat)
    requires 1 <= i < |a| && 1 <= frame <= |stack| && Blank(a[i])
    ensures Scan(a, i, quoted, stack, frame) == Scan(a, i + 1, quoted, stack, frame)
  {
  }

  lemma NotAllBlank(a: string, k: nat)
    requires k < |a| && !Blank(a[|a| - 1])
    ensures !Blanks(a[k..])
  {
    assert a[k..][|a| - 1 - k] == a[|a| - 1];
  }

  /** What is behind two texts of the same kind is empty alike. */
  lemma EndsTogether(a: string, i: nat, b: string, j: nat)
    requires 1 <= i < |a| && 1 <= j < |b| && Spaced(a[i], a[i + 1..], b[j + 1..]) && !Blank(a[|a| - 1])
    ensures i == |a| - 1 <==> j == |b| - 1
  {
    if i + 1 < |a| {
      NotAllBlank(a, i + 1);
    }
    if j == |b| - 1 {
      assert b[j + 1..] == "";
      SpacedNothing(a[i], a[i + 1..]);
    }
  }

  /** The scan over a text with white space put in does the same as on the text without. */
  lemma {:induction false} ScanIgnoresBlanks(a: string, i: nat, b: string, j: nat, quoted: bool, stack: Stack, frame: nat)
    requires 1 <= i <= |a| && 1 <= j <= |b| && 1 <= frame <= |stack| && !Blank(a[|a| - 1])
    requires Spaced(a[i - 1], a[i..], b[j..]) && (a[i - 1] == '\\' <==> b[j - 1] == '\\')
    ensures SameScan(a, b, Scan(a, i, quoted, stack, frame), Scan(b, j, quoted, stack, frame))
    decreases |a| - i
  {
    hide Spaced;
    SpacedStep(a, i, b, j);
    if i < |a| {
      var c := a[i];
      if j < |b| && c == b[j] && Spaced(c, a[i + 1..], b[j + 1..]) {
        if c == '"' {
          ScanIgnoresBlanks(a, i + 1, b, j + 1, if a[i - 1] != '\\' then !quoted else quoted, stack, frame);
        } else if !quoted && Opens(c) {
          ScanIgnoresBlanks(a, i + 1, b, j + 1, quoted, stack + [KindOf(c)], frame);
        } else if !quoted && Closes(c) {
          if Last(stack) == KindOf(c) && |stack| > frame {
            ScanIgnoresBlanks(a, i + 1, b, j + 1, quoted, Front(stack), frame);
          } else {
            EndsTogether(a, i, b, j);
          }
        } else {
          ScanIgnoresBlanks(a, i + 1, b, j + 1, quoted, stack, frame);
        }
      } else {
        ScanOneBlank(a, i, quoted, stack, frame);
        ScanIgnoresBlanks(a, i + 1, b, j, quoted, stack, frame);
      }
    }
  }

  // ---------------------------------------------------------------- documents and their stripped form

  lemma {:induction false} StripIsSpaced(p: char, d: Document)
    requires Laid(d) && Plain(d) && p != '\\'
    ensures Spaced(p, DocText(d), DocText(Strip(d)))
    decreases d, 1
  {
    hide Spaced, ElementsText, PairsText, Blanks, LaidElement, LaidPair, NumeralText, LegalNumeral, Delimited, Unescape, EndFound;
    match d {
      case Array(items, end) =>
        SpacedElements('[', items, end);
        SpacedBetween(p, "[", ElementsText(items, end), ElementsText(StripElements(items), ""), "]");
      case Object(pairs, end) =>
        SpacedPairs('{', pairs, end);
        SpacedBetween(p, "{", PairsText(pairs, end), PairsText(StripPairs(pairs), ""), "}");
      case _ =>
        SpacedSame(p, DocText(d));
    }
  }

  lemma SpacedBetween(p: char, open: string, a: string, b: string, close: string)
    requires |open| == |close| == 1 && Spaced(open[0], a, b)
    ensures Spaced(p, open + a + close, open + b + close)
  {
    hide Spaced;
    SpacedSame(p, open);
    SpacedSame(LastOf(p, open + a), close);
    SpacedConcat(p, open, open, a, b);
    SpacedConcat(p, open + a, open + b, close, close);
  }

  /** A text behind white space. */
  lemma SpacedBehind(p: char, blank: string, a: string, b: string)
    requires Blanks(blank) && p != '\\' && Spaced(LastOf(p, blank), a, b)
    ensures Spaced(p, blank + a, b)
  {
    hide Spaced, Blanks;
    SpacedBlanks(p, blank);
    SpacedConcat(p, blank, "", a, b);
    assert "" + b == b;
  }

  /** One entry and what follows: head, document, and white space with a comma and more behind it. */
  lemma SpacedEntry(p: char, h: string, h': string, t: string, t': string, ahead: string, m: string, m': string)
    requires Spaced(p, h, h') && Spaced(LastOf(p, h), t, t') && Blanks(ahead) && Spaced(',', m, m')
    requires t != "" && t[|t| - 1] != '\\'
    ensures Spaced(p, h + (t + (ahead + ("," + m))), h' + (t' + ("" + ("," + m'))))
  {
    hide Spaced, Blanks;
    var q := t[|t| - 1];
    SpacedBlanks(q, ahead);
    SpacedSame(LastOf(q, ahead), ",");
    SpacedConcat(LastOf(q, ahead), ",", ",", m, m');
    SpacedConcat(q, ahead, "", "," + m, "," + m');
    SpacedConcat(LastOf(p, h), t, t', ahead + ("," + m), "" + ("," + m'));
    SpacedConcat(p, h, h', t + (ahead + ("," + m)), t' + ("" + ("," + m')));
  }

  lemma SpacedLast(p: char, h: string, h': string, t: string, t': string, end: string)
    requires Spaced(p, h, h') && Spaced(LastOf(p, h), t, t') && Blanks(end)
    requires t != "" && t[|t| - 1] != '\\'
    ensures Spaced(p, h + (t + end), h' + (t' + ""))
  {
    hide Spaced, Blanks;
    SpacedBlanks(t[|t| - 1], end);
    SpacedConcat(LastOf(p, h), t, t', end, "");
    SpacedConcat(p, h, h', t + end, t' + "");
  }

  lemma {:induction false} SpacedElements(p: char, items: seq<Element>, end: string)
    requires PlainElements(items) && Blanks(end) && p != '\\'
    ensures Spaced(p, ElementsText(items, end), ElementsText(StripElements(items), ""))
    decreases items, 0
  {
    hide Spaced, Blanks, Plain, Laid, DocText, Strip, EndFound, ElementsText, StripElements;
    var stripped := StripElements(items);
    StripElementsCons(items);
    ElementsTextCons(items, end);
    ElementsTextCons(stripped, "");
    if items == [] {
      SpacedBlanks(p, end);
    } else {
      var e, d := items[0], items[0].doc;
      SpacedBlanks(p, e.before);
      StripIsSpaced(LastOf(p, e.before), d);
      DocEnds(d);
      if |items| == 1 {
        SpacedLast(p, e.before, "", DocText(d), DocText(Strip(d)), end);
      } else {
        SpacedElements(',', items[1..], end);
        SpacedEntry(p, e.before, "", DocText(d), DocText(Strip(d)), items[1].ahead,
                    ElementsText(items[1..], end), ElementsText(stripped[1..], ""));
      }
    }
  }

  lemma ElementsTextCons(items: seq<Element>, end: string)
    ensures items == [] ==> ElementsText(items, end) == end
    ensures |items| == 1 ==> ElementsText(items, end) == items[0].before + (DocText(items[0].doc) + end)
    ensures |items| > 1 ==>
              var more := items[1].ahead + ("," + ElementsText(items[1..], end));
              ElementsText(items, end) == items[0].before + (DocText(items[0].doc) + more)
  {
    hide DocText;
  }

  lemma StripElementsCons(items: seq<Element>)
    ensures items != [] ==> StripElements(items)[0] == Element("", "", Strip(items[0].doc))
                            && StripElements(items)[1..] == StripElements(items[1..])
    ensures |items| > 1 ==> StripElements(items)[1] == Element("", "", Strip(items[1].doc))
  {
    hide Strip;
  }

  lemma PairsTextCons(pairs: seq<Pair>, end: string)
    ensures pairs == [] ==> PairsText(pairs, end) == end
    ensures |pairs| == 1 ==> PairsText(pairs, end) == KeyText(pairs[0]) + (DocText(pairs[0].doc) + end)
    ensures |pairs| > 1 ==>
              var more := pairs[1].ahead + ("," + PairsText(pairs[1..], end));
              PairsText(pairs, end) == KeyText(pairs[0]) + (DocText(pairs[0].doc) + more)
  {
    hide DocText, KeyText;
  }

  function StripPair(p: Pair): Pair {
    Pair("", "", p.key, "", "", Strip(p.doc))
  }

  lemma StripPairsCons(pairs: seq<Pair>)
    ensures pairs != [] ==> StripPairs(pairs)[0] == StripPair(pairs[0])
                            && StripPairs(pairs)[1..] == StripPairs(pairs[1..])
    ensures |pairs| > 1 ==> StripPairs(pairs)[1] == StripPair(pairs[1])
  {
    hide Strip;
  }

  lemma SpacedKey(c: char, p: Pair)
    requires LaidPair(p) && c != '\\'
    ensures Spaced(c, KeyText(p), KeyText(StripPair(p))) && LastOf(c, KeyText(p)) != '\\'
  {
    hide Spaced, Blanks;
    var q := "\"" + p.key + "\"";
    SpacedBlanks(c, p.before);
    SpacedSame(LastOf(c, p.before), q);
    SpacedConcat(c, p.before, "", q, q);
    SpacedBlanks('"', p.mid);
    SpacedConcat(c, p.before + q, "" + q, p.mid, "");
    SpacedSame(LastOf('"', p.mid), ":");
    SpacedConcat(c, p.before + q + p.mid, "" + q + "", ":", ":");
    SpacedBlanks(':', p.gap);
    SpacedConcat(c, p.before + q + p.mid + ":", "" + q + "" + ":", p.gap, "");
  }

  lemma {:induction false} SpacedPairs(p: char, pairs: seq<Pair>, end: string)
    requires PlainPairs(pairs) && Blanks(end) && p != '\\'
    ensures Spaced(p, PairsText(pairs, end), PairsText(StripPairs(pairs), ""))
    decreases pairs, 0
  {
    hide Spaced, Blanks, Plain, Laid, LaidPair, DocText, Strip, EndFound, PairsText, StripPairs, KeyText, Delimited;
    var stripped := StripPairs(pairs);
    StripPairsCons(pairs);
    PairsTextCons(pairs, end);
    PairsTextCons(stripped, "");
    if pairs == [] {
      SpacedBlanks(p, end);
    } else {
      var e, d := pairs[0], pairs[0].doc;
      SpacedKey(p, e);
      StripIsSpaced(LastOf(p, KeyText(e)), d);
      DocEnds(d);
      if |pairs| == 1 {
        SpacedLast(p, KeyText(e), KeyText(stripped[0]), DocText(d), DocText(Strip(d)), end);
      } else {
        SpacedPairs(',', pairs[1..], end);
        LaidPairMeans(pairs[1]);
        SpacedEntry(p, KeyText(e), KeyText(stripped[0]), DocText(d), DocText(Strip(d)), pairs[1].ahead,
                    PairsText(pairs[1..], end), PairsText(stripped[1..], ""));
      }
    }
  }

  /** The scan finds the end of a document exactly when it does so without the white space. */
  lemma EndFoundStripped(d: Document)
    requires Laid(d) && Plain(d)
    ensures EndFound(Strip(d)) <==> EndFound(d)
  {
    hide Spaced, ElementsText, PairsText, Laid, Plain, Scan;
    if d.Array? || d.Object? {
      var a, b, kind := DocText(d), DocText(Strip(d)), KindOfDocument(d);
      StripIsSpaced(' ', d);
      SpacedHead(' ', a, b);
      ScanIgnoresBlanks(a, 1, b, 1, false, [kind], 1);
      MatchPopsFrame(a, 1, false, [kind], 1);
      MatchPopsFrame(b, 1, false, [kind], 1);
    }
  }

  lemma SpacedHead(p: char, a: string, b: string)
    requires Spaced(p, a, b) && a != "" && b != "" && a[0] == b[0] && !Blank(a[0])
    ensures Spaced(a[0], a[1..], b[1..])
  {
  }

  /** White space makes no difference to what the parser finds its way in. */
  lemma {:induction false} StrippedIsPlain(d: Document)
    requires Laid(d)
    ensures Plain(Strip(d)) <==> Plain(d)
    decreases d, 1
  {
    hide Plain, Blanks, LaidElement, LaidPair, UsableElements, UsablePairs, StripElements, StripPairs;
    if d.Array? {
      StrippedElementsArePlain(d.items);
      ArrayIsPlain(d);
      ArrayIsPlain(Strip(d));
    } else if d.Object? {
      StrippedPairsArePlain(d.pairs);
      ObjectIsPlain(d);
      ObjectIsPlain(Strip(d));
    }
  }

  lemma {:induction false} StrippedIsUsable(d: Document)
    requires Laid(d)
    ensures Usable(Strip(d)) <==> Usable(d)
    decreases d, 2
  {
    hide Plain, EndFound, Laid, Strip;
    StrippedIsPlain(d);
    if Plain(d) {
      EndFoundStripped(d);
    }
  }

  predicate Usable(d: Document) {
    Plain(d) && EndFound(d)
  }

  predicate UsableElements(items: seq<Element>) {
    forall i :: 0 <= i < |items| ==> Usable(items[i].doc)
  }

  predicate UsablePair(p: Pair) {
    Delimited(p.key) && Usable(p.doc)
  }

  predicate UsablePairs(pairs: seq<Pair>) {
    forall i :: 0 <= i < |pairs| ==> UsablePair(pairs[i])
  }

  lemma ArrayIsPlain(d: Document)
    requires d.Array?
    ensures Plain(d) <==> UsableElements(d.items)
  {
    hide EndFound;
  }

  lemma ObjectIsPlain(d: Document)
    requires d.Object?
    ensures Plain(d) <==> UsablePairs(d.pairs)
  {
    hide EndFound, Delimited;
  }

  lemma {:induction false} StrippedElementsArePlain(items: seq<Element>)
    requires forall i :: 0 <= i < |items| ==> Laid(items[i].doc)
    ensures UsableElements(StripElements(items)) <==> UsableElements(items)
    decreases items, 0
  {
    hide Usable, Laid, Strip, StripElements;
    forall i | 0 <= i < |items| ensures Usable(StripElements(items)[i].doc) <==> Usable(items[i].doc) {
      StrippedIsUsable(items[i].doc);
      StrippedElementAt(items, i);
    }
  }

  lemma {:induction false} StrippedElementAt(items: seq<Element>, i: nat)
    requires i < |items|
    ensures StripElements(items)[i] == Element("", "", Strip(items[i].doc))
  {
    hide Strip;
    if i > 0 {
      StrippedElementAt(items[1..], i - 1);
    }
  }

  lemma {:induction false} StrippedPairsArePlain(pairs: seq<Pair>)
    requires forall i :: 0 <= i < |pairs| ==> Laid(pairs[i].doc)
    ensures UsablePairs(StripPairs(pairs)) <==> UsablePairs(pairs)
    decreases pairs, 0
  {
    hide Usable, Laid, Strip, StripPairs, Delimited;
    forall i | 0 <= i < |pairs| ensures UsablePair(StripPairs(pairs)[i]) <==> UsablePair(pairs[i]) {
      StrippedIsUsable(pairs[i].doc);
      StrippedPairAt(pairs, i);
    }
  }

  lemma {:induction false} StrippedPairAt(pairs: seq<Pair>, i: nat)
    requires i < |pairs|
    ensures StripPairs(pairs)[i] == StripPair(pairs[i])
  {
    hide Strip;
    if i > 0 {
      StrippedPairAt(pairs[1..], i - 1);
    }
  }

  // ---------------------------------------------------------------- what comes back

  /** Somewhere in the document is an object without members but with white space inside. */
  predicate AnyHollow(d: Document) {
    match d
    case Array(items, _) => exists i :: 0 <= i < |items| && AnyHollow(items[i].doc)
    case Object(pairs, _) => Hollow(d) || exists i :: 0 <= i < |pairs| && AnyHollow(pairs[i].doc)
    case _ => false
  }

  /** Apart from hollow objects white space does not change what comes back. */
  lemma {:induction false} StrippedReadsBack(d: Document)
    requires !AnyHollow(d)
    ensures ReadBack(Strip(d)) == ReadBack(d) && (Filled(Strip(d)) <==> Filled(d))
    decreases d, 1
  {
    hide Exposed, Unescape, Insert;
    match d {
      case Array(items, end) => StrippedElementsReadBack(items);
      case Object(pairs, end) => StrippedPairsReadBack(pairs, []);
      case _ =>
    }
  }

  lemma {:induction false} StrippedElementsReadBack(items: seq<Element>)
    requires forall i :: 0 <= i < |items| ==> !AnyHollow(items[i].doc)
    ensures ReadBackElements(StripElements(items)) == ReadBackElements(items)
    ensures ExposedElement(StripElements(items)) == ExposedElement(items)
    ensures FilledElements(StripElements(items)) <==> FilledElements(items)
    decreases items, 0
  {
    if items != [] {
      hide AnyHollow, ReadBack, Filled, Exposed, StripElements;
      StrippedReadsBack(items[0].doc);
      StrippedElementsReadBack(items[1..]);
      StripElementsCons(items);
      FilledElementsCons(items);
      FilledElementsCons(StripElements(items));
    }
  }

  lemma {:induction false} StrippedPairsReadBack(pairs: seq<Pair>, obj: seq<Member>)
    requires forall i :: 0 <= i < |pairs| ==> !AnyHollow(pairs[i].doc)
    ensures StoreAll(obj, StripPairs(pairs)) == StoreAll(obj, pairs)
    ensures AnyEmptyKey(StripPairs(pairs)) == AnyEmptyKey(pairs)
    ensures FilledPairs(StripPairs(pairs)) <==> FilledPairs(pairs)
    decreases pairs, 0
  {
    if pairs != [] {
      hide AnyHollow, ReadBack, Filled, StripPairs, Insert;
      StrippedReadsBack(pairs[0].doc);
      StrippedPairsReadBack(pairs[1..], Insert(obj, pairs[0].key, ReadBack(pairs[0].doc)));
      StripPairsCons(pairs);
      FilledPairsCons(pairs);
      FilledPairsCons(StripPairs(pairs));
    }
  }
}
