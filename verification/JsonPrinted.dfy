/**
 What the scanning functions do on the serializer's output: the bracket scan comes back to the stack
 it had after every printed value, and printed scalars and strings read back.
 */
module JsonPrinted {
  import opened Options
  import opened CStrings
  import opened JsonText
  import opened JsonBrackets
  import opened JsonValue
  import opened JsonWriter
  import opened JsonReader

  // ---------------------------------------------------------------- the bracket scan over printed values

  /** Characters the bracket scan runs over without noticing. */
  predicate Bland(c: char) {
    c != '"' && c != '\\' && !Opens(c) && !Closes(c)
  }

  lemma {:induction false} ScanBland(str: string, i: nat, t: string, stack: Stack, frame: nat)
    requires 1 <= i && 1 <= frame <= |stack| && At(str, i, t) && forall k :: 0 <= k < |t| ==> Bland(t[k])
    ensures Scan(str, i, false, stack, frame) == Scan(str, i + |t|, false, stack, frame)
    decreases |t|
  {
    if t != "" {
      AtChar(str, i, t, 0);
      assert t == t[..1] + t[1..];
      AtSplit(str, i, t[..1], t[1..]);
      ScanBland(str, i + 1, t[1..], stack, frame);
    }
  }

  /** Inside a quotation whose quotes all stand behind a backslash nothing happens. */
  lemma {:induction false} ScanInside(str: string, i: nat, j: nat, stack: Stack, frame: nat)
    requires 1 <= i <= j <= |str| && 1 <= frame <= |stack|
    requires forall k :: i <= k < j && str[k] == '"' ==> str[k - 1] == '\\'
    ensures Scan(str, i, true, stack, frame) == Scan(str, j, true, stack, frame)
    decreases j - i
  {
    if i < j {
      ScanInside(str, i + 1, j, stack, frame);
    }
  }

  lemma DelimitedQuotes(str: string, i: nat, s: string)
    requires At(str, i, s) && Delimited(s)
    ensures forall k :: i <= k < i + |s| && str[k] == '"' ==> k > i && str[k - 1] == '\\'
  {
    var t := s + "\"";
    forall k | i <= k < i + |s| && str[k] == '"' ensures k > i && str[k - 1] == '\\' {
      AtChar(str, i, s, k - i);
      PassedQuotesAreProtected(t, 0, false, |s|, k - i);
      if k > i {
        AtChar(str, i, s, k - i - 1);
      }
    }
  }

  lemma ScanQuotation(str: string, i: nat, s: string, stack: Stack, frame: nat)
    requires 1 <= i && 1 <= frame <= |stack| && At(str, i, "\"" + s + "\"") && Legible(s) && str[i - 1] != '\\'
    ensures Scan(str, i, false, stack, frame) == Scan(str, i + |s| + 2, false, stack, frame)
  {
    hide Delimited;
    var t := "\"" + s + "\"";
    AtChar(str, i, t, 0);
    AtChar(str, i, t, |s| + 1);
    AtSplit(str, i, "\"" + s, "\"");
    AtSplit(str, i, "\"", s);
    DelimitedQuotes(str, i + 1, s);
    ScanInside(str, i + 1, i + 1 + |s|, stack, frame);
    AtChar(str, i, t, |s|);
    assert str[i + |s|] != '\\';
  }

  lemma ScalarTextIsBland(v: Value)
    requires v.Null? || v.Bool? || v.Int?
    ensures forall k :: 0 <= k < |ValueText(v)| ==> Bland(ValueText(v)[k])
  {
    if v.Int? {
      var t := ValueText(v);
      forall k | 0 <= k < |t| ensures Bland(t[k]) {
        assert t[k] == '-' || IsDigit(t[k]);
      }
    }
  }

  lemma ScanOpen(str: string, i: nat, stack: Stack, kind: Bracket, frame: nat)
    requires 1 <= i < |str| && 1 <= frame <= |stack| && Opens(str[i]) && KindOf(str[i]) == kind
    ensures Scan(str, i, false, stack, frame) == Scan(str, i + 1, false, stack + [kind], frame)
  {
  }

  lemma ScanClosed(str: string, j: nat, stack: Stack, kind: Bracket, frame: nat)
    requires 1 <= j < |str| && 1 <= frame <= |stack| && Closes(str[j]) && KindOf(str[j]) == kind
    ensures Scan(str, j, false, stack + [kind], frame) == Scan(str, j + 1, false, stack, frame)
  {
    assert Front(stack + [kind]) == stack;
  }

  lemma BracketKinds()
    ensures Opens('[') && Closes(']') && KindOf('[') == KindOf(']') == InArray
    ensures Opens('{') && Closes('}') && KindOf('{') == KindOf('}') == InObject
  {
  }

  lemma ScanOpened(str: string, i: nat, open: string, inner: string, close: string)
    requires At(str, i, open + inner + close) && |open| == |close| == 1
    ensures i + |inner| + 2 <= |str|
    ensures str[i] == open[0] && At(str, i + 1, inner) && str[i + 1 + |inner|] == close[0]
  {
    var t := open + inner + close;
    AtChar(str, i, t, 0);
    AtChar(str, i, t, |inner| + 1);
    AtSplit(str, i, open + inner, close);
    AtSplit(str, i, open, inner);
  }

  lemma SplitAtComma(str: string, i: nat, t: string, rest: string)
    requires At(str, i, t + "," + rest)
    ensures At(str, i, t) && At(str, i + |t|, ",") && At(str, i + |t| + 1, rest) && str[i + |t|] == ','
  {
    AtSplit(str, i, t + ",", rest);
    AtSplit(str, i, t, ",");
    AtChar(str, i + |t|, ",", 0);
  }

  /** Where the parts of a printed pair stand. */
  lemma SplitPair(str: string, i: nat, key: string, t: string)
    requires At(str, i, "\"" + key + "\":" + t)
    ensures At(str, i, "\"" + key + "\"") && At(str, i + |key| + 2, ":") && At(str, i + |key| + 3, t)
    ensures str[i] == '"' && str[i + |key| + 1] == '"' && str[i + |key| + 2] == ':' && At(str, i + 1, key)
  {
    assert "\"" + key + "\":" + t == "\"" + key + "\"" + (":" + t);
    AtSplit(str, i, "\"" + key + "\"", ":" + t);
    AtSplit(str, i + |key| + 2, ":", t);
    ScanOpened(str, i, "\"", key, "\"");
    AtChar(str, i + |key| + 2, ":", 0);
  }

  function KindOfValue(v: Value): Bracket
    requires v.Arr? || v.Obj?
  {
    if v.Arr? then InArray else InObject
  }

  /** The scan finds the end of an array or object at the last character of its text. */
  predicate EndsAtLast(t: string, kind: Bracket) {
    t != "" && Scan(t, 1, false, [kind], 1) == End(|t| - 1, [])
  }

  predicate EndIsFound(v: Value) {
    DoubleFree(v) && (v.Arr? || v.Obj? ==> EndsAtLast(ValueText(v), KindOfValue(v)))
  }

  /** What the scan finds in a text it finds in front of any tail and above any other entries, and
      nothing else there. */
  lemma {:induction false} ScanPrefix(t: string, tail: string, i: nat, quoted: bool, below: Stack, stack: Stack, frame: nat)
    requires 1 <= i && 1 <= frame <= |stack|
    ensures var a := Scan(t, i, quoted, stack, frame);
            var b := Scan(t + tail, i, quoted, below + stack, |below| + frame);
            if a.Wrong? then b == Wrong(below + a.stack)
            else if a.pos < |t| then b == End(a.pos, below + a.stack)
            else b.End? ==> b.pos >= |t|
    decreases |t| - i
  {
    var str := t + tail;
    if i < |t| {
      assert str[i] == t[i] && str[i - 1] == t[i - 1];
      var c := t[i];
      assert Last(below + stack) == Last(stack) && Front(below + stack) == below + Front(stack);
      assert below + stack + [InArray] == below + (stack + [InArray]);
      assert below + stack + [InObject] == below + (stack + [InObject]);
      if c == '"' {
        ScanPrefix(t, tail, i + 1, if t[i - 1] != '\\' then !quoted else quoted, below, stack, frame);
      } else if !quoted && Opens(c) {
        ScanPrefix(t, tail, i + 1, quoted, below, stack + [KindOf(c)], frame);
      } else if !quoted && Closes(c) {
        if Last(stack) == KindOf(c) && |stack| > frame {
          ScanPrefix(t, tail, i + 1, quoted, below, Front(stack), frame);
        }
      } else {
        ScanPrefix(t, tail, i + 1, quoted, below, stack, frame);
      }
    } else {
      ScanGoesOn(str, i, quoted, below + stack, |below| + frame);
    }
  }

  lemma ScanGoesOn(str: string, i: nat, quoted: bool, stack: Stack, frame: nat)
    requires 1 <= i && 1 <= frame <= |stack|
    ensures var m := Scan(str, i, quoted, stack, frame); m.End? ==> m.pos >= i
  {
    hide Scan;
    if i >= |str| {
      ScanBehindEnd(str, i, quoted, stack, frame);
    }
  }

  lemma ScanBehindEnd(str: string, i: nat, quoted: bool, stack: Stack, frame: nat)
    requires |str| <= i && 1 <= i && 1 <= frame <= |stack|
    ensures Scan(str, i, quoted, stack, frame) == End(i, stack)
  {
  }

  /** With any tail and any entries on the stack, the scan stops at the last character of a text if and
      only if it does so on the text alone. */
  lemma ScanFindsEndOf(t: string, kind: Bracket, tail: string, stack: Stack)
    requires t != ""
    ensures var m := Scan(t + tail, 1, false, stack + [kind], |stack| + 1);
            && (m.End? && m.pos == |t| - 1 <==> EndsAtLast(t, kind))
            && (EndsAtLast(t, kind) ==> m.stack == stack)
  {
    hide Scan;
    ScanPrefix(t, tail, 1, false, stack, [kind], 1);
    MatchPopsFrame(t, 1, false, [kind], 1);
    assert stack + [] == stack;
  }

  lemma ScanFindsEnd(v: Value, tail: string, stack: Stack)
    requires DoubleFree(v) && (v.Arr? || v.Obj?)
    ensures var kind := KindOfValue(v);
            var m := Scan(ValueText(v) + tail, 1, false, stack + [kind], |stack| + 1);
            && (m.End? && m.pos == |ValueText(v)| - 1 <==> EndIsFound(v))
            && (EndIsFound(v) ==> m.stack == stack)
  {
    hide Scan, ValueText, DoubleFree;
    ScanFindsEndOf(ValueText(v), KindOfValue(v), tail, stack);
  }

  /** A match leaves the stack below the frame. */
  lemma {:induction false} MatchPopsFrame(t: string, i: nat, quoted: bool, stack: Stack, frame: nat)
    requires 1 <= i && 1 <= frame <= |stack|
    ensures var m := Scan(t, i, quoted, stack, frame); m.End? && m.pos < |t| ==> |m.stack| == frame - 1
    decreases |t| - i
  {
    if i < |t| {
      var c := t[i];
      if c == '"' {
        MatchPopsFrame(t, i + 1, if t[i - 1] != '\\' then !quoted else quoted, stack, frame);
      } else if !quoted && Opens(c) {
        MatchPopsFrame(t, i + 1, quoted, stack + [KindOf(c)], frame);
      } else if !quoted && Closes(c) {
        if Last(stack) == KindOf(c) && |stack| > frame {
          MatchPopsFrame(t, i + 1, quoted, Front(stack), frame);
        }
      } else {
        MatchPopsFrame(t, i + 1, quoted, stack, frame);
      }
    }
  }

  // ---------------------------------------------------------------- reading back one scalar or string

  /** Characters the scan over a scalar just collects. */
  predicate Collected(c: char) {
    !IsSpace(c) && c != '.' && c != 'e' && c != 'E' && c != ',' && !Opens(c) && !Closes(c)
  }

  predicate HasDigit(t: string) {
    exists k :: 0 <= k < |t| && IsDigit(t[k])
  }

  lemma LexCollects(str: string, i: nat, s: Lexeme)
    requires i < |str| && !s.failed && Collected(str[i])
    ensures Lex(str, i, s) == Lex(str, i + 1, s.(text := s.text + [str[i]], digit := s.digit || IsDigit(str[i])))
  {
    hide BooleanSoFar;
  }

  lemma NoDigits()
    ensures !HasDigit("")
  {
  }

  lemma {:induction false} LexRuns(str: string, i: nat, t: string, s: Lexeme)
    requires At(str, i, t) && !s.failed && forall k :: 0 <= k < |t| ==> Collected(t[k])
    ensures Lex(str, i, s) == Lex(str, i + |t|, s.(text := s.text + t, digit := s.digit || HasDigit(t)))
    decreases |t|
  {
    hide Lex, Advance, HasDigit, Collected;
    if t == "" {
      assert s.text + t == s.text;
      NoDigits();
    } else {
      var c, rest := t[0], t[1..];
      assert t == [c] + rest;
      AtChar(str, i, t, 0);
      AtSplit(str, i, [c], rest);
      var u := s.(text := s.text + [c], digit := s.digit || IsDigit(c));
      LexCollects(str, i, s);
      LexRuns(str, i + 1, rest, u);
      assert s.text + [c] + rest == s.text + t;
      HasDigitCons(t);
    }
  }

  lemma HasDigitCons(t: string)
    requires t != ""
    ensures HasDigit(t) <==> IsDigit(t[0]) || HasDigit(t[1..])
  {
    if HasDigit(t[1..]) {
      var k :| 0 <= k < |t[1..]| && IsDigit(t[1..][k]);
      assert IsDigit(t[k + 1]);
    }
    if HasDigit(t) && !IsDigit(t[0]) {
      var k :| 0 <= k < |t| && IsDigit(t[k]);
      assert IsDigit(t[1..][k - 1]);
    }
  }

  /** The end of a scalar: the text is over or a comma follows. */
  predicate EndsScalar(tail: string) {
    tail == "" || tail[0] == ','
  }

  lemma LexStep(str: string, i: nat, s: Lexeme)
    requires i < |str| && !s.failed && str[i] != ','
    ensures Lex(str, i, s) == Lex(str, i + 1, Advance(s, str[i]))
  {
    hide Advance;
  }

  /** White space inside or behind a scalar is dropped. */
  lemma {:induction false} LexDrops(str: string, i: nat, ahead: string, s: Lexeme)
    requires At(str, i, ahead) && Blanks(ahead) && !s.failed
    ensures Lex(str, i, s) == Lex(str, i + |ahead|, s)
    decreases |ahead|
  {
    if ahead != "" {
      AtChar(str, i, ahead, 0);
      assert ahead == [ahead[0]] + ahead[1..];
      AtSplit(str, i, [ahead[0]], ahead[1..]);
      LexStep(str, i, s);
      LexDrops(str, i + 1, ahead[1..], s);
    }
  }

  lemma ThreeParts(t: string, ahead: string, more: string)
    requires EndsScalar(more)
    ensures var str, i := t + ahead + more, |t| + |ahead|;
            && At(str, 0, t) && At(str, |t|, ahead) && i <= |str| && str[i..] == more && (i < |str| ==> str[i] == ',')
  {
    var str := t + ahead + more;
    assert str[|t|..|t| + |ahead|] == ahead && str[..|t|] == t;
  }

  lemma LexStops(str: string, i: nat, s: Lexeme)
    requires i <= |str| && (i < |str| ==> str[i] == ',')
    ensures Lex(str, i, s) == (i, s)
  {
  }

  /** Behind the scalar the scan runs to the comma or the end. */
  lemma LexEnds(str: string, i: nat, ahead: string, s: Lexeme)
    requires At(str, i, ahead) && Blanks(ahead) && !s.failed
    requires i + |ahead| < |str| ==> str[i + |ahead|] == ','
    ensures Lex(str, i, s) == (i + |ahead|, s)
  {
    hide *;
    LexDrops(str, i, ahead, s);
    LexStops(str, i + |ahead|, s);
  }

  lemma LexWhole(t: string, ahead: string, more: string, stack: Stack)
    requires Blanks(ahead) && EndsScalar(more) && forall k :: 0 <= k < |t| ==> Collected(t[k])
    ensures Lex(t + ahead + more, 0, Lexeme("", false, false, false, stack, false))
         == (|t| + |ahead|, Lexeme(t, false, false, HasDigit(t), stack, false))
  {
    hide HasDigit, Lex, Collected, Blanks;
    var str := t + ahead + more;
    ThreeParts(t, ahead, more);
    LexRuns(str, 0, t, Lexeme("", false, false, false, stack, false));
    assert "" + t == t;
    LexEnds(str, |t|, ahead, Lexeme(t, false, false, HasDigit(t), stack, false));
  }

  lemma AdvanceFinalE(front: string, digit: bool, stack: Stack)
    requires front == "tru" || front == "fals"
    ensures Advance(Lexeme(front, false, false, digit, stack, false), 'e')
         == Lexeme(front + "e", false, false, digit, stack, false)
  {
    assert CString(front) == front;
  }

  lemma FrontIsCollected(front: string)
    requires front == "tru" || front == "fals"
    ensures forall k :: 0 <= k < |front| ==> Collected(front[k])
  {
  }

  /** "true" and "false": the e at the end is not taken for an exponent. */
  lemma LexBoolean(front: string, ahead: string, more: string, stack: Stack)
    requires Blanks(ahead) && EndsScalar(more) && (front == "tru" || front == "fals")
    ensures Lex(front + "e" + ahead + more, 0, Lexeme("", false, false, false, stack, false))
         == (|front| + 1 + |ahead|, Lexeme(front + "e", false, false, HasDigit(front), stack, false))
  {
    hide *;
    AdvanceFinalE(front, HasDigit(front), stack);
    FrontIsCollected(front);
    LexFront(front, ahead, more, stack);
  }

  lemma LexFront(front: string, ahead: string, more: string, stack: Stack)
    requires Blanks(ahead) && EndsScalar(more) && forall k :: 0 <= k < |front| ==> Collected(front[k])
    requires Advance(Lexeme(front, false, false, HasDigit(front), stack, false), 'e')
          == Lexeme(front + "e", false, false, HasDigit(front), stack, false)
    ensures Lex(front + "e" + ahead + more, 0, Lexeme("", false, false, false, stack, false))
         == (|front| + 1 + |ahead|, Lexeme(front + "e", false, false, HasDigit(front), stack, false))
  {
    hide *;
    var t := front + "e";
    var str := t + ahead + more;
    ThreeParts(t, ahead, more);
    LexFrontAt(str, front, 'e', ahead, stack);
  }

  /** A word whose last letter e is not taken for an exponent. */
  lemma LexFrontAt(str: string, front: string, e: char, ahead: string, stack: Stack)
    requires At(str, 0, front + [e]) && At(str, |front| + 1, ahead) && e != ','
    requires Blanks(ahead) && forall k :: 0 <= k < |front| ==> Collected(front[k])
    requires |front| + 1 + |ahead| < |str| ==> str[|front| + 1 + |ahead|] == ','
    requires Advance(Lexeme(front, false, false, HasDigit(front), stack, false), e)
          == Lexeme(front + [e], false, false, HasDigit(front), stack, false)
    ensures Lex(str, 0, Lexeme("", false, false, false, stack, false))
         == (|front| + 1 + |ahead|, Lexeme(front + [e], false, false, HasDigit(front), stack, false))
  {
    hide *;
    AtSplit(str, 0, front, [e]);
    AtChar(str, 0, front + [e], |front|);
    LexRuns(str, 0, front, Lexeme("", false, false, false, stack, false));
    assert "" + front == front;
    assert |front| < |str| by { AtFits(str, |front|, [e]); }
    LexStep(str, |front|, Lexeme(front, false, false, HasDigit(front), stack, false));
    LexEnds(str, |front| + 1, ahead, Lexeme(front + [e], false, false, HasDigit(front), stack, false));
  }

  lemma AtFits(str: string, i: nat, t: string)
    requires At(str, i, t)
    ensures i + |t| <= |str|
  {
  }

  lemma IntTextIsNoWord(t: string, n: int)
    requires t == IntText(n)
    ensures CString(t) == t
    ensures !SameIgnoringCase(t, "true") && !SameIgnoringCase(t, "false") && !SameIgnoringCase(t, "null")
  {
    assert forall k :: 0 <= k < |t| ==> t[k] == '-' || IsDigit(t[k]);
    assert Lower(t[0]) == t[0];
    assert Lower("true"[0]) == 't' && Lower("false"[0]) == 'f' && Lower("null"[0]) == 'n';
  }

  lemma WordValue(lexeme: Lexeme)
    requires !lexeme.dot && !lexeme.exp
    ensures lexeme.text == "true" ==> ScalarValue(lexeme) == Some(Bool(true))
    ensures lexeme.text == "false" ==> ScalarValue(lexeme) == Some(Bool(false))
    ensures lexeme.text == "null" ==> ScalarValue(lexeme) == Some(Null)
  {
    if lexeme.text == "true" || lexeme.text == "false" || lexeme.text == "null" {
      assert CString(lexeme.text) == lexeme.text;
      assert Lower('t') == 't' && Lower('n') == 'n' && Lower('f') == 'f';
    }
  }

  lemma NumberValue(lexeme: Lexeme, n: Int32)
    requires !lexeme.dot && !lexeme.exp && lexeme.text == IntText(n)
    ensures ScalarValue(lexeme) == Some(Int(n))
  {
    hide SameIgnoringCase, CString, IntText, LongValue;
    IntTextIsNoWord(lexeme.text, n);
    IntReadsBack(n);
  }

  lemma IntTextIsCollected(n: int)
    ensures forall k :: 0 <= k < |IntText(n)| ==> Collected(IntText(n)[k])
  {
    var t := IntText(n);
    forall k | 0 <= k < |t| ensures Collected(t[k]) {
      assert t[k] == '-' || IsDigit(t[k]);
    }
  }

  lemma ScalarReadsBack(v: Value, ahead: string, more: string, stack: Stack)
    requires (v.Null? || v.Bool? || v.Int?) && Blanks(ahead) && EndsScalar(more)
    ensures ReadScalar(ValueText(v) + ahead + more, stack) == Done(v, false, more, stack)
  {
    hide Lex, ScalarValue, IntText, HasDigit, Blanks;
    var t := ValueText(v);
    ThreeParts(t, ahead, more);
    if v.Bool? {
      var front := if v.b then "tru" else "fals";
      assert front + "e" == t;
      LexBoolean(front, ahead, more, stack);
      WordValue(Lexeme(t, false, false, HasDigit(front), stack, false));
    } else if v.Null? {
      LexWhole(t, ahead, more, stack);
      WordValue(Lexeme(t, false, false, HasDigit(t), stack, false));
    } else {
      IntTextIsCollected(v.n);
      LexWhole(t, ahead, more, stack);
      NumberValue(Lexeme(t, false, false, HasDigit(t), stack, false), v.n);
    }
  }

  // ---------------------------------------------------------------- numbers with a fraction or an exponent

  predicate Numeric(t: string) {
    t != "" && forall k :: 0 <= k < |t| ==> '0' <= t[k] <= '9'
  }

  datatype Exponent = Exponent(e: char, sign: string, digits: string)

  predicate IsSign(s: string) {
    s == "" || s == "+" || s == "-"
  }

  /** A number that has a fraction or an exponent. */
  datatype Numeral = Numeral(sign: string, whole: string, fraction: Option<string>, exponent: Option<Exponent>)

  /** The numbers of section 6 of RFC 8259, and besides leading zeros, a leading plus and a fraction without
      digits. */
  predicate LegalNumeral(n: Numeral) {
    && IsSign(n.sign) && Numeric(n.whole) && (n.fraction.Some? || n.exponent.Some?)
    && (n.fraction.Some? && n.fraction.value != "" ==> Numeric(n.fraction.value))
    && (n.exponent.Some? ==>
          && (n.exponent.value.e == 'e' || n.exponent.value.e == 'E')
          && IsSign(n.exponent.value.sign) && Numeric(n.exponent.value.digits))
  }

  function WholeText(n: Numeral): string {
    n.sign + n.whole
  }

  function FractionText(n: Numeral): string {
    if n.fraction.None? then "" else "." + n.fraction.value
  }

  function ExponentText(n: Numeral): string {
    if n.exponent.None? then "" else [n.exponent.value.e] + n.exponent.value.sign + n.exponent.value.digits
  }

  function NumeralText(n: Numeral): string {
    WholeText(n) + FractionText(n) + ExponentText(n)
  }

  /** Digits and signs are just collected, and no word starts with one. */
  lemma FigureFacts(c: char)
    requires '0' <= c <= '9' || c == '-' || c == '+'
    ensures Collected(c) && Bland(c) && !Separator(c) && Lower(c) == c
  {
  }

  predicate StartsNumber(t: string) {
    t != "" && ('0' <= t[0] <= '9' || t[0] == '-' || t[0] == '+')
  }

  lemma NumberIsNoWord(t: string)
    requires StartsNumber(t)
    ensures !BooleanSoFar(t)
    ensures !SameIgnoringCase(t, "true") && !SameIgnoringCase(t, "false") && !SameIgnoringCase(t, "null")
  {
    FigureFacts(t[0]);
    assert Lower("true"[0]) == 't' && Lower("false"[0]) == 'f' && Lower("null"[0]) == 'n';
    var u := CString(t);
    if u != "" {
      assert u[0] == t[0];
    }
    assert Lower("tru"[0]) == 't' && Lower("fals"[0]) == 'f';
  }

  lemma AdvanceDot(s: Lexeme)
    requires s.digit && !s.failed
    ensures Advance(s, '.') == s.(dot := true, text := s.text + ".")
  {
  }

  lemma AdvanceExponent(s: Lexeme, e: char)
    requires s.digit && !s.failed && !s.exp && (e == 'e' || e == 'E') && !BooleanSoFar(s.text)
    ensures Advance(s, e) == s.(exp := true, text := s.text + [e])
  {
    hide BooleanSoFar;
  }

  lemma DigitThere(t: string, k: nat)
    requires k < |t| && '0' <= t[k] <= '9'
    ensures HasDigit(t)
  {
    assert IsDigit(t[k]);
  }

  /** A digit is there already, and only figures follow: the scan collects them. */
  lemma LexFigures(str: string, i: nat, t: string, s: Lexeme)
    requires At(str, i, t) && !s.failed && s.digit
    requires forall k :: 0 <= k < |t| ==> '0' <= t[k] <= '9' || t[k] == '-' || t[k] == '+'
    ensures Lex(str, i, s) == Lex(str, i + |t|, s.(text := s.text + t))
  {
    hide Lex, HasDigit, Collected;
    forall k | 0 <= k < |t| ensures Collected(t[k]) {
      FigureFacts(t[k]);
    }
    LexRuns(str, i, t, s);
  }

  lemma WholeFigures(n: Numeral)
    requires LegalNumeral(n)
    ensures var a := WholeText(n); StartsNumber(a) && HasDigit(a) && forall k :: 0 <= k < |a| ==> Collected(a[k])
  {
    hide HasDigit, Collected;
    var a := WholeText(n);
    forall k | 0 <= k < |a| ensures Collected(a[k]) {
      FigureFacts(a[k]);
    }
    DigitThere(a, |a| - 1);
  }

  lemma LexWholePart(str: string, n: Numeral, stack: Stack)
    requires LegalNumeral(n) && At(str, 0, WholeText(n))
    ensures Lex(str, 0, Lexeme("", false, false, false, stack, false))
         == Lex(str, |WholeText(n)|, Lexeme(WholeText(n), false, false, true, stack, false))
    ensures StartsNumber(WholeText(n))
  {
    hide *;
    var a := WholeText(n);
    WholeFigures(n);
    LexRuns(str, 0, a, Lexeme("", false, false, false, stack, false));
    assert "" + a == a;
  }

  lemma LexFraction(str: string, i: nat, n: Numeral, s: Lexeme)
    requires LegalNumeral(n) && At(str, i, FractionText(n)) && !s.failed && s.digit && !s.dot
    ensures Lex(str, i, s)
         == Lex(str, i + |FractionText(n)|, s.(dot := n.fraction.Some?, text := s.text + FractionText(n)))
  {
    hide Lex, Advance;
    if n.fraction.None? {
      assert s.text + "" == s.text;
    } else {
      var f := n.fraction.value;
      AtSplit(str, i, ".", f);
      AtChar(str, i, ".", 0);
      LexStep(str, i, s);
      AdvanceDot(s);
      LexFigures(str, i + 1, f, s.(dot := true, text := s.text + "."));
      assert s.text + "." + f == s.text + ("." + f);
    }
  }

  lemma LexExponent(str: string, i: nat, n: Numeral, s: Lexeme)
    requires LegalNumeral(n) && At(str, i, ExponentText(n)) && !s.failed && s.digit && !s.exp && StartsNumber(s.text)
    ensures Lex(str, i, s)
         == Lex(str, i + |ExponentText(n)|, s.(exp := n.exponent.Some?, text := s.text + ExponentText(n)))
  {
    hide Lex, Advance, BooleanSoFar, StartsNumber, At;
    if n.exponent.None? {
      assert s.text + "" == s.text;
    } else {
      var x := n.exponent.value;
      Joined([x.e], x.sign, x.digits);
      FiguresOf(x);
      LexExponentPart(str, i, x.e, x.sign + x.digits, s);
    }
  }

  lemma FiguresOf(x: Exponent)
    requires IsSign(x.sign) && Numeric(x.digits)
    ensures var t := x.sign + x.digits;
            forall k :: 0 <= k < |t| ==> '0' <= t[k] <= '9' || t[k] == '-' || t[k] == '+'
  {
  }

  lemma LexExponentPart(str: string, i: nat, e: char, figures: string, s: Lexeme)
    requires At(str, i, [e] + figures) && (e == 'e' || e == 'E')
    requires forall k :: 0 <= k < |figures| ==> '0' <= figures[k] <= '9' || figures[k] == '-' || figures[k] == '+'
    requires !s.failed && s.digit && !s.exp && StartsNumber(s.text)
    ensures i + 1 + |figures| <= |str|
    ensures Lex(str, i, s) == Lex(str, i + 1 + |figures|, s.(exp := true, text := s.text + ([e] + figures)))
  {
    hide *;
    AtSplit(str, i, [e], figures);
    AtFits(str, i, [e] + figures);
    AtChar(str, i, [e] + figures, 0);
    LexStep(str, i, s);
    NumberIsNoWord(s.text);
    AdvanceExponent(s, e);
    LexFigures(str, i + 1, figures, s.(exp := true, text := s.text + [e]));
    Joined(s.text, [e], figures);
  }

  lemma {:induction false} SkipDigitsRun(t: string, rest: string)
    requires forall k :: 0 <= k < |t| ==> '0' <= t[k] <= '9'
    requires rest != "" ==> !('0' <= rest[0] <= '9')
    ensures SkipDigits(t + rest) == rest
  {
    if t == "" {
      assert t + rest == rest;
    } else {
      assert (t + rest)[1..] == t[1..] + rest;
      SkipDigitsRun(t[1..], rest);
    }
  }

  lemma SignedDigits(x: Exponent)
    requires IsSign(x.sign) && Numeric(x.digits)
    ensures SkipSign(x.sign + x.digits) == x.digits && SkipDigits(x.digits) == ""
  {
    hide SkipDigits;
    assert x.digits + "" == x.digits;
    SkipDigitsRun(x.digits, "");
    if x.sign == "" {
      assert x.sign + x.digits == x.digits;
    }
  }

  lemma ExponentIsDecimal(n: Numeral)
    requires LegalNumeral(n)
    ensures var x := ExponentText(n);
            x == "" || ((x[0] == 'e' || x[0] == 'E') && SkipSign(x[1..]) != "" && SkipDigits(SkipSign(x[1..])) == "")
  {
    hide SkipDigits, SkipSign;
    if n.exponent.Some? {
      var e := n.exponent.value;
      assert ExponentText(n)[1..] == e.sign + e.digits;
      SignedDigits(e);
    }
  }

  lemma SignedWhole(sign: string, whole: string, f: string)
    requires IsSign(sign) && Numeric(whole)
    ensures SkipSign(sign + whole + f) == whole + f
  {
    var t := sign + whole + f;
    if sign == "" {
      assert t == whole + f;
    } else {
      assert t[1..] == whole + f;
    }
  }

  lemma SkipWhole(n: Numeral)
    requires LegalNumeral(n)
    ensures var u := SkipSign(NumeralText(n));
            u == n.whole + (FractionText(n) + ExponentText(n)) && SkipDigits(u) == FractionText(n) + ExponentText(n)
  {
    hide SkipDigits, SkipSign;
    var f := FractionText(n) + ExponentText(n);
    Joined(n.sign + n.whole, FractionText(n), ExponentText(n));
    SignedWhole(n.sign, n.whole, f);
    SkipDigitsRun(n.whole, f);
  }

  lemma Joined(a: string, b: string, c: string)
    ensures a + b + c == a + (b + c)
  {
  }

  lemma SkipFraction(n: Numeral)
    requires LegalNumeral(n)
    ensures var a := FractionText(n) + ExponentText(n);
            (if a != "" && a[0] == '.' then SkipDigits(a[1..]) else a) == ExponentText(n)
  {
    hide SkipDigits;
    var x := ExponentText(n);
    var a := FractionText(n) + x;
    if n.fraction.Some? {
      assert a[1..] == n.fraction.value + x;
      SkipDigitsRun(n.fraction.value, x);
    } else {
      assert a == x;
    }
  }

  /** strtod takes all of a legal numeral. */
  lemma NumeralIsDecimal(n: Numeral)
    requires LegalNumeral(n)
    ensures DecimalFloat(NumeralText(n))
  {
    hide SkipDigits, SkipSign, NumeralText, ExponentText;
    SkipWhole(n);
    SkipFraction(n);
    ExponentIsDecimal(n);
  }

  lemma NumeralCharacters(n: Numeral)
    requires LegalNumeral(n)
    ensures var t := NumeralText(n);
            && StartsNumber(t) && CString(t) == t && Tight(t)
            && forall k :: 0 <= k < |t| ==> Bland(t[k]) && !Separator(t[k])
  {
    hide CString;
    var t := NumeralText(n);
    var a, f, x := WholeText(n), FractionText(n), ExponentText(n);
    forall k | 0 <= k < |t| ensures Bland(t[k]) && !Separator(t[k]) && t[k] != 0 as char && !IsSpace(t[k]) {
      assert t[k] == if k < |a| then a[k] else if k < |a| + |f| then f[k - |a|] else x[k - |a| - |f|];
    }
    assert 0 as char !in t;
  }

  /** A number with a fraction or an exponent is read as the floating point number of its text. */
  lemma NumeralReadsBack(n: Numeral, ahead: string, more: string, stack: Stack)
    requires LegalNumeral(n) && Blanks(ahead) && EndsScalar(more)
    ensures ReadScalar(NumeralText(n) + ahead + more, stack) == Done(Double(NumeralText(n)), false, more, stack)
  {
    hide Lex, HasDigit, Blanks, DecimalFloat, WholeText, FractionText, ExponentText, CString, SameIgnoringCase;
    var t := NumeralText(n);
    var a, f, x := WholeText(n), FractionText(n), ExponentText(n);
    var str := t + ahead + more;
    ThreeParts(t, ahead, more);
    assert At(str, 0, a) && At(str, |a|, f) && At(str, |a| + |f|, x) by {
      assert str[..|a|] == a && str[|a|..|a| + |f|] == f && str[|a| + |f|..|t|] == x;
    }
    LexWholePart(str, n, stack);
    LexFraction(str, |a|, n, Lexeme(a, false, false, true, stack, false));
    LexExponent(str, |a| + |f|, n, Lexeme(a + f, n.fraction.Some?, false, true, stack, false));
    var s := Lexeme(t, n.fraction.Some?, n.exponent.Some?, true, stack, false);
    LexEnds(str, |t|, ahead, s);
    NumeralCharacters(n);
    NumberIsNoWord(t);
    NumeralIsDecimal(n);
  }

  lemma StringReadsBack(s: string, tail: string, stack: Stack)
    requires Delimited(s)
    ensures ReadQuoted("\"" + s + "\"" + tail, stack) ==
            if Unescape(s).None? then Abort else Done(Str(Unescape(s).value), false, tail, stack)
  {
    hide Unescape, Delimited;
    var str := "\"" + s + "\"" + tail;
    assert At(str, 1, s + "\"") by { assert str[1..|s| + 2] == s + "\""; }
    ClosingQuoteExactlyWhenDelimited(str, 1, s);
    assert str[1..|s| + 1] == s;
    assert str[|s| + 2..] == tail;
  }
}
