/**
 Which texts without brackets, quotes, commas and white space the parser accepts as a value, and which
 value each of them is.
 */
module JsonScalars {
  import opened Options
  import opened CStrings
  import opened JsonText
  import opened JsonBrackets
  import opened JsonValue
  import opened JsonWriter
  import opened JsonReader
  import opened JsonPrinted
  import opened JsonRoundTrip
  import opened JsonStrings

  // ---------------------------------------------------------------- the grammar of scalars

  predicate ScalarChar(c: char) {
    c !in {'[', ']', '{', '}', ',', '"', 0 as char} && c !in WHITE
  }

  predicate ScalarText(t: string) {
    t != "" && forall k :: 0 <= k < |t| ==> ScalarChar(t[k])
  }

  /** The word in small letters, capitals or both. */
  predicate AnyCase(t: string, small: string, capital: string) {
    |t| == |small| == |capital| && forall i :: 0 <= i < |t| ==> t[i] == small[i] || t[i] == capital[i]
  }

  predicate IsTrue(t: string) {
    AnyCase(t, "true", "TRUE")
  }

  predicate IsFalse(t: string) {
    AnyCase(t, "false", "FALSE")
  }

  predicate IsNull(t: string) {
    AnyCase(t, "null", "NULL")
  }

  function Decimal(d: string): nat
    requires forall k :: 0 <= k < |d| ==> '0' <= d[k] <= '9'
  {
    if d == "" then 0 else Decimal(d[..|d| - 1]) * 10 + (d[|d| - 1] as int - '0' as int)
  }

  /** A sign or none, and digits. */
  ghost predicate IsInteger(t: string, sign: string, d: string)
    ensures IsInteger(t, sign, d) ==> Numeric(d)
  {
    IsSign(sign) && Numeric(d) && t == sign + d
  }

  function Signed(sign: string, d: string): int
    requires Numeric(d)
  {
    if sign == "-" then 0 - Decimal(d) else Decimal(d)
  }

  ghost predicate IsNumeral(t: string, n: Numeral) {
    LegalNumeral(n) && t == NumeralText(n)
  }

  /** The value of an accepted integer: an int when it fits 32 bits, floating point when it does not fit 64. */
  predicate FitsInt(n: int)
    ensures FitsInt(n) ==> -0x8000_0000 <= n < 0x8000_0000 && FitsLong(n)
  {
    -0x8000_0000 <= n < 0x8000_0000
  }

  predicate FitsLong(n: int) {
    -0x8000_0000_0000_0000 <= n < 0x8000_0000_0000_0000
  }

  ghost predicate AcceptedInteger(t: string) {
    exists sign, d :: IsInteger(t, sign, d) && (FitsInt(Signed(sign, d)) || !FitsLong(Signed(sign, d)))
  }

  ghost predicate Accepted(t: string) {
    IsTrue(t) || IsFalse(t) || IsNull(t) || AcceptedInteger(t) || exists n :: IsNumeral(t, n)
  }

  // ---------------------------------------------------------------- words

  lemma AnyCaseIsSame(t: string, small: string, capital: string)
    requires |small| == |capital|
    requires forall i :: 0 <= i < |small| ==> 'a' <= small[i] <= 'z' && capital[i] as int == small[i] as int - 32
    ensures SameIgnoringCase(t, small) <==> AnyCase(t, small, capital)
  {
    if |t| == |small| {
      forall i | 0 <= i < |t| ensures Lower(t[i]) == Lower(small[i]) <==> t[i] == small[i] || t[i] == capital[i] {
      }
    }
  }

  lemma Words(t: string)
    ensures SameIgnoringCase(t, "true") <==> IsTrue(t)
    ensures SameIgnoringCase(t, "false") <==> IsFalse(t)
    ensures SameIgnoringCase(t, "null") <==> IsNull(t)
    ensures SameIgnoringCase(t, "tru") <==> AnyCase(t, "tru", "TRU")
    ensures SameIgnoringCase(t, "fals") <==> AnyCase(t, "fals", "FALS")
  {
    hide SameIgnoringCase, AnyCase;
    AnyCaseIsSame(t, "true", "TRUE");
    AnyCaseIsSame(t, "false", "FALSE");
    AnyCaseIsSame(t, "null", "NULL");
    AnyCaseIsSame(t, "tru", "TRU");
    AnyCaseIsSame(t, "fals", "FALS");
  }

  lemma NoNul(t: string)
    requires ScalarText(t)
    ensures CString(t) == t
  {
  }

  /** A boolean in any case: only its last letter could be an exponent, and is not taken for one. */
  lemma BooleanFront(t: string)
    requires IsTrue(t) || IsFalse(t)
    ensures t != "" && t[|t| - 1] != ','
    ensures var front := t[..|t| - 1];
            && (AnyCase(front, "tru", "TRU") || AnyCase(front, "fals", "FALS"))
            && (t[|t| - 1] == 'e' || t[|t| - 1] == 'E')
            && (forall k :: 0 <= k < |front| ==> Collected(front[k]) && !IsDigit(front[k])) && CString(front) == front
  {
    var front := t[..|t| - 1];
    assert 0 as char !in front;
  }

  lemma AdvanceBooleanEnd(front: string, e: char, digit: bool, stack: Stack)
    requires BooleanSoFar(front) && (e == 'e' || e == 'E')
    ensures Advance(Lexeme(front, false, false, digit, stack, false), e)
         == Lexeme(front + [e], false, false, digit, stack, false)
  {
    hide BooleanSoFar;
  }

  lemma BooleanIsRead(t: string, stack: Stack)
    requires IsTrue(t) || IsFalse(t)
    ensures ReadScalar(t, stack) == Done(Bool(IsTrue(t)), false, "", stack)
  {
    hide *;
    BooleanFront(t);
    var front, e := t[..|t| - 1], t[|t| - 1];
    Words(front);
    SoFar(front);
    AdvanceBooleanEnd(front, e, HasDigit(front), stack);
    AllOf(t, front, e);
    LexFrontAt(t, front, e, "", stack);
    BooleanValue(t, Lexeme(t, false, false, HasDigit(front), stack, false));
    ScalarOf(t, Lexeme(t, false, false, HasDigit(front), stack, false));
  }

  lemma AllOf(t: string, front: string, e: char)
    requires t != "" && front == t[..|t| - 1] && e == t[|t| - 1]
    ensures front + [e] == t && At(t, 0, front + [e]) && At(t, |t|, "") && Blanks("")
  {
  }

  lemma BooleanValue(t: string, lexeme: Lexeme)
    requires (IsTrue(t) || IsFalse(t)) && lexeme.text == t
    ensures ScalarValue(lexeme) == Some(Bool(IsTrue(t)))
  {
    hide IsTrue, IsFalse, SameIgnoringCase, CString;
    Words(t);
    NotBoth(t);
  }

  /** The scan took all of the text. */
  lemma ScalarOf(t: string, s: Lexeme)
    requires Lex(t, 0, Lexeme("", false, false, false, s.stack, false)) == (|t|, s) && !s.failed
    ensures ReadScalar(t, s.stack) == if ScalarValue(s).None? then Done(Null, true, t, s.stack)
                                      else Done(ScalarValue(s).value, false, "", s.stack)
  {
    hide Lex, ScalarValue;
    assert t[|t|..] == "";
  }

  lemma SoFar(front: string)
    requires CString(front) == front && (SameIgnoringCase(front, "tru") || SameIgnoringCase(front, "fals"))
    ensures BooleanSoFar(front)
  {
  }

  lemma NotBoth(t: string)
    requires IsTrue(t) || IsFalse(t)
    ensures !(IsTrue(t) && IsFalse(t)) && CString(t) == t
  {
    assert 0 as char !in t;
  }

  lemma NullIsRead(t: string, stack: Stack)
    requires IsNull(t)
    ensures ReadScalar(t, stack) == Done(Null, false, "", stack)
  {
    hide Lex, Collected, SameIgnoringCase, HasDigit, AnyCase, CString;
    NullFacts(t);
    NoBlanksAtAll();
    LexWhole(t, "", "", stack);
    assert t + "" + "" == t && t[|t|..] == "";
    Words(t);
  }

  lemma NullFacts(t: string)
    requires IsNull(t)
    ensures (forall k :: 0 <= k < |t| ==> Collected(t[k])) && CString(t) == t && !IsTrue(t) && !IsFalse(t)
  {
    assert 0 as char !in t;
  }

  lemma NoBlanksAtAll()
    ensures Blanks("") && EndsScalar("")
  {
  }

  // ---------------------------------------------------------------- integers

  lemma {:induction false} DigitsAreDecimal(d: string)
    requires forall k :: 0 <= k < |d| ==> '0' <= d[k] <= '9'
    ensures DigitsValue(d) == Some(Decimal(d))
  {
    if d != "" {
      DigitsAreDecimal(d[..|d| - 1]);
    }
  }

  lemma {:induction false} OnlyDigitsHaveValue(d: string)
    requires DigitsValue(d).Some?
    ensures forall k :: 0 <= k < |d| ==> '0' <= d[k] <= '9'
  {
    if d != "" {
      OnlyDigitsHaveValue(d[..|d| - 1]);
    }
  }

  /** strtol takes all of a text that is not empty exactly when it is an integer, and gives its value. */
  lemma LongIsInteger(t: string)
    requires t != ""
    ensures LongValue(t).Some? <==> exists sign, d :: IsInteger(t, sign, d)
    ensures forall sign, d :: IsInteger(t, sign, d) ==> LongValue(t) == Some(Signed(sign, d))
  {
    hide DigitsValue, Decimal;
    forall sign, d | IsInteger(t, sign, d) ensures LongValue(t) == Some(Signed(sign, d)) {
      LongOf(sign, d);
    }
    if LongValue(t).Some? {
      if t[0] == '-' || t[0] == '+' {
        OnlyDigitsHaveValue(t[1..]);
        assert IsInteger(t, t[..1], t[1..]);
      } else {
        OnlyDigitsHaveValue(t);
        assert IsInteger(t, "", t) by { assert "" + t == t; }
      }
    }
  }

  lemma LongOf(sign: string, d: string)
    requires IsSign(sign) && Numeric(d)
    ensures LongValue(sign + d) == Some(Signed(sign, d))
  {
    hide DigitsValue, Decimal;
    DigitsAreDecimal(d);
    var t := sign + d;
    if sign == "" {
      assert t == d;
    } else {
      assert t[1..] == d;
    }
  }

  lemma IntegerFacts(t: string, sign: string, d: string)
    requires IsInteger(t, sign, d)
    ensures (forall k :: 0 <= k < |t| ==> Collected(t[k])) && StartsNumber(t) && CString(t) == t && t != ""
  {
    forall k | 0 <= k < |t| ensures Collected(t[k]) && t[k] != 0 as char {
      FigureFacts(t[k]);
    }
    assert 0 as char !in t;
  }

  lemma IntegerIsRead(t: string, sign: string, d: string, stack: Stack)
    requires IsInteger(t, sign, d)
    ensures var n := Signed(sign, d);
            ReadScalar(t, stack) == if FitsInt(n) then Done(Int(n), false, "", stack)
                                    else if FitsLong(n) then Done(Null, true, t, stack)
                                    else Done(Double(t), false, "", stack)
  {
    hide Lex, Collected, SameIgnoringCase, HasDigit, LongValue, CString, IsInteger, StartsNumber, Decimal;
    IntegerFacts(t, sign, d);
    NoBlanksAtAll();
    LexWhole(t, "", "", stack);
    assert t + "" + "" == t && t[|t|..] == "";
    NumberIsNoWord(t);
    LongIsInteger(t);
  }

  // ---------------------------------------------------------------- numbers with a fraction or an exponent

  lemma NumeralIsRead(t: string, n: Numeral, stack: Stack)
    requires IsNumeral(t, n)
    ensures ReadScalar(t, stack) == Done(Double(t), false, "", stack)
  {
    hide LegalNumeral, NumeralText;
    NoBlanksAtAll();
    NumeralReadsBack(n, "", "", stack);
    assert t + "" + "" == t;
  }

  /** What the scan has seen when it gets to the end without an error. */
  lemma {:induction false} LexSaw(t: string, i: nat, s: Lexeme)
    requires i <= |t| && !s.failed && forall k :: 0 <= k < |t| ==> ScalarChar(t[k])
    ensures var (j, r) := Lex(t, i, s);
            !r.failed ==>
              && j == |t| && r.text == s.text + t[i..] && r.stack == s.stack
              && (r.dot <==> s.dot || '.' in t[i..])
              && (r.exp ==> s.exp || 'e' in t[i..] || 'E' in t[i..])
              && (forall k :: i <= k < |t| && t[k] == '.' ==> s.digit || exists m :: i <= m < k && '0' <= t[m] <= '9')
    decreases |t| - i
  {
    if i < |t| {
      LexStep(t, i, s);
      var u := Advance(s, t[i]);
      assert t[i..] == [t[i]] + t[i + 1..];
      if !u.failed {
        AdvanceSaw(s, t[i]);
        LexSaw(t, i + 1, u);
      } else {
        LexFailed(t, i + 1, u);
      }
    } else {
      assert s.text + t[i..] == s.text;
    }
  }

  lemma AdvanceSaw(s: Lexeme, c: char)
    requires ScalarChar(c) && !s.failed && !Advance(s, c).failed
    ensures var u := Advance(s, c);
            && u.text == s.text + [c] && u.stack == s.stack && (u.dot <==> s.dot || c == '.')
            && (u.exp ==> s.exp || c == 'e' || c == 'E') && (u.digit <==> s.digit || '0' <= c <= '9')
            && (c == '.' ==> s.digit)
  {
    hide BooleanSoFar;
  }

  lemma LexFailed(t: string, i: nat, s: Lexeme)
    requires i <= |t| && s.failed
    ensures Lex(t, i, s).1.failed
  {
  }

  lemma {:induction false} SkipDigitsSkips(t: string)
    ensures var r := SkipDigits(t);
            && t == t[..|t| - |r|] + r && (forall k :: 0 <= k < |t| - |r| ==> '0' <= t[k] <= '9')
            && (r != "" ==> !('0' <= r[0] <= '9'))
  {
    if t != "" && IsDigit(t[0]) {
      SkipDigitsSkips(t[1..]);
      var r := SkipDigits(t[1..]);
      assert t[..|t| - |r|] == [t[0]] + t[1..][..|t| - 1 - |r|];
    } else {
      assert t[..0] + t == t;
    }
  }

  /** The sign in front, when there is one. */
  function SignOf(t: string): (s: string)
    ensures IsSign(s) && t == s + SkipSign(t)
  {
    if t != "" && (t[0] == '-' || t[0] == '+') then
      assert t == [t[0]] + t[1..];
      [t[0]]
    else t[..0]
  }

  function DigitsOf(t: string): (d: string)
    ensures t == d + SkipDigits(t) && forall k :: 0 <= k < |d| ==> '0' <= d[k] <= '9'
    ensures SkipDigits(t) != "" ==> !('0' <= SkipDigits(t)[0] <= '9')
  {
    SkipDigitsSkips(t);
    t[..|t| - |SkipDigits(t)|]
  }

  /** What strtod takes whole has the parts of a number, but the digits in front of the point may be
      missing; when they are not, and there is a point or an e, it is a numeral. */
  lemma DecimalHasParts(t: string) returns (n: Numeral)
    requires DecimalFloat(t) && ('.' in t || 'e' in t || 'E' in t)
    ensures n.whole != "" ==> IsNumeral(t, n)
    ensures n.whole == "" ==> |n.sign| < |t| && t[|n.sign|] == '.' && IsSign(n.sign) && n.sign <= t
  {
    hide *;
    var u := SkipSign(t);
    var a := SkipDigits(u);
    DecimalMeans(t);
    var fraction, b := FractionOf(a);
    var x := ExponentOf(b);
    var sign, whole := SignOf(t), DigitsOf(u);
    n := Numeral(sign, whole, fraction, x);
    assert t == sign + (whole + a);
    PartsJoin(t, n, a, b);
  }

  lemma PartsJoin(t: string, n: Numeral, a: string, b: string)
    requires IsSign(n.sign) && (forall k :: 0 <= k < |n.whole| ==> '0' <= n.whole[k] <= '9')
    requires t == n.sign + (n.whole + a) && a == (if n.fraction.None? then "" else "." + n.fraction.value) + b
    requires b == if n.exponent.None? then "" else [n.exponent.value.e] + n.exponent.value.sign + n.exponent.value.digits
    requires n.fraction.Some? && n.fraction.value != "" ==> Numeric(n.fraction.value)
    requires n.exponent.Some? ==> (n.exponent.value.e == 'e' || n.exponent.value.e == 'E')
                                  && IsSign(n.exponent.value.sign) && Numeric(n.exponent.value.digits)
    requires '.' in t || 'e' in t || 'E' in t
    requires n.whole == "" ==> a != "" && a[0] == '.'
    ensures n.whole != "" ==> IsNumeral(t, n)
    ensures n.whole == "" ==> |n.sign| < |t| && t[|n.sign|] == '.' && n.sign <= t
  {
    hide Numeric, IsSign, NumeralText;
    MarkNeedsPart(t, n.sign, n.whole, a);
    PartsText(t, n, a);
    if n.whole != "" {
      assert Numeric(n.whole) by { AllDigits(n.whole); }
    }
  }

  lemma AllDigits(d: string)
    requires d != "" && forall k :: 0 <= k < |d| ==> '0' <= d[k] <= '9'
    ensures Numeric(d)
  {
  }

  /** Signs and digits hold no point and no e. */
  lemma MarkNeedsPart(t: string, sign: string, whole: string, a: string)
    requires IsSign(sign) && (forall k :: 0 <= k < |whole| ==> '0' <= whole[k] <= '9')
    requires t == sign + (whole + a) && ('.' in t || 'e' in t || 'E' in t)
    ensures a != ""
  {
  }

  lemma PartsText(t: string, n: Numeral, a: string)
    requires t == n.sign + (n.whole + a) && a == FractionText(n) + ExponentText(n)
    ensures NumeralText(n) == t
    ensures n.whole == "" && a != "" ==> |n.sign| < |t| && t[|n.sign|] == a[0] && n.sign <= t
  {
    hide FractionText, ExponentText;
    assert NumeralText(n) == n.sign + n.whole + FractionText(n) + ExponentText(n);
  }

  lemma DecimalMeans(t: string)
    requires DecimalFloat(t)
    ensures var u := SkipSign(t);
            var a := SkipDigits(u);
            var b := if a != "" && a[0] == '.' then SkipDigits(a[1..]) else a;
            && (|a| == |u| ==> a != "" && a[0] == '.')
            && (b == "" || ((b[0] == 'e' || b[0] == 'E') && SkipSign(b[1..]) != "" && SkipDigits(SkipSign(b[1..])) == ""))
  {
    hide SkipDigits, SkipSign;
  }

  lemma FractionOf(a: string) returns (fraction: Option<string>, b: string)
    ensures b == if a != "" && a[0] == '.' then SkipDigits(a[1..]) else a
    ensures fraction.Some? <==> a != "" && a[0] == '.'
    ensures a == (if fraction.None? then "" else "." + fraction.value) + b
    ensures fraction.Some? && fraction.value != "" ==> Numeric(fraction.value)
  {
    hide SkipDigits;
    if a != "" && a[0] == '.' {
      fraction, b := Some(DigitsOf(a[1..])), SkipDigits(a[1..]);
      assert a == "." + a[1..];
    } else {
      fraction, b := None, a;
    }
  }

  lemma ExponentOf(b: string) returns (x: Option<Exponent>)
    requires b == "" || ((b[0] == 'e' || b[0] == 'E') && SkipSign(b[1..]) != "" && SkipDigits(SkipSign(b[1..])) == "")
    ensures x.Some? <==> b != ""
    ensures x.Some? ==> b == [x.value.e] + x.value.sign + x.value.digits && (x.value.e == 'e' || x.value.e == 'E')
                        && IsSign(x.value.sign) && Numeric(x.value.digits)
  {
    hide SkipDigits, SkipSign;
    x := None;
    if b != "" {
      var digits := SkipSign(b[1..]);
      var d := DigitsOf(digits);
      assert d + "" == d;
      x := Some(Exponent(b[0], SignOf(b[1..]), digits));
      assert b == [b[0]] + b[1..];
    }
  }

  // ---------------------------------------------------------------- exactly the accepted texts

  /** The parser takes a text of scalar characters for a value exactly when it is accepted. */
  lemma ScalarIsReadExactly(t: string, stack: Stack)
    requires ScalarText(t)
    ensures !ReadScalar(t, stack).failed <==> Accepted(t)
  {
    hide *;
    if Accepted(t) {
      AcceptedIsRead(t, stack);
    } else if !ReadScalar(t, stack).failed {
      ReadIsAccepted(t, stack);
    }
  }

  lemma AcceptedIsRead(t: string, stack: Stack)
    requires Accepted(t)
    ensures !ReadScalar(t, stack).failed
  {
    hide IsTrue, IsFalse, IsNull, IsInteger, IsNumeral, ReadScalar, FitsInt, FitsLong, Signed;
    if IsTrue(t) || IsFalse(t) {
      BooleanIsRead(t, stack);
    } else if IsNull(t) {
      NullIsRead(t, stack);
    } else if AcceptedInteger(t) {
      var sign, d :| IsInteger(t, sign, d) && (FitsInt(Signed(sign, d)) || !FitsLong(Signed(sign, d)));
      IntegerIsRead(t, sign, d, stack);
    } else {
      var n :| IsNumeral(t, n);
      NumeralIsRead(t, n, stack);
    }
  }

  lemma ReadIsAccepted(t: string, stack: Stack)
    requires ScalarText(t) && !ReadScalar(t, stack).failed
    ensures Accepted(t)
  {
    hide Lex, IsTrue, IsFalse, IsNull, IsInteger, IsNumeral, LongValue, DecimalFloat, SameIgnoringCase, CString;
    var start := Lexeme("", false, false, false, stack, false);
    var (j, s) := Lex(t, 0, start);
    LexSaw(t, 0, start);
    assert t[0..] == t && "" + t == t;
    assert !s.failed && s.text == t;
    NoNul(t);
    Words(t);
    if !IsTrue(t) && !IsFalse(t) {
      if s.exp || s.dot {
        var n := DecimalHasParts(t);
        if n.whole == "" {
          NoDigitInSign(t, n.sign);
        }
      } else if !IsNull(t) {
        LongIsInteger(t);
        var sign, d :| IsInteger(t, sign, d);
        LongFits(t, sign, d);
      }
    }
  }

  lemma LongFits(t: string, sign: string, d: string)
    requires IsInteger(t, sign, d) && (FitsInt(Signed(sign, d)) || !FitsLong(Signed(sign, d)))
    ensures AcceptedInteger(t)
  {
  }

  lemma NoDigitInSign(t: string, sign: string)
    requires IsSign(sign) && sign <= t
    ensures forall m :: 0 <= m < |sign| ==> !('0' <= t[m] <= '9')
  {
  }

  /** Alone in an array, every text without brackets, quotes, commas, white space and NUL: a boolean or null
      in any case, an integer that fits 32 bits or does not fit 64, or a number with a fraction or an
      exponent is read as what it is (a null as nothing), and the array is not read for any other text. */
  lemma ScalarInArrayExactly(t: string)
    requires ScalarText(t)
    ensures var p := Parse("[" + t + "]");
            && (IsTrue(t) ==> p == Some(Arr([Bool(true)]))) && (IsFalse(t) ==> p == Some(Arr([Bool(false)])))
            && (IsNull(t) ==> p == Some(Arr([])))
            && (forall sign, d :: IsInteger(t, sign, d) && FitsInt(Signed(sign, d)) ==> p == Some(Arr([Int(Signed(sign, d))])))
            && (forall sign, d :: IsInteger(t, sign, d) && !FitsLong(Signed(sign, d)) ==> p == Some(Arr([Double(t)])))
            && (forall n :: IsNumeral(t, n) ==> p == Some(Arr([Double(t)])))
            && (!Accepted(t) ==> p == Some(Null))
  {
    hide *;
    var stack: Stack := [InArray];
    ParseOfScalar(t);
    ScalarIsReadExactly(t, stack);
    if IsTrue(t) || IsFalse(t) {
      BooleanIsRead(t, stack);
      NotBoth(t);
    }
    if IsNull(t) {
      NullIsRead(t, stack);
    }
    forall sign, d | IsInteger(t, sign, d)
      ensures FitsInt(Signed(sign, d)) ==> Parse("[" + t + "]") == Some(Arr([Int(Signed(sign, d))]))
      ensures !FitsLong(Signed(sign, d)) ==> Parse("[" + t + "]") == Some(Arr([Double(t)]))
    {
      IntegerIsRead(t, sign, d, stack);
    }
    forall n | IsNumeral(t, n) ensures Parse("[" + t + "]") == Some(Arr([Double(t)])) {
      NumeralIsRead(t, n, stack);
    }
  }

  /** A text of scalar characters alone in an array goes to the scalar reader as it is. */
  lemma ParseOfScalar(t: string)
    requires ScalarText(t)
    ensures var r, p := ReadScalar(t, [InArray]), Parse("[" + t + "]");
            && (r.failed ==> p == Some(Null))
            && (!r.failed && r.rest == "" && r.stack != [] ==>
                  p == Some(Arr(if r.value.Null? then [] else [r.value])))
  {
    hide ReadElements, ReadValue, ReadScalar, ReadNested, ReadQuoted, Parse, Trim;
    var stack := [InArray];
    var r := ReadScalar(t, stack);
    ScalarStops(t);
    NoStop(t);
    TrimIsIdentityExactlyOnTight(t);
    assert ScalarChar(t[0]);
    ValueBranches(t, stack);
    assert t[..|t|] == t && t[|t|..] == "";
    ElementsPass(t, [], stack);
    ParseOfArray(t);
    if r.failed {
      assert ReadElements(t, [], stack) == Part(Null, r.stack);
    } else {
      var a := if r.value.Null? then [] else [] + [r.value];
      assert a == if r.value.Null? then [] else [r.value];
      assert ReadElements(t, [], stack) == ReadElements("", a, r.stack);
      NoElementsLeft(a, r.stack);
    }
  }

  lemma ScalarStops(t: string)
    requires ScalarText(t)
    ensures Tight(t) && t[0] != '[' && t[0] != '{' && t[0] != '"'
    ensures forall j :: 0 <= j < |t| ==> !Opens(t[j]) && !Separator(t[j])
  {
    assert ScalarChar(t[0]) && ScalarChar(t[|t| - 1]);
    forall j | 0 <= j < |t| ensures !Opens(t[j]) && !Separator(t[j]) {
      assert ScalarChar(t[j]);
    }
  }
}
