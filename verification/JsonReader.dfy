/**
 What the parser computes, as recursive functions: each parsing function of the original takes the
 text that is left and the bracket stack and returns a value, an error flag, what is left of the text
 and the stack.  That these functions are accepted is the proof that parsing terminates on every
 input, by remaining length and then by the rank of the function.
 */
module JsonReader {
  import opened Options
  import opened CStrings
  import opened JsonText
  import opened JsonBrackets
  import opened JsonValue

  type Stack = seq<Bracket>

  /** Abort: std::stack::top was read on an empty stack, or substr was asked to start past the end. */
  datatype Outcome =
    | Done(value: Value, failed: bool, rest: string, stack: Stack)
    | Abort

  /** The same for the functions that parse a whole array or object; errors come back as null. */
  datatype Part =
    | Part(value: Value, stack: Stack)
    | Broken

  // ---------------------------------------------------------------- booleans, null and numbers

  function Lower(c: char): char {
    if 'A' <= c <= 'Z' then (c as int + 32) as char else c
  }

  /** _stricmp(a, b) == 0. */
  predicate SameIgnoringCase(a: string, b: string) {
    |a| == |b| && forall i :: 0 <= i < |a| ==> Lower(a[i]) == Lower(b[i])
  }

  /** The variables of the scan over a value that is no array, object or string. */
  datatype Lexeme = Lexeme(text: string, dot: bool, exp: bool, digit: bool, stack: Stack, failed: bool)

  predicate BooleanSoFar(text: string) {
    SameIgnoringCase(CString(text), "fals") || SameIgnoringCase(CString(text), "tru")
  }

  function Advance(s: Lexeme, c: char): (r: Lexeme)
    ensures Opens(c) ==> r.failed
  {
    var exponent := (c == 'e' || c == 'E') && !BooleanSoFar(s.text);
    if (c == '.' && !s.digit) || (exponent && (!s.digit || s.exp)) || Opens(c) then s.(failed := true)
    else if Closes(c) && (s.stack == [] || Last(s.stack) != KindOf(c)) then s.(failed := true)
    else
      var u := s.(dot := s.dot || c == '.',
                  exp := s.exp || exponent,
                  stack := if Closes(c) then Front(s.stack) else s.stack);
      if IsSpace(c) then u else u.(digit := u.digit || IsDigit(c), text := u.text + [c])
  }

  /** The scan from index i: it stops at a comma, at the end or at an error. */
  function Lex(str: string, i: nat, s: Lexeme): (r: (nat, Lexeme))
    requires i <= |str|
    ensures i <= r.0 <= |str|
    decreases |str| - i
  {
    if s.failed || i == |str| || str[i] == ',' then (i, s) else Lex(str, i + 1, Advance(s, str[i]))
  }

  function SkipDigits(t: string): (r: string)
    ensures |r| <= |t|
  {
    if t != "" && IsDigit(t[0]) then SkipDigits(t[1..]) else t
  }

  function SkipSign(t: string): (r: string)
    ensures |r| <= |t|
  {
    if t != "" && (t[0] == '-' || t[0] == '+') then t[1..] else t
  }

  /** strtod consumes all of the text: a decimal mantissa with a digit in it, then maybe an exponent. */
  predicate DecimalFloat(t: string) {
    var u := SkipSign(t);
    var a := SkipDigits(u);
    var b := if a != "" && a[0] == '.' then SkipDigits(a[1..]) else a;
    var fraction := if a != "" && a[0] == '.' then |a| - 1 - |b| else 0;
    && |u| - |a| + fraction > 0
    && (b == "" || ((b[0] == 'e' || b[0] == 'E') && SkipSign(b[1..]) != "" && SkipDigits(SkipSign(b[1..])) == ""))
  }

  const LONG_MAX := 0x7fff_ffff_ffff_ffff
  const INT_MAX := 0x7fff_ffff

  /** None: an invalid character sequence, or an integer that fits long but not int. */
  function ScalarValue(lexeme: Lexeme): Option<Value> {
    var t := CString(lexeme.text);
    if SameIgnoringCase(t, "true") then Some(Bool(true))
    else if SameIgnoringCase(t, "false") then Some(Bool(false))
    else if lexeme.exp || lexeme.dot then if DecimalFloat(t) then Some(Double(t)) else None
    else if SameIgnoringCase(t, "null") then Some(Null)
    else
      var n := LongValue(t);
      if n.None? then None
      else if n.value > LONG_MAX || n.value < -LONG_MAX - 1 then Some(Double(t))
      else if -INT_MAX - 1 <= n.value <= INT_MAX then Some(Int(n.value))
      else None
  }

  // ---------------------------------------------------------------- progress of the array loop

  predicate Separator(c: char) {
    c == ',' || c == ']'
  }

  /** The first bracket, comma or closing square bracket from index i on. */
  function FirstStop(str: string, i: nat): (r: nat)
    requires i <= |str|
    ensures i <= r <= |str|
    ensures r < |str| ==> Opens(str[r]) || Separator(str[r])
    ensures forall j :: i <= j < r ==> !Opens(str[j]) && !Separator(str[j])
    decreases |str| - i
  {
    if i == |str| || Opens(str[i]) || Separator(str[i]) then i else FirstStop(str, i + 1)
  }

  /** The array loop meets an opening bracket before any separator. */
  predicate OpensFirst(str: string) {
    var k := FirstStop(str, 0);
    k < |str| && Opens(str[k])
  }

  lemma FirstStopUnique(str: string, k: nat)
    requires k < |str| && (Opens(str[k]) || Separator(str[k]))
    requires forall j :: 0 <= j < k ==> !Opens(str[j]) && !Separator(str[j])
    ensures FirstStop(str, 0) == k
  {
  }

  lemma {:induction false} TrimFrontWindow(s: string)
    ensures forall i :: 0 <= i < |s| - |TrimFront(s)| ==> IsSpace(s[i])
  {
    if s != "" && IsSpace(s[0]) {
      TrimFrontWindow(s[1..]);
      forall i | 0 <= i < |s| - |TrimFront(s)| ensures IsSpace(s[i]) {
        assert i > 0 ==> s[i] == s[1..][i - 1];
      }
    }
  }

  lemma {:induction false} TrimBackWindow(s: string)
    ensures forall i :: |TrimBack(s)| <= i < |s| ==> IsSpace(s[i])
  {
    if s != "" && IsSpace(s[|s| - 1]) {
      TrimBackWindow(s[..|s| - 1]);
      forall i | |TrimBack(s)| <= i < |s| ensures IsSpace(s[i]) {
        assert i < |s| - 1 ==> s[i] == s[..|s| - 1][i];
      }
    }
  }

  /** Trimming cuts a window out of the text, and only blanks are outside. */
  lemma TrimWindow(s: string) returns (a: nat)
    ensures a + |Trim(s)| <= |s| && Trim(s) == s[a..a + |Trim(s)|]
    ensures forall i :: 0 <= i < a || a + |Trim(s)| <= i < |s| ==> IsSpace(s[i])
  {
    var front := TrimFront(s);
    a := |s| - |front|;
    TrimFrontWindow(s);
    TrimBackWindow(front);
    WindowOfSuffix(s, a, |Trim(s)|);
  }

  lemma WindowOfSuffix(s: string, a: nat, n: nat)
    requires a + n <= |s| && forall i :: n <= i < |s| - a ==> IsSpace(s[a..][i])
    ensures s[a..][..n] == s[a..a + n]
    ensures forall i :: a + n <= i < |s| ==> IsSpace(s[i])
  {
    forall i | a + n <= i < |s| ensures IsSpace(s[i]) {
      assert s[a..][i - a] == s[i];
    }
  }

  lemma TrimKeepsOpensFirst(s: string)
    ensures OpensFirst(s) ==> OpensFirst(Trim(s))
  {
    if OpensFirst(s) {
      var k := FirstStop(s, 0);
      var a := TrimWindow(s);
      assert !IsSpace(s[k]);
      assert Trim(s)[k - a] == s[k];
      FirstStopUnique(Trim(s), k - a);
    }
  }

  lemma BracketSurvivesTrim(text: string)
    ensures OpensFirst(text) ==> Trim(text) != "" && OpensFirst(Trim(text))
  {
    TrimKeepsOpensFirst(text);
    assert !OpensFirst("");
  }

  lemma {:induction false} LexFailsAtBracket(str: string, i: nat, k: nat, s: Lexeme)
    requires i <= k < |str| && Opens(str[k])
    requires forall j :: i <= j < k ==> !Separator(str[j])
    ensures Lex(str, i, s).1.failed
    decreases k - i
  {
    if !s.failed && i < k {
      LexFailsAtBracket(str, i + 1, k, Advance(s, str[i]));
    }
  }

  function ReadScalar(str: string, stack: Stack): (r: Outcome)
    ensures r.Done? && |r.rest| <= |str|
    ensures OpensFirst(str) ==> r.failed
  {
    assert OpensFirst(str) ==> Lex(str, 0, Lexeme("", false, false, false, stack, false)).1.failed by {
      if OpensFirst(str) {
        LexFailsAtBracket(str, 0, FirstStop(str, 0), Lexeme("", false, false, false, stack, false));
      }
    }
    var (i, s) := Lex(str, 0, Lexeme("", false, false, false, stack, false));
    if s.failed then Done(Null, true, str, s.stack)
    else
      var v := ScalarValue(s);
      if v.None? then Done(Null, true, str, s.stack)
      else
        Done(v.value, false, str[i..], s.stack)
  }

  // ---------------------------------------------------------------- the four parsing functions

  /** DeserializeValue.  The last ensures is why the array loop ends: a pass that meets a bracket
      shortens the text or fails. */
  function ReadValue(text: string, stack: Stack): (r: Outcome)
    ensures r.Done? ==> |r.rest| <= |text|
    ensures r.Done? && !r.failed && OpensFirst(text) ==> |r.rest| < |text|
    decreases |text|, 3
  {
    hide ReadTrimmed, OpensFirst, Trim;
    BracketSurvivesTrim(text);
    var str := Trim(text);
    if str == "" then Done(Null, false, str, stack) else ReadTrimmed(str, stack)
  }

  /** The branches of DeserializeValue on a text that is trimmed and not empty. */
  function ReadTrimmed(str: string, stack: Stack): (r: Outcome)
    requires str != ""
    ensures r.Done? ==> |r.rest| <= |str|
    ensures r.Done? && !r.failed && OpensFirst(str) ==> |r.rest| < |str|
    decreases |str|, 2
  {
    hide ReadNested, ReadQuoted, ReadScalar, OpensFirst;
    if str[0] == '[' then ReadNested(str, stack, InArray)
    else if str[0] == '{' then ReadNested(str, stack, InObject)
    else if str[0] == '"' then ReadQuoted(str, stack)
    else ReadScalar(str, stack)
  }

  /** The branches of ReadValue, for use where the function itself is hidden. */
  lemma ValueBranches(text: string, stack: Stack)
    ensures var str := Trim(text);
            ReadValue(text, stack) ==
            if str == "" then Done(Null, false, str, stack)
            else if str[0] == '[' then ReadNested(str, stack, InArray)
            else if str[0] == '{' then ReadNested(str, stack, InObject)
            else if str[0] == '"' then ReadQuoted(str, stack)
            else ReadScalar(str, stack)
  {
    hide ReadNested, ReadQuoted, ReadScalar, Trim;
  }

  function ReadQuoted(str: string, stack: Stack): (r: Outcome)
    requires str != "" && str[0] == '"'
    ensures r.Done? ==> |r.rest| <= |str|
    ensures r.Done? && !r.failed ==> |r.rest| < |str|
  {
    var end := QuotePos(str, 1, false);
    if end.None? then Done(Null, true, str, stack)
    else
      var s := Unescape(str[1..end.value]);
      if s.None? then Abort else Done(Str(s.value), false, str[end.value + 1..], stack)
  }

  function ReadNested(str: string, stack: Stack, kind: Bracket): (r: Outcome)
    requires str != ""
    ensures r.Done? ==> |r.rest| <= |str|
    ensures r.Done? && !r.failed ==> |r.rest| < |str|
    decreases |str|, 1
  {
    hide Scan, ReadArray, ReadWhole;
    var m := Scan(str, 1, false, stack + [kind], |stack| + 1);
    if m.Wrong? then Done(Null, true, str, m.stack)
    else
      var inner := str[..Min(m.pos + 1, |str|)];
      var r := if kind == InArray then ReadArray(inner, m.stack) else ReadWhole(inner, m.stack);
      if r.Broken? || m.pos >= |str| then Abort else Done(r.value, false, str[m.pos + 1..], r.stack)
  }

  /** DeserializeArray; what is left of its text is not used by any caller. */
  function ReadArray(text: string, stack: Stack): Part
    decreases |text|, 0, 0
  {
    hide ReadElements;
    var inner := InsideArray(Trim(text));
    if inner.None? then Part(Null, stack) else ReadElements(inner.value, [], stack)
  }

  /** The text without its square brackets, None when they are not there. */
  function InsideArray(str: string): (r: Option<string>)
    ensures r.Some? ==> |r.value| < |str|
  {
    if str != "" && str[0] == '[' && str[|str| - 1] == ']' then Some(str[1..|str| - 1]) else None
  }

  /** The loop of DeserializeArray. */
  function ReadElements(str: string, a: seq<Value>, stack: Stack): Part
    decreases |str|, 4
  {
    hide ReadValue;
    if str == "" then Part(Arr(a), stack)
    else
      var i := FirstStop(str, 0);
      var whole := OpensFirst(str);
      var r := ReadValue(if whole then str else str[..i], stack);
      if r.Abort? then Broken
      else if r.failed then Part(Null, r.stack)
      else
        ReadElements(if whole then r.rest else str[Min(i + 1, |str|)..],
                     if r.value.Null? then a else a + [r.value], r.stack)
  }

  lemma NoElementsLeft(a: seq<Value>, stack: Stack)
    ensures ReadElements("", a, stack) == Part(Arr(a), stack)
  {
  }

  /** One pass of that loop, for use where the function itself is hidden. */
  lemma ElementsPass(str: string, a: seq<Value>, stack: Stack)
    requires str != ""
    ensures var i := FirstStop(str, 0);
            var r := ReadValue(if OpensFirst(str) then str else str[..i], stack);
            ReadElements(str, a, stack) ==
              if r.Abort? then Broken
              else if r.failed then Part(Null, r.stack)
              else ReadElements(if OpensFirst(str) then r.rest else str[Min(i + 1, |str|)..],
                                if r.value.Null? then a else a + [r.value], r.stack)
  {
    hide ReadValue, FirstStop, OpensFirst;
  }

  lemma TrimmedBetweenBrackets(text: string)
    ensures var str := Trim(text);
            && |str| <= |text| && Tight(str)
            && (str != "" && Opens(str[0]) && Closes(str[|str| - 1]) ==> |str| >= 2)
  {
    hide Trim;
  }

  /** DeserializeInternal. */
  function ReadWhole(text: string, stack: Stack): Part
    decreases |text|, 0, 1
  {
    hide ReadArray, ReadObject, Trim, Tight, Closes, Opens;
    TrimmedBetweenBrackets(text);
    var str := Trim(text);
    if str == "" || !Opens(str[0]) then Part(Null, stack)
    else
      var kind := KindOf(str[0]);
      if !Closes(str[|str| - 1]) || KindOf(str[|str| - 1]) != kind then Part(Null, stack)
      else if kind == InArray then TakeOff(ReadArray(str, stack + [kind]), kind)
      else TakeOff(ReadObject(str, stack + [kind]), kind)
  }

  /** The caller's entry comes off the stack unless the value is null or another entry is on top. */
  function TakeOff(r: Part, kind: Bracket): Part {
    if r.Broken? || r.value.Null? then r
    else if r.stack == [] then Broken
    else if Last(r.stack) != kind then r
    else r.(stack := Front(r.stack))
  }

  /** DeserializeObj; its caller has seen an opening and a closing bracket. */
  function ReadObject(str: string, stack: Stack): Part
    requires |str| >= 2 && Tight(str)
    decreases |str|, 0, 0
  {
    hide ReadMembers;
    if str[0] != '{' && str[|str| - 1] != '}' then Part(Null, stack)
    else ReadMembers(str[1..|str| - 1], [], stack)
  }

  /** The loop of DeserializeObj. */
  function ReadMembers(str: string, obj: seq<Member>, stack: Stack): Part
    decreases |str|, 4
  {
    hide ReadValue, NextKey;
    if str == "" then Part(Obj(obj), stack)
    else
      var pair := NextKey(str);
      if pair.None? then Part(Null, stack)
      else
        var r := ReadValue(pair.value.1, stack);
        if r.Abort? then Broken
        else if r.failed then Part(Null, r.stack)
        else ReadMembers(r.rest, Insert(obj, pair.value.0, r.value), r.stack)
  }

  lemma NoMembersLeft(obj: seq<Member>, stack: Stack)
    ensures ReadMembers("", obj, stack) == Part(Obj(obj), stack)
  {
  }

  /** One pass of that loop, for use where the function itself is hidden. */
  lemma MembersPass(str: string, obj: seq<Member>, stack: Stack)
    requires str != ""
    ensures NextKey(str).None? ==> ReadMembers(str, obj, stack) == Part(Null, stack)
    ensures NextKey(str).Some? ==>
              var r := ReadValue(NextKey(str).value.1, stack);
              ReadMembers(str, obj, stack) ==
                if r.Abort? then Broken
                else if r.failed then Part(Null, r.stack)
                else ReadMembers(r.rest, Insert(obj, NextKey(str).value.0, r.value), r.stack)
  {
    hide ReadValue, NextKey, Insert;
  }

  /** The next key and the text behind its colon, None when there is none or the key is empty. */
  function NextKey(str: string): (r: Option<(string, string)>)
    ensures r.Some? ==> |r.value.1| < |str|
  {
    var open := QuotePos(str, 0, false);
    if open.None? then None
    else
      var close := QuotePos(str, open.value + 1, false);
      if close.None? then None
      else
        var colon := Find(str, ':', close.value);
        if colon.None? || close.value == open.value + 1 then None
        else Some((str[open.value + 1..close.value], str[colon.value + 1..]))
  }

  /** json::Deserialize; Null stands for "not valid JSON", None for an abort. */
  function Parse(str: string): Option<Value> {
    var r := ReadWhole(str, []);
    if r.Broken? then None else Some(r.value)
  }
}
