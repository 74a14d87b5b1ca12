/**
 The parser as the original runs it: methods that consume their text in place and push and pop the
 shared bracket stack, each proved equal to the function of JsonReader of the same job.  ok is false
 where the original would read the top of an empty stack or start a substring past the end.
 */
module JsonParser {
  import opened Options
  import opened CStrings
  import opened JsonText
  import opened JsonBrackets
  import opened JsonValue
  import opened JsonReader

  /** The last branch of DeserializeValue: a boolean, a number or null. */
  method DeserializeScalar(text: string, depthStack: BracketStack) returns (v: Value, hadError: bool, str: string)
    modifies depthStack
    ensures ReadScalar(text, old(depthStack.entries)) == Done(v, hadError, str, depthStack.entries)
  {
    hide ScalarValue, BooleanSoFar;
    str := text;
    var hasDot, hasE, foundDigit := false, false, false;
    var tempVal := "";
    var i := 0;
    ghost var start := Lexeme("", false, false, false, depthStack.entries, false);
    while i < |str| && str[i] != ','
      invariant 0 <= i <= |str| && str == text
      invariant Lex(text, 0, start) == Lex(text, i, Lexeme(tempVal, hasDot, hasE, foundDigit, depthStack.entries, false))
    {
      var c := str[i];
      if c == '.' {
        if !foundDigit {
          return Null, true, str;
        }
        hasDot := true;
      } else if c == 'e' || c == 'E' {
        if !BooleanSoFar(tempVal) {
          if !foundDigit || hasE {
            return Null, true, str;
          }
          hasE := true;
        }
      } else if Closes(c) {
        if depthStack.entries == [] || depthStack.Top() != KindOf(c) {
          return Null, true, str;
        }
        depthStack.Pop();
      } else if Opens(c) {
        return Null, true, str;
      }
      if !IsSpace(c) {
        if IsDigit(c) {
          foundDigit := true;
        }
        tempVal := tempVal + [c];
      }
      i := i + 1;
    }
    var value := ScalarValue(Lexeme(tempVal, hasDot, hasE, foundDigit, depthStack.entries, false));
    if value.None? {
      return Null, true, str;
    }
    return value.value, false, str[i..];
  }

  method DeserializeValue(text: string, depthStack: BracketStack) returns (v: Value, hadError: bool, str: string, ok: bool)
    modifies depthStack
    ensures var r := ReadValue(text, old(depthStack.entries));
            if ok then r == Done(v, hadError, str, depthStack.entries) else r == Abort
    decreases |text|, 2
  {
    hide ReadValue, ReadArray, ReadWhole, Scan, QuotePos, Unescape, ReadScalar, Trim;
    ValueBranches(text, depthStack.entries);
    v, hadError, ok := Null, false, true;
    str := Trim(text);
    if |str| == 0 {
      return;
    }
    if str[0] == '[' {
      depthStack.Push(InArray);
      var i := GetEndOfArrayOrObj(str, depthStack);
      if i.None? {
        hadError := true;
        return;
      }
      var arrayStr := str[..Min(i.value + 1, |str|)];
      v, ok := DeserializeArray(arrayStr, depthStack);
      if !ok || i.value >= |str| {
        ok := false;
        return;
      }
      str := str[i.value + 1..];
    } else if str[0] == '{' {
      depthStack.Push(InObject);
      var i := GetEndOfArrayOrObj(str, depthStack);
      if i.None? {
        hadError := true;
        return;
      }
      var objStr := str[..Min(i.value + 1, |str|)];
      v, ok := DeserializeInternal(objStr, depthStack);
      if !ok || i.value >= |str| {
        ok := false;
        return;
      }
      str := str[i.value + 1..];
    } else if str[0] == '"' {
      var endQuote := GetQuotePos(str, 1);
      if endQuote.None? {
        hadError := true;
        return;
      }
      var s := UnescapeJSONString(str[1..endQuote.value]);
      if s.None? {
        ok := false;
        return;
      }
      v := Str(s.value);
      str := str[endQuote.value + 1..];
    } else {
      v, hadError, str := DeserializeScalar(str, depthStack);
    }
  }

  method DeserializeArray(text: string, depthStack: BracketStack) returns (v: Value, ok: bool)
    modifies depthStack
    ensures var r := ReadArray(text, old(depthStack.entries));
            if ok then r == Part(v, depthStack.entries) else r == Broken
    decreases |text|, 0, 0
  {
    hide ReadValue, FirstStop, OpensFirst, ReadElements, Trim;
    var a: seq<Value> := [];
    var str := Trim(text);
    if str != "" && str[0] == '[' && str[|str| - 1] == ']' {
      str := str[1..|str| - 1];
    } else {
      return Null, true;
    }
    ghost var whole := ReadElements(str, [], depthStack.entries);
    while |str| > 0
      invariant |str| < |text|
      invariant ReadElements(str, a, depthStack.entries) == whole
      decreases |str|
    {
      ElementsPass(str, a, depthStack.entries);
      var next, rest, failed, fine := ReadOneElement(str, depthStack);
      if !fine {
        return Null, false;
      }
      if failed {
        return Null, true;
      }
      if !next.Null? {
        a := a + [next];
      }
      str := rest;
    }
    NoElementsLeft(a, depthStack.entries);
    return Arr(a), true;
  }

  /** One pass of the outer loop of DeserializeArray: the inner loop grabs characters until it meets a
      bracket, a separator or the end. */
  method ReadOneElement(text: string, depthStack: BracketStack) returns (v: Value, str: string, hadError: bool, ok: bool)
    requires text != ""
    modifies depthStack
    ensures var i := FirstStop(text, 0);
            var r := ReadValue(if OpensFirst(text) then text else text[..i], old(depthStack.entries));
            && ok == r.Done?
            && (ok ==> v == r.value && hadError == r.failed && depthStack.entries == r.stack)
            && (ok && !hadError ==> |str| < |text| && str == if OpensFirst(text) then r.rest else text[Min(i + 1, |text|)..])
    decreases |text|, 3
  {
    hide ReadValue;
    str := text;
    var tmp := "";
    var i := 0;
    while true
      invariant 0 <= i < |str| && str == text && tmp == str[..i]
      invariant depthStack.entries == old(depthStack.entries)
      invariant FirstStop(text, 0) == FirstStop(text, i)
      decreases |str| - i
    {
      if str[i] == '{' || str[i] == '[' {
        v, hadError, str, ok := DeserializeValue(str, depthStack);
        return;
      }
      var terminateParsing := false;
      if str[i] == ',' || str[i] == ']' {
        terminateParsing := true;
      } else {
        tmp := tmp + [str[i]];
        if i == |str| - 1 {
          terminateParsing := true;
        }
      }
      if terminateParsing {
        assert tmp == text[..FirstStop(text, 0)];
        var left;
        v, hadError, left, ok := DeserializeValue(tmp, depthStack);
        str := str[i + 1..];
        return;
      }
      i := i + 1;
    }
  }

  method DeserializeInternal(text: string, depthStack: BracketStack) returns (v: Value, ok: bool)
    modifies depthStack
    ensures var r := ReadWhole(text, old(depthStack.entries));
            if ok then r == Part(v, depthStack.entries) else r == Broken
    decreases |text|, 0, 1
  {
    hide ReadArray, ReadObject, Trim;
    var str := Trim(text);
    if str != "" && str[0] == '{' {
      if str[|str| - 1] != '}' {
        return Null, true;
      }
      depthStack.Push(InObject);
      v, ok := DeserializeObj(str, depthStack);
      if !ok || v.Null? {
        return;
      }
      if depthStack.entries == [] {
        return Null, false;
      }
      if depthStack.Top() != InObject {
        return;
      }
      depthStack.Pop();
    } else if str != "" && str[0] == '[' {
      if str[|str| - 1] != ']' {
        return Null, true;
      }
      depthStack.Push(InArray);
      v, ok := DeserializeArray(str, depthStack);
      if !ok || v.Null? {
        return;
      }
      if depthStack.entries == [] {
        return Null, false;
      }
      if depthStack.Top() != InArray {
        return;
      }
      depthStack.Pop();
    } else {
      return Null, true;
    }
  }

  /** The first half of a pass of DeserializeObj's loop: the key and the text behind its colon. */
  method ReadKey(str: string) returns (r: Option<(string, string)>)
    ensures r == NextKey(str)
  {
    hide QuotePos, Find;
    var startQuote := GetQuotePos(str, 0);
    if startQuote.None? {
      return None;
    }
    var endQuote := GetQuotePos(str, startQuote.value + 1);
    if endQuote.None? {
      return None;
    }
    var colon := Find(str, ':', endQuote.value);
    if colon.None? {
      return None;
    }
    var key := str[startQuote.value + 1..endQuote.value];
    if |key| == 0 {
      return None;
    }
    return Some((key, str[colon.value + 1..]));
  }

  method DeserializeObj(text: string, depthStack: BracketStack) returns (v: Value, ok: bool)
    requires |text| >= 2 && Tight(text)
    modifies depthStack
    ensures var r := ReadObject(text, old(depthStack.entries));
            if ok then r == Part(v, depthStack.entries) else r == Broken
    decreases |text|, 0, 0
  {
    hide ReadValue, Insert, NextKey, ReadMembers, Trim;
    var obj: seq<Member> := [];
    TrimIsIdentityExactlyOnTight(text);
    var str := Trim(text);
    if str[0] != '{' && str[|str| - 1] != '}' {
      return Null, true;
    }
    str := str[1..|str| - 1];
    ghost var whole := ReadMembers(str, [], depthStack.entries);
    while |str| > 0
      invariant |str| < |text|
      invariant ReadMembers(str, obj, depthStack.entries) == whole
      decreases |str|
    {
      MembersPass(str, obj, depthStack.entries);
      var pair := ReadKey(str);
      if pair.None? {
        return Null, true;
      }
      var key := pair.value.0;
      str := pair.value.1;
      var value, hadError, rest, fine := DeserializeValue(str, depthStack);
      if !fine {
        return Null, false;
      }
      if hadError {
        return Null, true;
      }
      obj := Insert(obj, key, value);
      str := rest;
    }
    NoMembersLeft(obj, depthStack.entries);
    return Obj(obj), true;
  }

  /** json::Deserialize, with a stack of its own. */
  method Deserialize(str: string) returns (v: Value, ok: bool)
    ensures Parse(str) == if ok then Some(v) else None
  {
    var depthStack := new BracketStack();
    v, ok := DeserializeInternal(str, depthStack);
  }
}
