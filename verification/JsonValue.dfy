/**
 The JSON value type.  An object is a std::map from keys to values; it is kept as the list of its
 members in key order, which is the order the map iterates in.
 */
module JsonValue {
  /** The C++ int of the value type, 32 bits wide. */
  type Int32 = n: int | -0x8000_0000 <= n < 0x8000_0000

  /** Double keeps the text strtod was given; the number it denotes is not modelled. */
  datatype Value =
    | Null
    | Bool(b: bool)
    | Int(n: Int32)
    | Double(text: string)
    | Str(s: string)
    | Arr(items: seq<Value>)
    | Obj(fields: seq<Member>)

  datatype Member = Member(key: string, value: Value)

  /** std::string's operator< . */
  predicate Less(a: string, b: string) {
    b != "" && (a == "" || a[0] < b[0] || (a[0] == b[0] && Less(a[1..], b[1..])))
  }

  lemma {:induction false} LessIsStrict(a: string, b: string)
    ensures !(Less(a, b) && (Less(b, a) || a == b))
    decreases |a|
  {
    if a != "" && b != "" && a[0] == b[0] {
      LessIsStrict(a[1..], b[1..]);
    }
  }

  lemma {:induction false} LessIsTotal(a: string, b: string)
    ensures Less(a, b) || Less(b, a) || a == b
    decreases |a|
  {
    if a != "" && b != "" && a[0] == b[0] {
      LessIsTotal(a[1..], b[1..]);
      assert a[1..] == b[1..] ==> a == [a[0]] + a[1..] == [b[0]] + b[1..] == b;
    }
  }

  lemma {:induction false} LessIsTransitive(a: string, b: string, c: string)
    requires Less(a, b) && Less(b, c)
    ensures Less(a, c)
    decreases |a|
  {
    if a != "" && b != "" && c != "" && a[0] == b[0] == c[0] {
      LessIsTransitive(a[1..], b[1..], c[1..]);
    }
  }

  /** At place k the order of a dictionary is decided: all characters before are the same, and there the
      first text is over or has the smaller character. */
  predicate DecidedAt(a: string, b: string, k: nat) {
    k <= |a| && k < |b| && (forall j :: 0 <= j < k ==> a[j] == b[j]) && (k == |a| || a[k] < b[k])
  }

  lemma {:induction false} LessHasPlace(a: string, b: string) returns (k: nat)
    requires Less(a, b)
    ensures DecidedAt(a, b, k)
    decreases |a|
  {
    if a != "" && a[0] == b[0] {
      var n := LessHasPlace(a[1..], b[1..]);
      k := n + 1;
      forall j | 0 <= j < k ensures a[j] == b[j] {
        assert j > 0 ==> a[j] == a[1..][j - 1] && b[j] == b[1..][j - 1];
      }
    } else {
      k := 0;
    }
  }

  lemma {:induction false} PlaceIsLess(a: string, b: string, k: nat)
    requires DecidedAt(a, b, k)
    ensures Less(a, b)
    decreases k
  {
    if k > 0 {
      PlaceIsLess(a[1..], b[1..], k - 1);
    }
  }

  /** The order is that of dictionaries. */
  lemma LessIsDictionaryOrder(a: string, b: string)
    ensures Less(a, b) <==> exists k: nat :: DecidedAt(a, b, k)
  {
    hide Less, DecidedAt;
    if Less(a, b) {
      var k := LessHasPlace(a, b);
    }
    if exists k: nat :: DecidedAt(a, b, k) {
      var k: nat :| DecidedAt(a, b, k);
      PlaceIsLess(a, b, k);
    }
  }

  predicate Sorted(fields: seq<Member>) {
    forall i, j :: 0 <= i < j < |fields| ==> Less(fields[i].key, fields[j].key)
  }

  /** Every object inside is a map: its members are in strict key order. */
  predicate WellFormed(v: Value) {
    match v
    case Arr(items) => forall i :: 0 <= i < |items| ==> WellFormed(items[i])
    case Obj(fields) => Sorted(fields) && forall i :: 0 <= i < |fields| ==> WellFormed(fields[i].value)
    case _ => true
  }

  /** Assignment through operator[]: overwrite or insert in order. */
  function Insert(fields: seq<Member>, key: string, value: Value): seq<Member> {
    if fields == [] then [Member(key, value)]
    else if fields[0].key == key then [Member(key, value)] + fields[1..]
    else if Less(key, fields[0].key) then [Member(key, value)] + fields
    else [fields[0]] + Insert(fields[1..], key, value)
  }

  /** Insertion changes one entry: nothing but the new pair is added, every other pair is kept. */
  lemma {:induction false} InsertChangesOnePair(fields: seq<Member>, key: string, value: Value, m: Member)
    requires Sorted(fields)
    ensures m in Insert(fields, key, value) <==> m == Member(key, value) || (m in fields && m.key != key)
  {
    if fields != [] {
      var rest := fields[1..];
      assert fields == [fields[0]] + rest;
      if m in rest {
        assert Less(fields[0].key, m.key);
      }
      if fields[0].key == key {
        LessIsStrict(key, m.key);
      } else if Less(key, fields[0].key) {
        LessIsStrict(key, fields[0].key);
        if m in rest {
          LessIsTransitive(key, fields[0].key, m.key);
          LessIsStrict(key, m.key);
        }
      } else {
        InsertChangesOnePair(rest, key, value, m);
      }
    }
  }

  lemma SortedCons(m: Member, rest: seq<Member>)
    requires Sorted(rest) && forall i :: 0 <= i < |rest| ==> Less(m.key, rest[i].key)
    ensures Sorted([m] + rest)
  {
  }

  /** Insertion keeps the map a map. */
  lemma {:induction false} InsertKeepsSorted(fields: seq<Member>, key: string, value: Value)
    requires Sorted(fields)
    ensures Sorted(Insert(fields, key, value))
  {
    if fields != [] {
      var rest := fields[1..];
      if fields[0].key == key {
        SortedCons(Member(key, value), rest);
      } else if Less(key, fields[0].key) {
        forall i | 0 <= i < |fields| ensures Less(key, fields[i].key) {
          if i > 0 {
            LessIsTransitive(key, fields[0].key, fields[i].key);
          }
        }
        SortedCons(Member(key, value), fields);
      } else {
        LessIsTotal(key, fields[0].key);
        InsertKeepsSorted(rest, key, value);
        var later := Insert(rest, key, value);
        forall i | 0 <= i < |later| ensures Less(fields[0].key, later[i].key) {
          InsertChangesOnePair(rest, key, value, later[i]);
        }
        SortedCons(fields[0], later);
      }
    }
  }

  lemma {:induction false} InsertAtEnd(fields: seq<Member>, key: string, value: Value)
    requires forall i :: 0 <= i < |fields| ==> Less(fields[i].key, key)
    ensures Insert(fields, key, value) == fields + [Member(key, value)]
  {
    if fields != [] {
      LessIsStrict(fields[0].key, key);
      InsertAtEnd(fields[1..], key, value);
    }
  }

  /** No floating point number inside. */
  predicate DoubleFree(v: Value) {
    match v
    case Double(_) => false
    case Arr(items) => forall i :: 0 <= i < |items| ==> DoubleFree(items[i])
    case Obj(fields) => forall i :: 0 <= i < |fields| ==> DoubleFree(fields[i].value)
    case _ => true
  }
}

/** The serializer: values to text. */
module JsonWriter {
  import opened JsonText
  import opened JsonValue

  function ValueText(v: Value): (t: string)
    requires DoubleFree(v)
    ensures t != "" && Tight(t)
    decreases v, 1
  {
    match v
    case Null => "null"
    case Bool(b) => if b then "true" else "false"
    case Int(n) => IntText(n)
    case Str(s) => "\"" + s + "\""
    case Arr(items) => "[" + ItemsText(items) + "]"
    case Obj(fields) => "{" + MembersText(fields) + "}"
  }

  function ItemsText(items: seq<Value>): (t: string)
    requires forall i :: 0 <= i < |items| ==> DoubleFree(items[i])
    ensures Tight(t) && (t == "" <==> items == [])
    decreases items, 0
  {
    if items == [] then ""
    else if |items| == 1 then ValueText(items[0])
    else ValueText(items[0]) + "," + ItemsText(items[1..])
  }

  function MemberText(m: Member): (t: string)
    requires DoubleFree(m.value)
    ensures t != "" && Tight(t)
    decreases m, 2
  {
    "\"" + m.key + "\":" + ValueText(m.value)
  }

  function MembersText(fields: seq<Member>): (t: string)
    requires forall i :: 0 <= i < |fields| ==> DoubleFree(fields[i].value)
    ensures Tight(t) && (t == "" <==> fields == [])
    decreases fields, 0
  {
    if fields == [] then ""
    else if |fields| == 1 then MemberText(fields[0])
    else MemberText(fields[0]) + "," + MembersText(fields[1..])
  }

  /** Only an object or an array is a JSON text; anything else prints as nothing. */
  function Text(v: Value): string
    requires DoubleFree(v)
  {
    if v.Obj? || v.Arr? then ValueText(v) else ""
  }

  method SerializeValue(v: Value) returns (str: string)
    requires DoubleFree(v)
    ensures str == ValueText(v)
    decreases v, 3
  {
    match v {
      case Int(n) => str := IntText(n);
      case Bool(b) => str := if b then "true" else "false";
      case Null => str := "null";
      case Obj(fields) => str := Serialize(v);
      case Arr(items) => str := SerializeArray(items);
      case Str(s) => str := "\"" + s + "\"";
    }
  }

  /** What is still to be printed of a list when its first i entries are out. */
  function Remaining(i: nat, size: nat, text: string): string {
    (if 0 < i < size then "," else "") + text
  }

  lemma ItemsUnfold(items: seq<Value>, i: nat)
    requires i < |items| && forall k :: 0 <= k < |items| ==> DoubleFree(items[k])
    ensures ItemsText(items[i..]) == ValueText(items[i]) + Remaining(i + 1, |items|, ItemsText(items[i + 1..]))
  {
    assert items[i..][0] == items[i] && items[i..][1..] == items[i + 1..];
  }

  lemma MembersUnfold(fields: seq<Member>, i: nat)
    requires i < |fields| && forall k :: 0 <= k < |fields| ==> DoubleFree(fields[k].value)
    ensures MembersText(fields[i..]) == MemberText(fields[i]) + Remaining(i + 1, |fields|, MembersText(fields[i + 1..]))
  {
    var rest := fields[i..];
    var head := MemberText(rest[0]);
    assert rest[0] == fields[i] && rest[1..] == fields[i + 1..];
    if |rest| == 1 {
      assert MembersText(rest) == head;
      assert Remaining(i + 1, |fields|, MembersText(fields[i + 1..])) == "";
    } else {
      assert MembersText(rest) == head + "," + MembersText(rest[1..]);
    }
  }

  /** Printing the separator and one entry keeps printed plus remaining text the same. */
  lemma PrintStep(str: string, i: nat, size: nat, head: string, rest: string)
    requires i < size
    ensures str + Remaining(i, size, head + rest) == (if i > 0 then str + "," else str) + head + rest
  {
    if i > 0 {
      assert str + ("," + (head + rest)) == str + "," + head + rest;
    } else {
      assert "" + (head + rest) == head + rest;
      assert str + (head + rest) == str + head + rest;
    }
  }

  method SerializeArray(a: seq<Value>) returns (str: string)
    requires forall i :: 0 <= i < |a| ==> DoubleFree(a[i])
    ensures str == "[" + ItemsText(a) + "]"
    decreases a, 1
  {
    str := "[";
    ghost var whole := "[" + ItemsText(a);
    var first := true;
    assert str + Remaining(0, |a|, ItemsText(a[0..])) == whole by {
      assert a[0..] == a;
    }
    for i := 0 to |a|
      invariant first <==> i == 0
      invariant str + Remaining(i, |a|, ItemsText(a[i..])) == whole
    {
      ItemsUnfold(a, i);
      PrintStep(str, i, |a|, ValueText(a[i]), Remaining(i + 1, |a|, ItemsText(a[i + 1..])));
      if !first {
        str := str + ",";
      }
      var item := SerializeValue(a[i]);
      str := str + item;
      first := false;
    }
    assert str == whole;
    str := str + "]";
  }

  method Serialize(v: Value) returns (str: string)
    requires DoubleFree(v)
    ensures str == Text(v)
    decreases v, 2
  {
    str := "";
    var first := true;
    if v.Obj? {
      str := "{";
      var obj := v.fields;
      ghost var whole := "{" + MembersText(obj);
      assert str + Remaining(0, |obj|, MembersText(obj[0..])) == whole by {
        assert obj[0..] == obj;
      }
      for i := 0 to |obj|
        invariant first <==> i == 0
        invariant str + Remaining(i, |obj|, MembersText(obj[i..])) == whole
      {
        MembersUnfold(obj, i);
        PrintStep(str, i, |obj|, MemberText(obj[i]), Remaining(i + 1, |obj|, MembersText(obj[i + 1..])));
        if !first {
          str := str + ",";
        }
        var value := SerializeValue(obj[i].value);
        str := str + ("\"" + obj[i].key + "\":" + value);
        first := false;
      }
      assert str == whole;
      str := str + "}";
    } else if v.Arr? {
      // the original repeats SerializeArray's loop here, statement for statement
      str := SerializeArray(v.items);
    }
  }
}
