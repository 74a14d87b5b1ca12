/**
 Character-level helpers of the JSON code: trimming, searching for the closing quote of a string,
 undoing escapes, and printing and reading decimal integers.  Each scan loop of the original is a
 method here, proved against a recursive function that starts at an arbitrary index.
 */
module JsonText {
  import opened Options

  // ---------------------------------------------------------------- white space

  /** isspace in the C locale: blank and the five control characters 9..13. */
  predicate IsSpace(c: char) {
    c == ' ' || 9 <= c as int <= 13
  }

  function TrimFront(s: string): (r: string)
    ensures |r| <= |s|
    ensures r == s[|s| - |r|..]
    ensures r != "" ==> !IsSpace(r[0])
  {
    if s != "" && IsSpace(s[0]) then TrimFront(s[1..]) else s
  }

  function TrimBack(s: string): (r: string)
    ensures r <= s
    ensures r != "" ==> !IsSpace(r[|r| - 1])
  {
    if s != "" && IsSpace(s[|s| - 1]) then TrimBack(s[..|s| - 1]) else s
  }

  function Trim(s: string): (r: string)
    ensures |r| <= |s|
    ensures r != "" ==> !IsSpace(r[0]) && !IsSpace(r[|r| - 1])
  {
    TrimBack(TrimFront(s))
  }

  /** The white space of section 2 of RFC 8259. */
  predicate Blank(c: char) {
    c == ' ' || c == '\t' || c == '\n' || c == '\r'
  }

  predicate Blanks(s: string) {
    forall i :: 0 <= i < |s| ==> Blank(s[i])
  }

  /** The six characters that count as white space in C: those, vertical tab and form feed. */
  const WHITE: set<char> := {' ', '\t', '\n', '\r', 11 as char, 12 as char}

  lemma SpaceIsWhite(c: char)
    ensures IsSpace(c) <==> c in WHITE
    ensures Blank(c) ==> IsSpace(c)
  {
  }

  /** Neither end is white space. */
  predicate Tight(s: string)
    ensures Tight(s) <==> (s != "" ==> !IsSpace(s[0]) && !IsSpace(s[|s| - 1]))
  {
    s != "" ==> s[0] !in WHITE && s[|s| - 1] !in WHITE
  }

  lemma TrimIsIdentityExactlyOnTight(s: string)
    ensures Trim(s) == s <==> Tight(s)
  {
    if s != "" && IsSpace(s[0]) {
      assert |TrimFront(s)| < |s|;
    }
  }

  /** What follows a tight text loses only its own trailing blanks. */
  lemma {:induction false} TrimKeepsTightHead(a: string, b: string)
    requires a != "" && Tight(a)
    ensures TrimBack(a + b) == a + TrimBack(b)
    ensures Trim(a + b) == a + TrimBack(b)
    decreases |b|
  {
    if b != "" && IsSpace(b[|b| - 1]) {
      TrimKeepsTightHead(a, b[..|b| - 1]);
      assert (a + b)[..|a + b| - 1] == a + b[..|b| - 1];
    } else if b == "" {
      assert a + b == a;
    }
  }

  lemma {:induction false} TrimDropsBlanksInFront(front: string, s: string)
    requires Blanks(front)
    ensures TrimFront(front + s) == TrimFront(s)
  {
    hide TrimFront;
    if front == "" {
      assert front + s == s;
    } else {
      assert (front + s)[1..] == front[1..] + s && (front + s)[0] == front[0];
      SpaceIsWhite(front[0]);
      TrimDropsOne(front + s);
      TrimDropsBlanksInFront(front[1..], s);
    }
  }

  lemma TrimDropsOne(s: string)
    requires s != "" && IsSpace(s[0])
    ensures TrimFront(s) == TrimFront(s[1..])
  {
  }

  /** White space in front of a tight text goes, and what follows it loses only its own trailing blanks. */
  lemma TrimFindsTightMiddle(front: string, a: string, b: string)
    requires Blanks(front) && a != "" && Tight(a)
    ensures Trim(front + (a + b)) == a + TrimBack(b)
  {
    hide TrimFront, TrimBack;
    TrimDropsBlanksInFront(front, a + b);
    TrimKeepsTightHead(a, b);
  }

  lemma {:induction false} BlanksTrimAway(s: string)
    requires Blanks(s)
    ensures TrimBack(s) == "" && Trim(s) == ""
  {
    hide TrimFront;
    assert TrimFront(s) == TrimFront("") by {
      TrimDropsBlanksInFront(s, "");
      assert s + "" == s;
    }
    if s != "" {
      BlanksTrimAway(s[..|s| - 1]);
    }
  }

  /** Trailing blanks are taken off what is behind the first character that is none. */
  lemma {:induction false} TrimBackKeepsHead(a: string, b: string)
    requires b != "" && b[0] !in WHITE
    ensures TrimBack(a + b) == a + TrimBack(b) && TrimBack(b) != "" && TrimBack(b)[0] == b[0]
    decreases |b|
  {
    if IsSpace(b[|b| - 1]) {
      assert (a + b)[..|a + b| - 1] == a + b[..|b| - 1];
      TrimBackKeepsHead(a, b[..|b| - 1]);
    }
  }

  // ---------------------------------------------------------------- substrings

  /** The text t stands at position i of str. */
  predicate At(str: string, i: nat, t: string) {
    i + |t| <= |str| && str[i..i + |t|] == t
  }

  lemma AtSplit(str: string, i: nat, a: string, b: string)
    ensures At(str, i, a + b) <==> At(str, i, a) && At(str, i + |a|, b)
  {
    if i + |a| + |b| <= |str| {
      assert str[i..i + |a + b|] == str[i..i + |a|] + str[i + |a|..i + |a| + |b|];
      if str[i..i + |a + b|] == a + b {
        assert str[i..i + |a|] == (a + b)[..|a|];
        assert str[i + |a|..i + |a| + |b|] == (a + b)[|a|..];
      }
    }
  }

  lemma AtChar(str: string, i: nat, t: string, k: nat)
    requires At(str, i, t) && k < |t|
    ensures str[i + k] == t[k]
  {
    assert str[i..i + |t|][k] == str[i + k];
  }

  // ---------------------------------------------------------------- quotes

  predicate Mute(c: char) {
    c != '"' && c != '\\'
  }

  /** Holds neither a quote nor a backslash, so the writer prints it as it should. */
  predicate Muted(s: string) {
    forall i :: 0 <= i < |s| ==> Mute(s[i])
  }

  /** The first quote at or after i that no backslash protects; slash: the previous character was an
      unprotected backslash. */
  function QuotePos(str: string, i: nat, slash: bool): (r: Option<nat>)
    requires i <= |str|
    ensures r.Some? ==> i <= r.value < |str| && str[r.value] == '"'
    decreases |str| - i
  {
    if i == |str| then None
    else if str[i] == '\\' && !slash then QuotePos(str, i + 1, true)
    else if str[i] == '"' && !slash then Some(i)
    else QuotePos(str, i + 1, false)
  }

  method GetQuotePos(str: string, startPos: nat) returns (r: Option<nat>)
    requires startPos <= |str|
    ensures r == QuotePos(str, startPos, false)
  {
    var foundSlash := false;
    var i := startPos;
    while i < |str|
      invariant startPos <= i <= |str|
      invariant QuotePos(str, startPos, false) == QuotePos(str, i, foundSlash)
    {
      var c := str[i];
      if c == '\\' && !foundSlash {
        foundSlash := true;
        i := i + 1;
        continue;
      } else if c == '"' && !foundSlash {
        return Some(i);
      }
      foundSlash := false;
      i := i + 1;
    }
    return None;
  }

  /** Over muted text the search runs straight on. */
  lemma {:induction false} QuotePosSkips(str: string, i: nat, t: string)
    requires At(str, i, t) && Muted(t)
    ensures QuotePos(str, i, false) == QuotePos(str, i + |t|, false)
    decreases |t|
  {
    if t != "" {
      AtSplit(str, i, t[..1], t[1..]);
      assert t == t[..1] + t[1..];
      AtChar(str, i, t, 0);
      QuotePosSkips(str, i + 1, t[1..]);
    }
  }

  /** The search inside a piece of a text: it ends where the search in the piece alone ends. */
  lemma {:induction false} QuotePosAt(str: string, i: nat, t: string, j: nat, slash: bool, e: nat)
    requires At(str, i, t) && j <= |t| && e < |t|
    ensures QuotePos(str, i + j, slash) == Some(i + e) <==> QuotePos(t, j, slash) == Some(e)
    decreases |t| - j
  {
    if j < |t| {
      AtChar(str, i, t, j);
      QuotePosAt(str, i, t, j + 1, t[j] == '\\' && !slash, e);
    }
  }

  /** A text cut off before the quote that the search finds holds none. */
  lemma {:induction false} QuotePosCut(str: string, i: nat, t: string, j: nat, slash: bool, e: nat)
    requires i <= |str| && j <= |str| - i <= e < |t| && str[i..] == t[..|str| - i]
    requires QuotePos(t, j, slash) == Some(e)
    ensures QuotePos(str, i + j, slash) == None
    decreases |t| - j
  {
    if i + j < |str| {
      assert str[i + j] == str[i..][j] == t[j];
      QuotePosCut(str, i, t, j + 1, t[j] == '\\' && !slash, e);
    }
  }

  /** Every quote that the search passes stands behind a backslash. */
  lemma {:induction false} PassedQuotesAreProtected(t: string, i: nat, slash: bool, e: nat, k: nat)
    requires i <= |t| && QuotePos(t, i, slash) == Some(e) && i <= k < e && t[k] == '"'
    ensures if k == i then slash else t[k - 1] == '\\'
    decreases |t| - i
  {
    if i < k {
      PassedQuotesAreProtected(t, i + 1, t[i] == '\\' && !slash, e, k);
    }
  }

  /** Put between quotes, the text is all there is before the closing one: every quote in it is
      protected, and no backslash at its end protects the closing quote. */
  predicate Delimited(s: string) {
    QuotePos(s + "\"", 0, false) == Some(|s|)
  }

  /** Besides, no backslash at all stands in front of the closing quote. */
  predicate Legible(s: string) {
    Delimited(s) && (s != "" ==> s[|s| - 1] != '\\')
  }

  lemma ClosingQuoteExactlyWhenDelimited(str: string, i: nat, s: string)
    requires At(str, i, s + "\"")
    ensures QuotePos(str, i, false) == Some(i + |s|) <==> Delimited(s)
  {
    QuotePosAt(str, i, s + "\"", 0, false, |s|);
  }

  lemma MutedIsLegible(s: string)
    ensures Muted(s) ==> Legible(s)
  {
    if Muted(s) {
      var t := s + "\"";
      assert At(t, 0, s);
      QuotePosSkips(t, 0, s);
    }
  }

  // ---------------------------------------------------------------- undoing escapes

  predicate IsDigit(c: char) {
    '0' <= c <= '9'
  }

  predicate IsHex(c: char) {
    IsDigit(c) || 'a' <= c <= 'f' || 'A' <= c <= 'F'
  }

  function HexValue(c: char): (n: nat)
    requires IsHex(c)
    ensures n < 16
  {
    if IsDigit(c) then c as int - '0' as int
    else if 'a' <= c <= 'f' then c as int - 'a' as int + 10
    else c as int - 'A' as int + 10
  }

  /** strtoul in base 16 on at most two characters: it skips blanks, takes a sign, and stops at the
      first character that is no digit (so "0x" is 0). */
  function HexNumber(t: string): (n: int)
    requires |t| <= 2
    ensures -16 < n < 256
  {
    var u := TrimFront(t);
    if u == "" then 0
    else if IsHex(u[0]) then
      if |u| == 2 && IsHex(u[1]) then HexValue(u[0]) * 16 + HexValue(u[1]) else HexValue(u[0])
    else if |u| == 2 && IsHex(u[1]) && u[0] == '+' then HexValue(u[1])
    else if |u| == 2 && IsHex(u[1]) && u[0] == '-' then 0 - HexValue(u[1]) as int
    else 0
  }

  /** The number cut down to eight bits. */
  function ByteChar(n: int): char
    requires -16 < n < 256
  {
    (if n < 0 then n + 256 else n) as char
  }

  function Min(a: nat, b: nat): nat {
    if a < b then a else b
  }

  /** What one backslash and the character after it stand for; an unknown pair vanishes. */
  function ShortEscape(c: char): (r: string)
    ensures |r| <= 1
  {
    match c
    case '"' => "\""
    case '\\' => "\\"
    case '/' => "/"
    case 't' => "\t"
    case 'n' => "\n"
    case 'r' => "\r"
    case 'b' => [8 as char]
    case 'f' => [12 as char]
    case _ => ""
  }

  /** What the character at i, or the escape that starts there, stands for, and where the next one
      starts.  None: substr was asked to start beyond the end and threw. */
  function EscapeAt(s: string, i: nat): (r: Option<(string, nat)>)
    requires i < |s|
    ensures r.Some? ==> i < r.value.1 && |r.value.0| <= 1
    ensures r.Some? && s[i] == '\\' && i + 1 < |s| ==> i + 1 < r.value.1
  {
    if s[i] == '\\' && i + 1 < |s| then
      if s[i + 1] != 'u' then Some((ShortEscape(s[i + 1]), i + 2))
      else if i + 4 > |s| then None
      else Some(([ByteChar(HexNumber(s[i + 4..Min(i + 6, |s|)]))], i + 6))
    else Some(([s[i]], i + 1))
  }

  /** The unescaped text of s[i..]. */
  function UnescapeFrom(s: string, i: nat): (r: Option<string>)
    ensures r.Some? ==> |r.value| <= |s| - Min(i, |s|)
    ensures r.Some? && i + 1 < |s| && s[i] == '\\' ==> |r.value| < |s| - i
    decreases |s| - Min(i, |s|)
  {
    if i >= |s| then Some("")
    else
      var e := EscapeAt(s, i);
      if e.None? then None else Prepend(e.value.0, UnescapeFrom(s, e.value.1))
  }

  function Prepend(t: string, r: Option<string>): Option<string> {
    if r.None? then None else Some(t + r.value)
  }

  function Unescape(s: string): (r: Option<string>) {
    var r := UnescapeFrom(s, 0);
    if r.None? then None else Some(Trim(r.value))
  }

  lemma PrependTwice(a: string, b: string, r: Option<string>)
    ensures Prepend(a, Prepend(b, r)) == Prepend(a + b, r)
  {
    if r.Some? {
      assert a + (b + r.value) == a + b + r.value;
    }
  }

  lemma PrependNothing(r: Option<string>)
    ensures Prepend("", r) == r
  {
    if r.Some? {
      assert "" + r.value == r.value;
    }
  }

  method UnescapeJSONString(str: string) returns (r: Option<string>)
    ensures r == Unescape(str)
  {
    var s := "";
    var i := 0;
    PrependNothing(UnescapeFrom(str, 0));
    while i < |str|
      invariant UnescapeFrom(str, 0) == Prepend(s, UnescapeFrom(str, i))
    {
      var skipAhead := 0;
      var piece := [str[i]];
      if str[i] == '\\' && i + 1 < |str| {
        if str[i + 1] == 'u' {
          skipAhead := 5;
          if i + 4 > |str| {
            return None;
          }
          var hex := HexNumber(str[i + 4..Min(i + 6, |str|)]);
          piece := [ByteChar(hex)];
        } else {
          skipAhead := 1;
          piece := ShortEscape(str[i + 1]);
        }
      }
      assert EscapeAt(str, i) == Some((piece, i + skipAhead + 1));
      PrependTwice(s, piece, UnescapeFrom(str, i + skipAhead + 1));
      s := s + piece;
      i := i + skipAhead + 1;
    }
    PrependNil(s);
    return Some(Trim(s));
  }

  lemma PrependNil(s: string)
    ensures Prepend(s, Some("")) == Some(s)
  {
    assert s + "" == s;
  }

  /** No backslash but perhaps the last character: unescaping has nothing to do. */
  predicate Verbatim(s: string) {
    forall i :: 0 <= i < |s| - 1 ==> s[i] != '\\'
  }

  /** A character that is no backslash, or the last one, stands for itself. */
  lemma PlainCharacterStands(s: string, i: nat)
    requires i < |s| && (s[i] != '\\' || i + 1 == |s|)
    ensures UnescapeFrom(s, i) == Prepend([s[i]], UnescapeFrom(s, i + 1))
  {
    hide HexNumber, ByteChar, ShortEscape;
  }

  lemma NothingToUnescape(s: string)
    ensures UnescapeFrom(s, |s|) == Some("")
  {
  }

  lemma {:induction false} UnescapeVerbatim(s: string, i: nat)
    requires i <= |s| && Verbatim(s)
    ensures UnescapeFrom(s, i) == Some(s[i..])
    decreases |s| - i
  {
    hide UnescapeFrom;
    if i < |s| {
      PlainCharacterStands(s, i);
      UnescapeVerbatim(s, i + 1);
      assert [s[i]] + s[i + 1..] == s[i..];
    } else {
      assert s[i..] == "";
      NothingToUnescape(s);
    }
  }

  /** An escape makes the text shorter. */
  lemma {:induction false} UnescapeShortens(s: string, j: nat, i: nat)
    requires j <= i && i + 1 < |s| && s[i] == '\\' && forall k :: j <= k < i ==> s[k] != '\\'
    ensures UnescapeFrom(s, j).Some? ==> |UnescapeFrom(s, j).value| < |s| - j
    decreases i - j
  {
    hide UnescapeFrom;
    if j < i {
      PlainCharacterStands(s, j);
      UnescapeShortens(s, j + 1, i);
    }
  }

  lemma {:induction false} FirstBackslash(s: string, i: nat) returns (k: nat)
    requires !Verbatim(s) && i < |s| && forall j :: 0 <= j < i ==> s[j] != '\\'
    ensures k + 1 < |s| && s[k] == '\\' && forall j :: 0 <= j < k ==> s[j] != '\\'
    decreases |s| - i
  {
    if s[i] == '\\' && i + 1 < |s| {
      k := i;
    } else {
      k := FirstBackslash(s, i + 1);
    }
  }

  /** A text is its own unescaping exactly when it holds no escape and has tight ends. */
  lemma UnescapeIsIdentityExactly(s: string)
    ensures Unescape(s) == Some(s) <==> Verbatim(s) && Tight(s)
    ensures !Verbatim(s) && Unescape(s).Some? ==> |Unescape(s).value| < |s|
  {
    hide Trim;
    if Verbatim(s) {
      UnescapeVerbatim(s, 0);
      assert s[0..] == s;
      TrimIsIdentityExactlyOnTight(s);
    } else {
      var k := FirstBackslash(s, 0);
      UnescapeShortens(s, 0, k);
    }
  }

  // ---------------------------------------------------------------- escapes of RFC 8259, section 7

  /** The hexadecimal digits by value. */
  const LOWER_HEX: string := "0123456789abcdef"
  const UPPER_HEX: string := "0123456789ABCDEF"

  type Nibble = n: nat | n < 16

  datatype Hex = Hex(value: Nibble, upper: bool)

  function HexChar(h: Hex): char {
    if h.upper then UPPER_HEX[h.value] else LOWER_HEX[h.value]
  }

  lemma HexCharIsRead(h: Hex)
    ensures IsHex(HexChar(h)) && HexValue(HexChar(h)) == h.value
  {
  }

  /** One character of a JSON string as the grammar allows it to be written.  The \u form is kept to
      0000..00FF because the reader keeps only the last two digits. */
  datatype Piece =
    | Raw(c: char)
    | Short(letter: char)
    | Unicode(hi: Hex, lo: Hex)

  predicate LegalPiece(p: Piece) {
    match p
    case Raw(c) => Mute(c)
    case Short(l) => l == '"' || l == '\\' || l == '/' || l == 'b' || l == 'f' || l == 'n' || l == 'r' || l == 't'
    case Unicode(_, _) => true
  }

  function PieceText(p: Piece): (t: string)
    ensures 0 < |t|
  {
    match p
    case Raw(c) => [c]
    case Short(l) => ['\\', l]
    case Unicode(hi, lo) => ['\\', 'u', '0', '0', HexChar(hi), HexChar(lo)]
  }

  function PieceChar(p: Piece): char
    requires LegalPiece(p)
  {
    match p
    case Raw(c) => c
    case Short(l) =>
      (match l
       case 't' => '\t'
       case 'n' => '\n'
       case 'r' => '\r'
       case 'b' => 8 as char
       case 'f' => 12 as char
       case _ => l)
    case Unicode(hi, lo) => (hi.value * 16 + lo.value) as char
  }

  predicate LegalPieces(ps: seq<Piece>) {
    forall i :: 0 <= i < |ps| ==> LegalPiece(ps[i])
  }

  function PiecesText(ps: seq<Piece>): string {
    if ps == [] then "" else PieceText(ps[0]) + PiecesText(ps[1..])
  }

  function PiecesMeaning(ps: seq<Piece>): string
    requires LegalPieces(ps)
  {
    if ps == [] then "" else [PieceChar(ps[0])] + PiecesMeaning(ps[1..])
  }

  lemma QuotePosSkipsPiece(str: string, i: nat, p: Piece)
    requires LegalPiece(p) && At(str, i, PieceText(p))
    ensures QuotePos(str, i, false) == QuotePos(str, i + |PieceText(p)|, false)
  {
    var t := PieceText(p);
    AtChar(str, i, t, 0);
    if !p.Raw? {
      AtChar(str, i, t, 1);
      assert QuotePos(str, i, false) == QuotePos(str, i + 1, true) == QuotePos(str, i + 2, false);
    }
    if p.Unicode? {
      var digits := ['0', '0', HexChar(p.hi), HexChar(p.lo)];
      HexCharIsRead(p.hi);
      HexCharIsRead(p.lo);
      assert t == "\\u" + digits;
      AtSplit(str, i, "\\u", digits);
      QuotePosSkips(str, i + 2, digits);
    }
  }

  lemma {:induction false} QuotePosSkipsPieces(str: string, i: nat, ps: seq<Piece>)
    requires LegalPieces(ps) && At(str, i, PiecesText(ps))
    ensures QuotePos(str, i, false) == QuotePos(str, i + |PiecesText(ps)|, false)
    decreases |ps|
  {
    if ps != [] {
      var t, rest := PieceText(ps[0]), PiecesText(ps[1..]);
      assert PiecesText(ps) == t + rest;
      AtSplit(str, i, t, rest);
      QuotePosSkipsPiece(str, i, ps[0]);
      QuotePosSkipsPieces(str, i + |t|, ps[1..]);
    }
  }

  lemma HexNumberOfTwoDigits(hi: char, lo: char)
    requires IsHex(hi) && IsHex(lo)
    ensures HexNumber([hi, lo]) == HexValue(hi) * 16 + HexValue(lo)
  {
    hide HexValue, TrimFront;
    NoBlankInFront([hi, lo]);
  }

  lemma NoBlankInFront(t: string)
    requires t != "" && IsHex(t[0])
    ensures TrimFront(t) == t
  {
  }

  lemma ShortPieceChar(l: char)
    requires LegalPiece(Short(l))
    ensures l != 'u' && ShortEscape(l) == [PieceChar(Short(l))]
  {
  }

  lemma EscapeAtShort(s: string, i: nat, l: char)
    requires LegalPiece(Short(l)) && At(s, i, PieceText(Short(l)))
    ensures EscapeAt(s, i) == Some(([PieceChar(Short(l))], i + 2))
  {
    var t := PieceText(Short(l));
    AtChar(s, i, t, 0);
    AtChar(s, i, t, 1);
    ShortPieceChar(l);
  }

  lemma EscapeAtHex(s: string, i: nat, digits: string)
    requires i + 6 <= |s| && s[i] == '\\' && s[i + 1] == 'u' && s[i + 4..i + 6] == digits && |digits| == 2
    ensures EscapeAt(s, i) == Some(([ByteChar(HexNumber(digits))], i + 6))
  {
  }

  lemma EscapeAtUnicode(s: string, i: nat, hi: Hex, lo: Hex)
    requires At(s, i, PieceText(Unicode(hi, lo)))
    ensures EscapeAt(s, i) == Some(([PieceChar(Unicode(hi, lo))], i + 6))
  {
    hide HexValue, HexChar, IsHex, HexNumber, EscapeAt;
    var t := PieceText(Unicode(hi, lo));
    assert s[i..i + 6] == t;
    assert s[i] == t[0] && s[i + 1] == t[1];
    assert s[i + 4..i + 6] == t[4..] == [HexChar(hi), HexChar(lo)];
    EscapeAtHex(s, i, [HexChar(hi), HexChar(lo)]);
    HexCharIsRead(hi);
    HexCharIsRead(lo);
    HexNumberOfTwoDigits(HexChar(hi), HexChar(lo));
  }

  lemma EscapeAtRaw(s: string, i: nat, c: char)
    requires Mute(c) && At(s, i, [c])
    ensures EscapeAt(s, i) == Some(([c], i + 1))
  {
    AtChar(s, i, [c], 0);
  }

  lemma EscapeAtPiece(s: string, i: nat, p: Piece)
    requires LegalPiece(p) && At(s, i, PieceText(p))
    ensures EscapeAt(s, i) == Some(([PieceChar(p)], i + |PieceText(p)|))
  {
    hide EscapeAt, HexChar, At;
    match p {
      case Raw(c) =>
        EscapeAtRaw(s, i, c);
      case Short(l) =>
        EscapeAtShort(s, i, l);
      case Unicode(hi, lo) =>
        EscapeAtUnicode(s, i, hi, lo);
    }
  }

  lemma {:induction false} UnescapePieces(s: string, i: nat, ps: seq<Piece>)
    requires LegalPieces(ps) && At(s, i, PiecesText(ps)) && i + |PiecesText(ps)| == |s|
    ensures UnescapeFrom(s, i) == Some(PiecesMeaning(ps))
    decreases |ps|
  {
    hide EscapeAt, UnescapeFrom, PieceText, PieceChar, LegalPiece, At;
    if ps != [] {
      var t := PieceText(ps[0]);
      AtSplit(s, i, t, PiecesText(ps[1..]));
      EscapeAtPiece(s, i, ps[0]);
      UnescapeStep(s, i, [PieceChar(ps[0])], i + |t|);
      UnescapePieces(s, i + |t|, ps[1..]);
    } else {
      NothingToUnescape(s);
    }
  }

  lemma UnescapeStep(s: string, i: nat, t: string, j: nat)
    requires i < |s| && EscapeAt(s, i) == Some((t, j))
    ensures UnescapeFrom(s, i) == Prepend(t, UnescapeFrom(s, j))
  {
    hide EscapeAt;
  }

  /** Every legal escaping of a text, quoted and followed by anything: the search finds exactly the
      closing quote, and what is between the quotes reads back as the text without outer blanks. */
  lemma EscapedStringReadsBack(ps: seq<Piece>, tail: string)
    requires LegalPieces(ps)
    ensures var quoted := "\"" + PiecesText(ps) + "\"" + tail;
            && QuotePos(quoted, 1, false) == Some(|PiecesText(ps)| + 1)
            && Unescape(quoted[1..|PiecesText(ps)| + 1]) == Some(Trim(PiecesMeaning(ps)))
  {
    var body := PiecesText(ps);
    var quoted := "\"" + body + "\"" + tail;
    assert quoted[1..|body| + 1] == body;
    QuotePosSkipsPieces(quoted, 1, ps);
    UnescapePieces(body, 0, ps);
    assert body[0..|body|] == body;
  }

  /** A legal escaping is delimited and decodes to the text without outer blanks; a backslash stands in
      front of its closing quote exactly when the last character is an escaped backslash. */
  lemma LegalEscapingIsReadable(ps: seq<Piece>)
    requires LegalPieces(ps)
    ensures var t := PiecesText(ps);
            && Delimited(t) && Unescape(t) == Some(Trim(PiecesMeaning(ps)))
            && (Legible(t) <==> !(ps != [] && ps[|ps| - 1] == Short('\\')))
  {
    hide Unescape, Trim, QuotePos, PiecesText, PiecesMeaning, LegalPieces;
    var t := PiecesText(ps);
    EscapedStringReadsBack(ps, "");
    var quoted := "\"" + t + "\"" + "";
    assert quoted[1..|t| + 1] == t;
    assert At(quoted, 1, t + "\"") by { assert quoted[1..1 + |t| + 1] == t + "\""; }
    ClosingQuoteExactlyWhenDelimited(quoted, 1, t);
    PiecesEnd(ps);
  }

  lemma {:induction false} PiecesEnd(ps: seq<Piece>)
    requires LegalPieces(ps)
    ensures var t := PiecesText(ps);
            && (t == "" <==> ps == [])
            && (ps != [] ==> (t[|t| - 1] == '\\' <==> ps[|ps| - 1] == Short('\\')))
  {
    if |ps| > 1 {
      PiecesEnd(ps[1..]);
    } else if |ps| == 1 {
      assert PiecesText(ps[1..]) == "";
    }
  }

  // ---------------------------------------------------------------- escapes that are not legal

  /** An escape of any other letter is dropped. */
  lemma OtherEscapeVanishes(c: char)
    requires !LegalPiece(Short(c)) && c != 'u'
    ensures UnescapeFrom(['\\', c], 0) == Some("")
  {
    EscapeOf(['\\', c]);
  }

  /** One cut off behind the u aborts when fewer than two characters follow, and otherwise stands for the
      number of the last digits that are there, zero if there are none. */
  lemma CutEscape(t: string, h: Hex)
    requires |t| == 2
    ensures UnescapeFrom("\\u", 0) == UnescapeFrom("\\u" + t[..1], 0) == None
    ensures UnescapeFrom("\\u" + t, 0) == Some([0 as char])
    ensures UnescapeFrom("\\u" + t + [HexChar(h)], 0) == Some([h.value as char])
  {
    hide HexChar, HexValue, IsHex, EscapeAt, HexNumber, ByteChar;
    EscapeOf("\\u");
    EscapeOf("\\u" + t[..1]);
    EscapeOf("\\u" + t);
    var long := "\\u" + t + [HexChar(h)];
    EscapeOf(long);
    CutHex("\\u");
    CutHex("\\u" + t[..1]);
    CutHex("\\u" + t);
    CutHex(long);
    assert ("\\u" + t)[4..4] == "" && long[4..5] == [HexChar(h)];
    OneHexDigit(h);
  }

  /** The \u escape at the start of a text that ends in it. */
  lemma CutHex(s: string)
    requires 2 <= |s| <= 6 && s[0] == '\\' && s[1] == 'u'
    ensures EscapeAt(s, 0) == if |s| < 4 then None else Some(([ByteChar(HexNumber(s[4..|s|]))], 6))
  {
    hide HexNumber, ByteChar;
  }

  lemma OneHexDigit(h: Hex)
    ensures ByteChar(HexNumber("")) == 0 as char && ByteChar(HexNumber([HexChar(h)])) == h.value as char
  {
    hide HexChar, HexValue, IsHex, TrimFront;
    HexCharIsRead(h);
    NoBlankInFront([HexChar(h)]);
    assert TrimFront("") == "";
  }

  /** A text of one escape that runs to its end or over it. */
  lemma EscapeOf(s: string)
    requires s != ""
    ensures EscapeAt(s, 0).None? ==> UnescapeFrom(s, 0) == None
    ensures EscapeAt(s, 0).Some? && EscapeAt(s, 0).value.1 >= |s| ==> UnescapeFrom(s, 0) == Some(EscapeAt(s, 0).value.0)
  {
    hide EscapeAt;
    if EscapeAt(s, 0).Some? {
      PrependNil(EscapeAt(s, 0).value.0);
    }
  }

  /** Two characters that are not both digits, as strtoul reads them, cut down to eight bits. */
  lemma OddHexNumbers(h: Hex, c: char)
    ensures ByteChar(HexNumber(['+', HexChar(h)])) == h.value as char
    ensures ByteChar(HexNumber(['-', HexChar(h)])) == ((256 - h.value) % 256) as char
    ensures ByteChar(HexNumber([' ', HexChar(h)])) == h.value as char
    ensures c !in LOWER_HEX && c !in UPPER_HEX ==> ByteChar(HexNumber([HexChar(h), c])) == h.value as char
    ensures c !in LOWER_HEX && c !in UPPER_HEX && c !in {'+', '-'} && c !in WHITE ==>
              ByteChar(HexNumber([c, HexChar(h)])) == 0 as char
  {
    hide HexChar, HexValue, IsHex, TrimFront;
    HexCharIsRead(h);
    SignsAreNoDigits();
    TrimmedPair('+', HexChar(h));
    TrimmedPair('-', HexChar(h));
    TrimmedPair(' ', HexChar(h));
    TrimmedPair(HexChar(h), c);
    TrimmedPair(c, HexChar(h));
    if IsHex(c) {
      HexDigitIsListed(c);
    }
  }

  lemma SignsAreNoDigits()
    ensures !IsHex('+') && !IsHex('-') && !IsSpace('+') && !IsSpace('-')
    ensures forall c :: IsHex(c) ==> !IsSpace(c)
  {
  }

  lemma TrimmedPair(a: char, b: char)
    ensures !IsSpace(a) ==> TrimFront([a, b]) == [a, b]
    ensures IsSpace(a) && !IsSpace(b) ==> TrimFront([a, b]) == [b]
  {
    assert [a, b][1..] == [b] && [b][1..] == "";
  }

  lemma HexDigitIsListed(c: char)
    requires IsHex(c)
    ensures c in LOWER_HEX || c in UPPER_HEX
  {
    if IsDigit(c) {
      assert c == LOWER_HEX[c as int - '0' as int];
    } else if 'a' <= c <= 'f' {
      assert c == LOWER_HEX[c as int - 'a' as int + 10];
    } else {
      assert c == UPPER_HEX[c as int - 'A' as int + 10];
    }
  }

  // ---------------------------------------------------------------- decimal integers

  function Digits(n: nat): (t: string)
    ensures 0 < |t| && forall i :: 0 <= i < |t| ==> IsDigit(t[i])
  {
    if n < 10 then [(n + '0' as int) as char] else Digits(n / 10) + [(n % 10 + '0' as int) as char]
  }

  /** What snprintf prints for "%d". */
  function IntText(n: int): (t: string)
    ensures 0 < |t| && (t[0] == '-' || IsDigit(t[0])) && forall i :: 1 <= i < |t| ==> IsDigit(t[i])
    ensures |t| > 1 || IsDigit(t[0])
  {
    if n < 0 then "-" + Digits(-n) else Digits(n)
  }

  /** No sign but a minus in front of a negative number, and no leading zero. */
  lemma {:induction false} IntTextIsCanonical(n: int)
    ensures var t := IntText(n);
            && (t[0] == '-' <==> n < 0) && (t[0] == '0' <==> n == 0) && (n == 0 ==> t == "0")
            && (n < 0 ==> t[1] != '0')
  {
    DigitsStart(if n < 0 then -n else n);
  }

  lemma {:induction false} DigitsStart(n: nat)
    ensures Digits(n)[0] == '0' <==> n == 0
  {
    if n >= 10 {
      DigitsStart(n / 10);
    }
  }

  /** The value of a run of digits, None when another character is among them. */
  function DigitsValue(t: string): (r: Option<nat>) {
    if t == "" then Some(0)
    else if !IsDigit(t[|t| - 1]) then None
    else
      var front := DigitsValue(t[..|t| - 1]);
      if front.None? then None else Some(front.value * 10 + (t[|t| - 1] as int - '0' as int))
  }

  /** strtol in base 10 followed by the test that it stopped at the end: the empty text is 0, a lone
      sign stops at its start. */
  function LongValue(t: string): (r: Option<int>) {
    if t == "" then Some(0)
    else if t[0] == '-' || t[0] == '+' then
      var d := DigitsValue(t[1..]);
      if d.None? || |t| == 1 then None
      else
        var n: int := d.value;
        Some(if t[0] == '-' then -n else n)
    else
      var d := DigitsValue(t);
      if d.None? then None else Some(d.value as int)
  }

  lemma {:induction false} DigitsReadBack(n: nat)
    ensures DigitsValue(Digits(n)) == Some(n)
  {
    var t := Digits(n);
    if n < 10 {
      assert t[..|t| - 1] == "";
    } else {
      DigitsReadBack(n / 10);
      assert t[..|t| - 1] == Digits(n / 10);
    }
  }

  lemma {:induction false} IntReadsBack(n: int)
    ensures LongValue(IntText(n)) == Some(n)
  {
    if n < 0 {
      DigitsReadBack(-n);
      assert IntText(n)[1..] == Digits(-n);
    } else {
      DigitsReadBack(n);
    }
  }
}
