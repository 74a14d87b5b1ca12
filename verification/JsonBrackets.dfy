/**
 The stack of open brackets that all parsing functions share, and the scan that runs ahead of them
 to find where an array or object ends.  The scan is proved against a grammar of properly typed
 nesting in which quoted text does not count.
 */
module JsonBrackets {
  import opened Options

  datatype Bracket = InObject | InArray

  /** The shared std::stack; the top is the last entry. */
  class BracketStack {
    var entries: seq<Bracket>

    constructor ()
      ensures entries == []
    {
      entries := [];
    }

    method Push(b: Bracket)
      modifies this
      ensures entries == old(entries) + [b]
    {
      entries := entries + [b];
    }

    method Pop()
      requires entries != []
      modifies this
      ensures entries == old(entries)[..|old(entries)| - 1]
    {
      entries := entries[..|entries| - 1];
    }

    function Top(): Bracket
      reads this
      requires entries != []
    {
      entries[|entries| - 1]
    }
  }

  // ---------------------------------------------------------------- the scan

  /** Wrong: npos.  End: the index of the matching closer, or the length when there is none. */
  datatype Match = Wrong(stack: seq<Bracket>) | End(pos: nat, stack: seq<Bracket>)

  predicate Opens(c: char) {
    c == '[' || c == '{'
  }

  predicate Closes(c: char) {
    c == ']' || c == '}'
  }

  function KindOf(c: char): Bracket
    requires Opens(c) || Closes(c)
  {
    if c == '[' || c == ']' then InArray else InObject
  }

  function Last<T>(s: seq<T>): T
    requires s != []
  {
    s[|s| - 1]
  }

  function Front<T>(s: seq<T>): seq<T>
    requires s != []
  {
    s[..|s| - 1]
  }

  /** The scan from index i on: quoted is the in_quote flag, frame the size of the stack at the start. */
  function Scan(str: string, i: nat, quoted: bool, stack: seq<Bracket>, frame: nat): (r: Match)
    requires 1 <= i && 1 <= frame <= |stack|
    ensures r.End? && i <= |str| ==> i <= r.pos <= |str|
    decreases |str| - i
  {
    if i >= |str| then End(i, stack)
    else if str[i] == '"' then
      Scan(str, i + 1, if str[i - 1] != '\\' then !quoted else quoted, stack, frame)
    else if quoted then Scan(str, i + 1, quoted, stack, frame)
    else if Opens(str[i]) then Scan(str, i + 1, quoted, stack + [KindOf(str[i])], frame)
    else if Closes(str[i]) then
      if Last(stack) != KindOf(str[i]) then Wrong(stack)
      else if |stack| == frame then End(i, Front(stack))
      else Scan(str, i + 1, quoted, Front(stack), frame)
    else Scan(str, i + 1, quoted, stack, frame)
  }

  method GetEndOfArrayOrObj(str: string, stack: BracketStack) returns (r: Option<nat>)
    requires stack.entries != []
    modifies stack
    ensures var m := Scan(str, 1, false, old(stack.entries), |old(stack.entries)|);
            && stack.entries == m.stack
            && r == if m.Wrong? then None else Some(m.pos)
  {
    var i := 1;
    var inQuote := false;
    var originalCount := |stack.entries|;
    while i < |str|
      invariant 1 <= i && 1 <= originalCount <= |stack.entries|
      invariant Scan(str, i, inQuote, stack.entries, originalCount)
             == Scan(str, 1, false, old(stack.entries), originalCount)
    {
      if str[i] == '"' {
        if str[i - 1] != '\\' {
          inQuote := !inQuote;
        }
      } else if !inQuote {
        if str[i] == '[' {
          stack.Push(InArray);
        } else if str[i] == '{' {
          stack.Push(InObject);
        } else if str[i] == ']' {
          if stack.Top() != InArray {
            return None;
          }
          var count := |stack.entries|;
          stack.Pop();
          if count == originalCount {
            break;
          }
        } else if str[i] == '}' {
          if stack.Top() != InObject {
            return None;
          }
          var count := |stack.entries|;
          stack.Pop();
          if count == originalCount {
            break;
          }
        }
      }
      i := i + 1;
    }
    return Some(i);
  }

  // ---------------------------------------------------------------- the grammar of nesting

  datatype Token = Open(kind: Bracket) | Close(kind: Bracket)

  /** A balanced text: nothing, or a bracket pair around a balanced text followed by another. */
  datatype Nest = Nothing | Wrap(kind: Bracket, inner: Nest, after: Nest)

  function Spell(n: Nest): seq<Token> {
    match n
    case Nothing => []
    case Wrap(kind, inner, after) => [Open(kind)] + Spell(inner) + [Close(kind)] + Spell(after)
  }

  /** Balanced texts, each followed by a bracket that stays open. */
  function SpellOpen(ns: seq<Nest>, opens: seq<Bracket>): seq<Token>
    requires |ns| == |opens|
  {
    if opens == [] then []
    else SpellOpen(Front(ns), Front(opens)) + Spell(Last(ns)) + [Open(Last(opens))]
  }

  /** Balanced texts with unclosed brackets between them, innermost last. */
  function SpellPending(ns: seq<Nest>, opens: seq<Bracket>): seq<Token>
    requires |ns| == |opens| + 1
  {
    SpellOpen(Front(ns), opens) + Spell(Last(ns))
  }

  ghost predicate Balanced(ts: seq<Token>) {
    exists n :: Spell(n) == ts
  }

  ghost predicate Pending(ts: seq<Token>, opens: seq<Bracket>) {
    exists ns: seq<Nest> :: |ns| == |opens| + 1 && SpellPending(ns, opens) == ts
  }

  // ---------------------------------------------------------------- what is quoted

  /** Where a position stands to the strings of a text: behind an unprotected backslash it is protected. */
  datatype Quotation = Outside | Inside | Protected

  function AfterChar(q: Quotation, c: char): Quotation {
    match q
    case Outside => if c == '"' then Inside else Outside
    case Inside => if c == '"' then Outside else if c == '\\' then Protected else Inside
    case Protected => Inside
  }

  /** Quotation as section 7 of RFC 8259 has it, counted from behind the first character. */
  function QuotationAt(str: string, i: nat): Quotation
    requires i <= |str|
  {
    if i <= 1 then Outside else AfterChar(QuotationAt(str, i - 1), str[i - 1])
  }

  /** The in_quote flag of the scan, which looks at the character before a quote only. */
  predicate InQuote(str: string, i: nat)
    requires i <= |str|
  {
    if i <= 1 then false
    else if str[i - 1] == '"' && str[i - 2] != '\\' then !InQuote(str, i - 1)
    else InQuote(str, i - 1)
  }

  /** The two rules for what is quoted: that of the standard, and that of the scan. */
  datatype Rule = Rfc8259 | PreviousCharacter

  predicate Quoted(rule: Rule, str: string, i: nat)
    requires i <= |str|
  {
    if rule.Rfc8259? then !QuotationAt(str, i).Outside? else InQuote(str, i)
  }

  /** No quote before n stands right behind a backslash that does not protect it. */
  predicate NoFalseProtection(str: string, n: nat)
    requires n <= |str|
  {
    forall j: nat :: 1 <= j < n && str[j] == '"' && str[j - 1] == '\\' ==> QuotationAt(str, j).Protected?
  }

  ghost predicate RulesAgree(str: string, n: nat)
    requires n <= |str|
  {
    forall i: nat :: i <= n ==> (Quoted(Rfc8259, str, i) <==> Quoted(PreviousCharacter, str, i))
  }

  lemma ProtectedIsBehindBackslash(str: string, i: nat)
    requires i <= |str| && QuotationAt(str, i).Protected?
    ensures 2 <= i && str[i - 1] == '\\'
  {
  }

  lemma {:induction false} RulesAgreeBefore(str: string, i: nat)
    requires i <= |str| && NoFalseProtection(str, i)
    ensures Quoted(Rfc8259, str, i) <==> Quoted(PreviousCharacter, str, i)
    decreases i
  {
    if i > 1 {
      RulesAgreeBefore(str, i - 1);
      if QuotationAt(str, i - 1).Protected? {
        ProtectedIsBehindBackslash(str, i - 1);
      }
    }
  }

  /** The scan sees the strings of a text as the standard does, up to n, if and only if no quote before n
      stands right behind a backslash that does not protect it. */
  lemma RulesAgreeExactly(str: string, n: nat)
    requires n <= |str|
    ensures RulesAgree(str, n) <==> NoFalseProtection(str, n)
  {
    if NoFalseProtection(str, n) {
      forall i: nat | i <= n ensures Quoted(Rfc8259, str, i) <==> Quoted(PreviousCharacter, str, i) {
        RulesAgreeBefore(str, i);
      }
    }
    if RulesAgree(str, n) {
      forall j: nat | 1 <= j < n && str[j] == '"' && str[j - 1] == '\\' ensures QuotationAt(str, j).Protected? {
        assert Quoted(Rfc8259, str, j) <==> Quoted(PreviousCharacter, str, j);
        assert Quoted(Rfc8259, str, j + 1) <==> Quoted(PreviousCharacter, str, j + 1);
      }
    }
  }

  // ---------------------------------------------------------------- the brackets that count

  /** The four brackets of the grammar, and what the code takes them for. */
  function BracketToken(c: char): (r: Option<Token>)
    ensures r == if Opens(c) then Some(Open(KindOf(c))) else if Closes(c) then Some(Close(KindOf(c))) else None
  {
    match c
    case '[' => Some(Open(InArray))
    case '{' => Some(Open(InObject))
    case ']' => Some(Close(InArray))
    case '}' => Some(Close(InObject))
    case _ => None
  }

  predicate Bare(rule: Rule, str: string, i: nat)
    requires i < |str|
  {
    BracketToken(str[i]).Some? && !Quoted(rule, str, i)
  }

  function TokenOf(c: char): Token
    requires BracketToken(c).Some?
  {
    BracketToken(c).value
  }

  /** The unquoted brackets at positions 1 up to i. */
  function Tokens(rule: Rule, str: string, i: nat): seq<Token>
    requires i <= |str|
  {
    if i <= 1 then []
    else if Bare(rule, str, i - 1) then Tokens(rule, str, i - 1) + [TokenOf(str[i - 1])]
    else Tokens(rule, str, i - 1)
  }

  /** The bracket that closes an opening bracket of this kind, with everything between balanced. */
  ghost predicate ClosesAt(rule: Rule, str: string, kind: Bracket, p: nat) {
    && 1 <= p < |str| && Bare(rule, str, p) && TokenOf(str[p]) == Close(kind) && Balanced(Tokens(rule, str, p))
  }

  /** The kind of the innermost bracket still open: the caller's when none was opened since. */
  function Innermost(kind: Bracket, opens: seq<Bracket>): Bracket {
    if opens == [] then kind else Last(opens)
  }

  /** A closer of the wrong kind for the innermost bracket that is still open. */
  ghost predicate ClashesAt(rule: Rule, str: string, kind: Bracket, p: nat) {
    && 1 <= p < |str| && Bare(rule, str, p) && TokenOf(str[p]).Close?
    && exists opens: seq<Bracket> ::
         Pending(Tokens(rule, str, p), opens) && Innermost(kind, opens) != TokenOf(str[p]).kind
  }

  // ---------------------------------------------------------------- the grammar and a pushdown run

  function Step(s: Option<seq<Bracket>>, t: Token): Option<seq<Bracket>> {
    if s.None? then None
    else match t
      case Open(k) => Some(s.value + [k])
      case Close(k) => if s.value != [] && Last(s.value) == k then Some(Front(s.value)) else None
  }

  function Run(ts: seq<Token>): Option<seq<Bracket>> {
    if ts == [] then Some([]) else Step(Run(Front(ts)), Last(ts))
  }

  lemma RunSnoc(ts: seq<Token>, t: Token)
    ensures Run(ts + [t]) == Step(Run(ts), t)
  {
    assert Front(ts + [t]) == ts;
  }

  lemma {:induction false} RunOverSpell(ts: seq<Token>, n: Nest)
    ensures Run(ts + Spell(n)) == Run(ts)
    decreases n
  {
    match n {
      case Nothing =>
        assert ts + [] == ts;
      case Wrap(kind, inner, after) =>
        var entered := ts + [Open(kind)];
        var closed := entered + Spell(inner) + [Close(kind)];
        assert ts + Spell(n) == closed + Spell(after);
        RunSnoc(ts, Open(kind));
        RunOverSpell(entered, inner);
        RunSnoc(entered + Spell(inner), Close(kind));
        RunOverSpell(closed, after);
        if Run(ts).Some? {
          assert Front(Run(ts).value + [kind]) == Run(ts).value;
        }
    }
  }

  lemma {:induction false} RunOverOpen(ns: seq<Nest>, opens: seq<Bracket>)
    requires |ns| == |opens|
    ensures Run(SpellOpen(ns, opens)) == Some(opens)
    decreases |opens|
  {
    if opens != [] {
      var before := SpellOpen(Front(ns), Front(opens));
      RunOverOpen(Front(ns), Front(opens));
      RunOverSpell(before, Last(ns));
      RunSnoc(before + Spell(Last(ns)), Open(Last(opens)));
      assert Front(opens) + [Last(opens)] == opens;
    }
  }

  function Append(a: Nest, b: Nest): Nest {
    match a
    case Nothing => b
    case Wrap(kind, inner, after) => Wrap(kind, inner, Append(after, b))
  }

  lemma {:induction false} SpellAppend(a: Nest, b: Nest)
    ensures Spell(Append(a, b)) == Spell(a) + Spell(b)
  {
    match a {
      case Nothing =>
      case Wrap(kind, inner, after) =>
        SpellAppend(after, b);
        var head := [Open(kind)] + Spell(inner) + [Close(kind)];
        assert head + (Spell(after) + Spell(b)) == head + Spell(after) + Spell(b);
    }
  }

  /** Opening a bracket starts a new, empty stretch. */
  lemma PendingOpen(ms: seq<Nest>, was: seq<Bracket>, k: Bracket)
    requires |ms| == |was| + 1
    ensures SpellPending(ms + [Nothing], was + [k]) == SpellPending(ms, was) + [Open(k)]
  {
    assert Front(ms + [Nothing]) == ms && Front(was + [k]) == was;
    assert SpellOpen(ms, was + [k]) == SpellOpen(Front(ms), was) + Spell(Last(ms)) + [Open(k)];
  }

  lemma Regroup<T>(a: seq<T>, b: seq<T>, c: seq<T>, d: seq<T>, e: seq<T>)
    ensures a + (b + (c + d + e)) == a + b + c + d + e
  {
  }

  /** Closing the innermost open bracket merges the last two balanced stretches into one. */
  lemma PendingClose(ms: seq<Nest>, was: seq<Bracket>, joined: Nest)
    requires was != [] && |ms| == |was| + 1
    requires Spell(joined) == Spell(Last(Front(ms))) + Spell(Wrap(Last(was), Last(ms), Nothing))
    ensures SpellPending(Front(Front(ms)) + [joined], Front(was)) == SpellPending(ms, was) + [Close(Last(was))]
  {
    var k := Last(was);
    var before, left, right := SpellOpen(Front(Front(ms)), Front(was)), Spell(Last(Front(ms))), Spell(Last(ms));
    assert Front(Front(Front(ms)) + [joined]) == Front(Front(ms));
    assert SpellPending(ms, was) == before + left + [Open(k)] + right;
    assert Spell(Wrap(k, Last(ms), Nothing)) == [Open(k)] + right + [Close(k)];
    Regroup(before, left, [Open(k)], right, [Close(k)]);
  }

  lemma {:induction false} RunHasPending(ts: seq<Token>) returns (ns: seq<Nest>)
    requires Run(ts).Some?
    ensures |ns| == |Run(ts).value| + 1 && SpellPending(ns, Run(ts).value) == ts
    decreases |ts|
  {
    if ts == [] {
      return [Nothing];
    }
    var was := Run(Front(ts)).value;
    var ms := RunHasPending(Front(ts));
    assert ts == Front(ts) + [Last(ts)];
    match Last(ts) {
      case Open(k) =>
        PendingOpen(ms, was, k);
        ns := ms + [Nothing];
      case Close(k) =>
        var wrap := Wrap(k, Last(ms), Nothing);
        var joined := Append(Last(Front(ms)), wrap);
        SpellAppend(Last(Front(ms)), wrap);
        PendingClose(ms, was, joined);
        ns := Front(Front(ms)) + [joined];
    }
  }

  lemma PendingIsRun(ts: seq<Token>, opens: seq<Bracket>)
    ensures Pending(ts, opens) <==> Run(ts) == Some(opens)
  {
    if Pending(ts, opens) {
      var ns: seq<Nest> :| |ns| == |opens| + 1 && SpellPending(ns, opens) == ts;
      RunOverOpen(Front(ns), opens);
      RunOverSpell(SpellOpen(Front(ns), opens), Last(ns));
    }
    if Run(ts) == Some(opens) {
      var ns := RunHasPending(ts);
    }
  }

  lemma BalancedIsRun(ts: seq<Token>)
    ensures Balanced(ts) <==> Run(ts) == Some([])
  {
    if Balanced(ts) {
      var n :| Spell(n) == ts;
      RunOverSpell([], n);
      assert [] + ts == ts;
    }
    if Run(ts) == Some([]) {
      var ns := RunHasPending(ts);
      assert SpellPending(ns, []) == Spell(ns[0]);
    }
  }

  // ---------------------------------------------------------------- the scan meets the grammar

  lemma {:induction false} RunStaysStuck(rule: Rule, str: string, i: nat, j: nat)
    requires i <= j <= |str| && Run(Tokens(rule, str, i)).None?
    ensures Run(Tokens(rule, str, j)).None?
    decreases j
  {
    if i < j {
      RunStaysStuck(rule, str, i, j - 1);
      if j > 1 && Bare(rule, str, j - 1) {
        RunSnoc(Tokens(rule, str, j - 1), TokenOf(str[j - 1]));
      }
    }
  }

  /** The machine has unwound to the caller's bracket and meets its closer. */
  predicate Stops(rule: Rule, str: string, kind: Bracket, p: nat) {
    && 1 <= p < |str| && Bare(rule, str, p) && Closes(str[p])
    && KindOf(str[p]) == kind && Run(Tokens(rule, str, p)) == Some([])
  }

  predicate Jams(rule: Rule, str: string, kind: Bracket, p: nat) {
    && 1 <= p < |str| && Bare(rule, str, p) && Closes(str[p])
    && Run(Tokens(rule, str, p)).Some? && Innermost(kind, Run(Tokens(rule, str, p)).value) != KindOf(str[p])
  }

  lemma StuckAfterEvent(rule: Rule, str: string, kind: Bracket, i: nat)
    requires Stops(rule, str, kind, i) || Jams(rule, str, kind, i)
    ensures Run(Tokens(rule, str, i + 1)).None?
  {
    var opens := Run(Tokens(rule, str, i)).value;
    assert Tokens(rule, str, i + 1) == Tokens(rule, str, i) + [Close(KindOf(str[i]))];
    RunSnoc(Tokens(rule, str, i), Close(KindOf(str[i])));
  }

  lemma NothingAfterStop(rule: Rule, str: string, kind: Bracket, i: nat, p: nat)
    requires Stops(rule, str, kind, i) || Jams(rule, str, kind, i)
    requires i < p
    ensures !Stops(rule, str, kind, p) && !Jams(rule, str, kind, p)
  {
    if p < |str| {
      assert Run(Tokens(rule, str, p)).None? by {
        StuckAfterEvent(rule, str, kind, i);
        RunStaysStuck(rule, str, i + 1, p);
      }
    }
  }

  lemma TokensStep(rule: Rule, str: string, kind: Bracket, i: nat, opens: seq<Bracket>)
    requires 1 <= i < |str| && Run(Tokens(rule, str, i)) == Some(opens)
    requires !Stops(rule, str, kind, i) && !Jams(rule, str, kind, i)
    ensures Bare(rule, str, i) && Closes(str[i]) ==> opens != [] && Last(opens) == KindOf(str[i])
    ensures Run(Tokens(rule, str, i + 1)) == Some(
              if !Bare(rule, str, i) then opens
              else if Opens(str[i]) then opens + [KindOf(str[i])]
              else Front(opens))
  {
    if Bare(rule, str, i) {
      RunSnoc(Tokens(rule, str, i), TokenOf(str[i]));
      }
  }

  /** One step of the scan next to one step of the machine. */
  lemma ScanStep(str: string, below: seq<Bracket>, kind: Bracket, i: nat, opens: seq<Bracket>)
    requires 1 <= i < |str| && Run(Tokens(PreviousCharacter, str, i)) == Some(opens)
    requires !Stops(PreviousCharacter, str, kind, i) && !Jams(PreviousCharacter, str, kind, i)
    ensures Run(Tokens(PreviousCharacter, str, i + 1)).Some?
    ensures Scan(str, i, InQuote(str, i), below + [kind] + opens, |below| + 1)
         == Scan(str, i + 1, InQuote(str, i + 1),
                 below + [kind] + Run(Tokens(PreviousCharacter, str, i + 1)).value, |below| + 1)
  {
    TokensStep(PreviousCharacter, str, kind, i, opens);
    var stack := below + [kind] + opens;
    var next := Run(Tokens(PreviousCharacter, str, i + 1)).value;
    if Bare(PreviousCharacter, str, i) {
      if Opens(str[i]) {
        assert stack + [KindOf(str[i])] == below + [kind] + next;
      } else {
        assert Last(stack) == Last(opens) && Front(stack) == below + [kind] + next;
      }
    }
  }

  /** The scan and the machine end for the same reason. */
  ghost predicate Agree(str: string, below: seq<Bracket>, kind: Bracket, i: nat, r: Match) {
    if r.Wrong? then below + [kind] <= r.stack && exists p: nat :: Jams(PreviousCharacter, str, kind, p)
    else if r.pos < |str| then Stops(PreviousCharacter, str, kind, r.pos) && r.stack == below
    else below + [kind] <= r.stack
         && forall p: nat :: i <= p ==> !Stops(PreviousCharacter, str, kind, p) && !Jams(PreviousCharacter, str, kind, p)
  }

  lemma ScanAtEvent(str: string, below: seq<Bracket>, kind: Bracket, i: nat, opens: seq<Bracket>)
    requires 1 <= i < |str| && Run(Tokens(PreviousCharacter, str, i)) == Some(opens)
    requires Stops(PreviousCharacter, str, kind, i) || Jams(PreviousCharacter, str, kind, i)
    ensures Agree(str, below, kind, i, Scan(str, i, InQuote(str, i), below + [kind] + opens, |below| + 1))
  {
    hide Run, Tokens, InQuote;
    var stack := below + [kind] + opens;
    assert Last(stack) == Innermost(kind, opens);
    if Stops(PreviousCharacter, str, kind, i) {
      assert Front(stack) == below;
    }
  }

  lemma AgreeOneBack(str: string, below: seq<Bracket>, kind: Bracket, i: nat, r: Match)
    requires Agree(str, below, kind, i + 1, r)
    requires !Stops(PreviousCharacter, str, kind, i) && !Jams(PreviousCharacter, str, kind, i)
    ensures Agree(str, below, kind, i, r)
  {
    hide Stops, Jams;
  }

  lemma ScanAtEnd(str: string, below: seq<Bracket>, kind: Bracket, quoted: bool, opens: seq<Bracket>)
    requires 1 <= |str|
    ensures Agree(str, below, kind, |str|, Scan(str, |str|, quoted, below + [kind] + opens, |below| + 1))
  {
  }

  lemma {:induction false} ScanFollowsRun(str: string, below: seq<Bracket>, kind: Bracket, i: nat, opens: seq<Bracket>)
    requires 1 <= i <= |str| && Run(Tokens(PreviousCharacter, str, i)) == Some(opens)
    ensures Agree(str, below, kind, i, Scan(str, i, InQuote(str, i), below + [kind] + opens, |below| + 1))
    decreases |str| - i
  {
    hide *;
    if i == |str| {
      ScanAtEnd(str, below, kind, InQuote(str, i), opens);
    } else if Stops(PreviousCharacter, str, kind, i) || Jams(PreviousCharacter, str, kind, i) {
      ScanAtEvent(str, below, kind, i, opens);
    } else {
      ScanStep(str, below, kind, i, opens);
      var next := Run(Tokens(PreviousCharacter, str, i + 1)).value;
      ScanFollowsRun(str, below, kind, i + 1, next);
      AgreeOneBack(str, below, kind, i, Scan(str, i, InQuote(str, i), below + [kind] + opens, |below| + 1));
    }
  }

  lemma OnlyOneEvent(rule: Rule, str: string, kind: Bracket, p: nat, q: nat)
    requires Stops(rule, str, kind, p) || Jams(rule, str, kind, p)
    requires Stops(rule, str, kind, q) || Jams(rule, str, kind, q)
    ensures p == q
  {
    if p < q {
      NothingAfterStop(rule, str, kind, p, q);
    } else if q < p {
      NothingAfterStop(rule, str, kind, q, p);
    }
  }

  lemma AgreementIsExact(str: string, below: seq<Bracket>, kind: Bracket, r: Match)
    requires Agree(str, below, kind, 1, r) && (r.End? ==> r.pos <= |str|)
    ensures forall p: nat :: Stops(PreviousCharacter, str, kind, p) <==> r.End? && r.pos == p && p < |str|
    ensures r.Wrong? <==> exists p: nat :: Jams(PreviousCharacter, str, kind, p)
  {
    forall p: nat, q: nat |
      && (Stops(PreviousCharacter, str, kind, p) || Jams(PreviousCharacter, str, kind, p))
      && (Stops(PreviousCharacter, str, kind, q) || Jams(PreviousCharacter, str, kind, q))
      ensures p == q
    {
      OnlyOneEvent(PreviousCharacter, str, kind, p, q);
    }
    if r.Wrong? {
      var j: nat :| Jams(PreviousCharacter, str, kind, j);
      assert !Stops(PreviousCharacter, str, kind, j);
    } else if r.pos < |str| {
      assert !Jams(PreviousCharacter, str, kind, r.pos);
    }
  }

  lemma GrammarIsMachineEverywhere(rule: Rule, str: string, kind: Bracket)
    ensures forall p: nat :: ClosesAt(rule, str, kind, p) <==> Stops(rule, str, kind, p)
    ensures forall p: nat :: ClashesAt(rule, str, kind, p) <==> Jams(rule, str, kind, p)
  {
    forall p: nat
      ensures ClosesAt(rule, str, kind, p) <==> Stops(rule, str, kind, p)
      ensures ClashesAt(rule, str, kind, p) <==> Jams(rule, str, kind, p)
    {
      if 1 <= p < |str| {
        GrammarIsMachine(rule, str, kind, p);
      }
    }
  }

  lemma GrammarIsMachine(rule: Rule, str: string, kind: Bracket, p: nat)
    requires 1 <= p < |str|
    ensures ClosesAt(rule, str, kind, p) <==> Stops(rule, str, kind, p)
    ensures ClashesAt(rule, str, kind, p) <==> Jams(rule, str, kind, p)
  {
    BalancedIsRun(Tokens(rule, str, p));
    forall opens: seq<Bracket>
      ensures Pending(Tokens(rule, str, p), opens) <==> Run(Tokens(rule, str, p)) == Some(opens)
    {
      PendingIsRun(Tokens(rule, str, p), opens);
    }
  }

  /** What the outcome of a scan says about the text and the stack. */
  ghost predicate Verdict(rule: Rule, str: string, below: seq<Bracket>, kind: Bracket, r: Match) {
    && (forall p: nat :: ClosesAt(rule, str, kind, p) <==> r.End? && r.pos == p && p < |str|)
    && (r.Wrong? <==> exists p: nat :: ClashesAt(rule, str, kind, p))
    && (r.End? && r.pos < |str| ==> r.stack == below)
    && (r.Wrong? || r.pos == |str| ==> below + [kind] <= r.stack)
  }

  lemma AgreementIsVerdict(str: string, below: seq<Bracket>, kind: Bracket, r: Match)
    requires Agree(str, below, kind, 1, r) && (r.End? ==> r.pos <= |str|)
    ensures Verdict(PreviousCharacter, str, below, kind, r)
  {
    AgreementIsExact(str, below, kind, r);
    GrammarIsMachineEverywhere(PreviousCharacter, str, kind);
  }

  lemma {:induction false} TokensAgree(str: string, i: nat)
    requires i <= |str| && NoFalseProtection(str, i)
    ensures Tokens(Rfc8259, str, i) == Tokens(PreviousCharacter, str, i)
    decreases i
  {
    hide Quoted, TokenOf;
    if i > 1 {
      TokensAgree(str, i - 1);
      RulesAgreeBefore(str, i - 1);
    }
  }

  lemma GrammarsAgree(str: string, kind: Bracket, p: nat)
    requires NoFalseProtection(str, |str|)
    ensures ClosesAt(Rfc8259, str, kind, p) <==> ClosesAt(PreviousCharacter, str, kind, p)
    ensures ClashesAt(Rfc8259, str, kind, p) <==> ClashesAt(PreviousCharacter, str, kind, p)
  {
    hide Tokens, Quoted, Pending, Balanced;
    if p < |str| {
      assert NoFalseProtection(str, p);
      TokensAgree(str, p);
      RulesAgreeBefore(str, p);
    }
  }

  /** The scan refines the grammar, for every text and every stack below the caller's entry: it
      returns the position that closes the caller's bracket, npos exactly when a closer of the wrong
      kind comes first, the length when neither happens; entries below the caller's are never
      touched, and a match pops exactly the caller's.  What is quoted is what the scan takes for quoted;
      where it sees quotation as the standard does, the grammar is that of the standard. */
  lemma ScanRefinesGrammar(str: string, below: seq<Bracket>, kind: Bracket)
    requires str != ""
    ensures var r := Scan(str, 1, false, below + [kind], |below| + 1);
            && Verdict(PreviousCharacter, str, below, kind, r)
            && (RulesAgree(str, |str|) ==> Verdict(Rfc8259, str, below, kind, r))
  {
    hide *;
    var stack := below + [kind];
    assert stack + [] == stack;
    StartsUnquoted(str);
    ScanFollowsRun(str, below, kind, 1, []);
    ScanStaysInside(str, stack);
    AgreementIsVerdict(str, below, kind, Scan(str, 1, false, stack, |below| + 1));
    RulesAgreeExactly(str, |str|);
    if NoFalseProtection(str, |str|) {
      VerdictsAgree(str, below, kind, Scan(str, 1, false, stack, |below| + 1));
    }
  }

  lemma ScanStaysInside(str: string, stack: seq<Bracket>)
    requires str != "" && stack != []
    ensures var r := Scan(str, 1, false, stack, |stack|); r.End? ==> r.pos <= |str|
  {
    hide Scan;
  }

  lemma VerdictsAgree(str: string, below: seq<Bracket>, kind: Bracket, r: Match)
    requires NoFalseProtection(str, |str|) && Verdict(PreviousCharacter, str, below, kind, r)
    ensures Verdict(Rfc8259, str, below, kind, r)
  {
    hide ClosesAt, ClashesAt, NoFalseProtection;
    forall p: nat
      ensures ClosesAt(Rfc8259, str, kind, p) <==> ClosesAt(PreviousCharacter, str, kind, p)
      ensures ClashesAt(Rfc8259, str, kind, p) <==> ClashesAt(PreviousCharacter, str, kind, p)
    {
      GrammarsAgree(str, kind, p);
    }
  }

  lemma StartsUnquoted(str: string)
    requires str != ""
    ensures !InQuote(str, 1) && Run(Tokens(PreviousCharacter, str, 1)) == Some([])
  {
  }

  /** A string that ends in an escaped backslash hides the closing bracket from the scan. */
  lemma ScanMissesClosingBracket(below: seq<Bracket>)
    ensures var str := "[\"\\\\\"]";
            && ClosesAt(Rfc8259, str, InArray, |str| - 1)
            && Scan(str, 1, false, below + [InArray], |below| + 1) == End(|str|, below + [InArray])
  {
    var str := "[\"\\\\\"]";
    assert QuotationAt(str, 2) == Inside && QuotationAt(str, 3) == Protected && QuotationAt(str, 4) == Inside;
    assert QuotationAt(str, 5) == Outside;
    assert Tokens(Rfc8259, str, 3) == [] && Tokens(Rfc8259, str, 5) == [];
    assert Spell(Nothing) == [];
    var stack := below + [InArray];
    assert Scan(str, 4, true, stack, |below| + 1) == Scan(str, 6, true, stack, |below| + 1);
    assert Scan(str, 2, true, stack, |below| + 1) == Scan(str, 4, true, stack, |below| + 1);
  }
}
