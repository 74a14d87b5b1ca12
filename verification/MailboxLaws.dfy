/**
 What holds of the message slot over every run, and whether a run can reach the sensor data.
 */
module MailboxLaws {
  import opened Options
  import opened Bytes
  import opened Mailbox

  ghost predicate Reachable(c: Setup, w: World) {
    exists head, events :: w == Run(c, Start(head), events)
  }

  lemma ReachableInv(c: Setup, w: World)
    requires Sane(c) && Reachable(c, w)
    ensures Inv(c, w)
  {
    hide Inv, Run, Start;
    var head, events :| w == Run(c, Start(head), events);
    StartInv(c, head);
    RunKeepsInv(c, Start(head), events);
  }

  // ---------------------------------------------------------------- the codes of daemon_msgs.h

  /** Which codes an iteration tells apart: 3 is a command, whatever was written before; 1, 4 and 5 wait to
      be picked up once the daemon has written; anything else, 0 and 2 among them, is written over. */
  lemma DecisionByCode(v: Vars, kind: byte, size: nat, maxSize: nat)
    ensures var d := Decide(v, Head(kind, size), maxSize);
            && (d.TooLarge? <==> size > maxSize) && (d.Execute? <==> size <= maxSize && kind == 3)
            && (d.Wait? <==> size <= maxSize && (kind == 1 || kind == 4 || kind == 5) && v.firstWriteDone)
            && (d.Write? ==> d.letter == NextLetter(v) && TypeOf(d.letter) in {1, 2, 5})
    ensures TypeOf(Basic) == 5 && TypeOf(Data) == 2 && forall n :: TypeOf(Page(n)) == 1
  {
  }

  // ---------------------------------------------------------------- messages

  /** How many of the first n messages are announcements. */
  function Announced(pages: byte, n: nat): (r: nat)
    ensures r <= n
  {
    if pages == 255 || n <= pages as nat then n else pages as nat + 1
  }

  lemma {:induction false} AnnouncementsOfScript(pages: byte, letters: seq<Letter>)
    requires pages >= 1 && FollowsScript(pages, letters)
    ensures Announcements(letters) == letters[..Announced(pages, |letters|)]
    decreases |letters|
  {
    if letters != [] {
      var before := letters[..|letters| - 1];
      AnnouncementsOfScript(pages, before);
      assert letters[|letters| - 1] == Scripted(pages, |letters| - 1);
      assert letters == before + [letters[|letters| - 1]];
    }
  }

  /** Basic information and pages 1 to the last. */
  function Script(pages: byte): seq<Letter> {
    seq(pages as nat + 1, i requires 0 <= i => Scripted(pages, i))
  }

  /** In every run, since the last reset: what the daemon wrote and what management picked up both follow
      the script, basic information, pages 1 to the last in order, then only data; the announcements
      written are those picked up and at most one more, which lies in the slot; the daemon is in the data
      state exactly after one write for each page and one for the basic information, and before that its
      page number is a page; so state and page depend on the number of messages alone, whatever commands
      came between. */
  lemma AnnouncementsArriveInOrder(c: Setup, w: World)
    requires Sane(c) && Reachable(c, w)
    ensures FollowsScript(c.pages, w.written) && FollowsScript(c.pages, w.received)
    ensures |w.received| <= |w.written|
    ensures Announcements(w.written) ==
            Announcements(w.received) + if Pending(w.slot) then Announcements([w.slot.content.letter]) else []
    ensures c.pages <= 254 && Data in w.received ==> Script(c.pages) < w.received
    ensures w.vars.state == VarsAt(c.pages, |w.written|).state && w.vars.page == VarsAt(c.pages, |w.written|).page
    ensures w.vars.state.StateMonitoringData? <==> c.pages <= 254 && |w.written| > c.pages as nat
    ensures c.pages <= 254 && w.vars.state.StateMonitoringDescription? ==> 1 <= w.vars.page <= c.pages
  {
    ReachableInv(c, w);
    hide Inv, Run, Reachable, SlotInv, PcInv, LetterInv, OrderInv, Announcements;
    AnnouncementsMatch(c, w);
    assert LetterInv(c, w) by { InvParts(c, w); }
    StateMatches(c, w);
    if c.pages <= 254 && Data in w.received {
      DataComesLast(c.pages, w.received) by { LetterParts(c, w); }
    }
    LetterParts(c, w);
  }

  lemma InvParts(c: Setup, w: World)
    requires Inv(c, w)
    ensures SlotInv(c, w) && PcInv(w) && LetterInv(c, w) && OrderInv(c, w)
  {
    hide SlotInv, PcInv, LetterInv, OrderInv;
  }

  lemma LetterParts(c: Setup, w: World)
    requires LetterInv(c, w)
    ensures FollowsScript(c.pages, w.written) && FollowsScript(c.pages, w.received) && |w.received| <= |w.written|
  {
    hide FollowsScript, VarsAt;
  }

  lemma StateMatches(c: Setup, w: World)
    requires Sane(c) && LetterInv(c, w)
    ensures w.vars.state == VarsAt(c.pages, |w.written|).state && w.vars.page == VarsAt(c.pages, |w.written|).page
    ensures w.vars.state.StateMonitoringData? <==> c.pages <= 254 && |w.written| > c.pages as nat
    ensures c.pages <= 254 && w.vars.state.StateMonitoringDescription? ==> 1 <= w.vars.page <= c.pages
  {
    hide FollowsScript;
  }

  lemma DataComesLast(pages: byte, letters: seq<Letter>)
    requires 1 <= pages <= 254 && FollowsScript(pages, letters) && Data in letters
    ensures Script(pages) < letters
  {
    var k :| 0 <= k < |letters| && letters[k] == Data;
    assert Scripted(pages, k) == Data;
    assert k > pages as nat;
    var script := Script(pages);
    assert forall i :: 0 <= i < |script| ==> script[i] == letters[i];
    assert script == letters[..|script|];
  }

  lemma AnnouncementsMatch(c: Setup, w: World)
    requires Sane(c) && Inv(c, w)
    ensures Announcements(w.written) ==
            Announcements(w.received) + if Pending(w.slot) then Announcements([w.slot.content.letter]) else []
  {
    hide OrderInv, PcInv, Announcements, Scripted, VarsAt;
    var written, received := w.written, w.received;
    AnnouncementsOfScript(c.pages, written);
    AnnouncementsOfScript(c.pages, received);
    var pending := if Pending(w.slot) then [w.slot.content.letter] else [];
    assert Announcements(pending) == if pending == [] || pending[0] == Data then [] else pending by {
      AnnouncementsOfOne(pending);
    }
    if |received| + |pending| == |written| {
      assert written == received + pending;
      if pending != [] {
        assert written[..|written| - 1] == received;
        AnnouncementsSnoc(written);
      }
    } else {
      assert c.pages < 255 && |received| > c.pages as nat;
      assert Announced(c.pages, |received|) == Announced(c.pages, |written|);
      assert received[..c.pages as nat + 1] == written[..c.pages as nat + 1];
      if pending != [] {
        assert Scripted(c.pages, |written| - 1) == Data by { LateIsData(c.pages, |written| - 1); }
      }
    }
  }

  lemma LateIsData(pages: byte, i: nat)
    requires 1 <= pages < 255 && i > pages as nat
    ensures Scripted(pages, i) == Data
  {
  }

  lemma AnnouncementsOfOne(letters: seq<Letter>)
    requires |letters| <= 1
    ensures Announcements(letters) == if letters == [] || letters[0] == Data then [] else letters
  {
    assert Announcements([]) == [];
    if letters != [] {
      assert letters[..0] == [];
      var only := if letters[0] == Data then [] else [letters[0]];
      assert Announcements(letters) == [] + only;
    }
  }

  lemma AnnouncementsSnoc(letters: seq<Letter>)
    requires letters != []
    ensures Announcements(letters) == Announcements(letters[..|letters| - 1]) + Announcements([letters[|letters| - 1]])
  {
    AnnouncementsOfOne([letters[|letters| - 1]]);
  }

  /** Since a reset, between two iterations or inside the write of data, and whatever lies in the slot: as
      long as nothing was written, an iteration writes basic information, unless it read a command or a
      size that is too large. */
  lemma FirstWriteIsBasic(c: Setup, w: World)
    requires Sane(c) && Reachable(c, w) && w.pc.Some? && w.written == []
    ensures Decide(w.vars, w.pc.value, c.maxSize) == Write(Basic) <==>
              w.pc.value.kind != COMMAND && w.pc.value.size <= c.maxSize
  {
    ReachableInv(c, w);
    hide Reachable, SlotInv, OrderInv, FollowsScript, PcInv;
  }

  /** After a reset of any reachable world, any run of events starts its log with basic information, and
      until then every iteration that finds neither a command nor a size too large writes it. */
  lemma ResetStartsWithBasic(c: Setup, w: World, events: seq<Event>)
    requires Sane(c) && Reachable(c, w) && w.pc.None?
    ensures var after := Run(c, Step(c, w, Reset), events);
            && (after.written != [] ==> after.written[0] == Basic)
            && (after.written == [] && after.pc.Some? ==>
                  (Decide(after.vars, after.pc.value, c.maxSize) == Write(Basic) <==>
                     after.pc.value.kind != COMMAND && after.pc.value.size <= c.maxSize))
  {
    hide *;
    assert Reachable(c, Step(c, w, Reset)) by { ReachableStep(c, w, Reset); }
    var after := Run(c, Step(c, w, Reset), events);
    assert Reachable(c, after) by { ReachableRun(c, Step(c, w, Reset), events); }
    AnnouncementsArriveInOrder(c, after);
    FirstOfScript(c.pages, after.written);
    if after.written == [] && after.pc.Some? {
      FirstWriteIsBasic(c, after);
    }
  }

  lemma FirstOfScript(pages: byte, letters: seq<Letter>)
    requires FollowsScript(pages, letters)
    ensures letters != [] ==> letters[0] == Basic
  {
  }

  lemma ReachableRun(c: Setup, w: World, events: seq<Event>)
    requires Reachable(c, w)
    ensures Reachable(c, Run(c, w, events))
  {
    hide Run, Start;
    var head, before :| w == Run(c, Start(head), before);
    RunConcat(c, Start(head), before, events);
    assert Run(c, w, events) == Run(c, Start(head), before + events);
  }

  lemma ReachableStep(c: Setup, w: World, e: Event)
    requires Reachable(c, w) && w.pc.None? && e == Reset
    ensures Enabled(c, w, e) && Reachable(c, Step(c, w, e))
  {
    hide Reachable, Step;
    assert [e][1..] == [];
    assert Run(c, w, [e]) == Run(c, Next(c, w, e), []);
    ReachableRun(c, w, [e]);
  }

  // ---------------------------------------------------------------- a reset inside another write

  /** No reset, neither between iterations nor inside a write. */
  predicate ResetFree(events: seq<Event>) {
    forall i :: 0 <= i < |events| ==> events[i] != Reset && events[i] != Act(true)
  }

  /** The message is not in the log, and the state machine is past it. */
  predicate Skipped(w: World, letter: Letter) {
    && letter !in w.written
    && match letter
       case Basic => w.vars.state != StateBasicInformation
       case Page(_) => letter.number == 1 && (w.vars.state != StateMonitoringData ==> 2 <= w.vars.page <= 254)
       case Data => false
  }

  lemma SkippedByOneStep(c: Setup, w: World, e: Event, letter: Letter)
    requires c.pages <= 254 && e != Reset && e != Act(true) && Skipped(w, letter)
    ensures Skipped(Next(c, w, e), letter)
  {
  }

  lemma {:induction false} SkippedStaysSkipped(c: Setup, w: World, events: seq<Event>, letter: Letter)
    requires c.pages <= 254 && ResetFree(events) && Skipped(w, letter)
    ensures Skipped(Run(c, w, events), letter)
    decreases |events|
  {
    hide Skipped, Next;
    if events != [] {
      SkippedByOneStep(c, w, events[0], letter);
      SkippedStaysSkipped(c, Next(c, w, events[0]), events[1..], letter);
    }
  }

  /** When the state machine is reset inside the write of basic information or of a page, a message is
      missing from every run that follows up to the next reset: the basic information in the first case,
      page 1 in the second. */
  lemma InnerResetLosesMessage(c: Setup, w: World, events: seq<Event>)
    requires 1 <= c.pages <= 254 && ResetFree(events) && w.pc.Some?
    requires var d := Decide(w.vars, w.pc.value, c.maxSize); d.Write? && d.letter != Data
    ensures var letter := Decide(w.vars, w.pc.value, c.maxSize).letter;
            var missing := if letter == Basic then Basic else Page(1);
            missing !in Run(c, Overwritten(c, w, letter, true), events).written
  {
    hide Run, ResetFree;
    var letter := Decide(w.vars, w.pc.value, c.maxSize).letter;
    SkippedStaysSkipped(c, Overwritten(c, w, letter, true), events, if letter == Basic then Basic else Page(1));
  }

  /** A run in which page 1 is the first message after such a reset. */
  lemma InnerResetSkipsBasic(c: Setup)
    requires Sane(c) && 2 <= c.pages
    ensures var w := Run(c, Start(Head(EMPTY, 0)), [Read]);
            && Decide(w.vars, w.pc.value, c.maxSize) == Write(Basic)
            && Run(c, Overwritten(c, w, Basic, true), [PickUp, Read, Act(false)]).written == [Page(1)]
  {
    var w := Run(c, Start(Head(EMPTY, 0)), [Read]);
    assert [Read][1..] == [];
    assert w == Step(c, Start(Head(EMPTY, 0)), Read);
    var after := Overwritten(c, w, Basic, true);
    assert c.sizes(Basic) <= c.maxSize;
    RunThree(c, after, PickUp, Read, Act(false));
  }

  /** A message of the daemon passes the size test when the daemon reads its header again. */
  lemma OwnMessagesPassSizeTest(c: Setup, w: World)
    requires Sane(c) && Reachable(c, w) && w.slot.content.Ours?
    ensures Decide(w.vars, w.slot.head, c.maxSize) != TooLarge
  {
    ReachableInv(c, w);
    hide Reachable, LetterInv, OrderInv, PcInv;
    assert c.sizes(w.slot.content.letter) <= c.maxSize;
  }

  // ---------------------------------------------------------------- commands

  lemma {:induction false} CountsUpTo(n: nat, id: nat)
    ensures UpTo(n)[id] == if id < n then 1 else 0
    decreases n
  {
    if n > 0 {
      CountsUpTo(n - 1, id);
    }
  }

  /** Each placed command is once and only once taken by the daemon (to be executed, or refused by its
      address or signature), or overwritten, or in the slot; those taken fit the segment; between two
      iterations, the overwritten ones are exactly those that were placed after the daemon had read a
      header that lets it write. */
  lemma CommandsAreAccountedFor(c: Setup, w: World, id: nat)
    requires Sane(c) && Reachable(c, w)
    ensures multiset(w.taken)[id] + multiset(w.lost)[id] + multiset(OrderIn(w.slot))[id]
            == if id < |w.placed| then 1 else 0
    ensures id in w.taken ==> id < |w.placed| && !w.placed[id].exposed && w.placed[id].size <= c.maxSize
    ensures w.pc.None? && id < |w.placed| ==>
              (id in w.lost <==> w.placed[id].exposed) &&
              (id in w.taken <==> !w.placed[id].exposed && id !in OrderIn(w.slot))
  {
    ReachableInv(c, w);
    hide Reachable, LetterInv, SlotInv, PcInv, UpTo, OrderIn, Decide;
    CountsUpTo(|w.placed|, id);
    assert id in w.taken <==> multiset(w.taken)[id] > 0;
    assert id in w.lost <==> multiset(w.lost)[id] > 0;
    assert id in OrderIn(w.slot) <==> multiset(OrderIn(w.slot))[id] > 0;
  }

  lemma CountsBoth(s: seq<nat>, i: nat, j: nat)
    requires i < j < |s|
    ensures s[i] == s[j] ==> multiset(s)[s[i]] >= 2
  {
    assert s == s[..j] + [s[j]] + s[j + 1..];
    assert s[..j][i] == s[i];
    assert multiset(s)[s[i]] == multiset(s[..j])[s[i]] + multiset([s[j]])[s[i]] + multiset(s[j + 1..])[s[i]];
  }

  /** No command is taken twice. */
  lemma NoCommandTwice(c: Setup, w: World, i: nat, j: nat)
    requires Sane(c) && Reachable(c, w) && i < j < |w.taken|
    ensures w.taken[i] != w.taken[j]
  {
    hide *;
    CommandsAreAccountedFor(c, w, w.taken[i]);
    CountsBoth(w.taken, i, j);
  }

  /** Between two iterations, a command that fits is placed into the empty slot, and the next iteration
      takes it: the state machine and the logs of messages are as before, the slot is empty again. */
  lemma CommandLeavesStateMachine(c: Setup, w: World, size: nat)
    requires w.pc.None? && w.slot.head.kind == EMPTY && size <= c.maxSize
    ensures var after := Run(c, w, [Place(size), Read, Act(false)]);
            && after.vars == w.vars && after.written == w.written && after.received == w.received
            && after.slot.head.kind == EMPTY && after.pc.None?
            && after.taken == w.taken + [|w.placed|] && after.lost == w.lost
            && after.placed == w.placed + [Placed(size, false)]
  {
    RunThree(c, w, Place(size), Read, Act(false));
  }

  /** A command that is placed between the read of an empty header and the write is overwritten. */
  lemma CommandCanBeLost(c: Setup)
    requires Sane(c)
    ensures var w := Run(c, Start(Head(EMPTY, 0)), [Read, Place(10), Act(false)]);
            w.lost == [0] && w.taken == [] && w.slot.content == Ours(Basic)
  {
    RunThree(c, Start(Head(EMPTY, 0)), Read, Place(10), Act(false));
  }

  // ---------------------------------------------------------------- can the data state be reached?

  lemma RunThree(c: Setup, w: World, a: Event, b: Event, d: Event)
    ensures Run(c, w, [a, b, d]) == Next(c, Next(c, Next(c, w, a), b), d)
  {
    hide Step, Enabled;
    assert [a, b, d][1..] == [b, d] && [b, d][1..] == [d] && [d][1..] == [];
    var w1 := Next(c, w, a);
    var w2 := Next(c, w1, b);
    assert Run(c, w2, [d]) == Run(c, Next(c, w2, d), []);
    assert Run(c, w1, [b, d]) == Run(c, w2, [d]);
  }

  lemma {:induction false} RunConcat(c: Setup, w: World, a: seq<Event>, b: seq<Event>)
    ensures Run(c, w, a + b) == Run(c, Run(c, w, a), b)
    decreases |a|
  {
    hide Step, Enabled;
    if a == [] {
      assert a + b == b;
    } else {
      assert (a + b)[0] == a[0] && (a + b)[1..] == a[1..] + b;
      RunConcat(c, Next(c, w, a[0]), a[1..], b);
    }
  }

  /** Between two iterations, with a slot that management has emptied. */
  ghost predicate Ready(c: Setup, w: World) {
    w.pc.None? && w.slot.head.kind == EMPTY && w.slot.head.size <= c.maxSize
  }

  function Rounds(n: nat): seq<Event> {
    if n == 0 then [] else Rounds(n - 1) + [Read, Act(false), PickUp]
  }

  lemma RoundWrites(c: Setup, w: World)
    requires Sane(c) && Ready(c, w)
    ensures var after := Run(c, w, [Read, Act(false), PickUp]);
            Ready(c, after) && |after.written| == |w.written| + 1
  {
    hide AfterWrite;
    RunThree(c, w, Read, Act(false), PickUp);
    assert c.sizes(NextLetter(w.vars)) <= c.maxSize;
  }

  /** A management side that picks up at once gets one message in every iteration. */
  lemma {:induction false} RoundsWrite(c: Setup, w: World, n: nat)
    requires Sane(c) && Ready(c, w)
    ensures var after := Run(c, w, Rounds(n)); Ready(c, after) && |after.written| == |w.written| + n
    decreases n
  {
    hide Ready, Sane, Step, Enabled;
    if n > 0 {
      hide Run;
      RoundsWrite(c, w, n - 1);
      RunConcat(c, w, Rounds(n - 1), [Read, Act(false), PickUp]);
      RoundWrites(c, Run(c, w, Rounds(n - 1)));
    }
  }

  lemma ClearsSlot(c: Setup, head: Head)
    requires Sane(c) && (head.kind == COMMAND ==> head.size <= c.maxSize)
    ensures var w := Run(c, Run(c, Start(head), [PickUp, Place(0), Read]), [Act(false), PickUp, PickUp]);
            Ready(c, w) && w.written == []
  {
    hide AfterWrite;
    var w0 := Start(head);
    var w1 := Next(c, Next(c, Next(c, w0, PickUp), Place(0)), Read);
    RunThree(c, w0, PickUp, Place(0), Read);
    RunThree(c, w1, Act(false), PickUp, PickUp);
  }

  /** A command that is too large stays in the slot for good. */
  lemma {:induction false} OversizedStays(c: Setup, w: World, events: seq<Event>)
    requires w.slot.head.kind == COMMAND && w.slot.head.size > c.maxSize && w.vars == INITIAL
    requires w.pc.None? || w.pc.value == w.slot.head
    ensures Run(c, w, events).vars == INITIAL && Run(c, w, events).slot.head == w.slot.head
    decreases |events|
  {
    if events != [] {
      OversizedStays(c, Next(c, w, events[0]), events[1..]);
    }
  }

  ghost predicate DataReached(c: Setup, head: Head, events: seq<Event>) {
    Run(c, Start(head), events).vars.state.StateMonitoringData?
  }

  /** From a slot that holds any header when the daemon starts, some run reaches the data state exactly
      when there are at most 254 pages and the slot does not hold a command that is too large. */
  lemma DataReachableExactly(c: Setup, head: Head)
    requires Sane(c)
    ensures (exists events :: DataReached(c, head, events)) <==>
              c.pages <= 254 && (head.kind == COMMAND ==> head.size <= c.maxSize)
  {
    if c.pages <= 254 && (head.kind == COMMAND ==> head.size <= c.maxSize) {
      ClearThenRounds(c, head);
    } else {
      forall events ensures !DataReached(c, head, events) {
        DataNotReached(c, head, events);
      }
    }
  }

  lemma ClearThenRounds(c: Setup, head: Head)
    requires Sane(c) && c.pages <= 254 && (head.kind == COMMAND ==> head.size <= c.maxSize)
    ensures exists events :: DataReached(c, head, events)
  {
    hide Run, Start, Ready, Inv;
    var a, b, n := [PickUp, Place(0), Read], [Act(false), PickUp, PickUp], c.pages as nat + 1;
    ClearsSlot(c, head);
    RunConcat(c, Start(head), a, b);
    RunConcat(c, Start(head), a + b, Rounds(n));
    RoundsWrite(c, Run(c, Start(head), a + b), n);
    var w := Run(c, Start(head), a + b + Rounds(n));
    assert Reachable(c, w);
    AnnouncementsArriveInOrder(c, w);
    assert DataReached(c, head, a + b + Rounds(n));
  }

  lemma DataNotReached(c: Setup, head: Head, events: seq<Event>)
    requires Sane(c) && !(c.pages <= 254 && (head.kind == COMMAND ==> head.size <= c.maxSize))
    ensures !DataReached(c, head, events)
  {
    hide Run;
    var w := Run(c, Start(head), events);
    assert Reachable(c, w);
    AnnouncementsArriveInOrder(c, w);
    if c.pages <= 254 {
      OversizedStays(c, Start(head), events);
    }
  }
}
