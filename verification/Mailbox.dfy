/**
 The message slot that the daemon shares with the management controller, as a state machine.  An
 iteration of the daemon is two steps, the read of the message header and the act that follows from it;
 the management side may move in between.
 */
module Mailbox {
  import opened Options
  import opened Bytes

  const EMPTY: byte := 0
  const MONITORING_DESCRIPTION: byte := 1
  const MONITORING_DATA: byte := 2
  const COMMAND: byte := 3
  const COMMAND_RESULT: byte := 4
  const BASIC_INFORMATION: byte := 5

  // ---------------------------------------------------------------- the daemon

  datatype State = StateBasicInformation | StateMonitoringDescription | StateMonitoringData

  /** mState, mCurrentPage and mFirstWriteDone. */
  datatype Vars = Vars(state: State, page: byte, firstWriteDone: bool)

  /** resetStatemachine. */
  const INITIAL := Vars(StateBasicInformation, 1, false)

  /** The messages the daemon writes; a page is named by its number. */
  datatype Letter = Basic | Page(number: byte) | Data

  function TypeOf(l: Letter): byte {
    match l
    case Basic => BASIC_INFORMATION
    case Page(_) => MONITORING_DESCRIPTION
    case Data => MONITORING_DATA
  }

  datatype Head = Head(kind: byte, size: nat)

  datatype Decision = TooLarge | Execute | Wait | Write(letter: Letter)

  function NextLetter(v: Vars): Letter {
    match v.state
    case StateBasicInformation => Basic
    case StateMonitoringDescription => Page(v.page)
    case StateMonitoringData => Data
  }

  /** What an iteration does, given the header it read. */
  function Decide(v: Vars, head: Head, maxSize: nat): Decision {
    if head.size > maxSize then TooLarge
    else if head.kind == COMMAND then Execute
    else if head.kind in {MONITORING_DESCRIPTION, BASIC_INFORMATION, COMMAND_RESULT} && v.firstWriteDone then Wait
    else Write(NextLetter(v))
  }

  /** mCurrentPage++ on eight bits. */
  function Incremented(page: byte): byte {
    if page == 255 then 0 else page + 1
  }

  /** The state after a write; vars are those from before it, or the initial ones when the state machine
      was reset inside the write. */
  function AfterWrite(written: State, v: Vars, maxPages: byte): Vars {
    match written
    case StateBasicInformation => v.(state := StateMonitoringDescription, firstWriteDone := true)
    case StateMonitoringData => v.(firstWriteDone := true)
    case StateMonitoringDescription =>
      var next := Incremented(v.page);
      if next > maxPages then Vars(StateMonitoringData, 1, true) else v.(page := next, firstWriteDone := true)
  }

  /** A reset inside a write leads to a fresh start exactly when it is data that is written; inside the
      other writes the code that follows undoes part of it, and a message is left out. */
  lemma ResetInsideWriteIsFreshExactlyForData(written: State, maxPages: byte)
    requires maxPages >= 1
    ensures var after := AfterWrite(written, INITIAL, maxPages);
            after.state == INITIAL.state && after.page == INITIAL.page <==> written == StateMonitoringData
  {
  }

  // ---------------------------------------------------------------- the world

  datatype Content = Ours(letter: Letter) | Stale | Order(id: nat)

  /** The slot: the header that lies in it, and what the header belongs to; empty when kind is 0. */
  datatype Slot = Slot(head: Head, content: Content)

  /** A command, and whether the daemon was about to overwrite the slot when it was placed. */
  datatype Placed = Placed(size: nat, exposed: bool)

  /** What a world has that does not change: the segment size, the number of pages, message sizes. */
  datatype Setup = Setup(maxSize: nat, pages: byte, sizes: Letter -> nat)

  ghost predicate Sane(c: Setup) {
    c.pages >= 1 && forall l :: c.sizes(l) <= c.maxSize
  }

  /** The logs of messages restart with every reset; the logs of commands do not. */
  datatype World = World(
    vars: Vars, pc: Option<Head>, slot: Slot, written: seq<Letter>, received: seq<Letter>,
    placed: seq<Placed>, taken: seq<nat>, lost: seq<nat>)

  function Start(head: Head): World {
    var order := head.kind == COMMAND;
    World(INITIAL, None, Slot(head, if order then Order(0) else Stale), [], [],
          if order then [Placed(head.size, false)] else [], [], [])
  }

  datatype Event =
    | Read                    // the daemon reads the header
    | Act(reset: bool)        // the rest of the iteration, with a reset inside the write of data or not
    | PickUp                  // management takes a message that is no command
    | Place(size: nat)        // management puts a command into the empty slot
    | Reset                   // the state machine is reset between two iterations

  predicate Enabled(c: Setup, w: World, e: Event) {
    match e
    case Read => w.pc.None?
    case Act(reset) => w.pc.Some? && (reset ==> Decide(w.vars, w.pc.value, c.maxSize) == Write(Data))
    case PickUp => w.slot.head.kind !in {EMPTY, COMMAND}
    case Place(_) => w.slot.head.kind == EMPTY
    case Reset => w.pc.None?
  }

  function Emptied(s: Slot): Slot {
    s.(head := s.head.(kind := EMPTY))
  }

  /** An order in the slot, if there is one. */
  function OrderIn(s: Slot): seq<nat> {
    if s.head.kind == COMMAND && s.content.Order? then [s.content.id] else []
  }

  function Overwritten(c: Setup, w: World, letter: Letter, reset: bool): World {
    var w' := w.(pc := None, lost := w.lost + OrderIn(w.slot));
    var head := Head(TypeOf(letter), c.sizes(letter));
    if reset then
      w'.(vars := AfterWrite(w.vars.state, INITIAL, c.pages), slot := Slot(head, Stale), written := [], received := [])
    else
      w'.(vars := AfterWrite(w.vars.state, w.vars, c.pages), slot := Slot(head, Ours(letter)),
          written := w.written + [letter])
  }

  function Acted(c: Setup, w: World, reset: bool): World
    requires w.pc.Some?
  {
    match Decide(w.vars, w.pc.value, c.maxSize)
    case TooLarge => w.(pc := None)
    case Wait => w.(pc := None)
    case Execute => w.(pc := None, taken := w.taken + OrderIn(w.slot), slot := Emptied(w.slot))
    case Write(letter) => Overwritten(c, w, letter, reset)
  }

  function Step(c: Setup, w: World, e: Event): World
    requires Enabled(c, w, e)
  {
    match e
    case Read => w.(pc := Some(w.slot.head))
    case Act(reset) => Acted(c, w, reset)
    case PickUp =>
      w.(slot := Emptied(w.slot), received := w.received + if w.slot.content.Ours? then [w.slot.content.letter] else [])
    case Place(size) =>
      var exposed := w.pc.Some? && Decide(w.vars, w.pc.value, c.maxSize).Write?;
      w.(slot := Slot(Head(COMMAND, size), Order(|w.placed|)), placed := w.placed + [Placed(size, exposed)])
    case Reset =>
      w.(vars := INITIAL, written := [], received := [],
         slot := w.slot.(content := if w.slot.content.Ours? then Stale else w.slot.content))
  }

  /** An event that is not possible where it stands is skipped. */
  function Next(c: Setup, w: World, e: Event): World {
    if Enabled(c, w, e) then Step(c, w, e) else w
  }

  /** Any run. */
  function Run(c: Setup, w: World, events: seq<Event>): World
    decreases |events|
  {
    if events == [] then w
    else Run(c, Next(c, w, events[0]), events[1..])
  }

  // ---------------------------------------------------------------- what is written when

  /** Message number i after a reset.  With 255 pages the page number wraps around and data never comes. */
  function Scripted(pages: byte, i: nat): Letter {
    if i == 0 then Basic else if pages == 255 || i <= pages as nat then Page(i % 256) else Data
  }

  /** The state after n messages. */
  function VarsAt(pages: byte, n: nat): Vars {
    if n == 0 then INITIAL
    else if pages == 255 || n <= pages as nat then Vars(StateMonitoringDescription, n % 256, true)
    else Vars(StateMonitoringData, 1, true)
  }

  predicate FollowsScript(pages: byte, letters: seq<Letter>) {
    forall i :: 0 <= i < |letters| ==> letters[i] == Scripted(pages, i)
  }

  /** A message of the daemon that waits in the slot. */
  predicate Pending(s: Slot) {
    s.head.kind != EMPTY && s.content.Ours?
  }

  /** The sequence without the data messages. */
  function Announcements(letters: seq<Letter>): seq<Letter>
    decreases |letters|
  {
    if letters == [] then []
    else Announcements(letters[..|letters| - 1]) + if letters[|letters| - 1] == Data then [] else [letters[|letters| - 1]]
  }

  // ---------------------------------------------------------------- the invariant

  ghost predicate SlotInv(c: Setup, w: World) {
    && (w.slot.content.Ours? ==>
          w.written != [] && w.slot.content.letter == w.written[|w.written| - 1]
          && w.slot.head.size == c.sizes(w.slot.content.letter)
          && w.slot.head.kind in {EMPTY, TypeOf(w.slot.content.letter)})
    && (w.slot.head.kind == COMMAND <==> w.slot.head.kind != EMPTY && w.slot.content.Order?)
  }

  /** What may have happened to the slot since the header was read. */
  ghost predicate PcInv(w: World) {
    w.pc.Some? ==>
      || w.slot.head == w.pc.value
      || (w.pc.value.kind != COMMAND && w.slot.head.kind in {EMPTY, COMMAND})
  }

  predicate Unannounced(head: Head) {
    head.kind in {EMPTY, MONITORING_DATA, COMMAND}
  }

  ghost predicate LetterInv(c: Setup, w: World) {
    && FollowsScript(c.pages, w.written) && FollowsScript(c.pages, w.received)
    && w.vars.(firstWriteDone := true) == VarsAt(c.pages, |w.written|).(firstWriteDone := true)
    && (w.written != [] ==> w.vars.firstWriteDone)
    && (w.written == [] && w.vars.firstWriteDone ==> Unannounced(w.slot.head) && (w.pc.Some? ==> Unannounced(w.pc.value)))
    && |w.received| + (if Pending(w.slot) then 1 else 0) <= |w.written|
    && (|w.received| < |w.written| - (if Pending(w.slot) then 1 else 0) ==> c.pages < 255 && |w.received| > c.pages as nat)
  }

  predicate RightlyTaken(c: Setup, w: World, id: nat) {
    id < |w.placed| && !w.placed[id].exposed && w.placed[id].size <= c.maxSize
  }

  ghost predicate OrderInv(c: Setup, w: World) {
    && (forall k :: 0 <= k < |w.taken| ==> RightlyTaken(c, w, w.taken[k]))
    && (forall k :: 0 <= k < |w.lost| ==> w.lost[k] < |w.placed| && w.placed[w.lost[k]].exposed)
    && (forall id :: id in OrderIn(w.slot) ==>
          && id == |w.placed| - 1 && w.slot.head.size == w.placed[id].size
          && (w.placed[id].exposed <==> w.pc.Some? && Decide(w.vars, w.pc.value, c.maxSize).Write?))
    && multiset(w.taken) + multiset(w.lost) + multiset(OrderIn(w.slot)) == UpTo(|w.placed|)
  }

  /** The numbers below n, each once. */
  ghost function UpTo(n: nat): multiset<nat> {
    if n == 0 then multiset{} else UpTo(n - 1) + multiset{n - 1}
  }

  ghost predicate Inv(c: Setup, w: World) {
    SlotInv(c, w) && PcInv(w) && LetterInv(c, w) && OrderInv(c, w)
  }

  // ---------------------------------------------------------------- every step keeps it

  lemma StartInv(c: Setup, head: Head)
    ensures Inv(c, Start(head))
  {
    assert UpTo(1) == multiset{0} && UpTo(0) == multiset{};
  }

  lemma StepKeepsSlotInv(c: Setup, w: World, e: Event)
    requires Enabled(c, w, e) && SlotInv(c, w) && PcInv(w)
    ensures SlotInv(c, Step(c, w, e)) && PcInv(Step(c, w, e))
  {
    hide AfterWrite;
  }

  /** What a write can lie over: nothing of ours, or data. */
  lemma OnlyDataIsOverwritten(c: Setup, w: World)
    requires SlotInv(c, w) && PcInv(w) && LetterInv(c, w)
    requires w.pc.Some? && Decide(w.vars, w.pc.value, c.maxSize).Write? && Pending(w.slot)
    ensures w.slot.content.letter == Data && c.pages < 255 && |w.written| > c.pages as nat + 1
  {
    hide FollowsScript, VarsAt;
    assert w.slot.head == w.pc.value;
    assert w.slot.content.letter == Scripted(c.pages, |w.written| - 1) by { LastFollows(c.pages, w.written); }
  }

  lemma LastFollows(pages: byte, letters: seq<Letter>)
    requires FollowsScript(pages, letters) && letters != []
    ensures letters[|letters| - 1] == Scripted(pages, |letters| - 1)
  {
  }

  lemma FollowsScriptSnoc(pages: byte, letters: seq<Letter>, l: Letter)
    requires FollowsScript(pages, letters) && l == Scripted(pages, |letters|)
    ensures FollowsScript(pages, letters + [l])
  {
    hide Scripted;
  }

  /** One more write moves the state one message further in the script. */
  lemma WriteAdvances(pages: byte, v: Vars, n: nat)
    requires pages >= 1 && v.(firstWriteDone := true) == VarsAt(pages, n).(firstWriteDone := true)
    ensures NextLetter(v) == Scripted(pages, n)
    ensures AfterWrite(v.state, v, pages) == VarsAt(pages, n + 1)
  {
  }

  lemma OverwriteKeepsLetterInv(c: Setup, w: World, reset: bool)
    requires Sane(c) && SlotInv(c, w) && PcInv(w) && LetterInv(c, w) && Enabled(c, w, Act(reset))
    requires Decide(w.vars, w.pc.value, c.maxSize).Write?
    ensures LetterInv(c, Acted(c, w, reset))
  {
    hide FollowsScript, VarsAt, Scripted;
    WriteAdvances(c.pages, w.vars, |w.written|);
    if Pending(w.slot) {
      OnlyDataIsOverwritten(c, w);
    }
    if reset {
      EmptyFollows(c.pages);
    } else {
      FollowsScriptSnoc(c.pages, w.written, NextLetter(w.vars));
    }
  }

  lemma EmptyFollows(pages: byte)
    ensures FollowsScript(pages, []) && VarsAt(pages, 0) == INITIAL
  {
  }

  lemma StepKeepsLetterInv(c: Setup, w: World, e: Event)
    requires Sane(c) && Enabled(c, w, e) && SlotInv(c, w) && PcInv(w) && LetterInv(c, w)
    ensures LetterInv(c, Step(c, w, e))
  {
    hide VarsAt, Scripted, AfterWrite;
    if e.Act? && Decide(w.vars, w.pc.value, c.maxSize).Write? {
      hide FollowsScript;
      OverwriteKeepsLetterInv(c, w, e.reset);
    } else if e.PickUp? && Pending(w.slot) {
      hide FollowsScript;
      PickUpKeepsScript(c, w);
    } else if e.Reset? {
      EmptyFollows(c.pages);
    }
  }

  lemma PickUpKeepsScript(c: Setup, w: World)
    requires SlotInv(c, w) && LetterInv(c, w) && Pending(w.slot)
    ensures FollowsScript(c.pages, w.received + [w.slot.content.letter])
  {
    hide VarsAt;
    var n := |w.received|;
    assert w.slot.content.letter == Scripted(c.pages, |w.written| - 1);
    if n < |w.written| - 1 {
      assert Scripted(c.pages, n) == Data == Scripted(c.pages, |w.written| - 1);
    }
  }

  lemma OrderTaken(c: Setup, w: World, reset: bool)
    requires Enabled(c, w, Act(reset)) && SlotInv(c, w) && PcInv(w) && OrderInv(c, w)
    requires Decide(w.vars, w.pc.value, c.maxSize).Execute?
    ensures OrderInv(c, Acted(c, w, reset))
  {
    hide UpTo, AfterWrite;
    var id := w.slot.content.id;
    assert OrderIn(w.slot) == [id] && id in OrderIn(w.slot);
    var w' := Acted(c, w, reset);
    assert w'.taken == w.taken + [id] && OrderIn(w'.slot) == [];
  }

  lemma OneOrder(s: Slot)
    ensures |OrderIn(s)| <= 1
  {
  }

  lemma OverwriteEffects(c: Setup, w: World, reset: bool)
    requires Enabled(c, w, Act(reset)) && Decide(w.vars, w.pc.value, c.maxSize).Write?
    ensures var w' := Acted(c, w, reset);
            && w'.taken == w.taken && w'.placed == w.placed && w'.lost == w.lost + OrderIn(w.slot)
            && OrderIn(w'.slot) == []
  {
    hide AfterWrite, Decide;
  }

  lemma OrderOverwritten(c: Setup, w: World, reset: bool)
    requires Enabled(c, w, Act(reset)) && OrderInv(c, w)
    requires Decide(w.vars, w.pc.value, c.maxSize).Write?
    ensures OrderInv(c, Acted(c, w, reset))
  {
    hide UpTo, Acted, OrderIn, Decide;
    OverwriteEffects(c, w, reset);
    var orders := OrderIn(w.slot);
    assert |orders| <= 1 by { OneOrder(w.slot); }
    assert orders != [] ==> orders[0] in orders;
  }

  lemma OrderPlaced(c: Setup, w: World, size: nat)
    requires Enabled(c, w, Place(size)) && OrderInv(c, w)
    ensures OrderInv(c, Step(c, w, Place(size)))
  {
    hide Decide;
    var w' := Step(c, w, Place(size));
    assert OrderIn(w.slot) == [] && OrderIn(w'.slot) == [|w.placed|];
    assert UpTo(|w'.placed|) == UpTo(|w.placed|) + multiset{|w.placed|};
  }

  lemma StepKeepsOrderInv(c: Setup, w: World, e: Event)
    requires Enabled(c, w, e) && SlotInv(c, w) && PcInv(w) && OrderInv(c, w)
    ensures OrderInv(c, Step(c, w, e))
  {
    hide AfterWrite, UpTo;
    if e.Place? {
      hide OrderInv;
      OrderPlaced(c, w, e.size);
    } else if e.Act? && Decide(w.vars, w.pc.value, c.maxSize).Write? {
      hide OrderInv;
      OrderOverwritten(c, w, e.reset);
    } else if e.Act? && Decide(w.vars, w.pc.value, c.maxSize).Execute? {
      hide OrderInv;
      OrderTaken(c, w, e.reset);
    } else {
      assert OrderIn(Step(c, w, e).slot) == OrderIn(w.slot);
    }
  }

  lemma {:induction false} RunKeepsInv(c: Setup, w: World, events: seq<Event>)
    requires Sane(c) && Inv(c, w)
    ensures Inv(c, Run(c, w, events))
    decreases |events|
  {
    hide SlotInv, PcInv, LetterInv, OrderInv, Step, Enabled;
    if events != [] {
      if Enabled(c, w, events[0]) {
        StepKeepsSlotInv(c, w, events[0]);
        StepKeepsLetterInv(c, w, events[0]);
        StepKeepsOrderInv(c, w, events[0]);
        RunKeepsInv(c, Step(c, w, events[0]), events[1..]);
      } else {
        RunKeepsInv(c, w, events[1..]);
      }
    }
  }
}
