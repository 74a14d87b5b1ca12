/**
 The protocol of the message slot and the layout of the messages together: what the management side can
 read out of the messages it picked up.
 */
module EndToEnd {
  import opened Options
  import opened Bytes
  import opened SensorPages
  import opened SensorMessages
  import opened Segments
  import opened Mailbox
  import opened MailboxLaws
  import opened DaemonLoop

  /** The bytes picked up are those of the letters; readings and known groups are those of each write. */
  ghost predicate AreLetters(s: Sender, letters: seq<Letter>, bytes: seq<seq<byte>>,
                             readings: seq<seq<Reading>>, known: seq<Groups>)
    requires CanSend(s)
  {
    && |bytes| == |readings| == |known| == |letters|
    && forall k {:trigger bytes[k]} :: 0 <= k < |letters| ==> IsLetter(s, letters[k], bytes[k], readings[k], known[k])
  }

  lemma PagesPickedUp(s: Sender, pages: byte, letters: seq<Letter>, bytes: seq<seq<byte>>,
                      readings: seq<seq<Reading>>, known: seq<Groups>)
    requires CanSend(s) && pages as nat == PageCount(|s.sensors|, PerPage(s.maxSize))
    requires FollowsScript(pages, letters) && |letters| > pages as nat && AreLetters(s, letters, bytes, readings, known)
    ensures ArePages(s.sensors, PerPage(s.maxSize), bytes[1..1 + pages as nat], known[1..1 + pages as nat])
  {
    hide AllDescribable, PageCount, PerPage, DataSize, Numbered, IsMessage, PageBytes, IsLetter;
    var perPage, n := PerPage(s.maxSize), pages as nat;
    var ps, gs := bytes[1..1 + n], known[1..1 + n];
    forall k | 0 <= k < n ensures Numbered(gs[k]) && ps[k] == PageBytes(s.sensors, perPage, k + 1, gs[k]) {
      assert letters[k + 1] == Scripted(pages, k + 1) == Page((k + 1) % 256);
      assert (k + 1) % 256 == k + 1;
      assert IsLetter(s, letters[k + 1], bytes[k + 1], readings[k + 1], known[k + 1]);
      PageLetter(s, k + 1, bytes[k + 1], readings[k + 1], known[k + 1]);
    }
  }

  lemma PageLetter(s: Sender, n: byte, sent: seq<byte>, readings: seq<Reading>, groups: Groups)
    requires CanSend(s) && IsLetter(s, Page(n), sent, readings, groups)
    ensures Numbered(groups) && 1 <= n as nat <= PageCount(|s.sensors|, PerPage(s.maxSize))
    ensures sent == PageBytes(s.sensors, PerPage(s.maxSize), n as nat, groups)
  {
    hide CanSend, Numbered, PageBytes, PageCount, PerPage;
  }

  lemma DataLetter(s: Sender, sent: seq<byte>, readings: seq<Reading>, groups: Groups)
    requires CanSend(s) && IsLetter(s, Data, sent, readings, groups)
    ensures AllFit(s.sensors, readings) && sent == DataBytes(s.sensors, readings, s.version)
  {
    hide CanSend, AllFit, DataBytes;
  }

  /** In every run of the daemon and the management side, since the last reset: when message k that
      management picked up is a data message, the pages it picked up before let it cut that message into
      exactly the bytes that each sensor produced for it, zeros for a sensor that failed. */
  lemma ManagementReadsSensors(c: Setup, w: World, s: Sender, bytes: seq<seq<byte>>,
                               readings: seq<seq<Reading>>, known: seq<Groups>, k: nat)
    requires Sane(c) && Reachable(c, w) && CanSend(s) && c.pages as nat == PageCount(|s.sensors|, PerPage(s.maxSize))
    requires AreLetters(s, w.received, bytes, readings, known) && k < |w.received| && w.received[k] == Data
    ensures |w.received| == |bytes| == |readings| > c.pages as nat && AllFit(s.sensors, readings[k])
    ensures var r := Receive(bytes[1..1 + c.pages as nat], bytes[k]);
            && r.Some? && |r.value| == |s.sensors|
            && forall i :: 0 <= i < |s.sensors| ==>
                 r.value[i] == if readings[k][i].Some? then readings[k][i].value else Zeros(s.sensors[i].sensor.maxDataSize)
  {
    hide Sane, Reachable, IsLetter, FollowsScript, Script, Scripted, Receive, AllFit, DataBytes, Announcements;
    AnnouncementsArriveInOrder(c, w);
    assert c.pages <= 254;
    assert |Script(c.pages)| == c.pages as nat + 1 by { ScriptLength(c.pages); }
    PagesPickedUp(s, c.pages, w.received, bytes, readings, known);
    assert IsLetter(s, w.received[k], bytes[k], readings[k], known[k]);
    DataLetter(s, bytes[k], readings[k], known[k]);
    ReceiverRecoversReadings(s.sensors, s.maxSize, bytes[1..1 + c.pages as nat], known[1..1 + c.pages as nat],
                             readings[k], s.version);
  }

  lemma ScriptLength(pages: byte)
    ensures |Script(pages)| == pages as nat + 1
  {
  }

  // ---------------------------------------------------------------- many daemons, one memory

  /** What a daemon writes into its slot: the byte that clears a command, or a message made of the readings
      and the groups known at that time. */
  datatype Action = Clear | Send(letter: Letter, bytes: seq<byte>, readings: seq<Reading>, known: Groups)

  /** An action of the daemon of a slot. */
  datatype SlotAction = SlotAction(slot: nat, action: Action)

  /** Every slot has a daemon whose sensors and basic information fit the segment of the board. */
  ghost predicate CanShare(h: Header, senders: seq<Sender>) {
    && HasArea(h) && |senders| == h.maxSlots
    && forall i :: 0 <= i < |senders| ==> CanSend(senders[i]) && senders[i].maxSize == SegmentSize(h)
  }

  ghost predicate IsAction(h: Header, senders: seq<Sender>, a: SlotAction)
    requires CanShare(h, senders)
  {
    && a.slot < h.maxSlots
    && (a.action.Send? ==>
          IsLetter(senders[a.slot], a.action.letter, a.action.bytes, a.action.readings, a.action.known))
  }

  ghost predicate AreActions(h: Header, senders: seq<Sender>, actions: seq<SlotAction>) {
    CanShare(h, senders) && forall k :: 0 <= k < |actions| ==> IsAction(h, senders, actions[k])
  }

  function WriteOf(a: SlotAction): SlotWrite {
    SlotWrite(a.slot, if a.action.Clear? then [EMPTY] else a.action.bytes)
  }

  function WritesOf(actions: seq<SlotAction>): (r: seq<SlotWrite>)
    ensures |r| == |actions| && forall k :: 0 <= k < |r| ==> r[k] == WriteOf(actions[k])
  {
    seq(|actions|, k requires 0 <= k < |actions| => WriteOf(actions[k]))
  }

  /** No message is longer than the segment it was made for, nor is the byte that clears a command. */
  lemma LettersFitSegment(s: Sender, letter: Letter, sent: seq<byte>, readings: seq<Reading>, known: Groups)
    requires CanSend(s) && IsLetter(s, letter, sent, readings, known)
    ensures 1 <= s.maxSize && |sent| <= s.maxSize
  {
    hide AllDescribable, PageCount, EntriesOn, StartOf, Numbered, PageBytes, DataBytes, AllFit, FromBe16;
    if letter.Page? {
      PageBounds(|s.sensors|, PerPage(s.maxSize), letter.number as nat);
    }
  }

  /** Every write of every daemon stays inside the segment of its own slot, for every memory header. */
  lemma ActionsAreWritable(h: Header, senders: seq<Sender>, actions: seq<SlotAction>)
    requires AreActions(h, senders, actions)
    ensures AllWritable(h, WritesOf(actions))
  {
    hide IsLetter, CanSend, SegmentSize, HasArea;
    var ws := WritesOf(actions);
    forall k | 0 <= k < |ws| ensures Writable(h, ws[k]) {
      var a := actions[k];
      assert IsAction(h, senders, a);
      var s := senders[a.slot];
      assert 1 <= s.maxSize by { BasicFits(s); }
      if a.action.Send? {
        LettersFitSegment(s, a.action.letter, a.action.bytes, a.action.readings, a.action.known);
      }
    }
  }

  lemma BasicFits(s: Sender)
    requires CanSend(s)
    ensures 1 <= s.maxSize
  {
    hide AllDescribable, PageCount, FromBe16;
  }

  /** For every memory header and every interleaving of the daemons of all slots, each of which sends its
      messages and clears commands: the segment of a slot holds what the actions of its own daemon would
      have left in a private buffer, and the memory before the segments is unchanged. */
  lemma DaemonsDoNotInterfere(h: Header, senders: seq<Sender>, mem: seq<byte>, actions: seq<SlotAction>, slot: nat)
    requires AreActions(h, senders, actions) && slot < h.maxSlots && |mem| == h.size
    ensures AllWritable(h, WritesOf(actions))
    ensures var after := WrittenAll(h, mem, WritesOf(actions));
            && Segment(h, after, slot) == WrittenAlone(Segment(h, mem, slot), Own(WritesOf(actions), slot))
            && AreaOffset(h) <= |mem| && after[..AreaOffset(h)] == mem[..AreaOffset(h)]
  {
    hide AreActions, WrittenAll, Segment, WrittenAlone, Own, AllWritable, WritesOf, SegmentSize;
    ActionsAreWritable(h, senders, actions);
    assert HasArea(h) by { Shared(h, senders, actions); }
    SlotsDoNotInterfere(h, mem, WritesOf(actions), slot);
  }

  lemma Shared(h: Header, senders: seq<Sender>, actions: seq<SlotAction>)
    requires AreActions(h, senders, actions)
    ensures HasArea(h)
  {
  }
}
