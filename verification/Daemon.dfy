/**
 The daemon's loop over the memory of the dummy communicator: the same decisions as the state machine of
 the message slot, the bytes each of them writes, and the sequence of messages of a whole run.
 */
module DaemonLoop {
  import opened Options
  import opened Bytes
  import opened SensorPages
  import opened SensorMessages
  import opened SensorSets
  import opened Segments
  import opened DummyMemory
  import opened Mailbox

  /** The message header at an offset: the kind, and the size in network byte order. */
  function HeadAt(mem: seq<byte>, offset: nat): Head
    requires offset + MESSAGE_HEADER <= |mem|
  {
    Head(mem[offset], FromBe16(mem[offset + 1..offset + 3]))
  }

  /** The bytes of a message announce its kind and its length. */
  predicate IsMessage(bytes: seq<byte>, kind: byte, maxSize: nat) {
    MESSAGE_HEADER <= |bytes| <= maxSize && bytes[0] == kind && FromBe16(bytes[1..3]) == |bytes|
  }

  /** The slot's memory after a write that the management side takes at once. */
  function TakenAfter(mem: seq<byte>, offset: nat, bytes: seq<byte>): (r: seq<byte>)
    requires |mem| == MEMORY_SIZE && offset + |bytes| <= MEMORY_SIZE
    ensures |r| == |mem|
  {
    Taken(Overlay(mem, offset, bytes))
  }

  lemma HeadAfterWrite(mem: seq<byte>, slot: nat, bytes: seq<byte>)
    requires |mem| == MEMORY_SIZE && slot < SLOTS && MESSAGE_HEADER <= |bytes| <= 1020
    ensures SlotByte(slot) + |bytes| <= MEMORY_SIZE
    ensures HeadAt(TakenAfter(mem, SlotByte(slot), bytes), SlotByte(slot)) == Head(EMPTY, FromBe16(bytes[1..3]))
  {
    hide Taken, FromBe16;
    var offset := SlotByte(slot);
    var over := Overlay(mem, offset, bytes);
    TakenAt(over, offset);
    TakenAt(over, offset + 1);
    TakenAt(over, offset + 2);
    var after := Taken(over);
    assert after[offset + 1..offset + 3] == bytes[1..3];
  }

  lemma PageIsMessage(sensors: seq<Named>, perPage: nat, page: nat, groups: Groups, maxSize: nat)
    requires AllDescribable(sensors) && Numbered(groups)
    requires perPage > 0 && 1 <= page <= PageCount(|sensors|, perPage) <= 255 && perPage <= 255
    requires |PageBytes(sensors, perPage, page, groups)| <= maxSize < 0x1_0000
    ensures IsMessage(PageBytes(sensors, perPage, page, groups), MONITORING_DESCRIPTION, maxSize)
  {
    hide Numbered, AllDescribable, PageCount, EntriesOn, EntriesBytes, Be16, FromBe16, StartOf;
    var b := PageBytes(sensors, perPage, page, groups);
    PageBounds(|sensors|, perPage, page);
    assert b[1..3] == Be16(|b|);
    Be16ReadsBack(|b|);
  }

  lemma DataIsMessage(sensors: seq<Named>, readings: seq<Reading>, version: byte, maxSize: nat)
    requires AllFit(sensors, readings) && DataSize(sensors) <= maxSize < 0x1_0000
    ensures IsMessage(DataBytes(sensors, readings, version), MONITORING_DATA, maxSize)
    ensures DataBytes(sensors, readings, version)[3] == version
  {
    hide AllFit, BlocksBytes, Be16, FromBe16, SizeSum;
    var b := DataBytes(sensors, readings, version);
    assert b[1..3] == Be16(|b|);
    Be16ReadsBack(|b|);
  }

  /** What the bytes of the messages depend on and no iteration changes. */
  datatype Sender = Sender(sensors: seq<Named>, maxSize: nat, basic: seq<byte>, version: byte)

  ghost predicate CanSend(s: Sender) {
    && AllDescribable(s.sensors) && Pageable(|s.sensors|, s.maxSize) && s.maxSize < 0x1_0000
    && 1 <= PageCount(|s.sensors|, PerPage(s.maxSize)) <= 254
    && DataSize(s.sensors) <= s.maxSize && IsMessage(s.basic, BASIC_INFORMATION, s.maxSize)
  }

  /** The bytes are those of the message; a page also depends on the groups known before it. */
  ghost predicate IsLetter(s: Sender, letter: Letter, sent: seq<byte>, readings: seq<Reading>, groups: Groups)
    requires CanSend(s)
  {
    match letter
    case Basic => sent == s.basic
    case Page(n) =>
      && Numbered(groups) && 1 <= n as nat <= PageCount(|s.sensors|, PerPage(s.maxSize))
      && sent == PageBytes(s.sensors, PerPage(s.maxSize), n as nat, groups)
    case Data => AllFit(s.sensors, readings) && sent == DataBytes(s.sensors, readings, s.version)
  }

  class Daemon {
    var state: State
    var currentPage: byte
    var firstWriteDone: bool
    const comm: CommunicatorDummy
    const sensors: SensorSet
    const slot: nat
    const messageOffset: nat
    const messageMaxSize: nat
    const basic: seq<byte>       // the basic information block of the node

    ghost function Now(): Vars
      reads this
    {
      Vars(state, currentPage, firstWriteDone)
    }

    ghost function Sending(): Sender
      reads this, sensors, sensors.data
      requires sensors.data.Length >= DATA_HEADER
    {
      Sender(sensors.sensors, messageMaxSize, basic, sensors.data[3])
    }

    ghost function Pages(): (r: byte)
      reads this, sensors
      requires Pageable(|sensors.sensors|, messageMaxSize)
    {
      PageCount(|sensors.sensors|, PerPage(messageMaxSize))
    }

    /** The segment is the one of the slot, all messages fit it, and the page number is a page. */
    ghost predicate Valid()
      reads this, comm, sensors
    {
      && comm.Valid() && sensors.Valid() && comm.data != sensors.data
      && slot < SLOTS && messageOffset == SlotByte(slot) && messageMaxSize == 1020
      && Pageable(|sensors.sensors|, messageMaxSize) && 1 <= Pages() <= 254
      && DATA_HEADER <= sensors.size <= messageMaxSize && IsMessage(basic, BASIC_INFORMATION, messageMaxSize)
      && 1 <= currentPage <= Pages() && (state.StateBasicInformation? ==> currentPage == 1)
    }

    /** The start of run: the header of the memory gives the segment, or no start. */
    static method Locate(comm: CommunicatorDummy, slot: nat) returns (r: Option<(nat, nat)>)
      requires comm.Valid() && HasArea(ReadHeader(comm.data[..DAEMON_HEADER]))
      ensures var h := ReadHeader(comm.data[..DAEMON_HEADER]);
              r == if comm.data[..4] == [0x52, 0x45, 0x43, 0x53] && h.maxSlots > 0 && SegmentSize(h) >= 4
                   then Some((SegmentOffset(h, slot), SegmentSize(h))) else None
    {
      hide ReadHeader, SegmentOffset, SegmentSize, HasArea;
      var header := comm.ReadData(0, DAEMON_HEADER);
      assert header[..4] == comm.data[..4];
      if !HasMagic(header) {
        return None;
      }
      var h := ReadHeader(header);
      if h.maxSlots == 0 {
        return None;
      }
      var offset, size := FindSegment(h, slot);
      if size < MESSAGE_HEADER {
        return None;
      }
      return Some((offset, size));
    }

    constructor (comm: CommunicatorDummy, sensors: SensorSet, slot: nat, basic: seq<byte>, segment: (nat, nat))
      requires comm.Valid() && sensors.Valid() && comm.data != sensors.data && slot < SLOTS
      requires HasArea(OWN_HEADER) && segment == (SegmentOffset(OWN_HEADER, slot), SegmentSize(OWN_HEADER))
      requires Pageable(|sensors.sensors|, 1020) && 1 <= PageCount(|sensors.sensors|, PerPage(1020)) <= 254
      requires sensors.size <= 1020 && IsMessage(basic, BASIC_INFORMATION, 1020)
      ensures Valid() && Now() == INITIAL && this.comm == comm && this.sensors == sensors && this.basic == basic
    {
      ClearsWhereDaemonWrites(slot);
      this.comm, this.sensors, this.slot, this.basic := comm, sensors, slot, basic;
      messageOffset, messageMaxSize := segment.0, segment.1;
      state, currentPage, firstWriteDone := StateBasicInformation, 1, false;
    }

    method ResetStatemachine()
      requires Valid()
      modifies this
      ensures Valid() && Now() == INITIAL
    {
      state := StateBasicInformation;
      currentPage := 1;
      firstWriteDone := false;
    }

    /** The basic information block goes into the slot. */
    method SendBasic() returns (sent: seq<byte>)
      requires Valid()
      modifies comm.data
      ensures Valid() && IsMessage(sent, BASIC_INFORMATION, messageMaxSize) && sent == basic
      ensures comm.data[..] == TakenAfter(old(comm.data[..]), messageOffset, sent)
    {
      hide Taken, Overlay, PageCount, AllDescribable, Numbered, PerPage, DataSize, SlotByte;
      sent := basic;
      assert sent[..|sent|] == sent;
      SlotInMemory(slot);
      var _ := comm.WriteData(messageOffset, sent);
    }

    /** The data message goes into the slot. */
    method SendData(readings: seq<Reading>) returns (sent: seq<byte>)
      requires Valid() && AllFit(sensors.sensors, readings)
      modifies comm.data, sensors.data
      ensures Valid() && IsMessage(sent, MONITORING_DATA, messageMaxSize)
      ensures sensors.data[3] == old(sensors.data[3])
      ensures sent == DataBytes(sensors.sensors, readings, sensors.data[3])
      ensures comm.data[..] == TakenAfter(old(comm.data[..]), messageOffset, sent)
    {
      hide Taken, Overlay, DataBytes, PageCount, AllDescribable, Numbered, AllFit, PerPage, SizeSum, IsMessage, SlotByte;
      DataIsMessage(sensors.sensors, readings, sensors.data[3], messageMaxSize);
      var message := sensors.GetMessage(readings);
      sent := message[..];
      assert |sent| <= messageMaxSize && sent[..|sent|] == sent;
      SlotInMemory(slot);
      var _ := comm.WriteData(messageOffset, sent);
    }

    /** The current description page goes into the slot. */
    method SendPage() returns (sent: seq<byte>, maxPages: byte)
      requires Valid()
      modifies comm.data, sensors`knownGroups
      ensures Valid() && maxPages == Pages() && IsMessage(sent, MONITORING_DESCRIPTION, messageMaxSize)
      ensures sent == PageBytes(sensors.sensors, PerPage(messageMaxSize), currentPage as nat, old(sensors.knownGroups))
      ensures comm.data[..] == TakenAfter(old(comm.data[..]), messageOffset, sent)
    {
      hide Taken, Overlay, PageBytes, PageCount, AllDescribable, Numbered, PerPage, DataSize, EntriesOn, IsMessage, SlotByte;
      var desc := new byte[messageMaxSize];
      var length;
      length, maxPages := sensors.GetDescriptionPage(desc, messageMaxSize, currentPage);
      sent := desc[..length];
      PageIsMessage(sensors.sensors, PerPage(messageMaxSize), currentPage as nat, old(sensors.knownGroups), messageMaxSize);
      assert sent[..|sent|] == sent;
      SlotInMemory(slot);
      var _ := comm.WriteData(messageOffset, sent);
    }

    /** The branch of an iteration that writes the next message. */
    method WriteNext(readings: seq<Reading>) returns (sent: seq<byte>)
      requires Valid() && AllFit(sensors.sensors, readings)
      modifies this, comm.data, sensors.data, sensors`knownGroups
      ensures Valid() && Now() == AfterWrite(old(state), old(Now()), Pages())
      ensures IsMessage(sent, TypeOf(NextLetter(old(Now()))), messageMaxSize)
      ensures Sending() == old(Sending()) && CanSend(Sending())
      ensures IsLetter(Sending(), NextLetter(old(Now())), sent, readings, old(sensors.knownGroups))
      ensures comm.data[..] == TakenAfter(old(comm.data[..]), messageOffset, sent)
    {
      hide Taken, Overlay, PageBytes, DataBytes, PageCount, AllDescribable, Numbered, AllFit, PerPage, SizeSum;
      hide IsMessage, SlotByte, TakenAfter;
      if state == StateBasicInformation {
        sent := SendBasic();
        state := StateMonitoringDescription;
      } else if state == StateMonitoringData {
        sent := SendData(readings);
      } else {
        var maxPages;
        sent, maxPages := SendPage();
        currentPage := Incremented(currentPage);
        if currentPage > maxPages {
          currentPage := 1;
          state := StateMonitoringData;
        }
      }
      firstWriteDone := true;
    }

    /** The branch of an iteration that finds a command: the whole message is handed on when it is
        accepted (address and signature), and the slot is cleared either way. */
    method HandleCommand(header: seq<byte>, size: nat, accept: seq<byte> -> bool) returns (executed: Option<seq<byte>>)
      requires Valid() && MESSAGE_HEADER <= size <= messageMaxSize
      requires header == comm.data[messageOffset..messageOffset + MESSAGE_HEADER]
      modifies comm.data
      ensures Valid()
      ensures messageOffset + size <= MEMORY_SIZE
      ensures var message := old(comm.data[messageOffset..messageOffset + size]);
              executed == if accept(message) then Some(message) else None
      ensures comm.data[..] == TakenAfter(old(comm.data[..]), messageOffset, [EMPTY])
    {
      hide Taken, Overlay, PageCount, AllDescribable, Numbered, PerPage, DataSize, SlotByte, IsMessage;
      SlotInMemory(slot);
      var rest := comm.ReadData(messageOffset + MESSAGE_HEADER, size - MESSAGE_HEADER);
      var message := header + rest;
      assert message == comm.data[messageOffset..messageOffset + size];
      executed := if accept(message) then Some(message) else None;
      assert [EMPTY][..1] == [EMPTY];
      var _ := comm.WriteData(messageOffset, [EMPTY]);
    }

    /** One pass of the loop: the decision is that of the state machine on the header in the slot. */
    method Iterate(readings: seq<Reading>, accept: seq<byte> -> bool)
      returns (decision: Decision, executed: Option<seq<byte>>, sent: seq<byte>)
      requires Valid() && AllFit(sensors.sensors, readings)
      requires messageOffset + MESSAGE_HEADER <= MEMORY_SIZE
      requires var head := HeadAt(comm.data[..], messageOffset); head.kind == COMMAND ==> head.size >= MESSAGE_HEADER
      modifies this, comm.data, sensors.data, sensors`knownGroups
      ensures Valid() && Sending() == old(Sending()) && CanSend(Sending())
      ensures decision == Decide(old(Now()), HeadAt(old(comm.data[..]), messageOffset), messageMaxSize)
      ensures Now() == if decision.Write? then AfterWrite(old(state), old(Now()), Pages()) else old(Now())
      ensures decision.Write? ==>
                && decision.letter == NextLetter(old(Now()))
                && IsMessage(sent, TypeOf(decision.letter), messageMaxSize)
                && IsLetter(Sending(), decision.letter, sent, readings, old(sensors.knownGroups))
                && comm.data[..] == TakenAfter(old(comm.data[..]), messageOffset, sent)
      ensures decision.Execute? ==> comm.data[..] == TakenAfter(old(comm.data[..]), messageOffset, [EMPTY])
      ensures decision.Wait? || decision.TooLarge? ==> comm.data[..] == old(comm.data[..])
      ensures decision.Execute? ==>
                var size := HeadAt(old(comm.data[..]), messageOffset).size;
                && messageOffset + size <= MEMORY_SIZE
                && executed == var message := old(comm.data[..])[messageOffset..messageOffset + size];
                               if accept(message) then Some(message) else None
      ensures !decision.Execute? ==> executed == None
    {
      hide Taken, Overlay, PageBytes, DataBytes, PageCount, AllDescribable, Numbered, AllFit, PerPage, SizeSum, AfterWrite;
      hide IsMessage, SlotByte, TakenAfter, IsLetter, FromBe16;
      executed, sent := None, [];
      SenderCanSend();
      var header := comm.ReadData(messageOffset, MESSAGE_HEADER);
      var kind, size := header[0], FromBe16(header[1..3]);
      assert header[1..3] == comm.data[..][messageOffset + 1..messageOffset + 3];
      if size > messageMaxSize {
        return TooLarge, executed, sent;
      }
      if kind == COMMAND {
        executed := HandleCommand(header, size, accept);
        return Execute, executed, sent;
      }
      if (kind == MONITORING_DESCRIPTION || kind == BASIC_INFORMATION || kind == COMMAND_RESULT) && firstWriteDone {
        return Wait, executed, sent;
      }
      decision := Write(NextLetter(Vars(state, currentPage, firstWriteDone)));
      sent := WriteNext(readings);
    }

    /** The end of run: the sensors are dropped, and an empty page goes over whatever is in the slot. */
    method Quit() returns (sent: seq<byte>)
      requires Valid()
      modifies comm.data, sensors`sensors, sensors`knownGroups
      ensures |sent| == DESCRIPTION_HEADER && ReadPage(sent) == Some([])
      ensures messageOffset + |sent| <= MEMORY_SIZE
      ensures comm.data[..] == TakenAfter(old(comm.data[..]), messageOffset, sent)
    {
      hide Taken, Overlay, PageBytes, Numbered, SlotByte, IsMessage, ReadPage, FromBe16, EntriesOn, StartOf;
      sensors.Clear();
      var desc := new byte[messageMaxSize];
      NoSensorsOnePage();
      var length, maxPages := sensors.GetDescriptionPage(desc, messageMaxSize, 1);
      sent := desc[..length];
      PageReadsBack([], PerPage(messageMaxSize), 1, map[]);
      assert sent[..|sent|] == sent;
      SlotInMemory(slot);
      var _ := comm.WriteData(messageOffset, sent);
    }

    lemma SenderCanSend()
      requires Valid()
      ensures CanSend(Sending())
    {
      hide IsMessage, Numbered, AllDescribable, SizeSum, PageCount, PerPage;
    }

    /** The loop of run, over as many passes as there are lists of readings: it never waits, and message
        number k of the script goes out in pass k; the data state is reached in one pass for the basic
        information and one for each page. */
    method Run(rounds: seq<seq<Reading>>, accept: seq<byte> -> bool) returns (sent: seq<seq<byte>>, ghost known: seq<Groups>)
      requires Valid() && forall k :: 0 <= k < |rounds| ==> AllFit(sensors.sensors, rounds[k])
      requires messageOffset + MESSAGE_HEADER <= MEMORY_SIZE
      requires var head := HeadAt(comm.data[..], messageOffset); head.kind == EMPTY && head.size <= messageMaxSize
      modifies this, comm.data, sensors.data, sensors`knownGroups
      ensures Valid() && Sending() == old(Sending()) && CanSend(Sending())
      ensures |sent| == |known| == |rounds|
      ensures forall k {:trigger sent[k]} :: 0 <= k < |rounds| ==>
                IsLetter(Sending(), Scripted(Pages(), k), sent[k], rounds[k], known[k])
      ensures Now() == VarsAt(Pages(), |rounds|)
      ensures state.StateMonitoringData? <==> |rounds| >= 1 + Pages() as nat
    {
      hide Taken, Overlay, PageCount, AllDescribable, Numbered, AllFit, PerPage, SizeSum, AfterWrite, CanSend;
      hide SlotByte, TakenAfter, IsLetter, FromBe16, VarsAt, Scripted;
      ResetStatemachine();
      SenderCanSend();
      sent, known := [], [];
      ghost var sender, pages := Sending(), Pages();
      FirstVars(pages);
      var i := 0;
      while i < |rounds|
        invariant i <= |rounds| && |sent| == |known| == i
        invariant Valid() && Sending() == sender && CanSend(sender) && Pages() == pages
        invariant Now() == VarsAt(pages, i)
        invariant var head := HeadAt(comm.data[..], messageOffset); head.kind == EMPTY && head.size <= messageMaxSize
        invariant forall k {:trigger sent[k]} :: 0 <= k < i ==>
                    IsLetter(sender, Scripted(pages, k), sent[k], rounds[k], known[k])
      {
        ghost var mem := comm.data[..];
        WriteAdvancesByOne(pages, Now(), i);
        known := known + [sensors.knownGroups];
        var decision, executed, bytes := Iterate(rounds[i], accept);
        assert decision == Write(Scripted(pages, i));
        HeadAfterMessage(mem, slot, bytes, TypeOf(Scripted(pages, i)));
        sent := sent + [bytes];
        i := i + 1;
      }
      DataStateAt(pages, |rounds|);
    }
  }

  lemma FirstVars(pages: byte)
    ensures VarsAt(pages, 0) == INITIAL
  {
  }

  lemma WriteAdvancesByOne(pages: byte, v: Vars, n: nat)
    requires pages >= 1 && v == VarsAt(pages, n)
    ensures NextLetter(v) == Scripted(pages, n) && AfterWrite(v.state, v, pages) == VarsAt(pages, n + 1)
  {
    hide *;
    WriteAdvances(pages, v, n);
  }

  lemma HeadAfterMessage(mem: seq<byte>, slot: nat, bytes: seq<byte>, kind: byte)
    requires |mem| == MEMORY_SIZE && slot < SLOTS && IsMessage(bytes, kind, 1020)
    ensures SlotByte(slot) + |bytes| <= MEMORY_SIZE
    ensures HeadAt(TakenAfter(mem, SlotByte(slot), bytes), SlotByte(slot)) == Head(EMPTY, |bytes|)
    ensures |bytes| <= 1020
  {
    hide TakenAfter, HeadAt;
    HeadAfterWrite(mem, slot, bytes);
  }

  lemma DataStateAt(pages: byte, n: nat)
    requires 1 <= pages <= 254
    ensures VarsAt(pages, n).state.StateMonitoringData? <==> n >= 1 + pages as nat
  {
  }

  lemma NoSensorsOnePage()
    ensures Pageable(0, 1020) && PageCount(0, PerPage(1020)) == 1 && EntriesOn(0, PerPage(1020), 1) == 0
  {
    assert PerPage(1020) == 14;
  }

  lemma SlotInMemory(slot: nat)
    requires slot < SLOTS
    ensures SlotByte(slot) + 1020 <= MEMORY_SIZE
  {
  }
}
