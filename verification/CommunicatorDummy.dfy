/**
 The communicator that plays the management side itself: a block of memory in which every message is
 taken as soon as it is written.
 */
module DummyMemory {
  import opened Bytes
  import opened Segments

  const MEMORY_SIZE := 4096
  const SLOTS := 4

  /** The header that this memory has. */
  const OWN_HEADER := Header(MEMORY_SIZE, SLOTS, 3, DAEMON_HEADER)

  function SlotByte(i: nat): nat {
    DAEMON_HEADER + i * ((MEMORY_SIZE - DAEMON_HEADER) / SLOTS)
  }

  /** The place that is cleared for slot i is where the daemon of slot i writes. */
  lemma ClearsWhereDaemonWrites(slot: nat)
    requires slot < SLOTS
    ensures HasArea(OWN_HEADER) && SlotByte(slot) == SegmentOffset(OWN_HEADER, slot) < MEMORY_SIZE
    ensures SegmentSize(OWN_HEADER) == 1020
  {
  }

  /** The memory when the messages of slots below n have been taken. */
  function TakenUpTo(mem: seq<byte>, n: nat): (r: seq<byte>)
    requires |mem| == MEMORY_SIZE && n <= SLOTS
    ensures |r| == |mem|
  {
    if n == 0 then mem else TakenUpTo(mem, n - 1)[SlotByte(n - 1) := 0]
  }

  /** The memory when management has taken all messages. */
  function Taken(mem: seq<byte>): (r: seq<byte>)
    requires |mem| == MEMORY_SIZE
    ensures |r| == |mem|
  {
    TakenUpTo(mem, SLOTS)
  }

  lemma TakenAt(mem: seq<byte>, k: nat)
    requires |mem| == MEMORY_SIZE && k < MEMORY_SIZE
    ensures Taken(mem)[k] == if exists slot: nat :: slot < SLOTS && k == SlotByte(slot) then 0 else mem[k]
  {
    TakenBelow(mem, SLOTS, k);
  }

  lemma {:induction false} TakenBelow(mem: seq<byte>, n: nat, k: nat)
    requires |mem| == MEMORY_SIZE && n <= SLOTS && k < MEMORY_SIZE
    ensures TakenUpTo(mem, n)[k] == if exists slot: nat :: slot < n && k == SlotByte(slot) then 0 else mem[k]
  {
    hide SlotByte;
    if n > 0 {
      ClearsWhereDaemonWrites(n - 1);
      TakenBelow(mem, n - 1, k);
    }
  }

  class CommunicatorDummy {
    const data: array<byte>

    ghost predicate Valid()
      reads this
    {
      data.Length == MEMORY_SIZE
    }

    /** initInterface: zeros behind the header; one reserved byte of the header is not set. */
    constructor (reserved: byte)
      ensures Valid() && fresh(data)
      ensures data[..] == HeaderBytes(MEMORY_SIZE, 1, SLOTS, 3, reserved, DAEMON_HEADER, DAEMON_HEADER)
                          + Zeros(MEMORY_SIZE - DAEMON_HEADER)
    {
      data := new byte[MEMORY_SIZE](_ => 0);
      new;
      hide HeaderBytes;
      Copy(data, 0, HeaderBytes(MEMORY_SIZE, 1, SLOTS, 3, reserved, DAEMON_HEADER, DAEMON_HEADER));
    }

    method ReadData(offset: nat, count: nat) returns (bytes: seq<byte>)
      requires Valid() && offset <= MEMORY_SIZE
      ensures |bytes| == Clamped(MEMORY_SIZE, offset, count) && bytes == data[offset..offset + |bytes|]
    {
      var n := if offset + count > MEMORY_SIZE then MEMORY_SIZE - offset else count;
      bytes := data[offset..offset + n];
    }

    method WriteData(offset: nat, bytes: seq<byte>) returns (n: nat)
      requires Valid() && offset <= MEMORY_SIZE
      modifies data
      ensures n == Clamped(MEMORY_SIZE, offset, |bytes|)
      ensures data[..] == Taken(Overlay(old(data[..]), offset, bytes[..n]))
    {
      hide Taken, Overlay;
      n := |bytes|;
      if offset + n > MEMORY_SIZE {
        n := MEMORY_SIZE - offset;
      }
      Copy(data, offset, bytes[..n]);
      ParseData();
    }

    /** parseData: mark the message of every slot as processed. */
    method ParseData()
      requires Valid()
      modifies data
      ensures data[..] == Taken(old(data[..]))
    {
      hide SlotByte;
      ghost var was := data[..];
      var i := 0;
      while i < SLOTS
        invariant i <= SLOTS && data[..] == TakenUpTo(was, i)
      {
        var messageOffset := DAEMON_HEADER;
        var messageMaxSize := MEMORY_SIZE - messageOffset;
        if SLOTS > 1 {
          messageMaxSize := messageMaxSize / SLOTS;
          messageOffset := messageOffset + i * messageMaxSize;
        }
        ClearsWhereDaemonWrites(i);
        SlotByteIs(i);
        data[messageOffset] := 0;
        i := i + 1;
      }
    }
  }

  lemma SlotByteIs(i: nat)
    ensures SlotByte(i) == DAEMON_HEADER + i * ((MEMORY_SIZE - DAEMON_HEADER) / SLOTS)
  {
  }
}
