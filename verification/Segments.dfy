/**
 How the shared memory is divided: every node slot of a baseboard has its own segment, and daemons that
 write at the head of their segments do not disturb each other.
 */
module Segments {
  import opened Arithmetic
  import opened Bytes

  const DAEMON_HEADER := 14
  const MESSAGE_HEADER := 4
  const OLD_AREA_OFFSET := 66

  // ---------------------------------------------------------------- the memory header

  /** The fields of the memory header that the computation uses. */
  datatype Header = Header(size: nat, maxSlots: nat, version: nat, dynamicAreaOffset: nat)

  /** A 16-bit field as a little-endian host stores it. */
  function Le16(n: nat): (r: seq<byte>)
    ensures |r| == 2
  {
    [n % 256, (n / 256) % 256]
  }

  function FromLe16(b: seq<byte>): nat
    requires |b| == 2
  {
    b[0] as nat + 256 * b[1] as nat
  }

  /** The memory header: "RECS", size, baseboard, slots, version, a reserved byte, two offsets. */
  function HeaderBytes(size: nat, baseboard: byte, slots: byte, version: byte, reserved: byte,
                       chunksOffset: nat, dynamicAreaOffset: nat): (r: seq<byte>)
    ensures |r| == DAEMON_HEADER
  {
    [0x52, 0x45, 0x43, 0x53] + Le16(size) + [baseboard, slots, version, reserved]
    + Le16(chunksOffset) + Le16(dynamicAreaOffset)
  }

  predicate HasMagic(b: seq<byte>) {
    |b| >= 4 && b[..4] == [0x52, 0x45, 0x43, 0x53]
  }

  function ReadHeader(b: seq<byte>): Header
    requires |b| == DAEMON_HEADER
  {
    Header(FromLe16(b[4..6]), b[7] as nat, b[8] as nat, FromLe16(b[12..14]))
  }

  lemma Le16ReadsBack(n: nat)
    requires n < 0x1_0000
    ensures FromLe16(Le16(n)) == n
  {
  }

  lemma HeaderReadsBack(size: nat, baseboard: byte, slots: byte, version: byte, reserved: byte,
                        chunksOffset: nat, dynamicAreaOffset: nat)
    requires size < 0x1_0000 && chunksOffset < 0x1_0000 && dynamicAreaOffset < 0x1_0000
    ensures var b := HeaderBytes(size, baseboard, slots, version, reserved, chunksOffset, dynamicAreaOffset);
            && HasMagic(b) && ReadHeader(b) == Header(size, slots as nat, version as nat, dynamicAreaOffset)
            && b[6] == baseboard && FromLe16(b[10..12]) == chunksOffset
  {
    hide Le16, FromLe16;
    var b := HeaderBytes(size, baseboard, slots, version, reserved, chunksOffset, dynamicAreaOffset);
    assert b[4..6] == Le16(size);
    assert b[10..12] == Le16(chunksOffset);
    assert b[12..14] == Le16(dynamicAreaOffset);
    Le16ReadsBack(size);
    Le16ReadsBack(chunksOffset);
    Le16ReadsBack(dynamicAreaOffset);
  }

  // ---------------------------------------------------------------- segments

  function AreaOffset(h: Header): nat {
    if h.version < 3 then OLD_AREA_OFFSET else h.dynamicAreaOffset
  }

  /** The area lies inside the memory; otherwise the subtraction wraps around. */
  predicate HasArea(h: Header) {
    AreaOffset(h) <= h.size
  }

  function SegmentSize(h: Header): nat
    requires HasArea(h)
  {
    (h.size - AreaOffset(h)) / if h.maxSlots > 1 then h.maxSlots else 1
  }

  function SegmentOffset(h: Header, slot: nat): nat
    requires HasArea(h)
  {
    AreaOffset(h) + if h.maxSlots > 1 then slot * SegmentSize(h) else 0
  }

  /** messageOffset and messageMaxSize as run computes them. */
  method FindSegment(h: Header, slot: nat) returns (messageOffset: nat, messageMaxSize: nat)
    requires HasArea(h)
    ensures messageOffset == SegmentOffset(h, slot) && messageMaxSize == SegmentSize(h)
    ensures slot < h.maxSlots ==> messageOffset + messageMaxSize <= h.size
  {
    messageOffset := h.dynamicAreaOffset;
    if h.version < 3 {
      messageOffset := 9 + 57;
    }
    messageMaxSize := h.size - messageOffset;
    if h.maxSlots > 1 {
      messageMaxSize := messageMaxSize / h.maxSlots;
      messageOffset := messageOffset + slot * messageMaxSize;
    }
    if slot < h.maxSlots {
      SegmentInside(h, slot);
    }
  }

  /** Cut n into parts equal parts: part number slot ends inside. */
  lemma PartInside(n: nat, parts: nat, slot: nat)
    requires slot < parts
    ensures slot * (n / parts) + n / parts <= n
  {
    var q := n / parts;
    assert n == q * parts + n % parts;
    MulMonotone(slot + 1, parts, q);
    assert (slot + 1) * q == slot * q + q && parts * q == q * parts;
  }

  lemma SegmentInside(h: Header, slot: nat)
    requires HasArea(h) && slot < h.maxSlots
    ensures AreaOffset(h) <= SegmentOffset(h, slot)
    ensures SegmentOffset(h, slot) + SegmentSize(h) <= h.size
  {
    if h.maxSlots > 1 {
      PartInside(h.size - AreaOffset(h), h.maxSlots, slot);
    }
  }

  /** The area is cut into as many equal segments as there are slots, at least one, and they could not be one
      byte longer; the first starts at the area, which in versions before 3 begins at byte 66, and each of
      the others where the one before ends. */
  lemma SegmentsFillArea(h: Header, slot: nat)
    requires HasArea(h) && slot < h.maxSlots
    ensures SegmentOffset(h, 0) == if h.version < 3 then 66 else h.dynamicAreaOffset
    ensures var n := if h.maxSlots > 1 then h.maxSlots else 1;
            n * SegmentSize(h) <= h.size - SegmentOffset(h, 0) < n * (SegmentSize(h) + 1)
    ensures slot > 0 ==> SegmentOffset(h, slot) == SegmentOffset(h, slot - 1) + SegmentSize(h)
  {
    var n := if h.maxSlots > 1 then h.maxSlots else 1;
    var area, q := h.size - AreaOffset(h), SegmentSize(h);
    assert area == n * q + area % n && n * (q + 1) == n * q + n;
    assert 0 * q == 0;
    if slot > 0 {
      assert (slot - 1) * q + q == slot * q;
    }
  }

  /** Segments lie one behind the other inside the memory, so two of them share no byte. */
  lemma SegmentsDisjoint(h: Header, i: nat, j: nat)
    requires HasArea(h) && i < j < h.maxSlots
    ensures AreaOffset(h) <= SegmentOffset(h, i)
    ensures SegmentOffset(h, i) + SegmentSize(h) <= SegmentOffset(h, j)
    ensures SegmentOffset(h, j) + SegmentSize(h) <= h.size
  {
    SegmentInside(h, i);
    SegmentInside(h, j);
    var size := SegmentSize(h);
    MulMonotone(i + 1, j, size);
    assert (i + 1) * size == i * size + size;
  }

  // ---------------------------------------------------------------- many daemons, one memory

  /** A write at the head of a segment: a message, or the one byte that clears a command. */
  datatype SlotWrite = SlotWrite(slot: nat, bytes: seq<byte>)

  ghost predicate Writable(h: Header, w: SlotWrite) {
    HasArea(h) && w.slot < h.maxSlots && |w.bytes| <= SegmentSize(h)
  }

  ghost predicate AllWritable(h: Header, ws: seq<SlotWrite>) {
    HasArea(h) && forall k :: 0 <= k < |ws| ==> Writable(h, ws[k])
  }

  ghost function Written(h: Header, mem: seq<byte>, w: SlotWrite): (r: seq<byte>)
    requires Writable(h, w) && |mem| == h.size
    ensures |r| == |mem|
  {
    SegmentInside(h, w.slot);
    Overlay(mem, SegmentOffset(h, w.slot), w.bytes)
  }

  /** The memory after the writes of all daemons, in the order they happened. */
  ghost function WrittenAll(h: Header, mem: seq<byte>, ws: seq<SlotWrite>): (r: seq<byte>)
    requires AllWritable(h, ws) && |mem| == h.size
    ensures |r| == |mem|
    decreases |ws|
  {
    if ws == [] then mem else WrittenAll(h, Written(h, mem, ws[0]), ws[1..])
  }

  ghost function Segment(h: Header, mem: seq<byte>, slot: nat): (r: seq<byte>)
    requires HasArea(h) && slot < h.maxSlots && |mem| == h.size
    ensures |r| == SegmentSize(h)
  {
    SegmentInside(h, slot);
    mem[SegmentOffset(h, slot)..SegmentOffset(h, slot) + SegmentSize(h)]
  }

  /** The writes of one slot, in order. */
  function Own(ws: seq<SlotWrite>, slot: nat): seq<seq<byte>>
    decreases |ws|
  {
    if ws == [] then []
    else if ws[0].slot == slot then [ws[0].bytes] + Own(ws[1..], slot)
    else Own(ws[1..], slot)
  }

  /** A private buffer after the writes at its head, each of which fits it. */
  function WrittenAlone(segment: seq<byte>, own: seq<seq<byte>>): seq<byte>
    decreases |own|
  {
    if own == [] || |own[0]| > |segment| then segment
    else WrittenAlone(Overlay(segment, 0, own[0]), own[1..])
  }

  lemma OneWrite(h: Header, mem: seq<byte>, w: SlotWrite, slot: nat)
    requires Writable(h, w) && slot < h.maxSlots && |mem| == h.size
    ensures Segment(h, Written(h, mem, w), slot) ==
            if w.slot == slot then Overlay(Segment(h, mem, slot), 0, w.bytes) else Segment(h, mem, slot)
    ensures Written(h, mem, w)[..AreaOffset(h)] == mem[..AreaOffset(h)]
  {
    hide SegmentSize, SegmentOffset, AreaOffset;
    SegmentInside(h, w.slot);
    SegmentInside(h, slot);
    if w.slot < slot {
      SegmentsDisjoint(h, w.slot, slot);
    } else if slot < w.slot {
      SegmentsDisjoint(h, slot, w.slot);
    }
  }

  /** In any interleaving of the writes of all slots, a segment holds what its own writes alone would
      have left in a private buffer, and what lies before the segments stays as it was. */
  lemma {:induction false} SlotsDoNotInterfere(h: Header, mem: seq<byte>, ws: seq<SlotWrite>, slot: nat)
    requires AllWritable(h, ws) && slot < h.maxSlots && |mem| == h.size
    ensures Segment(h, WrittenAll(h, mem, ws), slot) == WrittenAlone(Segment(h, mem, slot), Own(ws, slot))
    ensures WrittenAll(h, mem, ws)[..AreaOffset(h)] == mem[..AreaOffset(h)]
    decreases |ws|
  {
    hide Segment, Written, AreaOffset, Overlay;
    if ws != [] {
      OneWrite(h, mem, ws[0], slot);
      SlotsDoNotInterfere(h, Written(h, mem, ws[0]), ws[1..], slot);
    }
  }
}
