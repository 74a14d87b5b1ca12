/**
 The communicator that carries the message slot over a TCP connection.  What the network does, which
 bytes a receive returns and whether a send succeeds, is a parameter.
 */
module TcpCommunicator {
  import opened Options
  import opened Bytes
  import opened Segments
  import opened TcpFrames

  const SLOTS: byte := 1

  /** The memory when a message came out of the receive buffer. */
  function Delivered(mem: seq<byte>, payload: Option<seq<byte>>): (r: seq<byte>)
    requires |mem| == MEMORY_SIZE && (payload.Some? ==> |payload.value| <= MAX_PAYLOAD)
    ensures |r| == |mem|
  {
    if payload.Some? then Overlay(mem, DATA_START, payload.value) else mem
  }

  lemma DeliveredSome(mem: seq<byte>, payload: seq<byte>)
    requires |mem| == MEMORY_SIZE && |payload| <= MAX_PAYLOAD
    ensures Delivered(mem, Some(payload)) == Overlay(mem, DATA_START, payload)
  {
  }

  lemma DeliveredNone(mem: seq<byte>)
    requires |mem| == MEMORY_SIZE
    ensures Delivered(mem, None) == mem
  {
  }

  lemma SliceOfPrefix(s: seq<byte>, n: nat, from: nat, to: nat)
    requires from <= to <= n <= |s|
    ensures s[..n][from..to] == s[from..to]
  {
  }

  /** The branches of readData, by the single bytes that it looks at. */
  lemma ExtractCases(b: seq<byte>)
    ensures |b| <= FRAME_HEADER ==> Extract(b) == Outcome(b, None, false)
    ensures |b| > FRAME_HEADER && !(b[0] == 0x52 && b[1] == 0x45 && b[2] == 0x43 && b[3] == 0x53) ==>
              Extract(b) == Outcome([], None, true)
    ensures |b| > FRAME_HEADER && b[0] == 0x52 && b[1] == 0x45 && b[2] == 0x43 && b[3] == 0x53 ==>
              var length := b[6] as nat * 256 + b[7] as nat;
              Extract(b) == if |b| < FRAME_HEADER + length then Outcome(b, None, false)
                            else Outcome(b[FRAME_HEADER + length..], Some(b[FRAME_HEADER..FRAME_HEADER + length]), false)
  {
    if |b| > FRAME_HEADER {
      assert b[..4] == MAGIC <==> b[0] == 0x52 && b[1] == 0x45 && b[2] == 0x43 && b[3] == 0x53;
    }
  }

  /** The memory header of this communicator gives its only slot everything behind the header, and a payload
      that fits a segment goes to where the daemon reads. */
  lemma CarriesOwnSegment(baseboard: byte, reserved: byte)
    ensures var h := ReadHeader(HeaderBytes(MEMORY_SIZE, baseboard, SLOTS, 3, reserved, DATA_START, DATA_START));
            && h == Header(65535, 1, 3, 14) && HasArea(h)
            && SegmentOffset(h, 0) == DATA_START == 14 && SegmentSize(h) == MAX_PAYLOAD == 65521
  {
    hide HeaderBytes, ReadHeader;
    HeaderReadsBack(MEMORY_SIZE, baseboard, SLOTS, 3, reserved, DATA_START, DATA_START);
  }

  class CommunicatorTCP {
    const baseboard: byte
    const data: array<byte>
    const receiveBuffer: array<byte>
    var receiveBufferPos: nat
    var connected: bool           // there is a client

    ghost predicate Valid()
      reads this
    {
      data.Length == MEMORY_SIZE && receiveBuffer.Length == MEMORY_SIZE && data != receiveBuffer
      && receiveBufferPos <= MEMORY_SIZE
    }

    /** What was received and not yet delivered. */
    ghost function Received(): seq<byte>
      reads this, receiveBuffer
      requires Valid()
    {
      receiveBuffer[..receiveBufferPos]
    }

    /** initInterface after a successful connect: zeros behind the header; one reserved byte of the header
        is not set. */
    constructor (baseboard: byte, reserved: byte)
      ensures Valid() && fresh(data) && fresh(receiveBuffer) && connected && this.baseboard == baseboard
      ensures Received() == []
      ensures data[..] == HeaderBytes(MEMORY_SIZE, baseboard, SLOTS, 3, reserved, DATA_START, DATA_START)
                          + Zeros(MEMORY_SIZE - DAEMON_HEADER)
    {
      this.baseboard, receiveBufferPos, connected := baseboard, 0, true;
      data := new byte[MEMORY_SIZE](_ => 0);
      receiveBuffer := new byte[MEMORY_SIZE](_ => 0);
      new;
      hide HeaderBytes;
      Copy(data, 0, HeaderBytes(MEMORY_SIZE, baseboard, SLOTS, 3, reserved, DATA_START, DATA_START));
    }

    /** readData, when the client receives the given bytes, none on a timeout. */
    method ReadData(offset: nat, count: nat, chunk: seq<byte>) returns (bytes: seq<byte>)
      requires Valid() && offset <= MEMORY_SIZE && |chunk| <= MEMORY_SIZE - receiveBufferPos
      requires connected ==> var out := Extract(Received() + chunk); out.payload.Some? ==> |out.payload.value| <= MAX_PAYLOAD
      modifies this`receiveBufferPos, receiveBuffer, data
      ensures Valid()
      ensures !connected || chunk == [] ==> Received() == old(Received()) && data[..] == old(data[..])
      ensures connected && chunk != [] ==>
                var out := Extract(old(Received()) + chunk);
                Received() == out.buffer && data[..] == Delivered(old(data[..]), out.payload)
      ensures |bytes| == Clamped(MEMORY_SIZE, offset, count) && bytes == data[offset..offset + |bytes|]
    {
      hide Extract, Delivered, Overlay;
      if connected && chunk != [] {
        Store(chunk);
        ExtractFrame();
      }
      var n := if offset + count > MEMORY_SIZE then MEMORY_SIZE - offset else count;
      bytes := data[offset..offset + n];
    }

    /** The receive behind what is in the buffer. */
    method Store(chunk: seq<byte>)
      requires Valid() && |chunk| <= MEMORY_SIZE - receiveBufferPos
      modifies this`receiveBufferPos, receiveBuffer
      ensures Valid() && Received() == old(Received()) + chunk
    {
      Copy(receiveBuffer, receiveBufferPos, chunk);
      receiveBufferPos := receiveBufferPos + |chunk|;
    }

    /** The rest of readData: one frame at most leaves the buffer, and what follows it moves to the front. */
    method ExtractFrame()
      requires Valid()
      requires var out := Extract(Received()); out.payload.Some? ==> |out.payload.value| <= MAX_PAYLOAD
      modifies this`receiveBufferPos, receiveBuffer, data
      ensures Valid()
      ensures var out := Extract(old(Received()));
              Received() == out.buffer && data[..] == Delivered(old(data[..]), out.payload)
    {
      hide Overlay, Extract, Delivered;
      ghost var b := Received();
      ExtractCases(b);
      if receiveBufferPos > FRAME_HEADER {
        if receiveBuffer[0] == 0x52 && receiveBuffer[1] == 0x45 && receiveBuffer[2] == 0x43 && receiveBuffer[3] == 0x53 {
          var length := receiveBuffer[6] as nat * 256 + receiveBuffer[7] as nat;
          if receiveBufferPos >= FRAME_HEADER + length {
            DeliveredSome(data[..], b[FRAME_HEADER..FRAME_HEADER + length]);
            CopyPayload(length);
            MoveRest(FRAME_HEADER + length);
          } else {
            DeliveredNone(data[..]);
          }
        } else {
          receiveBufferPos := 0;
          DeliveredNone(data[..]);
        }
      } else {
        DeliveredNone(data[..]);
      }
    }

    method CopyPayload(length: nat)
      requires Valid() && FRAME_HEADER + length <= receiveBufferPos && length <= MAX_PAYLOAD
      modifies data
      ensures Valid() && data[..] == Overlay(old(data[..]), DATA_START, Received()[FRAME_HEADER..FRAME_HEADER + length])
    {
      hide Overlay;
      SliceOfPrefix(receiveBuffer[..], receiveBufferPos, FRAME_HEADER, FRAME_HEADER + length);
      Copy(data, DATA_START, receiveBuffer[FRAME_HEADER..FRAME_HEADER + length]);
    }

    /** Moves what lies behind the frame to the beginning of the buffer. */
    method MoveRest(frame: nat)
      requires Valid() && frame <= receiveBufferPos
      modifies this`receiveBufferPos, receiveBuffer
      ensures Valid() && Received() == old(Received())[frame..]
    {
      Copy(receiveBuffer, 0, receiveBuffer[frame..receiveBufferPos]);
      receiveBufferPos := receiveBufferPos - frame;
    }

    /** writeData.  The node, whether the two sends succeed and whether a new connection can be made are
        up to the surroundings; out come the bytes on the wire and whether the daemon was told to reset. */
    method WriteData(offset: nat, bytes: seq<byte>, node: byte, headerSent: bool, bodySent: bool, reconnects: bool)
      returns (n: nat, wire: seq<byte>, reset: bool)
      requires Valid() && offset <= MEMORY_SIZE
      modifies this`connected, data
      ensures Valid() && n == Clamped(MEMORY_SIZE, offset, |bytes|)
      ensures var mem := Overlay(old(data[..]), offset, bytes[..n]);
              var available := mem[DATA_START] != 0;
              && data[..] == mem[DATA_START := 0]
              && wire == (if !available || !old(connected) || !headerSent then []
                          else Frame(baseboard, node, bytes[..n])[..if bodySent then FRAME_HEADER + n else FRAME_HEADER])
              && connected == (if !available then old(connected)
                               else if old(connected) then headerSent && bodySent else reconnects)
              && (reset <==> available && !old(connected) && reconnects)
    {
      wire, reset := [], false;
      n := |bytes|;
      if offset + n > MEMORY_SIZE {
        n := MEMORY_SIZE - offset;
      }
      Copy(data, offset, bytes[..n]);
      assert data[offset..offset + n] == bytes[..n];
      if data[DATA_START] != 0 {
        if connected {
          if headerSent {
            wire := MAGIC + [baseboard, node] + Be16(n);
            if bodySent {
              wire := wire + data[offset..offset + n];
              assert wire == Frame(baseboard, node, bytes[..n]);
            } else {
              connected := false;
            }
          } else {
            connected := false;
          }
        } else {
          connected := reconnects;
          reset := reconnects;
        }
        data[DATA_START] := 0;
      }
    }
  }

  // ---------------------------------------------------------------- from one end to the other

  /** What one connection carries when the given messages are written at the head of the segment, each
      of them after the one before was marked as processed. */
  function Wire(baseboard: byte, node: byte, messages: seq<seq<byte>>): seq<byte>
    decreases |messages|
  {
    if messages == [] then []
    else
      var sent := messages[0][..Clamped(MEMORY_SIZE, DATA_START, |messages[0]|)];
      (if sent != [] && sent[0] != 0 then Frame(baseboard, node, sent) else []) + Wire(baseboard, node, messages[1..])
  }

  /** The messages that are available ones, cut to the memory. */
  function Available(messages: seq<seq<byte>>): seq<seq<byte>>
    decreases |messages|
  {
    if messages == [] then []
    else
      var sent := messages[0][..Clamped(MEMORY_SIZE, DATA_START, |messages[0]|)];
      (if sent != [] && sent[0] != 0 then [sent] else []) + Available(messages[1..])
  }

  lemma {:induction false} WireIsStream(baseboard: byte, node: byte, messages: seq<seq<byte>>)
    ensures Wire(baseboard, node, messages) == Stream(baseboard, node, Available(messages)) && AllFit(Available(messages))
    decreases |messages|
  {
    hide Frame;
    if messages != [] {
      WireIsStream(baseboard, node, messages[1..]);
      var sent := messages[0][..Clamped(MEMORY_SIZE, DATA_START, |messages[0]|)];
      var rest := Available(messages[1..]);
      if sent != [] && sent[0] != 0 {
        assert Available(messages) == [sent] + rest && ([sent] + rest)[1..] == rest;
      } else {
        assert Available(messages) == rest && Wire(baseboard, node, messages) == Wire(baseboard, node, messages[1..]);
      }
    }
  }

  /** Whatever is written at the head of the segment, and however the network cuts it up: the receiving
      side gets the messages that were available ones, in order, with nothing lost or added. */
  lemma WrittenMessagesArrive(baseboard: byte, node: byte, messages: seq<seq<byte>>, atHand: seq<nat>)
    ensures var all := Wire(baseboard, node, messages);
            var r := Turns(Receiver([], [], 0, all), atHand);
            && r.delivered <= Available(messages) && r.resets == 0 && |r.buffer| < MEMORY_SIZE
            && (r.buffer == [] && r.left == [] ==> r.delivered == Available(messages))
  {
    hide *;
    var payloads := Available(messages);
    WireIsStream(baseboard, node, messages);
    ReassemblyConserves(baseboard, node, payloads, atHand);
    var r := Turns(Receiver([], [], 0, Wire(baseboard, node, messages)), atHand);
    if r.buffer == [] && r.left == [] {
      NothingLeftToDeliver(baseboard, node, r.delivered, payloads);
    }
  }

  lemma StreamHasHeaders(baseboard: byte, node: byte, payloads: seq<seq<byte>>)
    ensures payloads != [] ==> |Stream(baseboard, node, payloads)| >= FRAME_HEADER
  {
  }

  lemma NothingLeftToDeliver(baseboard: byte, node: byte, delivered: seq<seq<byte>>, payloads: seq<seq<byte>>)
    requires delivered <= payloads && Stream(baseboard, node, payloads) == Stream(baseboard, node, delivered) + [] + []
    ensures delivered == payloads
  {
    hide Frame;
    var rest := payloads[|delivered|..];
    assert payloads == delivered + rest;
    StreamConcat(baseboard, node, delivered, rest);
    StreamHasHeaders(baseboard, node, rest);
  }
}
