/**
 Messages on a byte stream: frames with a length, and the receiver that puts them together again from
 whatever pieces the network hands it.
 */
module TcpFrames {
  import opened Options
  import opened Bytes

  const MEMORY_SIZE := 65535
  const FRAME_HEADER := 8
  const DATA_START := 14
  const MAX_PAYLOAD := MEMORY_SIZE - DATA_START
  const MAGIC: seq<byte> := [0x52, 0x45, 0x43, 0x53]

  // ---------------------------------------------------------------- frames

  function Frame(baseboard: byte, node: byte, payload: seq<byte>): (r: seq<byte>)
    ensures |r| == FRAME_HEADER + |payload|
  {
    MAGIC + [baseboard, node] + Be16(|payload|) + payload
  }

  function Stream(baseboard: byte, node: byte, payloads: seq<seq<byte>>): seq<byte>
    decreases |payloads|
  {
    if payloads == [] then [] else Frame(baseboard, node, payloads[0]) + Stream(baseboard, node, payloads[1..])
  }

  predicate AllFit(payloads: seq<seq<byte>>) {
    forall i :: 0 <= i < |payloads| ==> |payloads[i]| <= MAX_PAYLOAD
  }

  // ---------------------------------------------------------------- the receiver

  datatype Outcome = Outcome(buffer: seq<byte>, payload: Option<seq<byte>>, reset: bool)

  /** readData: what is left in the receive buffer when bytes were received, and what came out of it. */
  function Extract(b: seq<byte>): Outcome {
    if |b| <= FRAME_HEADER then Outcome(b, None, false)
    else if b[..4] != MAGIC then Outcome([], None, true)
    else
      var length := FromBe16(b[6..8]);
      if |b| < FRAME_HEADER + length then Outcome(b, None, false)
      else Outcome(b[FRAME_HEADER + length..], Some(b[FRAME_HEADER..FRAME_HEADER + length]), false)
  }

  /** The receiver, what came out of it, how often it dropped its buffer, and the bytes still to come. */
  datatype Receiver = Receiver(buffer: seq<byte>, delivered: seq<seq<byte>>, resets: nat, left: seq<byte>)

  /** How much one receive takes: what the network has at hand, as far as the buffer has room. */
  function Taken(r: Receiver, atHand: nat): nat
    requires |r.buffer| <= MEMORY_SIZE
  {
    var room := MEMORY_SIZE - |r.buffer|;
    var n := if atHand <= |r.left| then atHand else |r.left|;
    if n <= room then n else room
  }

  /** One readData; a receive of nothing leaves everything as it is. */
  function Turn(r: Receiver, atHand: nat): (r': Receiver)
    requires |r.buffer| <= MEMORY_SIZE
    ensures |r'.buffer| <= MEMORY_SIZE
  {
    var n := Taken(r, atHand);
    if n == 0 then r
    else
      var out := Extract(r.buffer + r.left[..n]);
      Receiver(out.buffer, r.delivered + (if out.payload.Some? then [out.payload.value] else []),
               r.resets + (if out.reset then 1 else 0), r.left[n..])
  }

  /** Any number of readData calls, with any number of bytes at hand at each. */
  function Turns(r: Receiver, atHand: seq<nat>): (r': Receiver)
    requires |r.buffer| <= MEMORY_SIZE
    ensures |r'.buffer| <= MEMORY_SIZE
    decreases |atHand|
  {
    if atHand == [] then r else Turns(Turn(r, atHand[0]), atHand[1..])
  }

  // ---------------------------------------------------------------- what the buffer begins with

  lemma FrameParts(baseboard: byte, node: byte, payload: seq<byte>)
    requires |payload| <= MAX_PAYLOAD
    ensures var f := Frame(baseboard, node, payload);
            && f[..4] == MAGIC && f[4] == baseboard && f[5] == node
            && FromBe16(f[6..8]) == |payload| && f[FRAME_HEADER..] == payload
  {
    var f := Frame(baseboard, node, payload);
    assert f[6..8] == Be16(|payload|);
    Be16ReadsBack(|payload|);
  }

  /** A buffer that holds the beginning of a frame, and perhaps more. */
  lemma ExtractFromFrame(baseboard: byte, node: byte, payload: seq<byte>, rest: seq<byte>, b: seq<byte>, left: seq<byte>)
    requires |payload| <= MAX_PAYLOAD && b + left == Frame(baseboard, node, payload) + rest
    ensures var out := Extract(b);
            && !out.reset
            && (out.payload.Some? <==> |b| > FRAME_HEADER && |b| >= FRAME_HEADER + |payload|)
            && (out.payload.Some? ==> out.payload.value == payload && out.buffer + left == rest && |out.buffer| < |b|)
            && (out.payload.None? ==> out.buffer == b && |b| <= FRAME_HEADER + |payload|)
  {
    hide Frame, FromBe16;
    var f := Frame(baseboard, node, payload);
    FrameParts(baseboard, node, payload);
    if |b| > FRAME_HEADER {
      assert b[..4] == (b + left)[..4] == (f + rest)[..4] == f[..4];
      assert b[6..8] == (b + left)[6..8] == (f + rest)[6..8] == f[6..8];
      if |b| >= |f| {
        assert b[..|f|] == (b + left)[..|f|] == (f + rest)[..|f|] == f;
        assert b[FRAME_HEADER..|f|] == b[..|f|][FRAME_HEADER..];
        assert b[|f|..] + left == (b + left)[|f|..] == (f + rest)[|f|..] == rest;
      }
    }
  }

  // ---------------------------------------------------------------- nothing is lost

  /** The receiver is at some point of a stream of the given payloads. */
  ghost predicate At(baseboard: byte, node: byte, payloads: seq<seq<byte>>, r: Receiver) {
    && r.delivered <= payloads && r.resets == 0 && |r.buffer| < MEMORY_SIZE
    && Stream(baseboard, node, payloads[|r.delivered|..]) == r.buffer + r.left
  }

  lemma TurnStaysAt(baseboard: byte, node: byte, payloads: seq<seq<byte>>, r: Receiver, atHand: nat)
    requires AllFit(payloads) && At(baseboard, node, payloads, r)
    ensures At(baseboard, node, payloads, Turn(r, atHand))
    ensures |r.delivered| <= |Turn(r, atHand).delivered| <= |r.delivered| + 1
    ensures atHand > 0 && r.left != [] ==> |Turn(r, atHand).left| < |r.left|
  {
    hide Extract, Frame;
    var n := Taken(r, atHand);
    if n > 0 {
      var todo := payloads[|r.delivered|..];
      var b, left := r.buffer + r.left[..n], r.left[n..];
      assert b + left == r.buffer + r.left;
      assert todo != [];
      var rest := Stream(baseboard, node, todo[1..]);
      ExtractFromFrame(baseboard, node, todo[0], rest, b, left);
      assert todo[1..] == payloads[|r.delivered| + 1..];
      assert payloads[..|r.delivered| + 1] == r.delivered + [todo[0]];
    }
  }

  lemma {:induction false} TurnsStayAt(baseboard: byte, node: byte, payloads: seq<seq<byte>>, r: Receiver, atHand: seq<nat>)
    requires AllFit(payloads) && At(baseboard, node, payloads, r)
    ensures At(baseboard, node, payloads, Turns(r, atHand))
    decreases |atHand|
  {
    hide Turn, AllFit, Stream;
    if atHand != [] {
      TurnStaysAt(baseboard, node, payloads, r, atHand[0]);
      TurnsStayAt(baseboard, node, payloads, Turn(r, atHand[0]), atHand[1..]);
    }
  }

  lemma {:induction false} StreamConcat(baseboard: byte, node: byte, a: seq<seq<byte>>, b: seq<seq<byte>>)
    ensures Stream(baseboard, node, a + b) == Stream(baseboard, node, a) + Stream(baseboard, node, b)
    decreases |a|
  {
    hide Frame;
    if a == [] {
      assert a + b == b;
    } else {
      assert (a + b)[0] == a[0] && (a + b)[1..] == a[1..] + b;
      StreamConcat(baseboard, node, a[1..], b);
    }
  }

  /** For every list of messages that fit and every way the network cuts their stream into receives: what
      was delivered is a prefix of the messages, the buffer was never dropped, the bytes that came in are
      the frames of what was delivered followed by the buffer, and the buffer has room for more. */
  lemma ReassemblyConserves(baseboard: byte, node: byte, payloads: seq<seq<byte>>, atHand: seq<nat>)
    requires AllFit(payloads)
    ensures var all := Stream(baseboard, node, payloads);
            var r := Turns(Receiver([], [], 0, all), atHand);
            && r.delivered <= payloads && r.resets == 0 && |r.buffer| < MEMORY_SIZE
            && all == Stream(baseboard, node, r.delivered) + r.buffer + r.left
  {
    hide Turns, AllFit;
    var all := Stream(baseboard, node, payloads);
    var start := Receiver([], [], 0, all);
    assert payloads[0..] == payloads && [] + all == all;
    TurnsStayAt(baseboard, node, payloads, start, atHand);
    var r := Turns(start, atHand);
    StreamConcat(baseboard, node, r.delivered, payloads[|r.delivered|..]);
    assert r.delivered + payloads[|r.delivered|..] == payloads;
  }

  /** In every state of such a run: as long as bytes are to come and at hand the receiver takes some, and
      a receive delivers exactly when the bytes then in the buffer complete the next message (an empty
      message needs one byte more). */
  lemma EveryReceiveProceeds(baseboard: byte, node: byte, payloads: seq<seq<byte>>, atHand: seq<nat>, n: nat)
    requires AllFit(payloads)
    ensures var r := Turns(Receiver([], [], 0, Stream(baseboard, node, payloads)), atHand);
            var next := Turn(r, n);
            && |r.delivered| <= |next.delivered| <= |r.delivered| + 1
            && (n > 0 && r.left != [] ==> |next.left| < |r.left|)
            && (|next.delivered| > |r.delivered| <==>
                  && |r.delivered| < |payloads| && n > 0 && r.left != []
                  && |r.buffer| + |r.left| - |next.left| >= FRAME_HEADER + |payloads[|r.delivered|]|
                  && |r.buffer| + |r.left| - |next.left| > FRAME_HEADER)
  {
    hide Turns, AllFit, Frame, Extract;
    var all := Stream(baseboard, node, payloads);
    var start := Receiver([], [], 0, all);
    assert payloads[0..] == payloads && [] + all == all;
    TurnsStayAt(baseboard, node, payloads, start, atHand);
    var r := Turns(start, atHand);
    TurnStaysAt(baseboard, node, payloads, r, n);
    DeliversWhenComplete(baseboard, node, payloads, r, n);
  }

  lemma DeliversWhenComplete(baseboard: byte, node: byte, payloads: seq<seq<byte>>, r: Receiver, n: nat)
    requires AllFit(payloads) && At(baseboard, node, payloads, r)
    ensures var next := Turn(r, n);
            (|next.delivered| > |r.delivered| <==>
                  && |r.delivered| < |payloads| && n > 0 && r.left != []
                  && |r.buffer| + |r.left| - |next.left| >= FRAME_HEADER + |payloads[|r.delivered|]|
                  && |r.buffer| + |r.left| - |next.left| > FRAME_HEADER)
  {
    hide Extract, Frame;
    var k := Taken(r, n);
    if k > 0 {
      var todo := payloads[|r.delivered|..];
      var b, left := r.buffer + r.left[..k], r.left[k..];
      assert b + left == r.buffer + r.left;
      ExtractFromFrame(baseboard, node, todo[0], Stream(baseboard, node, todo[1..]), b, left);
    }
  }

  /** One message comes out of each receive at most, so when two arrive together and nothing follows, the
      second stays in the buffer, however often the receiver is asked. */
  lemma SecondOfTwoWaits(baseboard: byte, node: byte, a: seq<byte>, b: seq<byte>, atHand: seq<nat>)
    requires 0 < |a| && 0 < |b| && |a| + |b| <= MEMORY_SIZE - 2 * FRAME_HEADER
    requires |a| <= MAX_PAYLOAD && |b| <= MAX_PAYLOAD
    ensures var all := Stream(baseboard, node, [a, b]);
            var r := Turns(Receiver([], [], 0, all), [|all|] + atHand);
            r.delivered == [a] && r.buffer == Frame(baseboard, node, b) && r.left == []
  {
    hide Frame, Extract;
    var all := Stream(baseboard, node, [a, b]);
    var start := Receiver([], [], 0, all);
    var frames := Frame(baseboard, node, a) + Frame(baseboard, node, b);
    assert all == frames by { TwoFrames(baseboard, node, a, b); }
    ExtractFromFrame(baseboard, node, a, Frame(baseboard, node, b), all, []);
    assert [] + all[..|all|] == all && all[|all|..] == [];
    var r := Turn(start, |all|);
    assert r.buffer + [] == r.buffer;
    assert r == Receiver(Frame(baseboard, node, b), [a], 0, []);
    assert ([|all|] + atHand)[1..] == atHand;
    NothingMoreComes(r, atHand);
  }

  lemma TwoFrames(baseboard: byte, node: byte, a: seq<byte>, b: seq<byte>)
    ensures Stream(baseboard, node, [a, b]) == Frame(baseboard, node, a) + Frame(baseboard, node, b)
  {
    hide Frame;
    assert [a, b][1..] == [b] && [b][1..] == [];
    assert Stream(baseboard, node, [b]) == Frame(baseboard, node, b) + [];
  }

  lemma {:induction false} NothingMoreComes(r: Receiver, atHand: seq<nat>)
    requires r.left == [] && |r.buffer| <= MEMORY_SIZE
    ensures Turns(r, atHand) == r
    decreases |atHand|
  {
    if atHand != [] {
      NothingMoreComes(r, atHand[1..]);
    }
  }
}
