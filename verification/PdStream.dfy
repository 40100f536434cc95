/**
 * Go-back-N framing of a byte stream over latest-wins process data, as functions on values.
 *
 * An `Endpoint` is the whole state of one end; `OnPeer` and `Build` are what the two entry
 * points compute. `PdStreamEndpoint.dfy` holds the class that updates the same state in place.
 */
module PdStream {
  import opened Bytes

  const HEADER_SIZE := 4
  const WINDOW := 2
  const GO_BACK_STALL := 4

  /** What one image says. An idle chunk carries no data. */
  datatype Chunk = Chunk(seqNo: Byte, ack: Byte, data: seq<Byte>)

  const BLANK := Chunk(0, 0, [])

  /** A retransmit slot: the sequence number and bytes staged in it last. */
  datatype Slot = Slot(seqNo: Byte, data: seq<Byte>)

  datatype Endpoint = Endpoint(
    rxAck: Byte,
    txSeq: Byte,
    peerAck: Byte,
    head: nat,
    count: nat,
    sendOffset: nat,
    stall: nat,
    mayStage: bool,
    slots: seq<Slot>)
  {
    /** Index bounds every operation relies on. */
    ghost predicate Shaped() {
      && |slots| == WINDOW
      && head < WINDOW
      && sendOffset <= count <= WINDOW
      && stall < GO_BACK_STALL
    }

    /** The j-th oldest chunk in flight. */
    function InFlight(j: nat): Slot
      requires |slots| == WINDOW
    {
      slots[(head + j) % WINDOW]
    }
  }

  const RESET := Endpoint(0, 0, 0, 0, 0, 0, 0, true, [Slot(0, []), Slot(0, [])])

  function NextSeq(s: Byte): Byte {
    if s == 255 then 1 else s + 1
  }

  /** The number of oldest in-flight chunks the cumulative ack covers, looking from offset j on. */
  function AckedFrom(e: Endpoint, j: nat): (n: nat)
    requires |e.slots| == WINDOW && j <= e.count
    ensures n <= e.count
    decreases e.count - j
  {
    if j == e.count then 0
    else if e.InFlight(j).seqNo == e.peerAck then j + 1
    else AckedFrom(e, j + 1)
  }

  function AckedPrefix(e: Endpoint): (n: nat)
    requires |e.slots| == WINDOW
    ensures n <= e.count
  {
    AckedFrom(e, 0)
  }

  function ReadyToAdvance(e: Endpoint): bool
    requires |e.slots| == WINDOW
  {
    e.mayStage && e.count - AckedPrefix(e) < WINDOW
  }

  /** Whether the payload of `c` is the one this endpoint waits for. */
  predicate Expected(e: Endpoint, c: Chunk) {
    c.seqNo != 0 && c.data != [] && c.seqNo == NextSeq(e.rxAck)
  }

  /** One received image; `room` is what the receive ring answers if it is asked. */
  function OnPeer(e: Endpoint, c: Chunk, room: bool): Endpoint {
    var credited := e.(peerAck := c.ack, mayStage := true);
    if Expected(e, c) && room then credited.(rxAck := c.seqNo) else credited
  }

  /** Drops everything the cumulative ack covers from the window. */
  function Slide(e: Endpoint): (s: Endpoint)
    requires e.Shaped()
    ensures s.Shaped()
  {
    var acked := AckedPrefix(e);
    if acked == 0 then e
    else e.(
      head := (e.head + acked) % WINDOW,
      count := e.count - acked,
      sendOffset := if e.sendOffset > acked then e.sendOffset - acked else 0,
      stall := 0)
  }

  /** Whether an endpoint that has slid its window asks the transmit ring for new payload. */
  predicate Asks(s: Endpoint) {
    s.mayStage && s.sendOffset == s.count < WINDOW
  }

  /** Whether a build asks the transmit ring for new payload. */
  predicate Pops(e: Endpoint)
    requires e.Shaped()
  {
    Asks(Slide(e))
  }

  datatype Built = Built(ep: Endpoint, image: Chunk)

  function Data(e: Endpoint, offset: nat): Built
    requires |e.slots| == WINDOW
  {
    Built(e, Chunk(e.InFlight(offset).seqNo, e.rxAck, e.InFlight(offset).data))
  }

  function Idle(e: Endpoint): Built {
    Built(e, Chunk(e.txSeq, e.rxAck, []))
  }

  function Replay(s: Endpoint): (b: Built)
    requires s.Shaped() && s.sendOffset < s.count
    ensures b.ep.Shaped()
  {
    Data(s.(sendOffset := s.sendOffset + 1, mayStage := false), s.sendOffset)
  }

  function Stage(s: Endpoint, popped: seq<Byte>): (b: Built)
    requires s.Shaped() && s.count < WINDOW
    ensures b.ep.Shaped()
  {
    var newSeq := NextSeq(s.txSeq);
    Data(s.(
      txSeq := newSeq,
      slots := s.slots[(s.head + s.count) % WINDOW := Slot(newSeq, popped)],
      count := s.count + 1,
      sendOffset := s.count + 1,
      mayStage := false), s.count)
  }

  /** An unsuccessful pop has already overwritten the length of the next free slot. */
  function ClearNext(s: Endpoint): (t: Endpoint)
    requires s.Shaped()
    ensures t.Shaped()
  {
    var i := (s.head + s.count) % WINDOW;
    s.(slots := s.slots[i := Slot(s.slots[i].seqNo, [])])
  }

  /** Nothing new to send: count the stall, rewind, or repaint the newest chunk. */
  function Hold(s: Endpoint): (b: Built)
    requires s.Shaped()
    ensures b.ep.Shaped()
  {
    if s.count == 0 then Idle(s)
    else if s.mayStage && s.stall + 1 >= GO_BACK_STALL then Idle(s.(sendOffset := 0, stall := 0))
    else
      var t := if s.mayStage then s.(stall := s.stall + 1) else s;
      if t.sendOffset != 0 then Data(t, t.sendOffset - 1) else Idle(t)
  }

  /** What an endpoint that has slid its window sends. */
  function Send(s: Endpoint, popped: seq<Byte>): (b: Built)
    requires s.Shaped()
    ensures b.ep.Shaped()
  {
    if s.mayStage && s.sendOffset < s.count then Replay(s)
    else if Asks(s) then
      if popped != [] then Stage(s, popped) else Hold(ClearNext(s))
    else Hold(s)
  }

  /** One rebuild of the own image; `popped` is what the transmit ring hands out if it is asked. */
  function Build(e: Endpoint, popped: seq<Byte>): (b: Built)
    requires e.Shaped()
    ensures b.ep.Shaped()
  {
    Send(Slide(e), popped)
  }

  // ---------------------------------------------------------------------------------------
  // The image bytes

  /** What the receiver makes of an image; a length it refuses reads like an idle chunk. */
  function Decode(pd: seq<Byte>, payloadSize: nat): (c: Chunk)
    requires |pd| == HEADER_SIZE + payloadSize
  {
    var len := Word16(pd[2], pd[3]);
    Chunk(pd[0], pd[1], if len <= payloadSize then pd[HEADER_SIZE..HEADER_SIZE + len] else [])
  }

  /** The image after painting `c` over `pd`: bytes past the payload are left untouched. */
  function Paint(c: Chunk, pd: seq<Byte>): (painted: seq<Byte>)
    requires |c.data| < 0x1_0000
    requires HEADER_SIZE + |c.data| <= |pd|
    ensures |painted| == |pd|
  {
    [c.seqNo, c.ack, |c.data| % 256, |c.data| / 256] + c.data + pd[HEADER_SIZE + |c.data|..]
  }

  /** Whatever the image held before, the peer reads back exactly the painted chunk. */
  lemma DecodePaint(c: Chunk, pd: seq<Byte>, payloadSize: nat)
    requires |pd| == HEADER_SIZE + payloadSize
    requires |c.data| <= payloadSize < 0x1_0000
    ensures Decode(Paint(c, pd), payloadSize) == c
  {
    var painted := Paint(c, pd);
    assert Word16(painted[2], painted[3]) == |c.data|;
    assert painted[HEADER_SIZE..HEADER_SIZE + |c.data|] == c.data;
  }

  /**
   * Octet by octet: number, ack, a length of two octets low one first, and that much payload behind
   * it; a length beyond the image makes it idle.
   */
  lemma DecodeExactly(pd: seq<Byte>, payloadSize: nat)
    requires |pd| == 4 + payloadSize
    ensures var c, length := Decode(pd, payloadSize), (pd[2] as int) + 256 * (pd[3] as int);
            && c.seqNo == pd[0] && c.ack == pd[1]
            && (length > payloadSize ==> c.data == [])
            && (length <= payloadSize ==> |c.data| == length && forall i | 0 <= i < length :: c.data[i] == pd[4 + i])
  {
  }
}
