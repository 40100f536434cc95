/**
 * Two endpoints, the two process-data registers between them, and every run of the pair.
 *
 * Frames may be lost, images overwritten before they are read or read many times, either end may
 * rebuild at any moment, and the rings may run full or empty at any moment. Beside the fields
 * the program has, a node records its history: what was written, popped and pushed, every chunk
 * it ever staged, and the unbounded numbers that the wire carries modulo 255.
 */
module PdStreamSystem {
  import opened Bytes
  import opened PdStream

  datatype Node = Node(
    ep: Endpoint,
    img: Chunk,
    tx: seq<Byte>,
    written: seq<Byte>,
    popped: seq<Byte>,
    pushed: seq<Byte>,
    chunks: seq<seq<Byte>>,
    rx: nat,
    ackSeen: nat,
    imgAck: nat)
  {
    /** How many of the chunks ever staged have left the window. */
    ghost function Base(): int {
      |chunks| - ep.count
    }
  }

  /** The last image a frame carried, with the numbers its seq and ack stand for. */
  datatype Register = Register(c: Chunk, n: int, a: nat)

  datatype System = System(a: Node, b: Node, ra: Register, rb: Register) {
    ghost predicate Shaped() {
      a.ep.Shaped() && b.ep.Shaped()
    }

    ghost function Swap(): System {
      System(b, a, rb, ra)
    }
  }

  datatype Side = A | B

  datatype Step =
    | Write(side: Side, data: seq<Byte>)
    | Rebuild(side: Side, limit: nat)
    | Carry(side: Side)
    | Read(side: Side, room: bool)

  const START_NODE := Node(RESET, BLANK, [], [], [], [], [], 0, 0, 0)
  const START := System(START_NODE, START_NODE, Register(BLANK, 0, 0), Register(BLANK, 0, 0))

  /** The octets a pop hands out: at most `limit`, a chunk's worth, or what the ring holds. */
  ghost function PoppedNow(x: Node, p: nat, limit: nat): (data: seq<Byte>)
    ensures data <= x.tx && |data| <= p
  {
    var n := if limit <= p then limit else p;
    x.tx[..if n <= |x.tx| then n else |x.tx|]
  }

  ghost function BuildNode(x: Node, p: nat, limit: nat): (y: Node)
    requires x.ep.Shaped()
    ensures y.ep.Shaped()
  {
    var offered := PoppedNow(x, p, limit);
    var built := Build(x.ep, offered);
    var taken := if Pops(x.ep) then offered else [];
    x.(ep := built.ep,
       img := built.image,
       tx := x.tx[|taken|..],
       popped := x.popped + taken,
       chunks := if taken == [] then x.chunks else x.chunks + [taken],
       imgAck := x.rx)
  }

  ghost function ReadNode(x: Node, reg: Register, room: bool): (y: Node)
    requires x.ep.Shaped()
    ensures y.ep.Shaped()
  {
    var took := Expected(x.ep, reg.c) && room;
    x.(ep := OnPeer(x.ep, reg.c, room),
       pushed := x.pushed + if took then reg.c.data else [],
       rx := if took then x.rx + 1 else x.rx,
       ackSeen := reg.a)
  }

  ghost function NextA(s: System, p: nat, step: Step): (t: System)
    requires s.Shaped()
    ensures t.Shaped()
  {
    match step
    case Write(_, data) => s.(a := s.a.(tx := s.a.tx + data, written := s.a.written + data))
    case Rebuild(_, limit) => s.(a := BuildNode(s.a, p, limit))
    case Carry(_) => s.(ra := Register(s.a.img, s.a.Base() + s.a.ep.sendOffset, s.a.imgAck))
    case Read(_, room) => s.(a := ReadNode(s.a, s.rb, room))
  }

  ghost function Next(s: System, p: nat, step: Step): (t: System)
    requires s.Shaped()
    ensures t.Shaped()
  {
    if step.side == A then NextA(s, p, step) else NextA(s.Swap(), p, step).Swap()
  }

  ghost function Run(s: System, p: nat, steps: seq<Step>): (t: System)
    requires s.Shaped()
    ensures t.Shaped()
    decreases |steps|
  {
    if steps == [] then s else Run(Next(s, p, steps[0]), p, steps[1..])
  }

  // ---------------------------------------------------------------------------------------
  // Wire numbers

  /** The octet that stands for number n: 0 only for "nothing yet", then 1..255 round and round. */
  ghost function Wire(n: nat): Byte {
    if n == 0 then 0 else (n - 1) % 255 + 1
  }

  lemma WireNext(n: nat)
    ensures NextSeq(Wire(n)) == Wire(n + 1)
  {
  }

  lemma WireDistinct(m: nat, n: nat)
    requires m < n < m + 255
    ensures Wire(m) != Wire(n)
  {
  }

  // ---------------------------------------------------------------------------------------
  // Invariants

  /** The window holds the newest `count` chunks ever staged, under their own numbers. */
  ghost predicate Tracks(e: Endpoint, chunks: seq<seq<Byte>>) {
    && e.Shaped()
    && e.count <= |chunks|
    && e.head == (|chunks| - e.count) % WINDOW
    && e.txSeq == Wire(|chunks|)
    && forall j | 0 <= j < e.count ::
         var n := |chunks| - e.count + j;
         e.InFlight(j) == Slot(Wire(n + 1), chunks[n])
  }

  /** The image shows the newest chunk sent since the last rewind, and none right after one. */
  ghost predicate Paints(e: Endpoint, chunks: seq<seq<Byte>>, img: Chunk) {
    var n := |chunks| - e.count + e.sendOffset;
    if e.sendOffset == 0 then img.data == []
    else 0 < n <= |chunks| && img.seqNo == Wire(n) && img.data == chunks[n - 1]
  }

  /** The window, the image and the credit fit the chunks staged and the acks seen. */
  ghost predicate Sending(x: Node) {
    && Tracks(x.ep, x.chunks)
    && Paints(x.ep, x.chunks, x.img)
    && x.img.ack == Wire(x.imgAck)
    && (x.ep.sendOffset == 0 ==> x.ep.mayStage)
    && (!x.ep.mayStage ==> x.ackSeen == x.Base())
    && (x.ep.count == 0 ==> x.ep.stall == 0)
    && (x.ep.sendOffset < x.ep.count ==> x.ep.stall == 0)
  }

  /** Every octet written is in a staged chunk or still in the transmit ring. */
  ghost predicate Accounted(x: Node) {
    && (forall c | c in x.chunks :: c != [])
    && x.popped == Flat(x.chunks)
    && x.written == x.popped + x.tx
  }

  ghost predicate NodeInv(x: Node) {
    Sending(x) && Accounted(x)
  }

  /** What `r` has seen of the stream `s` sends; `reg` holds an image of s, `back` one of r. */
  ghost predicate Direction(s: Node, r: Node, reg: Register, back: Register) {
    && s.Base() <= r.rx <= |s.chunks|
    && r.ep.rxAck == Wire(r.rx)
    && r.pushed == Flat(s.chunks[..r.rx])
    && (reg.c.data != [] ==> Legible(s, r, reg))
    && s.Base() <= s.ackSeen <= back.a <= r.imgAck <= r.rx
    && s.ep.peerAck == Wire(s.ackSeen)
    && back.c.ack == Wire(back.a)
  }

  /** A data image waiting in the register is at most one behind and two ahead of the receiver. */
  ghost predicate Legible(s: Node, r: Node, reg: Register) {
    && 1 <= reg.n <= |s.chunks|
    && r.rx - 1 <= reg.n <= r.rx + 2
    && reg.c.seqNo == Wire(reg.n)
    && reg.c.data == s.chunks[reg.n - 1]
  }

  /** The last ack read lies in the window, and the octets repeat the numbers. */
  ghost predicate AcksFit(x: Node) {
    && x.Base() <= x.ackSeen <= |x.chunks|
    && x.ep.peerAck == Wire(x.ackSeen)
    && x.ep.rxAck == Wire(x.rx)
  }

  ghost predicate Inv(s: System) {
    && NodeInv(s.a) && NodeInv(s.b)
    && Direction(s.a, s.b, s.ra, s.rb)
    && Direction(s.b, s.a, s.rb, s.ra)
  }

  // ---------------------------------------------------------------------------------------
  // The 8-bit tests decide the unbounded question

  /** The ack octet names exactly the chunks the peer has consumed. */
  lemma AckUnambiguous(e: Endpoint, chunks: seq<seq<Byte>>, acked: nat)
    requires Tracks(e, chunks)
    requires |chunks| - e.count <= acked <= |chunks| && e.peerAck == Wire(acked)
    ensures AckedPrefix(e) == acked - (|chunks| - e.count)
  {
    var base := |chunks| - e.count;
    forall j | 0 <= j < e.count
      ensures e.InFlight(j).seqNo == e.peerAck <==> base + j + 1 == acked
    {
      if base + j + 1 < acked { WireDistinct(base + j + 1, acked); }
      if acked < base + j + 1 { WireDistinct(acked, base + j + 1); }
    }
    assert AckedFrom(e, e.count) == 0;
    if e.count == 2 {
      assert AckedFrom(e, 1) == if acked == base + 2 then 2 else 0;
    }
  }

  /** The seq octet is the awaited one exactly when the image carries the awaited chunk. */
  lemma SeqUnambiguous(s: Node, r: Node, reg: Register, back: Register)
    requires NodeInv(s) && Direction(s, r, reg, back)
    ensures Expected(r.ep, reg.c) <==> reg.c.data != [] && reg.n == r.rx + 1
  {
    WireNext(r.rx);
    if reg.c.data != [] {
      if reg.n < r.rx + 1 { WireDistinct(reg.n, r.rx + 1); }
      if r.rx + 1 < reg.n { WireDistinct(r.rx + 1, reg.n); }
    }
  }

  // ---------------------------------------------------------------------------------------
  // Every step keeps the invariant

  lemma HeadTurns(head: int, acked: int, j: int)
    ensures ((head + acked) % WINDOW + j) % WINDOW == (head + (acked + j)) % WINDOW
    ensures (head % WINDOW + acked) % WINDOW == (head + acked) % WINDOW
  {
    assert (head + acked) == WINDOW * ((head + acked) / WINDOW) + (head + acked) % WINDOW;
    assert head == WINDOW * (head / WINDOW) + head % WINDOW;
  }

  lemma SlideTracks(x: Node)
    requires Sending(x) && AcksFit(x)
    ensures var s := Slide(x.ep);
            && Tracks(s, x.chunks)
            && |x.chunks| - s.count == x.ackSeen
            && AckedPrefix(s) == 0
            && (s.sendOffset == 0 ==> s.mayStage)
            && (s.count == 0 || s.sendOffset < s.count ==> s.stall == 0)
  {
    hide Wire, AckedPrefix, Paints;
    AckUnambiguous(x.ep, x.chunks, x.ackSeen);
    var s := Slide(x.ep);
    var acked := AckedPrefix(x.ep);
    forall j | 0 <= j < s.count ensures s.InFlight(j) == x.ep.InFlight(acked + j) {
      HeadTurns(x.ep.head, acked, j);
    }
    HeadTurns(|x.chunks| - x.ep.count, acked, 0);
    AckUnambiguous(s, x.chunks, x.ackSeen);
  }

  lemma StageTracks(s: Endpoint, chunks: seq<seq<Byte>>, popped: seq<Byte>)
    requires Tracks(s, chunks) && s.count < WINDOW
    ensures Tracks(Stage(s, popped).ep, chunks + [popped])
  {
    WireNext(|chunks|);
    var t := Stage(s, popped).ep;
    forall j | 0 <= j < t.count
      ensures var n := |chunks| + 1 - t.count + j;
              t.InFlight(j) == Slot(Wire(n + 1), (chunks + [popped])[n])
    {
      if j < s.count {
        assert t.InFlight(j) == s.InFlight(j);
      }
    }
  }

  /** Tracking only looks at the slots in the window. */
  lemma SameWindow(s: Endpoint, t: Endpoint, chunks: seq<seq<Byte>>)
    requires Tracks(s, chunks) && t.Shaped()
    requires t.count == s.count && t.head == s.head && t.txSeq == s.txSeq
    requires forall j | 0 <= j < s.count :: t.InFlight(j) == s.InFlight(j)
    ensures Tracks(t, chunks)
  {
  }

  lemma HoldTracks(s: Endpoint, chunks: seq<seq<Byte>>)
    requires Tracks(s, chunks)
    ensures var b := Hold(s);
            && Tracks(b.ep, chunks)
            && b.image.ack == s.rxAck
            && Paints(b.ep, chunks, b.image)
            && b.ep.mayStage == s.mayStage
            && (s.sendOffset > 0 == b.ep.sendOffset ==> s.mayStage)
  {
    var t := Hold(s).ep;
    assert forall j | 0 <= j < s.count :: t.InFlight(j) == s.InFlight(j);
    SameWindow(s, t, chunks);
  }

  lemma ReplayTracks(s: Endpoint, chunks: seq<seq<Byte>>)
    requires Tracks(s, chunks) && s.sendOffset < s.count
    ensures var b := Replay(s);
            Tracks(b.ep, chunks) && b.image.ack == s.rxAck && Paints(b.ep, chunks, b.image)
  {
    var t := Replay(s).ep;
    assert forall j | 0 <= j < s.count :: t.InFlight(j) == s.InFlight(j);
    SameWindow(s, t, chunks);
  }

  lemma ClearTracks(s: Endpoint, chunks: seq<seq<Byte>>)
    requires Tracks(s, chunks) && s.count < WINDOW
    ensures Tracks(ClearNext(s), chunks)
  {
    var t := ClearNext(s);
    assert forall j | 0 <= j < s.count :: t.InFlight(j) == s.InFlight(j);
    SameWindow(s, t, chunks);
  }

  /** A build from a tracking endpoint whose acks are all spent. */
  lemma SentTracks(s: Endpoint, chunks: seq<seq<Byte>>, offered: seq<Byte>)
    requires Tracks(s, chunks)
    requires s.sendOffset == 0 ==> s.mayStage
    requires s.count == 0 || s.sendOffset < s.count ==> s.stall == 0
    ensures var b := Send(s, offered);
            var chunks' := if Asks(s) && offered != [] then chunks + [offered] else chunks;
            && Tracks(b.ep, chunks')
            && |chunks'| - b.ep.count == |chunks| - s.count
            && Paints(b.ep, chunks', b.image)
            && b.image.ack == s.rxAck
            && (b.ep.sendOffset == 0 ==> b.ep.mayStage)
            && (b.ep.mayStage ==> s.mayStage)
            && (b.ep.count == 0 || b.ep.sendOffset < b.ep.count ==> b.ep.stall == 0)
            && b.ep.rxAck == s.rxAck && b.ep.peerAck == s.peerAck
  {
    if s.mayStage && s.sendOffset < s.count {
      ReplayTracks(s, chunks);
    } else if Asks(s) && offered != [] {
      StageTracks(s, chunks, offered);
    } else if Asks(s) {
      ClearTracks(s, chunks);
      HoldTracks(ClearNext(s), chunks);
    } else {
      HoldTracks(s, chunks);
    }
  }

  lemma BuildKeepsSending(x: Node, p: nat, limit: nat)
    requires Sending(x) && AcksFit(x)
    ensures var y := BuildNode(x, p, limit);
            && Sending(y)
            && y.Base() == x.ackSeen
            && x.chunks <= y.chunks
            && y.ep.rxAck == x.ep.rxAck && y.ep.peerAck == x.ep.peerAck
  {
    SlideTracks(x);
    SentTracks(Slide(x.ep), x.chunks, PoppedNow(x, p, limit));
  }

  lemma BuildKeepsAccounts(x: Node, p: nat, limit: nat)
    requires Accounted(x) && x.ep.Shaped()
    ensures Accounted(BuildNode(x, p, limit))
  {
    var offered := PoppedNow(x, p, limit);
    if Pops(x.ep) && offered != [] {
      FlatSnoc(x.chunks, offered);
      assert x.popped + offered + x.tx[|offered|..] == x.written;
    }
  }

  lemma WriteStep(s: System, data: seq<Byte>)
    requires Inv(s)
    ensures Inv(s.(a := s.a.(tx := s.a.tx + data, written := s.a.written + data)))
  {
  }

  lemma CarryStep(s: System, p: nat, step: Step)
    requires Inv(s) && step.Carry?
    ensures Inv(NextA(s, p, step))
  {
    var t := NextA(s, p, step);
    assert Direction(s.b, s.a, s.rb, t.ra);
    assert s.a.img.data != [] ==> Legible(s.a, s.b, t.ra);
    assert Direction(s.a, s.b, t.ra, s.rb);
  }

  lemma BuildStep(s: System, p: nat, limit: nat)
    requires Inv(s)
    ensures Inv(s.(a := BuildNode(s.a, p, limit)))
  {
    BuildKeepsSending(s.a, p, limit);
    BuildKeepsAccounts(s.a, p, limit);
    var y := BuildNode(s.a, p, limit);
    assert y.chunks[..s.b.rx] == s.a.chunks[..s.b.rx];
    assert Direction(y, s.b, s.ra, s.rb);
    assert Direction(s.b, y, s.rb, s.ra);
  }

  lemma ReadKeepsNode(x: Node, reg: Register, room: bool)
    requires NodeInv(x)
    ensures NodeInv(ReadNode(x, reg, room))
  {
    assert Accounted(ReadNode(x, reg, room));
    var y := ReadNode(x, reg, room);
    assert forall j | 0 <= j < x.ep.count :: y.ep.InFlight(j) == x.ep.InFlight(j);
    SameWindow(x.ep, y.ep, x.chunks);
  }

  lemma ReadPushes(s: System, room: bool)
    requires Inv(s)
    ensures var y := ReadNode(s.a, s.rb, room);
            && s.a.rx <= y.rx <= |s.b.chunks|
            && y.pushed == Flat(s.b.chunks[..y.rx]) && y.ep.rxAck == Wire(y.rx)
            && (s.rb.c.data != [] ==> y.rx - 1 <= s.rb.n <= y.rx + 2)
  {
    var y := ReadNode(s.a, s.rb, room);
    SeqUnambiguous(s.b, s.a, s.rb, s.ra);
    if Expected(s.a.ep, s.rb.c) && room {
      assert s.b.chunks[..y.rx] == s.b.chunks[..s.a.rx] + [s.rb.c.data];
      FlatSnoc(s.b.chunks[..s.a.rx], s.rb.c.data);
    }
  }

  lemma ReadStep(s: System, room: bool)
    requires Inv(s)
    ensures Inv(s.(a := ReadNode(s.a, s.rb, room)))
  {
    hide Flat, Wire, NodeInv;
    NodeShape(s.a);
    var y := ReadNode(s.a, s.rb, room);
    ReadKeepsNode(s.a, s.rb, room);
    ReadPushes(s, room);
    assert Direction(s.b, y, s.rb, s.ra);
    assert Direction(y, s.b, s.ra, s.rb);
  }

  lemma NodeShape(x: Node)
    requires NodeInv(x)
    ensures x.ep.Shaped()
  {
  }

  lemma NextAKeeps(s: System, p: nat, step: Step)
    requires Inv(s)
    ensures Inv(NextA(s, p, step))
  {
    match step
    case Write(_, data) => WriteStep(s, data);
    case Carry(_) => CarryStep(s, p, step);
    case Rebuild(_, limit) => BuildStep(s, p, limit);
    case Read(_, room) => ReadStep(s, room);
  }

  lemma NextKeeps(s: System, p: nat, step: Step)
    requires Inv(s)
    ensures Inv(Next(s, p, step))
  {
    NextAKeeps(if step.side == A then s else s.Swap(), p, step);
  }

  lemma {:induction false} RunKeeps(s: System, p: nat, steps: seq<Step>)
    requires Inv(s)
    ensures Inv(Run(s, p, steps))
    decreases |steps|
  {
    if steps != [] {
      NextKeeps(s, p, steps[0]);
      RunKeeps(Next(s, p, steps[0]), p, steps[1..]);
    }
  }

  ghost predicate Reachable(s: System, p: nat) {
    exists steps :: s == Run(START, p, steps)
  }

  lemma ReachableInv(s: System, p: nat)
    requires Reachable(s, p)
    ensures Inv(s)
  {
    var steps :| s == Run(START, p, steps);
    RunKeeps(START, p, steps);
  }
}
