/** What every run of the two-ended stream keeps, stated over the program's own state. */
module PdStreamSafety {
  import opened Bytes
  import opened PdStream
  import opened PdStreamSystem

  /** The payloads in flight from the u-th oldest on. */
  ghost function Pending(e: Endpoint, u: nat): seq<seq<Byte>>
    requires e.Shaped() && u <= e.count
  {
    seq(e.count - u, (j: nat) requires j < e.count - u => e.InFlight(u + j).data)
  }

  /**
   * Exactly-once, in-order delivery from `s` to `r`: the octets pushed are a prefix of the octets
   * popped, and what is missing sits in the newest chunks of the window.
   */
  ghost predicate Delivered(s: Node, r: Node)
    requires s.ep.Shaped()
  {
    && r.pushed <= s.popped <= s.written
    && s.written == s.popped + s.tx
    && exists u | 0 <= u <= s.ep.count :: s.popped == r.pushed + Flat(Pending(s.ep, u))
  }

  lemma DirectionDelivers(s: Node, r: Node, reg: Register, back: Register)
    requires NodeInv(s) && Direction(s, r, reg, back)
    ensures Delivered(s, r)
  {
    var u := r.rx - s.Base();
    FlatSplit(s.chunks, r.rx);
    assert Pending(s.ep, u) == s.chunks[r.rx..];
  }

  /** Safety over every run, in both directions, whatever is lost, repeated, rebuilt or full. */
  lemma StreamSafety(p: nat, steps: seq<Step>)
    ensures var s := Run(START, p, steps);
            Delivered(s.a, s.b) && Delivered(s.b, s.a)
  {
    RunKeeps(START, p, steps);
    var s := Run(START, p, steps);
    DirectionDelivers(s.a, s.b, s.ra, s.rb);
    DirectionDelivers(s.b, s.a, s.rb, s.ra);
  }

  /**
   * However often the octets have wrapped: an image the receiver can read is at most one behind
   * and two ahead, an ack the sender can read lies in the window, and the 8-bit comparisons
   * answer for the unbounded numbers.
   */
  lemma WrapUnambiguous(s: System, p: nat)
    requires Reachable(s, p)
    ensures s.ra.c.data != [] ==> s.b.rx - 1 <= s.ra.n <= s.b.rx + 2
    ensures Expected(s.b.ep, s.ra.c) <==> s.ra.c.data != [] && s.ra.n == s.b.rx + 1
    ensures s.a.Base() <= s.rb.a <= s.a.Base() + s.a.ep.count
    ensures AckedPrefix(s.a.ep) == s.a.ackSeen - s.a.Base()
    ensures s.a.Base() <= s.b.rx <= |s.a.chunks|
  {
    ReachableInv(s, p);
    SeqUnambiguous(s.a, s.b, s.ra, s.rb);
    AckUnambiguous(s.a.ep, s.a.chunks, s.a.ackSeen);
  }

  /** Staging writes the slot of the new chunk's own number and leaves the other one alone. */
  lemma StageUsesOwnSlot(s: Endpoint, chunks: seq<seq<Byte>>, popped: seq<Byte>)
    requires Tracks(s, chunks) && Asks(s) && popped != []
    ensures var i := |chunks| % WINDOW;
            var t := Send(s, popped).ep;
            t.slots[i] == Slot(Wire(|chunks| + 1), popped) && t.slots[1 - i] == s.slots[1 - i]
  {
    WireNext(|chunks|);
    assert (s.head + s.count) % WINDOW == |chunks| % WINDOW;
  }

  lemma AskingMeansAcked(x: Node, n: nat)
    requires Sending(x) && AcksFit(x) && Pops(x.ep)
    requires 1 <= n <= |x.chunks| && (n - 1) % WINDOW == |x.chunks| % WINDOW
    ensures n <= x.ackSeen
  {
    SlideTracks(x);
  }

  /**
   * Chunk number n (counted from 1) lies in slot (n - 1) % 2. When a build is about to stage the
   * next chunk, every chunk that ever lay in the slot it overwrites is in the peer's ring, and the
   * other slot stays as it is.
   */
  lemma SlotReuseIsSafe(s: System, p: nat, n: nat, popped: seq<Byte>)
    requires Reachable(s, p)
    requires s.a.ep.Shaped() && Pops(s.a.ep)
    requires 1 <= n <= |s.a.chunks| && (n - 1) % WINDOW == |s.a.chunks| % WINDOW
    ensures n <= s.b.rx <= |s.a.chunks| && s.b.pushed == Flat(s.a.chunks[..s.b.rx])
    ensures popped != [] ==>
              var i, t := |s.a.chunks| % WINDOW, Build(s.a.ep, popped).ep;
              t.slots[i] == Slot(Wire(|s.a.chunks| + 1), popped) && t.slots[1 - i] == s.a.ep.slots[1 - i]
  {
    hide Send;
    ReachableInv(s, p);
    AskingMeansAcked(s.a, n);
    if popped != [] {
      SlideTracks(s.a);
      StageUsesOwnSlot(Slide(s.a.ep), s.a.chunks, popped);
    }
  }

  /**
   * What a rebuilt image says: always the newest chunk received as ack; with data a chunk of the
   * window under its own number; without, the number of the newest chunk staged. It is without data
   * exactly when the window is empty or was just rewound.
   */
  lemma ImageSays(s: System, p: nat, limit: nat)
    requires Reachable(s, p) && s.a.ep.Shaped()
    ensures var y := BuildNode(s.a, p, limit);
            && y.img.ack == Wire(s.a.rx)
            && (y.img.data == [] <==> y.ep.sendOffset == 0)
            && (y.img.data == [] ==> y.img.seqNo == Wire(|y.chunks|))
            && (y.img.data != [] ==>
                  exists k: nat ::
                    y.Base() <= k < |y.chunks| && y.img.data == y.chunks[k] && y.img.seqNo == Wire(k + 1))
  {
    hide Build, PoppedNow;
    ReachableInv(s, p);
    BuildStep(s, p, limit);
    var y := BuildNode(s.a, p, limit);
    IdleSays(Slide(s.a.ep), PoppedNow(s.a, p, limit)) by { SlideTracks(s.a); }
    BuiltIs(s.a, p, limit);
    var n := y.Base() + y.ep.sendOffset;
    if y.ep.sendOffset > 0 {
      assert y.chunks[n - 1] in y.chunks;
    }
  }

  lemma IdleSays(e: Endpoint, popped: seq<Byte>)
    requires e.Shaped()
    ensures Send(e, popped).ep.sendOffset == 0 ==> Send(e, popped).image.seqNo == Send(e, popped).ep.txSeq
  {
  }

  lemma BuiltIs(x: Node, p: nat, limit: nat)
    requires x.ep.Shaped()
    ensures BuildNode(x, p, limit).ep == Send(Slide(x.ep), PoppedNow(x, p, limit)).ep
    ensures BuildNode(x, p, limit).img == Send(Slide(x.ep), PoppedNow(x, p, limit)).image
    ensures BuildNode(x, p, limit).imgAck == x.rx
  {
    hide Send, Slide, PoppedNow;
  }

  // ---------------------------------------------------------------------------------------
  // The one-chunk-per-frame credit

  /** What an end does between two received images: the ring fills, the image is rebuilt. */
  datatype Local = Fill(data: seq<Byte>) | Repaint(limit: nat)

  ghost function LocalRun(x: Node, p: nat, steps: seq<Local>): (y: Node)
    requires x.ep.Shaped()
    ensures y.ep.Shaped()
    decreases |steps|
  {
    if steps == [] then x else
    match steps[0]
    case Fill(data) =>
      LocalRun(x.(tx := x.tx + data, written := x.written + data), p, steps[1..])
    case Repaint(limit) => LocalRun(BuildNode(x, p, limit), p, steps[1..])
  }

  /** The credit is spent and the image shows the chunk it was spent on. */
  ghost predicate Spent(x: Node) {
    && Sending(x) && AcksFit(x)
    && !x.ep.mayStage
    && x.imgAck == x.rx
  }

  lemma SpentRepaints(x: Node, p: nat, limit: nat)
    requires Spent(x)
    ensures BuildNode(x, p, limit) == x
  {
    AckUnambiguous(x.ep, x.chunks, x.ackSeen);
    var n := x.Base() + x.ep.sendOffset;
    assert x.ep.InFlight(x.ep.sendOffset - 1) == Slot(Wire(n), x.chunks[n - 1]);
    assert BuildNode(x, p, limit).img == x.img;
  }

  /**
   * Once a build has spent the credit, every further build before the next received image leaves
   * the endpoint, the image and the ring alone, and the image is never an idle one.
   */
  lemma {:induction false} SpentStays(x: Node, p: nat, steps: seq<Local>)
    requires Spent(x) && Accounted(x)
    ensures var y := LocalRun(x, p, steps);
            && y.ep == x.ep && y.img == x.img && y.popped == x.popped && y.chunks == x.chunks
    ensures x.img.data != []
    decreases |steps|
  {
    var n := x.Base() + x.ep.sendOffset;
    assert x.chunks[n - 1] in x.chunks;
    if steps != [] {
      match steps[0]
      case Fill(data) =>
        var z := x.(tx := x.tx + data, written := x.written + data);
        assert Accounted(z);
        SpentStays(z, p, steps[1..]);
      case Repaint(limit) =>
        SpentRepaints(x, p, limit);
        SpentStays(x, p, steps[1..]);
    }
  }

  lemma BuildSpends(x: Node, p: nat, limit: nat)
    requires NodeInv(x) && AcksFit(x)
    ensures var y := BuildNode(x, p, limit);
            && NodeInv(y) && AcksFit(y)
            && (|y.chunks| > |x.chunks| ==> |y.chunks| == |x.chunks| + 1 && !y.ep.mayStage)
            && (!y.ep.mayStage ==> Spent(y))
  {
    BuildKeepsSending(x, p, limit);
    BuildKeepsAccounts(x, p, limit);
  }

  /** Between two received images, from any reachable state, at most one new chunk is staged. */
  lemma {:induction false} OneChunkPerCredit(x: Node, p: nat, steps: seq<Local>)
    requires NodeInv(x) && AcksFit(x)
    ensures |x.chunks| <= |LocalRun(x, p, steps).chunks| <= |x.chunks| + 1
    decreases |steps|
  {
    if steps != [] {
      match steps[0]
      case Fill(data) =>
        OneChunkPerCredit(x.(tx := x.tx + data, written := x.written + data), p, steps[1..]);
      case Repaint(limit) =>
        BuildSpends(x, p, limit);
        var y := BuildNode(x, p, limit);
        if y.ep.mayStage {
          OneChunkPerCredit(y, p, steps[1..]);
        } else {
          SpentStays(y, p, steps[1..]);
        }
    }
  }

  /** Both credit laws for every reachable pair of endpoints. */
  lemma CreditDiscipline(s: System, p: nat, limit: nat, steps: seq<Local>)
    requires Reachable(s, p)
    ensures s.Shaped()
    ensures |LocalRun(s.a, p, steps).chunks| <= |s.a.chunks| + 1
    ensures var y := BuildNode(s.a, p, limit);
            var z := LocalRun(y, p, steps);
            !y.ep.mayStage ==>
              && y.img.data != []
              && z.ep == y.ep && z.img == y.img && z.popped == y.popped
  {
    ReachableInv(s, p);
    OneChunkPerCredit(s.a, p, steps);
    BuildSpends(s.a, p, limit);
    var y := BuildNode(s.a, p, limit);
    if !y.ep.mayStage {
      SpentStays(y, p, steps);
    }
  }

  // ---------------------------------------------------------------------------------------
  // The cheap peek

  /**
   * `ReadyToAdvance` is meant to say that a build could stage new payload. It does exactly when
   * no go-back replay is pending behind the acks; the ring then decides the rest.
   */
  lemma ReadyMeansStaging(s: System, p: nat, limit: nat)
    requires Reachable(s, p)
    requires s.Shaped() && PoppedNow(s.a, p, limit) != []
    ensures var staged := |BuildNode(s.a, p, limit).chunks| > |s.a.chunks|;
            var acked := AckedPrefix(s.a.ep);
            var replayPending := s.a.ep.sendOffset < s.a.ep.count && acked < s.a.ep.count;
            staged <==> ReadyToAdvance(s.a.ep) && !replayPending
  {
    ReachableInv(s, p);
    SlideTracks(s.a);
  }

  // ---------------------------------------------------------------------------------------
  // Receiving again, and the other end

  /** Receiving the same image twice is receiving it once, with room if there was room either time. */
  lemma ReceivedTwice(x: Node, reg: Register, first: bool, second: bool)
    requires x.ep.Shaped()
    ensures ReadNode(ReadNode(x, reg, first), reg, second) == ReadNode(x, reg, first || second)
  {
    var y := ReadNode(x, reg, first);
    if Expected(x.ep, reg.c) && first {
      assert !Expected(y.ep, reg.c);
      assert y.pushed + [] == y.pushed;
    } else {
      assert x.pushed + [] == x.pushed;
    }
  }

  function Other(side: Side): Side {
    if side == A then B else A
  }

  function Mirrored(steps: seq<Step>): (mirrored: seq<Step>)
    ensures |mirrored| == |steps|
  {
    if steps == [] then []
    else
      [match steps[0]
       case Write(side, data) => Write(Other(side), data)
       case Rebuild(side, limit) => Rebuild(Other(side), limit)
       case Carry(side) => Carry(Other(side))
       case Read(side, room) => Read(Other(side), room)] + Mirrored(steps[1..])
  }

  lemma {:induction false} MirroredRun(s: System, p: nat, steps: seq<Step>)
    requires s.Shaped()
    ensures Run(s.Swap(), p, Mirrored(steps)) == Run(s, p, steps).Swap()
    decreases |steps|
  {
    hide BuildNode, ReadNode;
    if steps != [] {
      MirroredRun(Next(s, p, steps[0]), p, steps[1..]);
    }
  }

  /** The ends are alike: what holds of one in every reachable state holds of the other. */
  lemma SwappedIsReachable(s: System, p: nat)
    requires Reachable(s, p)
    ensures Reachable(s.Swap(), p)
  {
    hide Run;
    var steps :| s == Run(START, p, steps);
    MirroredRun(START, p, steps);
    assert START.Swap() == START;
  }
}
