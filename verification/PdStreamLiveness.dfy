/** Recovery after loss within a fixed number of frames, and one chunk per frame without loss. */
module PdStreamLiveness {
  import opened Bytes
  import opened PdStream
  import opened PdStreamSystem

  /** A frame that arrives both ways: each end receives the other's current image once. */
  ghost function Frame(s: System, p: nat, roomA: bool): (t: System)
    requires s.Shaped()
    ensures t.Shaped()
  {
    Next(Next(Next(Next(s, p, Carry(A)), p, Carry(B)), p, Read(A, roomA)), p, Read(B, true))
  }

  /**
   * A frame that arrives both ways, and then, in any order, what the two ends do before the next
   * one: receiving the same images again, rebuilding, and filling their rings.
   */
  datatype Round = Round(roomA: bool, steps: seq<Step>)

  ghost function Play(s: System, p: nat, r: Round): (t: System)
    requires s.Shaped()
    ensures t.Shaped()
  {
    Run(Frame(s, p, r.roomA), p, r.steps)
  }

  ghost function PlayAll(s: System, p: nat, rounds: seq<Round>): (t: System)
    requires s.Shaped()
    ensures t.Shaped()
    decreases |rounds|
  {
    if rounds == [] then s else PlayAll(Play(s, p, rounds[0]), p, rounds[1..])
  }

  ghost predicate NoFrames(steps: seq<Step>) {
    forall step | step in steps :: !step.Carry?
  }

  ghost predicate Rebuilds(steps: seq<Step>, side: Side) {
    exists step :: step in steps && step.Rebuild? && step.side == side
  }

  /** The sender receives as often as it likes, but only before its first rebuild. */
  ghost predicate ReadsFirst(steps: seq<Step>, built: bool)
    decreases |steps|
  {
    steps == [] ||
    (!(built && steps[0].Read? && steps[0].side == A)
     && ReadsFirst(steps[1..], built || (steps[0].Rebuild? && steps[0].side == A)))
  }

  // ---------------------------------------------------------------------------------------
  // What a frame does, and what the ends do before the next

  lemma FrameKeeps(s: System, p: nat, roomA: bool)
    requires Inv(s)
    ensures Inv(Frame(s, p, roomA))
  {
    var s1 := Next(s, p, Carry(A));
    NextKeeps(s, p, Carry(A));
    var s2 := Next(s1, p, Carry(B));
    NextKeeps(s1, p, Carry(B));
    var s3 := Next(s2, p, Read(A, roomA));
    NextKeeps(s2, p, Read(A, roomA));
    NextKeeps(s3, p, Read(B, true));
  }

  /** Reading an image straight off the other end takes exactly the awaited chunk. */
  lemma ReadFresh(s: System, p: nat, room: bool)
    requires Inv(s)
    ensures var reg := Register(s.a.img, s.a.Base() + s.a.ep.sendOffset, s.a.imgAck);
            var y := ReadNode(s.b, reg, true);
            var awaited := s.a.ep.sendOffset > 0
                           && s.a.Base() + s.a.ep.sendOffset == s.b.rx + 1;
            && y.rx == s.b.rx + (if awaited then 1 else 0)
            && y.pushed == s.b.pushed + (if awaited then s.a.img.data else [])
  {
    var t := Next(s, p, Carry(A));
    NextKeeps(s, p, Carry(A));
    SeqUnambiguous(t.a, t.b, t.ra, t.rb);
    ImageHasData(s.a);
  }

  /** A frame hands over exactly the images shown. */
  lemma FrameEffect(s: System, p: nat, roomA: bool)
    requires Inv(s)
    ensures var t := Frame(s, p, roomA);
            && t.a == ReadNode(s.a, t.rb, roomA) && t.b == ReadNode(s.b, t.ra, true)
            && t.ra == Register(s.a.img, s.a.Base() + s.a.ep.sendOffset, s.a.imgAck)
            && t.rb == Register(s.b.img, s.b.Base() + s.b.ep.sendOffset, s.b.imgAck)
  {
  }

  lemma ImageHasData(x: Node)
    requires NodeInv(x)
    ensures x.img.data != [] <==> x.ep.sendOffset > 0
  {
    if x.ep.sendOffset > 0 {
      assert x.chunks[x.Base() + x.ep.sendOffset - 1] in x.chunks;
    }
  }

  lemma InvFacts(s: System)
    requires Inv(s)
    ensures NodeInv(s.a) && AcksFit(s.a) && NodeInv(s.b) && AcksFit(s.b)
    ensures s.a.Base() <= s.a.ackSeen <= s.b.imgAck <= s.b.rx <= |s.a.chunks|
    ensures s.a.ackSeen <= s.rb.a <= s.b.imgAck
  {
  }

  /** Whatever the ends do without a frame, nothing the peer has seen is taken back. */
  lemma LocalStep(s: System, p: nat, step: Step)
    requires Inv(s) && !step.Carry?
    ensures s.Shaped()
    ensures var t := Next(s, p, step);
            && Inv(t) && t.ra == s.ra && t.rb == s.rb
            && t.a.Base() >= s.a.Base() && t.b.rx >= s.b.rx && t.b.imgAck >= s.b.imgAck
            && (step.Rebuild? && step.side == B ==> t.b.imgAck >= s.b.rx)
            && (step.Rebuild? && step.side == A ==> t.a.Base() == s.a.ackSeen)
            && (t.a.ackSeen == s.a.ackSeen || t.a.ackSeen == s.rb.a)
  {
    hide Inv, Build;
    InvFacts(s);
    NextKeeps(s, p, step);
    InvFacts(Next(s, p, step));
    if step.Rebuild? && step.side == A {
      BuildKeepsSending(s.a, p, step.limit);
    }
  }

  /** Acks are collected and given by rebuilding. */
  lemma {:induction false} LocalRunMoves(s: System, p: nat, steps: seq<Step>, seen: int)
    requires Inv(s) && NoFrames(steps) && s.a.ackSeen >= seen && s.rb.a >= seen
    ensures var t := Run(s, p, steps);
            && Inv(t) && t.a.Base() >= s.a.Base() && t.b.rx >= s.b.rx && t.b.imgAck >= s.b.imgAck
            && (Rebuilds(steps, B) ==> t.b.imgAck >= s.b.rx)
            && (Rebuilds(steps, A) ==> t.a.Base() >= seen)
    decreases |steps|
  {
    hide Inv, Next;
    if steps != [] {
      LocalStep(s, p, steps[0]);
      LocalRunMoves(Next(s, p, steps[0]), p, steps[1..], seen);
      RebuildsStep(steps, A);
      RebuildsStep(steps, B);
    }
  }

  lemma RebuildsStep(steps: seq<Step>, side: Side)
    requires steps != []
    ensures Rebuilds(steps, side)
            <==> (steps[0].Rebuild? && steps[0].side == side) || Rebuilds(steps[1..], side)
  {
    assert steps == [steps[0]] + steps[1..];
  }

  /**
   * The receiver waits for the oldest chunk in flight, nothing is acknowledged, and the image
   * that the last frame brought it is another one.
   */
  ghost predicate Waiting(s: System) {
    && Inv(s) && s.a.ep.count > 0
    && s.a.ackSeen == s.rb.a == s.a.Base() == s.b.rx
    && !Expected(s.b.ep, s.ra.c)
  }

  /** A frame hands over the image shown, and the ack of the peer's last rebuild. */
  lemma FrameOutcome(s: System, p: nat, roomA: bool)
    requires Inv(s)
    ensures s.Shaped()
    ensures var f := Frame(s, p, roomA);
            && Inv(f)
            && f.a.chunks == s.a.chunks && f.a.tx == s.a.tx && f.a.ep.count == s.a.ep.count
            && f.a.ep.sendOffset == s.a.ep.sendOffset && f.a.ep.stall == s.a.ep.stall
            && f.a.ep.mayStage && f.a.ackSeen == f.rb.a == s.b.imgAck == f.b.imgAck
            && f.b.rx >= s.b.rx
            && (s.b.rx == s.a.Base() && s.a.ep.sendOffset == 1 ==> f.b.rx == s.b.rx + 1)
            && (s.b.rx == s.a.Base() && s.a.ep.sendOffset != 1 ==>
                  && f.b.rx == s.b.rx && f.b.pushed == s.b.pushed
                  && (s.a.ep.count > 0 ==> Waiting(f)))
  {
    InvFacts(s);
    FrameKeeps(s, p, roomA);
    FrameEffect(s, p, roomA);
    ReadFresh(s, p, roomA);
    var f := Frame(s, p, roomA);
    InvFacts(f);
    SeqUnambiguous(f.a, f.b, f.ra, f.rb);
  }

  // ---------------------------------------------------------------------------------------
  // Recovery

  /** How far the sender is from showing its oldest unacknowledged chunk. */
  ghost function Distance(e: Endpoint): int {
    if e.sendOffset == 0 then 3
    else if e.sendOffset == 1 then 2
    else 3 + GO_BACK_STALL - e.stall
  }

  /** What a build makes of a sender of which nothing was acknowledged. */
  lemma WaitingBuild(x: Node, p: nat, limit: nat)
    requires NodeInv(x) && AcksFit(x) && x.ackSeen == x.Base() && x.ep.count > 0
    ensures var y := BuildNode(x, p, limit);
            && y.Base() == x.Base() && x.ep.count <= y.ep.count <= WINDOW && x.chunks <= y.chunks
            && (!x.ep.mayStage ==> y.ep == x.ep)
            && (x.ep.mayStage && x.ep.sendOffset < x.ep.count ==>
                  && y.ep.count == x.ep.count && !y.ep.mayStage
                  && y.ep.sendOffset == x.ep.sendOffset + 1 && y.ep.stall == x.ep.stall == 0)
            && (x.ep.mayStage && x.ep.sendOffset == x.ep.count && y.ep.count == x.ep.count ==>
                  && y.ep.mayStage
                  && if x.ep.stall + 1 < GO_BACK_STALL
                     then y.ep.sendOffset == x.ep.sendOffset && y.ep.stall == x.ep.stall + 1
                     else y.ep.sendOffset == y.ep.stall == 0)
            && (y.ep.count > x.ep.count ==>
                  && x.ep.mayStage && x.ep.sendOffset == x.ep.count == 1 && limit > 0
                  && y.ep.sendOffset == WINDOW && y.ep.stall == x.ep.stall)
  {
    BuildKeepsSending(x, p, limit);
    AckUnambiguous(x.ep, x.chunks, x.ackSeen);
  }

  /** While the receiver waits, only the sender's own builds and credit change anything. */
  lemma WaitingStep(s: System, p: nat, step: Step)
    requires Waiting(s) && !step.Carry?
    ensures s.Shaped()
    ensures var t := Next(s, p, step);
            && Waiting(t) && t.a.Base() == s.a.Base() && t.b.pushed == s.b.pushed
            && (step.Rebuild? && step.side == A ==> t.a == BuildNode(s.a, p, step.limit))
            && (!(step.Rebuild? && step.side == A) ==>
                  && t.a.ep.count == s.a.ep.count && t.a.ep.sendOffset == s.a.ep.sendOffset
                  && t.a.ep.stall == s.a.ep.stall
                  && t.a.ep.mayStage == (s.a.ep.mayStage || (step.Read? && step.side == A)))
  {
    hide Inv, Build;
    InvFacts(s);
    LocalStep(s, p, step);
    InvFacts(Next(s, p, step));
    if step.Rebuild? && step.side == A {
      WaitingBuild(s.a, p, step.limit);
    }
    if step.Rebuild? && step.side == B {
      BuildKeepsSending(s.b, p, step.limit);
    }
  }

  /** The sender still has its credit and does not show its oldest chunk, or has just shown it. */
  ghost predicate Searching(s: System) {
    Waiting(s) && (s.a.ep.sendOffset == 1 <==> !s.a.ep.mayStage)
  }

  lemma SearchStep(s: System, p: nat, step: Step)
    requires Searching(s) && !step.Carry?
    requires step.Read? && step.side == A ==> s.a.ep.sendOffset != 1
    ensures s.Shaped()
    ensures var t := Next(s, p, step);
            && Searching(t) && t.a.Base() == s.a.Base()
            && Distance(t.a.ep) <= Distance(s.a.ep)
            && (if step.Rebuild? && step.side == A && s.a.ep.sendOffset != 1
                then Distance(t.a.ep) < Distance(s.a.ep)
                else t.a.ep.sendOffset == s.a.ep.sendOffset)
  {
    hide Inv, BuildNode;
    WaitingStep(s, p, step);
    InvFacts(s);
    if step.Rebuild? && step.side == A {
      WaitingBuild(s.a, p, step.limit);
    }
  }

  lemma {:induction false} SearchRun(s: System, p: nat, steps: seq<Step>, built: bool)
    requires Searching(s) && NoFrames(steps) && ReadsFirst(steps, built)
    requires !built ==> s.a.ep.sendOffset != 1
    ensures var t := Run(s, p, steps);
            && Searching(t) && t.a.Base() == s.a.Base()
            && Distance(t.a.ep) <= Distance(s.a.ep)
            && (s.a.ep.sendOffset != 1 && Rebuilds(steps, A) ==> Distance(t.a.ep) < Distance(s.a.ep))
    decreases |steps|
  {
    hide Searching, Next, Distance;
    SearchShaped(s);
    if steps != [] {
      SearchStep(s, p, steps[0]);
      SearchRun(Next(s, p, steps[0]), p, steps[1..], built || (steps[0].Rebuild? && steps[0].side == A));
      RebuildsStep(steps, A);
    }
  }

  lemma SearchShaped(s: System)
    requires Searching(s)
    ensures s.Shaped()
  {
  }

  /** The number of loss-free rounds after which the oldest chunk in flight is acknowledged. */
  ghost function Rank(s: System): int {
    if s.b.rx > s.a.Base() then
      if s.b.imgAck > s.a.Base() then 1 else 2
    else Distance(s.a.ep)
  }

  /** A round slides the window, or gets an ack under way, or leaves the receiver waiting. */
  lemma RoundOutcome(s: System, p: nat, r: Round)
    requires Inv(s) && NoFrames(r.steps) && Rebuilds(r.steps, A) && Rebuilds(r.steps, B)
    ensures s.Shaped()
    ensures var f, t := Frame(s, p, r.roomA), Play(s, p, r);
            && Inv(t) && t.a.Base() >= s.a.Base() && t.b.imgAck >= s.b.rx
            && (s.b.imgAck > s.a.Base() ==> t.a.Base() > s.a.Base())
            && (s.b.rx == s.a.Base() && s.a.ep.sendOffset == 1 ==> t.b.imgAck > s.a.Base())
            && (s.b.rx == s.a.Base() && s.a.ep.sendOffset != 1 && s.a.ep.count > 0 ==> Waiting(f))
            && t.b.imgAck <= t.b.rx && (t.b.rx > t.a.Base() ==> t.a.ep.count > 0)
  {
    hide Inv;
    InvFacts(s);
    FrameOutcome(s, p, r.roomA);
    LocalRunMoves(Frame(s, p, r.roomA), p, r.steps, s.b.imgAck);
    InvFacts(Play(s, p, r));
  }

  /** Rounds in which both ends rebuild and the sender receives only before it does. */
  ghost predicate Settling(r: Round) {
    && NoFrames(r.steps) && Rebuilds(r.steps, A) && Rebuilds(r.steps, B)
    && ReadsFirst(r.steps, false)
  }

  /** One round either slides the window or brings the sender closer. */
  lemma RoundProgress(s: System, p: nat, r: Round)
    requires Inv(s) && Settling(r)
    ensures s.Shaped()
    ensures var t := Play(s, p, r);
            && Inv(t)
            && t.a.Base() >= s.a.Base()
            && (s.a.ep.count > 0 && t.a.Base() == s.a.Base() ==>
                  t.a.ep.count > 0 && Rank(t) < Rank(s))
  {
    hide Inv, Rebuilds, ReadsFirst, Frame;
    InvFacts(s);
    RoundOutcome(s, p, r);
    if s.b.rx == s.a.Base() && s.a.ep.sendOffset != 1 && s.a.ep.count > 0 {
      FrameOutcome(s, p, r.roomA);
      SearchRun(Frame(s, p, r.roomA), p, r.steps, false);
    }
  }

  lemma {:induction false} RecoveryWithin(s: System, p: nat, rounds: seq<Round>)
    requires Inv(s) && forall r | r in rounds :: Settling(r)
    ensures s.Shaped() && PlayAll(s, p, rounds).a.Base() >= s.a.Base()
    ensures s.a.ep.count > 0 && Rank(s) <= |rounds| ==> PlayAll(s, p, rounds).a.Base() > s.a.Base()
    decreases |rounds|
  {
    hide Inv, Settling, Play;
    InvFacts(s);
    if rounds != [] {
      RoundProgress(s, p, rounds[0]);
      RecoveryWithin(Play(s, p, rounds[0]), p, rounds[1..]);
    }
  }

  /**
   * From every reachable state with chunks in flight, seven consecutive loss-free frames get the
   * oldest one acknowledged and out of the window, provided the peer's ring has room and after
   * each frame both ends rebuild, the sender not receiving again once it has. All else is free:
   * how often the ends receive and rebuild, what they write, and whether the own ring has room.
   */
  lemma Recovery(s: System, p: nat, rounds: seq<Round>)
    requires Reachable(s, p) && s.a.ep.count > 0
    requires |rounds| == 7 && forall r | r in rounds :: Settling(r)
    ensures s.Shaped() && PlayAll(s, p, rounds).a.Base() > s.a.Base()
  {
    hide Inv, Settling;
    ReachableInv(s, p);
    InvFacts(s);
    RecoveryWithin(s, p, rounds);
  }

  // ---------------------------------------------------------------------------------------
  // Full rate without loss

  /** One rebuild at each end, then a frame that arrives both ways. */
  datatype Cycle = Cycle(limitB: nat, roomA: bool)

  ghost function PlayCycle(s: System, p: nat, c: Cycle): (t: System)
    requires s.Shaped()
    ensures t.Shaped()
  {
    Frame(Next(Next(s, p, Rebuild(A, p)), p, Rebuild(B, c.limitB)), p, c.roomA)
  }

  ghost function PlayCycles(s: System, p: nat, cycles: seq<Cycle>): (t: System)
    requires s.Shaped()
    ensures t.Shaped()
    decreases |cycles|
  {
    if cycles == [] then s
    else PlayCycle(PlayCycles(s, p, cycles[..|cycles| - 1]), p, cycles[|cycles| - 1])
  }

  /** Nothing in flight, everything acknowledged, the credit at hand. */
  ghost predicate Quiet(s: System) {
    s.a.ep.count == 0 && s.a.ep.mayStage
  }

  /** The first i parts have gone out and in since `s`; at most the last one is unconfirmed. */
  ghost predicate Flowing(s: System, parts: seq<seq<Byte>>, i: nat, t: System) {
    Inv(t) && Flow(s, parts, i, t)
  }

  ghost predicate Flow(s: System, parts: seq<seq<Byte>>, i: nat, t: System) {
    && i <= |parts|
    && |t.a.chunks| == |s.a.chunks| + i == t.b.rx
    && t.a.ackSeen == (if i == 0 then t.b.rx else t.b.rx - 1)
    && t.a.ep.count == (if i < WINDOW then i else WINDOW) == t.a.ep.sendOffset
    && t.a.ep.stall == 0 && t.a.ep.mayStage
    && t.a.tx == Flat(parts[i..])
    && t.b.pushed == s.b.pushed + Flat(parts[..i])
  }

  ghost predicate FullParts(parts: seq<seq<Byte>>, p: nat) {
    forall c | c in parts :: |c| == p
  }

  /** The sender's half of a cycle while octets remain: the window never blocks staging. */
  lemma FlowBuild(x: Node, p: nat, next: seq<Byte>, rest: seq<Byte>)
    requires NodeInv(x) && AcksFit(x)
    requires x.tx == next + rest && |next| == p > 0
    requires x.ackSeen >= |x.chunks| - 1 && x.ep.sendOffset == x.ep.count
    requires x.ep.stall == 0 && x.ep.mayStage
    ensures var y := BuildNode(x, p, p);
            && y.chunks == x.chunks + [next] && y.img.data == next && y.tx == rest
            && y.ep.count == |x.chunks| + 1 - x.ackSeen == y.ep.sendOffset
            && y.ep.stall == 0
  {
    SlideTracks(x);
    assert PoppedNow(x, p, p) == next;
    assert x.tx[p..] == rest;
    var e := Slide(x.ep);
    StageTracks(e, x.chunks, next);
    assert Stage(e, next).ep.InFlight(e.count).data == next;
  }

  lemma CycleStart(t: System, p: nat, limitB: nat)
    requires Inv(t)
    ensures var u := Next(Next(t, p, Rebuild(A, p)), p, Rebuild(B, limitB));
            && Inv(u)
            && u.a == BuildNode(t.a, p, p)
            && u.b.imgAck == t.b.rx == u.b.rx && u.b.pushed == t.b.pushed
            && u.a.Base() == t.a.ackSeen
  {
    NextKeeps(t, p, Rebuild(A, p));
    NextKeeps(Next(t, p, Rebuild(A, p)), p, Rebuild(B, limitB));
    InvFacts(t);
    BuildKeepsSending(t.a, p, p);
  }

  lemma CycleEffect(t: System, p: nat, c: Cycle)
    requires Inv(t)
    ensures var y := BuildNode(t.a, p, p);
            var v := PlayCycle(t, p, c);
            && Inv(v)
            && v.a.chunks == y.chunks && v.a.tx == y.tx
            && v.a.ep.count == y.ep.count && v.a.ep.sendOffset == y.ep.sendOffset
            && v.a.ep.stall == y.ep.stall && v.a.ep.mayStage
            && v.a.ackSeen == t.b.rx
            && (var awaited := y.ep.sendOffset > 0
                               && t.a.ackSeen + y.ep.sendOffset == t.b.rx + 1;
                && v.b.rx == t.b.rx + (if awaited then 1 else 0)
                && v.b.pushed == t.b.pushed + (if awaited then y.img.data else []))
  {
    hide Inv, BuildNode;
    InvFacts(t);
    CycleStart(t, p, c.limitB);
    var u := Next(Next(t, p, Rebuild(A, p)), p, Rebuild(B, c.limitB));
    FrameKeeps(u, p, c.roomA);
    FrameEffect(u, p, c.roomA);
    ReadFresh(u, p, true);
  }

  /** A cycle in the middle of the flow moves the next part from ring to ring. */
  lemma FlowMoves(t: System, p: nat, next: seq<Byte>, rest: seq<Byte>, c: Cycle)
    requires Inv(t) && t.b.rx == |t.a.chunks| && t.a.ackSeen >= |t.a.chunks| - 1
    requires t.a.tx == next + rest && |next| == p > 0
    requires t.a.ep.sendOffset == t.a.ep.count && t.a.ep.stall == 0 && t.a.ep.mayStage
    ensures var v := PlayCycle(t, p, c);
            && Inv(v)
            && |v.a.chunks| == |t.a.chunks| + 1 == v.b.rx
            && v.a.ackSeen == t.b.rx
            && v.a.ep.count == |t.a.chunks| + 1 - t.a.ackSeen == v.a.ep.sendOffset
            && v.a.ep.stall == 0 && v.a.ep.mayStage
            && v.a.tx == rest && v.b.pushed == t.b.pushed + next
  {
    InvFacts(t);
    FlowBuild(t.a, p, next, rest);
    CycleEffect(t, p, c);
  }

  lemma PartsStep(parts: seq<seq<Byte>>, i: nat)
    requires i < |parts|
    ensures Flat(parts[i..]) == parts[i] + Flat(parts[i + 1..])
    ensures Flat(parts[..i + 1]) == Flat(parts[..i]) + parts[i]
  {
    FlatCons(parts[i], parts[i + 1..]);
    assert parts[i..] == [parts[i]] + parts[i + 1..];
    FlatSnoc(parts[..i], parts[i]);
    assert parts[..i + 1] == parts[..i] + [parts[i]];
  }

  lemma FlowStep(s: System, parts: seq<seq<Byte>>, i: nat, t: System, v: System)
    requires i < |parts| && Flow(s, parts, i, t)
    requires |v.a.chunks| == |t.a.chunks| + 1 == v.b.rx
    requires v.a.ackSeen == t.b.rx
    requires v.a.ep.count == |t.a.chunks| + 1 - t.a.ackSeen == v.a.ep.sendOffset
    requires v.a.ep.stall == 0 && v.a.ep.mayStage
    requires v.a.tx == Flat(parts[i + 1..]) && v.b.pushed == t.b.pushed + parts[i]
    ensures Flow(s, parts, i + 1, v)
  {
    PartsStep(parts, i);
  }

  lemma FlowCycle(s: System, p: nat, parts: seq<seq<Byte>>, i: nat, t: System, c: Cycle)
    requires p > 0 && FullParts(parts, p) && i < |parts| && Flowing(s, parts, i, t)
    ensures Flowing(s, parts, i + 1, PlayCycle(t, p, c))
  {
    assert parts[i] in parts;
    PartsStep(parts, i);
    FlowMoves(t, p, parts[i], Flat(parts[i + 1..]), c);
    FlowStep(s, parts, i, t, PlayCycle(t, p, c));
  }

  lemma {:induction false} FlowCycles(s: System, p: nat, parts: seq<seq<Byte>>, cycles: seq<Cycle>)
    requires Inv(s) && Quiet(s) && s.a.tx == Flat(parts)
    requires p > 0 && FullParts(parts, p) && |cycles| <= |parts|
    ensures Flowing(s, parts, |cycles|, PlayCycles(s, p, cycles))
    decreases |cycles|
  {
    if cycles == [] {
      InvFacts(s);
      assert parts[0..] == parts;
    } else {
      var i := |cycles| - 1;
      FlowCycles(s, p, parts, cycles[..i]);
      FlowCycle(s, p, parts, i, PlayCycles(s, p, cycles[..i]), cycles[i]);
    }
  }

  /** With nothing left to stage, a cycle only collects the outstanding ack. */
  lemma FlowEnd(s: System, p: nat, parts: seq<seq<Byte>>, t: System, c: Cycle)
    requires Flowing(s, parts, |parts|, t)
    ensures var v := PlayCycle(t, p, c);
            && Inv(v)
            && v.a.ackSeen == |v.a.chunks| && v.a.chunks == t.a.chunks
            && v.b.pushed == t.b.pushed && v.a.tx == []
  {
    InvFacts(t);
    SlideTracks(t.a);
    assert t.a.tx == [];
    CycleEffect(t, p, c);
  }

  /**
   * From idle, with N full chunks queued and room at the receiver: every one of the first N
   * loss-free cycles stages and delivers one chunk with the stall counter at rest, and one more
   * cycle has all of them acknowledged.
   */
  lemma FullRate(s: System, p: nat, parts: seq<seq<Byte>>, cycles: seq<Cycle>)
    requires Reachable(s, p) && s.Shaped() && Quiet(s) && s.a.tx == Flat(parts)
    requires p > 0 && FullParts(parts, p) && |cycles| == |parts| + 1
    ensures forall i | 0 <= i <= |parts| :: Flowing(s, parts, i, PlayCycles(s, p, cycles[..i]))
    ensures var t := PlayCycles(s, p, cycles);
            && t.b.pushed == s.b.pushed + s.a.tx
            && t.a.tx == []
            && AckedPrefix(t.a.ep) == t.a.ep.count
  {
    hide Inv, Reachable, PlayCycle, Flow, AckedPrefix, Flat, FullParts;
    ReachableInv(s, p);
    forall i | 0 <= i <= |parts| ensures Flowing(s, parts, i, PlayCycles(s, p, cycles[..i])) {
      FlowCycles(s, p, parts, cycles[..i]);
    }
    LastCycle(s, p, parts, PlayCycles(s, p, cycles[..|parts|]), cycles[|parts|]);
  }

  lemma LastCycle(s: System, p: nat, parts: seq<seq<Byte>>, t: System, c: Cycle)
    requires s.a.tx == Flat(parts) && Flowing(s, parts, |parts|, t)
    ensures var v := PlayCycle(t, p, c);
            && v.b.pushed == s.b.pushed + s.a.tx && v.a.tx == []
            && AckedPrefix(v.a.ep) == v.a.ep.count
  {
    hide PlayCycle, AckedPrefix;
    assert parts[..|parts|] == parts;
    FlowEnd(s, p, parts, t, c);
    var v := PlayCycle(t, p, c);
    InvFacts(v);
    AckUnambiguous(v.a.ep, v.a.chunks, v.a.ackSeen);
  }
}
