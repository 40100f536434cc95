/**
 * How often the sender may rebuild on a fresh credit between two frames.
 *
 * The credit is granted per received image, not per frame, so an end that receives the same image
 * again spends it again. With k such rebuilds in every round, a sender whose oldest chunk was lost
 * runs through its stall, rewind and replay states k at a time, and a frame sees only where it
 * stands then. It always comes to show the oldest chunk when k has no factor in common with the
 * 5 states of one chunk in flight and the 6 of two; otherwise it need not ever.
 */
module PdStreamCredits {
  import Bytes
  import opened PdStream
  import opened PdStreamSystem
  import opened PdStreamLiveness

  /** The rebuilds at the sender that find a credit. */
  ghost function Credits(s: System, p: nat, steps: seq<Step>): nat
    requires s.Shaped()
    decreases |steps|
  {
    if steps == [] then 0
    else
      (if steps[0].Rebuild? && steps[0].side == A && s.a.ep.mayStage then 1 else 0)
      + Credits(Next(s, p, steps[0]), p, steps[1..])
  }

  /** A loss-free frame, after which the sender makes k credited rebuilds and the receiver rebuilds. */
  ghost predicate CreditRound(s: System, p: nat, r: Round, k: nat)
    requires s.Shaped()
  {
    && NoFrames(r.steps) && Rebuilds(r.steps, B)
    && Credits(Frame(s, p, r.roomA), p, r.steps) == k
  }

  ghost predicate CreditRounds(s: System, p: nat, rounds: seq<Round>, k: nat)
    requires s.Shaped()
    decreases |rounds|
  {
    rounds == [] ||
    (CreditRound(s, p, rounds[0], k) && CreditRounds(Play(s, p, rounds[0]), p, rounds[1..], k))
  }

  /** Some number of such rounds always gets the oldest chunk in flight acknowledged. */
  ghost predicate Recovers(p: nat, k: nat) {
    exists n: nat :: RecoversWithin(p, k, n)
  }

  ghost predicate RecoversWithin(p: nat, k: nat, n: nat) {
    forall s: System, rounds: seq<Round> |
      Reachable(s, p) && s.Shaped() && s.a.ep.count > 0 && |rounds| == n && CreditRounds(s, p, rounds, k) ::
      PlayAll(s, p, rounds).a.Base() > s.a.Base()
  }

  /** No common factor with 30. */
  predicate CoprimeTo30(k: nat) {
    k % 2 != 0 && k % 3 != 0 && k % 5 != 0
  }

  // ---------------------------------------------------------------------------------------
  // The cycle

  /**
   * Where a sender stands of which nothing gets acknowledged: rewound, replaying, then stalling.
   * At place 1 a frame finds the oldest chunk; with one chunk in flight, anywhere but at 0.
   */
  ghost function Place(e: Endpoint): int {
    e.sendOffset + e.stall
  }

  /** c places on, of the 5 with one chunk in flight or the 6 with two. */
  function Turned(count: nat, place: int, c: int): int {
    if count == 1 then (place + c) % 5 else (place + c) % 6
  }

  lemma TurnedAgain(count: nat, place: int, a: int, b: int)
    ensures Turned(count, Turned(count, place, a), b) == Turned(count, place, a + b)
  {
    SameRest(place + a + b, (place + a) / 5, (place + a) / 6);
  }

  lemma SameRest(x: int, q: int, r: int)
    ensures (x - 5 * q) % 5 == x % 5 && (x - 6 * r) % 6 == x % 6
  {
    var five, six := x / 5, x / 6;
    assert x - 5 * q == 5 * (five - q) + x % 5;
    assert x - 6 * r == 6 * (six - r) + x % 6;
  }

  ghost predicate Placed(e: Endpoint) {
    0 < e.count <= WINDOW && 0 <= Place(e) < (if e.count == 1 then 5 else 6)
  }

  lemma TurnedNowhere(e: Endpoint)
    requires Placed(e)
    ensures Turned(e.count, Place(e), 0) == Place(e)
  {
  }

  lemma PlaceStep(s: System, p: nat, step: Step)
    requires Waiting(s) && !step.Carry?
    ensures s.Shaped()
    ensures var t, credited := Next(s, p, step), step.Rebuild? && step.side == A && s.a.ep.mayStage;
            && Waiting(t) && t.a.Base() == s.a.Base() && t.b.pushed == s.b.pushed
            && s.a.ep.count <= t.a.ep.count <= WINDOW
            && (step.Rebuild? && step.limit == 0 ==> t.a.ep.count == s.a.ep.count)
            && Placed(s.a.ep) && Placed(t.a.ep)
            && (t.a.ep.count == s.a.ep.count ==>
                  Place(t.a.ep) == Turned(s.a.ep.count, Place(s.a.ep), if credited then 1 else 0))
  {
    hide Inv, BuildNode, Next;
    WaitingStep(s, p, step);
    InvFacts(s);
    WaitingFacts(Next(s, p, step));
    WaitingFacts(s);
    if step.Rebuild? && step.side == A {
      WaitingBuild(s.a, p, step.limit);
    }
  }

  lemma {:induction false} PlaceRun(s: System, p: nat, steps: seq<Step>)
    requires Waiting(s) && NoFrames(steps)
    ensures s.Shaped()
    ensures var t := Run(s, p, steps);
            && Waiting(t) && t.a.Base() == s.a.Base() && t.b.pushed == s.b.pushed
            && s.a.ep.count <= t.a.ep.count <= WINDOW
            && Placed(s.a.ep) && Placed(t.a.ep)
            && (t.a.ep.count == s.a.ep.count ==>
                  Place(t.a.ep) == Turned(s.a.ep.count, Place(s.a.ep), Credits(s, p, steps)))
    decreases |steps|
  {
    hide Waiting, Next, Place, Turned, Placed;
    WaitingFacts(s);
    TurnedNowhere(s.a.ep);
    if steps != [] {
      var t := Next(s, p, steps[0]);
      PlaceStep(s, p, steps[0]);
      PlaceRun(t, p, steps[1..]);
      var first := if steps[0].Rebuild? && steps[0].side == A && s.a.ep.mayStage then 1 else 0;
      TurnedAgain(s.a.ep.count, Place(s.a.ep), first, Credits(t, p, steps[1..]));
    }
  }

  lemma WaitingFacts(s: System)
    requires Waiting(s)
    ensures s.Shaped() && Placed(s.a.ep)
  {
  }

  // ---------------------------------------------------------------------------------------
  // Recovery with k credits a round

  /** How many more frames pass before one finds the oldest chunk, at most. */
  ghost function Wait(e: Endpoint, k: nat): int {
    if e.count == 1 then if Place(e) == 0 then 6 else 0
    else if k % 6 == 1 then (7 - Place(e)) % 6
    else (Place(e) + 5) % 6
  }

  lemma WaitOfTwo(place: int, k: nat)
    requires 0 <= place < 6 && place != 1 && k % 2 != 0 && k % 3 != 0
    ensures var next := Turned(2, place, k);
            if k % 6 == 1 then (7 - next) % 6 < (7 - place) % 6 else (next + 5) % 6 < (place + 5) % 6
  {
    assert k % 6 == 1 || k % 6 == 5;
    assert Turned(2, place, k) == if k % 6 == 1 then (place + 1) % 6 else (place + 5) % 6;
  }

  lemma WaitShrinks(e: Endpoint, f: Endpoint, k: nat)
    requires CoprimeTo30(k)
    requires 0 < e.count <= f.count <= WINDOW && e.sendOffset != 1
    requires Placed(e) && Placed(f)
    requires e.sendOffset <= e.count && (e.sendOffset < e.count ==> e.stall == 0)
    requires f.count == e.count ==> Place(f) == Turned(e.count, Place(e), k)
    ensures 0 <= Wait(f, k) < Wait(e, k)
  {
    if e.count == 2 {
      WaitOfTwo(Place(e), k);
    }
  }

  ghost function CreditRank(s: System, k: nat): int {
    if s.b.rx > s.a.Base() then
      if s.b.imgAck > s.a.Base() then 1 else 2
    else Wait(s.a.ep, k) + 2
  }

  lemma {:induction false} CreditsNeedRebuilds(s: System, p: nat, steps: seq<Step>)
    requires Inv(s) && NoFrames(steps)
    ensures s.Shaped()
    ensures Credits(s, p, steps) > 0 ==> Rebuilds(steps, A)
    decreases |steps|
  {
    hide Inv, Next, Rebuilds;
    InvFacts(s);
    if steps != [] {
      LocalStep(s, p, steps[0]);
      CreditsNeedRebuilds(Next(s, p, steps[0]), p, steps[1..]);
      RebuildsStep(steps, A);
    }
  }

  lemma CreditProgress(s: System, p: nat, r: Round, k: nat)
    requires Inv(s) && CoprimeTo30(k)
    requires s.Shaped() && CreditRound(s, p, r, k)
    ensures var t := Play(s, p, r);
            && Inv(t)
            && t.a.Base() >= s.a.Base()
            && (s.a.ep.count > 0 && t.a.Base() == s.a.Base() ==>
                  t.a.ep.count > 0 && CreditRank(t, k) < CreditRank(s, k))
  {
    hide Inv, Rebuilds, Frame, Wait, Credits;
    var f := Frame(s, p, r.roomA);
    InvFacts(s);
    FrameOutcome(s, p, r.roomA);
    CreditsNeedRebuilds(f, p, r.steps);
    RoundOutcome(s, p, r);
    if s.a.ep.count > 0 && s.b.rx == s.a.Base() {
      WaitIsNatural(s.a, k);
      if s.a.ep.sendOffset != 1 {
        PlaceRun(f, p, r.steps);
        WaitShrinks(f.a.ep, Play(s, p, r).a.ep, k);
        WaitSame(s.a.ep, f.a.ep, k);
      }
    }
  }

  lemma WaitSame(e: Endpoint, f: Endpoint, k: nat)
    requires f.count == e.count && f.sendOffset == e.sendOffset && f.stall == e.stall
    ensures Wait(f, k) == Wait(e, k)
  {
  }

  lemma WaitIsNatural(x: Node, k: nat)
    requires NodeInv(x) && x.ep.count > 0
    ensures 0 <= Wait(x.ep, k) <= 6
  {
  }

  lemma {:induction false} RecoveryByCreditsWithin(s: System, p: nat, rounds: seq<Round>, k: nat)
    requires Inv(s) && CoprimeTo30(k)
    requires s.Shaped() && CreditRounds(s, p, rounds, k)
    ensures PlayAll(s, p, rounds).a.Base() >= s.a.Base()
    ensures s.a.ep.count > 0 && CreditRank(s, k) <= |rounds| ==> PlayAll(s, p, rounds).a.Base() > s.a.Base()
    decreases |rounds|
  {
    hide Inv, CreditRound, Play, Wait;
    if rounds == [] {
      if s.a.ep.count > 0 {
        InvFacts(s);
        WaitIsNatural(s.a, k);
      }
    } else {
      CreditProgress(s, p, rounds[0], k);
      RecoveryByCreditsWithin(Play(s, p, rounds[0]), p, rounds[1..], k);
    }
  }

  /**
   * With k credited rebuilds at the sender in every round, k prime to 30, eight loss-free frames
   * get the oldest chunk acknowledged, from every reachable state, whatever else the ends do.
   */
  lemma RecoveryByCredits(s: System, p: nat, rounds: seq<Round>, k: nat)
    requires Reachable(s, p) && s.Shaped() && s.a.ep.count > 0 && CoprimeTo30(k)
    requires |rounds| == 8 && CreditRounds(s, p, rounds, k)
    ensures PlayAll(s, p, rounds).a.Base() > s.a.Base()
  {
    hide Inv, Wait;
    ReachableInv(s, p);
    InvFacts(s);
    WaitIsNatural(s.a, k);
    RecoveryByCreditsWithin(s, p, rounds, k);
  }

  // ---------------------------------------------------------------------------------------
  // Starvation otherwise

  /** Receive and rebuild k times, without taking anything from the ring. */
  function Repeats(k: nat): seq<Step> {
    if k == 0 then [] else [Read(A, true), Rebuild(A, 0)] + Repeats(k - 1)
  }

  lemma {:induction false} RepeatsAreLocal(k: nat)
    ensures NoFrames(Repeats(k)) && !Rebuilds(Repeats(k), B)
  {
    if k > 0 {
      RepeatsAreLocal(k - 1);
    }
  }

  lemma TwoSteps(s: System, p: nat, x: Step, y: Step, rest: seq<Step>)
    requires s.Shaped()
    ensures Run(s, p, [x, y] + rest) == Run(Next(Next(s, p, x), p, y), p, rest)
    ensures Credits(s, p, [x, y] + rest)
            == (if x.Rebuild? && x.side == A && s.a.ep.mayStage then 1 else 0)
               + (if y.Rebuild? && y.side == A && Next(s, p, x).a.ep.mayStage then 1 else 0)
               + Credits(Next(Next(s, p, x), p, y), p, rest)
  {
    hide Next;
    var all := [x, y] + rest;
    assert all[1..] == [y] + rest && all[1..][1..] == rest;
  }

  lemma RepeatOnce(s: System, p: nat)
    requires Waiting(s)
    ensures s.Shaped()
    ensures var r := Next(s, p, Read(A, true));
            var t := Next(r, p, Rebuild(A, 0));
            && Waiting(t) && t.a.Base() == s.a.Base() && t.b.pushed == s.b.pushed
            && t.a.ep.count == s.a.ep.count && r.a.ep.mayStage
            && Place(t.a.ep) == Turned(s.a.ep.count, Place(s.a.ep), 1)
  {
    hide Waiting, Next, Place, Turned, Placed;
    WaitingFacts(s);
    PlaceStep(s, p, Read(A, true));
    WaitingStep(s, p, Read(A, true));
    PlaceStep(Next(s, p, Read(A, true)), p, Rebuild(A, 0));
    TurnedNowhere(s.a.ep);
  }

  /** Each of them is credited, and moves a waiting sender one place on. */
  lemma {:induction false} RepeatsMove(s: System, p: nat, k: nat, rest: seq<Step>)
    requires Waiting(s) && NoFrames(rest)
    ensures s.Shaped()
    ensures var t := Run(s, p, Repeats(k));
            && Waiting(t) && t.a.Base() == s.a.Base() && t.b.pushed == s.b.pushed
            && t.a.ep.count == s.a.ep.count
            && Place(t.a.ep) == Turned(s.a.ep.count, Place(s.a.ep), k)
            && Run(s, p, Repeats(k) + rest) == Run(t, p, rest)
            && Credits(s, p, Repeats(k) + rest) == k + Credits(t, p, rest)
    decreases k
  {
    hide Waiting, Next, Place, Turned, Placed, NoFrames, Run, Credits;
    WaitingFacts(s);
    if k == 0 {
      TurnedNowhere(s.a.ep);
      RunNothing(s, p);
      assert Repeats(0) == [] && [] + rest == rest;
    } else {
      var x, y := Read(A, true), Rebuild(A, 0);
      RepeatOnce(s, p);
      var t := Next(Next(s, p, x), p, y);
      RepeatsMove(t, p, k - 1, rest);
      TurnedAgain(s.a.ep.count, Place(s.a.ep), 1, k - 1);
      TwoSteps(s, p, x, y, Repeats(k - 1));
      TwoSteps(s, p, x, y, Repeats(k - 1) + rest);
      Bytes.JoinAssociates([x, y], Repeats(k - 1), rest);
    }
  }

  /** Between two frames: k credited rebuilds at the sender, one at the receiver. */
  function Busy(k: nat): Round {
    Round(true, Repeats(k) + [Rebuild(B, 0)])
  }

  function AllBusy(k: nat, n: nat): (rounds: seq<Round>)
    ensures |rounds| == n
  {
    if n == 0 then [] else [Busy(k)] + AllBusy(k, n - 1)
  }

  /** The oldest chunk is what the receiver waits for, and k builds a round never end at it. */
  ghost predicate Starving(s: System, k: nat) {
    && Inv(s) && s.b.rx == s.a.Base()
    && ((s.a.ep.count == 1 && k % 5 == 0 && Place(s.a.ep) == 0)
        || (s.a.ep.count == 2 && k % 2 == 0 && Place(s.a.ep) % 2 == 0)
        || (s.a.ep.count == 2 && k % 3 == 0 && Place(s.a.ep) % 3 == 2))
  }

  lemma StarvingStays(s: System, p: nat, k: nat)
    requires Starving(s, k)
    ensures s.Shaped()
    ensures var t := Play(s, p, Busy(k));
            && Starving(t, k) && CreditRound(s, p, Busy(k), k)
            && t.a.Base() == s.a.Base() && t.b.pushed == s.b.pushed
  {
    hide Inv, Frame, Next, Turned, Waiting, Rebuilds;
    InvFacts(s);
    StarvingTurns(s, k);
    FrameOutcome(s, p, true);
    var f, b := Frame(s, p, true), Rebuild(B, 0);
    TurnedNowhere(f.a.ep);
    RepeatsAreLocal(k);
    RepeatsMove(f, p, k, [b]);
    var g := Run(f, p, Repeats(k));
    PlaceStep(g, p, b);
    TurnedNowhere(g.a.ep);
    RunOne(g, p, b);
    BusyRebuilds(k);
    WaitingInv(Next(g, p, b));
  }

  lemma WaitingInv(s: System)
    requires Waiting(s)
    ensures Inv(s) && s.b.rx == s.a.Base()
  {
    hide Inv;
  }

  lemma PlacedNode(x: Node)
    requires NodeInv(x) && x.ep.count > 0
    ensures Placed(x.ep) && (x.ep.sendOffset == 1 ==> Place(x.ep) >= 1 && (x.ep.count == 2 ==> Place(x.ep) == 1))
  {
  }

  lemma PlaceTurns(place: int, k: nat)
    ensures k % 5 == 0 && place == 0 ==> Turned(1, place, k) == 0
    ensures k % 2 == 0 && place % 2 == 0 ==> Turned(2, place, k) % 2 == 0
    ensures k % 3 == 0 && place % 3 == 2 ==> Turned(2, place, k) % 3 == 2
  {
  }

  /** Not at the oldest chunk, and k places on not either. */
  lemma StarvingTurns(s: System, k: nat)
    requires Starving(s, k)
    ensures s.Shaped() && s.a.ep.sendOffset != 1 && Placed(s.a.ep)
    ensures var place := Turned(s.a.ep.count, Place(s.a.ep), k);
            && (s.a.ep.count == 1 && k % 5 == 0 && Place(s.a.ep) == 0 ==> place == 0)
            && (s.a.ep.count == 2 && k % 2 == 0 && Place(s.a.ep) % 2 == 0 ==> place % 2 == 0)
            && (s.a.ep.count == 2 && k % 3 == 0 && Place(s.a.ep) % 3 == 2 ==> place % 3 == 2)
  {
    hide Inv, Turned, Placed, Place;
    InvFacts(s);
    PlacedNode(s.a);
    PlaceTurns(Place(s.a.ep), k);
  }

  lemma RunOne(s: System, p: nat, step: Step)
    requires s.Shaped()
    ensures Run(s, p, [step]) == Next(s, p, step)
    ensures Credits(s, p, [step]) == if step.Rebuild? && step.side == A && s.a.ep.mayStage then 1 else 0
  {
    hide Next;
    assert [step][1..] == [];
  }

  lemma BusyRebuilds(k: nat)
    ensures NoFrames(Busy(k).steps) && Rebuilds(Busy(k).steps, B)
  {
    RepeatsAreLocal(k);
    assert Rebuild(B, 0) in Busy(k).steps;
  }

  /** However many such frames arrive, nothing is acknowledged and no byte delivered. */
  lemma {:induction false} Starvation(s: System, p: nat, k: nat, n: nat)
    requires Starving(s, k)
    ensures s.Shaped()
    ensures var t := PlayAll(s, p, AllBusy(k, n));
            t.a.Base() == s.a.Base() && t.b.pushed == s.b.pushed
    ensures CreditRounds(s, p, AllBusy(k, n), k)
    decreases n
  {
    hide Starving, CreditRound, Play;
    StarvingShaped(s, k);
    if n > 0 {
      StarvingStays(s, p, k);
      Starvation(Play(s, p, Busy(k)), p, k, n - 1);
      assert AllBusy(k, n)[1..] == AllBusy(k, n - 1);
    }
  }

  lemma StarvingShaped(s: System, k: nat)
    requires Starving(s, k)
    ensures s.Shaped() && s.a.ep.count > 0
  {
  }

  // ---------------------------------------------------------------------------------------
  // Such states are reached

  lemma {:induction false} RunJoins(s: System, p: nat, first: seq<Step>, second: seq<Step>)
    requires s.Shaped()
    ensures Run(s, p, first + second) == Run(Run(s, p, first), p, second)
    decreases |first|
  {
    hide Next;
    if first == [] {
      assert first + second == second;
    } else {
      assert (first + second)[1..] == first[1..] + second;
      RunJoins(Next(s, p, first[0]), p, first[1..], second);
    }
  }

  lemma ReachableRun(s: System, p: nat, steps: seq<Step>)
    requires Reachable(s, p) && s.Shaped()
    ensures Reachable(Run(s, p, steps), p)
  {
    hide Run;
    var before :| s == Run(START, p, before);
    RunJoins(START, p, before, steps);
  }

  lemma ReachableNext(s: System, p: nat, step: Step)
    requires Reachable(s, p) && s.Shaped()
    ensures Reachable(Next(s, p, step), p)
  {
    hide Reachable, Next;
    RunOne(s, p, step);
    ReachableRun(s, p, [step]);
  }

  /** A chunk's worth of bytes. */
  function Full(p: nat): (data: seq<Bytes.Byte>)
    ensures |data| == p
  {
    seq(p, _ => 7)
  }

  /** The sender has staged its first chunk, and nothing was received yet. */
  ghost predicate OneOut(s: System, p: nat, rest: seq<Bytes.Byte>) {
    && Reachable(s, p) && Waiting(s) && s.a.chunks == [Full(p)] && s.a.tx == rest
    && s.a.ep.count == s.a.ep.sendOffset == 1 && s.a.ep.stall == 0 && s.b.rx == 0
  }

  lemma StartReached(p: nat)
    ensures Reachable(START, p) && Inv(START)
  {
    hide Inv;
    RunNothing(START, p);
    RunKeeps(START, p, []);
    assert START == Run(START, p, []);
  }

  /** The sender has something to send, and nothing was received yet. */
  ghost predicate Filled(s: System, tx: seq<Bytes.Byte>) {
    && s.Shaped() && s.a == START_NODE.(tx := tx, written := tx)
    && s.b == START_NODE && s.ra == START.ra && s.rb == START.rb
  }

  lemma FirstFilled(p: nat, tx: seq<Bytes.Byte>) returns (s: System)
    ensures Reachable(s, p) && Inv(s) && Filled(s, tx)
  {
    hide Inv, Reachable;
    StartReached(p);
    s := Next(START, p, Write(A, tx));
    ReachableNext(START, p, Write(A, tx));
    NextKeeps(START, p, Write(A, tx));
    assert [] + tx == tx;
  }

  lemma FirstOut(p: nat, rest: seq<Bytes.Byte>) returns (s: System)
    requires p > 0
    ensures OneOut(s, p, rest)
  {
    hide Inv, Build, Reachable, Full;
    var s1 := FirstFilled(p, Full(p) + rest);
    InvFacts(s1);
    FlowBuild(s1.a, p, Full(p), rest);
    s := Next(s1, p, Rebuild(A, p));
    ReachableNext(s1, p, Rebuild(A, p));
    NextKeeps(s1, p, Rebuild(A, p));
    InvFacts(s);
  }

  lemma RunNothing(s: System, p: nat)
    requires s.Shaped()
    ensures Run(s, p, []) == s
  {
  }

  /** One more received image, and the second chunk goes out; both frames that showed them are lost. */
  lemma SecondOut(p: nat, rest: seq<Bytes.Byte>) returns (t: System)
    requires p > 0
    ensures Reachable(t, p) && Waiting(t) && t.a.tx == rest && t.b.rx == 0
    ensures t.a.ep.count == t.a.ep.sendOffset == 2 && t.a.ep.stall == 0
  {
    hide Inv, Build, Reachable;
    var s := FirstOut(p, Full(p) + rest);
    var x, y := Read(A, true), Rebuild(A, p);
    WaitingStep(s, p, x);
    ReachableNext(s, p, x);
    var r := Next(s, p, x);
    InvFacts(r);
    FlowBuild(r.a, p, Full(p), rest);
    WaitingStep(r, p, y);
    ReachableNext(r, p, y);
    t := Next(r, p, y);
  }

  lemma StarvingIsReachable(p: nat, k: nat) returns (s: System)
    requires p > 0 && !CoprimeTo30(k)
    ensures Reachable(s, p) && Starving(s, k) && s.a.ep.count > 0
  {
    hide Inv, Reachable, Run;
    if k % 5 == 0 {
      var t := FirstOut(p, []);
      RepeatsMove(t, p, 4, []);
      ReachableRun(t, p, Repeats(4));
      s := Run(t, p, Repeats(4));
      assert Turned(1, 1, 4) == 0;
    } else {
      s := SecondOut(p, []);
    }
    WaitingInv(s);
  }

  /**
   * A fixed number of loss-free frames always gets the oldest chunk in flight acknowledged if and
   * only if the number of credited rebuilds the sender makes after each frame is prime to 30.
   */
  lemma RecoversIffCoprime(p: nat, k: nat)
    requires p > 0
    ensures Recovers(p, k) <==> CoprimeTo30(k)
  {
    hide Reachable, Starving, CreditRounds, PlayAll;
    if CoprimeTo30(k) {
      forall s: System, rounds: seq<Round> |
        Reachable(s, p) && s.Shaped() && s.a.ep.count > 0 && |rounds| == 8 && CreditRounds(s, p, rounds, k)
        ensures PlayAll(s, p, rounds).a.Base() > s.a.Base()
      {
        RecoveryByCredits(s, p, rounds, k);
      }
      assert RecoversWithin(p, k, 8);
    } else {
      var s := StarvingIsReachable(p, k);
      forall n: nat ensures !RecoversWithin(p, k, n) {
        Starvation(s, p, k, n);
        assert |AllBusy(k, n)| == n;
      }
    }
  }

  // ---------------------------------------------------------------------------------------
  // The cheap peek, mid-replay

  /** Rewound, replaying, and the replayed chunk received and acknowledged. */
  ghost predicate MidReplay(s: System) {
    && s.a.ep.count == 2 && s.a.ep.sendOffset == 1 && s.a.ep.mayStage && s.a.ackSeen == s.a.Base() + 1
  }

  /**
   * The peek's promise fails in a state both ends reach: with a full chunk in the ring it says
   * ready, and no build stages anything.
   */
  lemma ReadyDuringReplay(p: nat) returns (s: System)
    requires p > 0
    ensures Reachable(s, p) && s.Shaped() && ReadyToAdvance(s.a.ep)
    ensures |s.a.tx| == p
    ensures forall limit: nat :: BuildNode(s.a, p, limit).chunks == s.a.chunks
  {
    hide Inv, Reachable, BuildNode, Build;
    var t := SecondOut(p, Full(p));
    RepeatsMove(t, p, 5, []);
    RepeatsTake(t, p, 5);
    ReachableRun(t, p, Repeats(5));
    var u := Run(t, p, Repeats(5));
    assert Turned(2, 2, 5) == 1;
    s := Acked(u, p);
    InvFacts(s);
    NothingStaged(s, p);
  }

  /** Taking nothing from the ring leaves it alone. */
  lemma {:induction false} RepeatsTake(s: System, p: nat, k: nat)
    requires s.Shaped()
    ensures Run(s, p, Repeats(k)).a.tx == s.a.tx
    decreases k
  {
    if k > 0 {
      hide Build, OnPeer;
      var x, y := Read(A, true), Rebuild(A, 0);
      TwoSteps(s, p, x, y, Repeats(k - 1));
      RepeatsTake(Next(Next(s, p, x), p, y), p, k - 1);
    }
  }

  /** A frame, the receiver's rebuild, and a frame back. */
  lemma Acked(u: System, p: nat) returns (s: System)
    requires Reachable(u, p) && Waiting(u) && u.a.ep.count == 2 && Place(u.a.ep) == 1
    ensures Reachable(s, p) && Inv(s) && MidReplay(s) && s.a.tx == u.a.tx
  {
    hide Reachable, Frame, Build;
    FrameOutcome(u, p, true);
    FrameReached(u, p, true);
    var f := Frame(u, p, true);
    LocalStep(f, p, Rebuild(B, 0));
    ReachableNext(f, p, Rebuild(B, 0));
    var g := Next(f, p, Rebuild(B, 0));
    FrameOutcome(g, p, true);
    FrameReached(g, p, true);
    s := Frame(g, p, true);
  }

  lemma FrameReached(s: System, p: nat, roomA: bool)
    requires Reachable(s, p) && s.Shaped()
    ensures Reachable(Frame(s, p, roomA), p)
  {
    hide Reachable, Next;
    var s1 := Next(s, p, Carry(A));
    ReachableNext(s, p, Carry(A));
    var s2 := Next(s1, p, Carry(B));
    ReachableNext(s1, p, Carry(B));
    var s3 := Next(s2, p, Read(A, roomA));
    ReachableNext(s2, p, Read(A, roomA));
    ReachableNext(s3, p, Read(B, true));
  }

  lemma NothingStaged(s: System, p: nat)
    requires Inv(s) && MidReplay(s)
    ensures ReadyToAdvance(s.a.ep)
    ensures forall limit: nat :: BuildNode(s.a, p, limit).chunks == s.a.chunks
  {
    hide Inv;
    InvFacts(s);
    SlideTracks(s.a);
    AckUnambiguous(s.a.ep, s.a.chunks, s.a.ackSeen);
  }
}
