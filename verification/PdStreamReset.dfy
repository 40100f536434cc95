/**
 * A reset of both ends while images of the old session still lie in the registers.
 *
 * Whatever is left over, delivery stays exactly-once and in order if and only if no leftover image
 * can pass for the first chunk or for an acknowledgement of one of the first two.
 */
module PdStreamReset {
  import opened Bytes
  import opened PdStream
  import opened PdStreamSystem
  import opened PdStreamSafety

  /** The fields return to their start, slot memory, image and transmit ring stay; history begins anew. */
  ghost function ResetNode(x: Node): Node {
    Node(RESET.(slots := x.ep.slots), x.img, x.tx, x.tx, [], [], [], 0, 0, 0)
  }

  ghost function PairedReset(s: System): (t: System)
    requires s.Shaped()
    ensures t.Shaped()
  {
    System(ResetNode(s.a), ResetNode(s.b), s.ra, s.rb)
  }

  /** What a fresh endpoint cannot mistake for something of the new session. */
  ghost predicate Harmless(c: Chunk) {
    c.ack != 1 && c.ack != 2 && (c.seqNo == 1 ==> c.data == [])
  }

  ghost predicate Clean(s: System) {
    Harmless(s.a.img) && Harmless(s.b.img) && Harmless(s.ra.c) && Harmless(s.rb.c)
  }

  ghost predicate Safe(s: System)
    requires s.Shaped()
  {
    Delivered(s.a, s.b) && Delivered(s.b, s.a)
  }

  // ---------------------------------------------------------------------------------------
  // Harmless leftovers: the pair behaves as if they were blank

  /** Of one end: its image, the register it was carried to, and the ack it has read are leftovers. */
  datatype Old = Old(img: bool, reg: bool, ack: bool)

  const ALL_OLD := Old(true, true, true)

  /** `x` behaves as `y` does, in which leftovers are blank. */
  ghost predicate AliveAs(x: Node, y: Node, o: Old) {
    && x.ep.(peerAck := y.ep.peerAck) == y.ep
    && x.tx == y.tx && x.written == y.written && x.popped == y.popped && x.pushed == y.pushed
    && (if o.img then Harmless(x.img) && y.img == BLANK && y.imgAck == 0 else x.img == y.img)
    && (if o.ack then x.ep.peerAck != 1 && x.ep.peerAck != 2 && y.ep.peerAck == 0 && y.ackSeen == 0
        else x.ep.peerAck == y.ep.peerAck)
  }

  ghost predicate ReadAs(r: Register, q: Register, stale: bool) {
    if stale then Harmless(r.c) && q.c == BLANK && q.a == 0 else r.c == q.c
  }

  /** Nothing of `a` was received while its register holds a leftover. */
  ghost predicate Unheard(b: Node, oa: Old, ob: Old) {
    (oa.img ==> oa.reg) && (oa.reg ==> b.rx == 0 && ob.ack)
  }

  ghost predicate Mimics(t: System, u: System, oa: Old, ob: Old) {
    && AliveAs(t.a, u.a, oa) && AliveAs(t.b, u.b, ob)
    && ReadAs(t.ra, u.ra, oa.reg) && ReadAs(t.rb, u.rb, ob.reg)
    && Unheard(u.b, oa, ob) && Unheard(u.a, ob, oa)
  }

  /** With the ack a leftover, the window holds the first chunks, none of which it names. */
  lemma SameAcked(x: Endpoint, y: Node, o: Old)
    requires Sending(y) && AcksFit(y) && x.(peerAck := y.ep.peerAck) == y.ep
    requires if o.ack then x.peerAck != 1 && x.peerAck != 2 && y.ackSeen == 0 else x.peerAck == y.ep.peerAck
    ensures x.Shaped() && AckedPrefix(x) == AckedPrefix(y.ep)
  {
    if o.ack {
      AckUnambiguous(y.ep, y.chunks, y.ackSeen);
      assert forall j | 0 <= j < x.count :: x.InFlight(j) == y.ep.InFlight(j) && x.InFlight(j).seqNo == j + 1;
      assert AckedFrom(x, x.count) == 0;
      if x.count > 0 {
        assert AckedFrom(x, x.count - 1) == 0;
      }
    } else {
      assert x == y.ep;
    }
  }

  /** Once the window has slid, the ack that was read plays no part. */
  lemma SendIgnoresAck(s: Endpoint, ack: Byte, popped: seq<Byte>)
    requires s.Shaped()
    ensures Send(s.(peerAck := ack), popped).ep == Send(s, popped).ep.(peerAck := ack)
    ensures Send(s.(peerAck := ack), popped).image == Send(s, popped).image
    ensures Asks(s.(peerAck := ack)) == Asks(s)
  {
  }

  lemma BuildMimics(x: Node, y: Node, o: Old, p: nat, limit: nat)
    requires AliveAs(x, y, o) && Sending(y) && AcksFit(y)
    ensures AliveAs(BuildNode(x, p, limit), BuildNode(y, p, limit), o.(img := false))
  {
    hide Send, AckedPrefix, Sending, AcksFit;
    SameAcked(x.ep, y, o);
    var ack := y.ep.peerAck;
    assert Slide(y.ep) == Slide(x.ep).(peerAck := ack);
    SendIgnoresAck(Slide(x.ep), ack, PoppedNow(x, p, limit));
    SendIgnoresAck(Slide(x.ep), x.ep.peerAck, PoppedNow(x, p, limit));
  }

  lemma ReadMimics(x: Node, y: Node, o: Old, r: Register, q: Register, stale: bool, room: bool)
    requires AliveAs(x, y, o) && ReadAs(r, q, stale) && x.ep.Shaped() && y.ep.Shaped()
    requires stale ==> x.ep.rxAck == 0
    ensures AliveAs(ReadNode(x, r, room), ReadNode(y, q, room), o.(ack := stale))
    ensures stale ==> ReadNode(y, q, room).rx == y.rx
  {
  }

  lemma NextAMimics(t: System, u: System, p: nat, step: Step, oa: Old, ob: Old) returns (na: Old, nb: Old)
    requires Mimics(t, u, oa, ob) && Inv(u) && t.Shaped()
    ensures Mimics(NextA(t, p, step), NextA(u, p, step), na, nb)
  {
    hide Sending, AcksFit, BuildNode, ReadNode, Delivered;
    na, nb := oa, ob;
    match step
    case Write(_, data) =>
    case Rebuild(_, limit) =>
      BuildMimics(t.a, u.a, oa, p, limit) by { FitsAcks(u); }
      BuiltCounts(u.a, p, limit);
      na := oa.(img := false);
    case Carry(_) =>
      na := oa.(reg := oa.img);
    case Read(_, room) =>
      ReadMimics(t.a, u.a, oa, t.rb, u.rb, ob.reg, room) by { FitsAcks(u); }
      na := oa.(ack := ob.reg);
  }

  lemma FitsAcks(u: System)
    requires Inv(u)
    ensures Sending(u.a) && AcksFit(u.a) && u.a.ep.rxAck == Wire(u.a.rx) && u.a.ep.Shaped()
  {
  }

  lemma BuiltCounts(y: Node, p: nat, limit: nat)
    requires y.ep.Shaped()
    ensures BuildNode(y, p, limit).rx == y.rx && BuildNode(y, p, limit).ackSeen == y.ackSeen
  {
    hide Build;
  }

  lemma NextMimics(t: System, u: System, p: nat, step: Step, oa: Old, ob: Old) returns (na: Old, nb: Old)
    requires Mimics(t, u, oa, ob) && Inv(u) && t.Shaped()
    ensures Mimics(Next(t, p, step), Next(u, p, step), na, nb)
  {
    hide NextA, AliveAs, Inv;
    if step.side == A {
      na, nb := NextAMimics(t, u, p, step, oa, ob);
    } else {
      InvSwaps(u);
      nb, na := NextAMimics(t.Swap(), u.Swap(), p, step, ob, oa);
    }
  }

  lemma InvSwaps(u: System)
    requires Inv(u)
    ensures Inv(u.Swap())
  {
  }

  lemma InvShapes(u: System)
    requires Inv(u)
    ensures u.Shaped()
  {
  }

  lemma {:induction false} RunMimics(t: System, u: System, p: nat, steps: seq<Step>, oa: Old, ob: Old)
    returns (na: Old, nb: Old)
    requires Mimics(t, u, oa, ob) && Inv(u) && t.Shaped() && u.Shaped()
    ensures Mimics(Run(t, p, steps), Run(u, p, steps), na, nb)
    decreases |steps|
  {
    hide Mimics, Inv, Next;
    na, nb := oa, ob;
    if steps != [] {
      na, nb := NextMimics(t, u, p, steps[0], oa, ob);
      NextKeeps(u, p, steps[0]);
      InvShapes(u);
      na, nb := RunMimics(Next(t, p, steps[0]), Next(u, p, steps[0]), p, steps[1..], na, nb);
    }
  }

  lemma PendingIgnoresAck(e: Endpoint, ack: Byte, u: nat)
    requires e.Shaped() && u <= e.count
    ensures Pending(e.(peerAck := ack), u) == Pending(e, u)
  {
    var f := e.(peerAck := ack);
    forall j | 0 <= j < e.count - u ensures Pending(f, u)[j] == Pending(e, u)[j] {
      assert f.InFlight(u + j) == e.InFlight(u + j);
    }
  }

  lemma SameDelivered(x: Node, y: Node, r: Node, q: Node, o: Old, oq: Old)
    requires AliveAs(x, y, o) && AliveAs(r, q, oq) && y.ep.Shaped() && Delivered(y, q)
    ensures x.ep.Shaped() && Delivered(x, r)
  {
    var u: nat :| u <= y.ep.count && y.popped == q.pushed + Flat(Pending(y.ep, u));
    PendingIgnoresAck(x.ep, y.ep.peerAck, u);
  }

  ghost function Blanked(s: System): System {
    var blank := Register(BLANK, 0, 0);
    System(ResetNode(s.a).(img := BLANK), ResetNode(s.b).(img := BLANK), blank, blank)
  }

  lemma CleanIsSafe(s: System, p: nat, steps: seq<Step>)
    requires s.Shaped() && Clean(s)
    ensures Safe(Run(PairedReset(s), p, steps))
  {
    hide AliveAs, Delivered;
    var t, u := PairedReset(s), Blanked(s);
    StartsBlank(s);
    BlankedInv(s);
    var na, nb := RunMimics(t, u, p, steps, ALL_OLD, ALL_OLD);
    RunKeeps(u, p, steps);
    var t', u' := Run(t, p, steps), Run(u, p, steps);
    DirectionDelivers(u'.a, u'.b, u'.ra, u'.rb);
    DirectionDelivers(u'.b, u'.a, u'.rb, u'.ra);
    SameDelivered(t'.a, u'.a, t'.b, u'.b, na, nb);
    SameDelivered(t'.b, u'.b, t'.a, u'.a, nb, na);
  }

  lemma BlankedInv(s: System)
    requires s.Shaped()
    ensures Inv(Blanked(s))
  {
  }

  lemma StartsBlank(s: System)
    requires s.Shaped() && Clean(s)
    ensures Mimics(PairedReset(s), Blanked(s), ALL_OLD, ALL_OLD)
  {
  }

  // ---------------------------------------------------------------------------------------
  // Any other leftover does harm

  /** Just after a reset, for the end that reads `rb`. */
  ghost predicate JustReset(t: System) {
    && t.Shaped()
    && t.a == ResetNode(t.a) && t.b == ResetNode(t.b)
  }

  /** A leftover that looks like the first chunk is pushed. */
  lemma FalseChunk(t: System, p: nat)
    requires JustReset(t) && t.rb.c.seqNo == 1 && t.rb.c.data != []
    ensures !Safe(Run(t, p, [Read(A, true)]))
  {
    var t' := NextA(t, p, Read(A, true));
    assert Run(t, p, [Read(A, true)]) == Run(t', p, []);
    assert t'.a.pushed == t.rb.c.data;
  }

  /** After these steps at the end that reads `rb`, if its ack is k: k chunks staged, and none in flight. */
  function Lured(k: nat): seq<Step> {
    if k == 1 then [Write(A, [0]), Read(A, false), Rebuild(A, 1), Rebuild(A, 1)]
    else [Write(A, [0, 0]), Read(A, false), Rebuild(A, 1), Read(A, false), Rebuild(A, 1), Rebuild(A, 1)]
  }

  /** Has read an ack of k while n chunks of one octet are in its window. */
  ghost predicate Misled(x: Node, k: nat, n: nat) {
    && x.ep.Shaped() && x.ep.head == 0 && x.ep.count == x.ep.sendOffset == n <= 2
    && x.ep.peerAck == k && x.ep.txSeq == n
    && (n >= 1 ==> x.ep.slots[0].seqNo == 1) && (n == 2 ==> x.ep.slots[1].seqNo == 2)
    && |x.popped| == n
  }

  lemma MisledStages(x: Node, k: nat, n: nat, p: nat)
    requires Misled(x, k, n) && n < k <= 2 && x.ep.mayStage && p > 0 && x.tx != []
    ensures Misled(BuildNode(x, p, 1), k, n + 1) && BuildNode(x, p, 1).tx == x.tx[1..]
    ensures !BuildNode(x, p, 1).ep.mayStage
  {
    assert AckedFrom(x.ep, n) == 0;
    if n > 0 { assert AckedFrom(x.ep, n - 1) == 0; }
    assert Slide(x.ep) == x.ep;
  }

  lemma MisledDrops(x: Node, k: nat, p: nat, r: Node)
    requires Misled(x, k, k) && 1 <= k <= 2 && !x.ep.mayStage && r.pushed == []
    ensures !Delivered(BuildNode(x, p, 1), r)
  {
    var y := BuildNode(x, p, 1);
    assert AckedFrom(x.ep, k - 1) == k;
    assert AckedPrefix(x.ep) == k;
    assert y.ep.count == 0 && y.popped == x.popped;
    assert Flat(Pending(y.ep, 0)) == [];
  }

  lemma MisledReads(x: Node, k: nat, n: nat, reg: Register)
    requires x.ep.Shaped() && reg.c.ack == k
    requires Misled(x.(ep := x.ep.(peerAck := k)), k, n)
    ensures var y := ReadNode(x, reg, false); Misled(y, k, n) && y.ep.mayStage && y.tx == x.tx
  {
  }

  lemma RunOn(t: System, p: nat, step: Step, rest: seq<Step>)
    requires t.Shaped()
    ensures Run(t, p, [step] + rest) == Run(Next(t, p, step), p, rest)
  {
    assert ([step] + rest)[1..] == rest;
  }

  /** Reads the leftover and stages one chunk, which its ack does not name yet. */
  lemma Lures(t: System, p: nat, k: nat, n: nat, rest: seq<Step>) returns (t': System)
    requires t.Shaped() && p > 0 && t.rb.c.ack == k && n < k <= 2 && t.a.tx != [] && t.b.pushed == []
    requires Misled(t.a.(ep := t.a.ep.(peerAck := k)), k, n)
    ensures t'.Shaped() && Run(t, p, [Read(A, false), Rebuild(A, 1)] + rest) == Run(t', p, rest)
    ensures t'.rb == t.rb && t'.b == t.b && t'.a.tx == t.a.tx[1..]
    ensures Misled(t'.a, k, n + 1) && !t'.a.ep.mayStage
  {
    hide BuildNode, ReadNode, Misled, Run;
    var mid := NextA(t, p, Read(A, false));
    t' := NextA(mid, p, Rebuild(A, 1));
    MisledReads(t.a, k, n, t.rb);
    MisledStages(mid.a, k, n, p);
    assert [Read(A, false), Rebuild(A, 1)] + rest == [Read(A, false)] + ([Rebuild(A, 1)] + rest);
    RunOn(t, p, Read(A, false), [Rebuild(A, 1)] + rest);
    RunOn(mid, p, Rebuild(A, 1), rest);
  }

  lemma Drops(t: System, p: nat, k: nat)
    requires t.Shaped() && Misled(t.a, k, k) && 1 <= k <= 2 && !t.a.ep.mayStage && t.b.pushed == []
    ensures !Safe(Run(t, p, [Rebuild(A, 1)]))
  {
    hide BuildNode, Misled;
    RunOn(t, p, Rebuild(A, 1), []);
    assert [Rebuild(A, 1)] + [] == [Rebuild(A, 1)];
    MisledDrops(t.a, k, p, t.b);
  }

  lemma AtRest(x: Node, k: Byte)
    requires x.ep.Shaped() && x == ResetNode(x)
    ensures Misled(x.(ep := x.ep.(peerAck := k)), k, 0)
  {
  }

  /** A leftover that looks like an ack of the first or second chunk takes it out of the window. */
  lemma FalseAck(t: System, p: nat)
    requires JustReset(t) && p > 0 && (t.rb.c.ack == 1 || t.rb.c.ack == 2)
    ensures !Safe(Run(t, p, Lured(t.rb.c.ack)))
  {
    hide Safe, Misled, Run;
    var k, steps := t.rb.c.ack, Lured(t.rb.c.ack);
    var filled := NextA(t, p, steps[0]);
    assert steps == [steps[0]] + steps[1..];
    RunOn(t, p, steps[0], steps[1..]);
    AtRest(t.a, k);
    assert filled.a.(ep := filled.a.ep.(peerAck := k)).ep == t.a.ep.(peerAck := k);
    AtRest(filled.a.(written := filled.a.tx), k);
    var lured := Lures(filled, p, k, 0, steps[3..]);
    assert steps[1..] == [Read(A, false), Rebuild(A, 1)] + steps[3..];
    if k == 1 {
      assert steps[3..] == [Rebuild(A, 1)];
      Drops(lured, p, k);
    } else {
      assert lured.a.(ep := lured.a.ep.(peerAck := k)) == lured.a by { SameAck(lured.a, k, 1); }
      assert steps[3..] == [Read(A, false), Rebuild(A, 1)] + [Rebuild(A, 1)];
      lured := Lures(lured, p, k, 1, [Rebuild(A, 1)]);
      Drops(lured, p, k);
    }
  }

  lemma SameAck(x: Node, k: nat, n: nat)
    requires Misled(x, k, n)
    ensures x.ep.peerAck == k
  {
  }

  lemma Harm(s: System, p: nat) returns (steps: seq<Step>)
    requires s.Shaped() && p > 0 && !Clean(s)
    ensures !Safe(Run(PairedReset(s), p, steps))
  {
    var t := PairedReset(s);
    if !Harmless(s.rb.c) || !Harmless(s.b.img) {
      steps := HarmAtA(t, p);
    } else {
      var mirrored := HarmAtA(t.Swap(), p);
      MirroredRun(t.Swap(), p, mirrored);
      steps := Mirrored(mirrored);
    }
  }

  lemma HarmAtA(t: System, p: nat) returns (steps: seq<Step>)
    requires JustReset(t) && p > 0 && (!Harmless(t.rb.c) || !Harmless(t.b.img))
    ensures !Safe(Run(t, p, steps))
  {
    if !Harmless(t.rb.c) {
      steps := HarmNow(t, p);
    } else {
      var carried := Next(t, p, Carry(B));
      var rest := HarmNow(carried, p);
      steps := [Carry(B)] + rest;
      assert steps[1..] == rest;
    }
  }

  lemma HarmNow(t: System, p: nat) returns (steps: seq<Step>)
    requires JustReset(t) && p > 0 && !Harmless(t.rb.c)
    ensures !Safe(Run(t, p, steps))
  {
    hide Run, Safe;
    if t.rb.c.ack == 1 || t.rb.c.ack == 2 {
      FalseAck(t, p);
      steps := Lured(t.rb.c.ack);
    } else {
      FalseChunk(t, p);
      steps := [Read(A, true)];
    }
  }

  /**
   * After both ends are reset, every run keeps exactly-once, in-order delivery both ways if and
   * only if none of the images left over, in memory or in a register, is one of these.
   */
  lemma ResetIsSafe(s: System, p: nat)
    requires s.Shaped() && p > 0
    ensures (forall steps :: Safe(Run(PairedReset(s), p, steps))) <==> Clean(s)
  {
    hide Safe, Run, PairedReset, Clean;
    if Clean(s) {
      forall steps ensures Safe(Run(PairedReset(s), p, steps)) {
        CleanIsSafe(s, p, steps);
      }
    } else {
      var steps := Harm(s, p);
    }
  }

  /** One rebuild and one frame each way, before anything is received. */
  function Renewal(limitA: nat, limitB: nat): seq<Step> {
    [Rebuild(A, limitA), Rebuild(B, limitB), Carry(A), Carry(B)]
  }

  lemma RenewalForgets(s: System, p: nat, limitA: nat, limitB: nat)
    requires s.Shaped()
    ensures Run(PairedReset(s), p, Renewal(limitA, limitB)) == Run(Blanked(s), p, Renewal(limitA, limitB))
  {
    hide Build;
    var t, u := PairedReset(s), Blanked(s);
    assert BuildNode(t.a, p, limitA) == BuildNode(u.a, p, limitA);
    assert BuildNode(t.b, p, limitB) == BuildNode(u.b, p, limitB);
    FourSteps(t, p, limitA, limitB);
    FourSteps(u, p, limitA, limitB);
  }

  lemma FourSteps(t: System, p: nat, limitA: nat, limitB: nat)
    requires t.Shaped()
    ensures Run(t, p, Renewal(limitA, limitB))
            == Next(Next(Next(Next(t, p, Rebuild(A, limitA)), p, Rebuild(B, limitB)), p, Carry(A)), p, Carry(B))
  {
    hide Next;
    var steps := Renewal(limitA, limitB);
    assert steps[1..][1..] == steps[2..] && steps[2..][1..] == steps[3..] && steps[3..][1..] == [];
    var t1 := Next(t, p, steps[0]);
    var t2 := Next(t1, p, steps[1]);
    var t3 := Next(t2, p, steps[2]);
    assert Run(t, p, steps) == Run(t1, p, steps[1..]);
    assert Run(t1, p, steps[1..]) == Run(t2, p, steps[2..]);
    assert Run(t2, p, steps[2..]) == Run(t3, p, steps[3..]);
  }

  /** Whatever is left over: a rebuild and a frame each way before the first receive make it harmless. */
  lemma RenewedIsSafe(s: System, p: nat, limitA: nat, limitB: nat, steps: seq<Step>)
    requires s.Shaped()
    ensures Safe(Run(Run(PairedReset(s), p, Renewal(limitA, limitB)), p, steps))
  {
    hide Run, Inv, Renewal, PairedReset;
    RenewalForgets(s, p, limitA, limitB);
    BlankedInv(s);
    InvShapes(Blanked(s));
    RunKeeps(Blanked(s), p, Renewal(limitA, limitB));
    var t := Run(Blanked(s), p, Renewal(limitA, limitB));
    RunKeeps(t, p, steps);
    var t' := Run(t, p, steps);
    InvDelivers(t');
  }

  lemma InvDelivers(t: System)
    requires Inv(t)
    ensures t.Shaped() && Safe(t)
  {
    hide Delivered;
    DirectionDelivers(t.a, t.b, t.ra, t.rb);
    DirectionDelivers(t.b, t.a, t.rb, t.ra);
  }
}
