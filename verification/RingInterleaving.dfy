/**
 * One producer thread and one consumer thread on the ring, as separate steps: each loads the two
 * counters one after the other, works on its slots one by one, and then publishes.
 *
 * What a thread loaded of the other's counter may be out of date for as long as it likes.
 */
module RingInterleaving {
  import opened Bytes
  import opened Bitfield
  import opened Options
  import opened PowerOfTwo
  import opened RingBuffers

  datatype Producer = Resting | LoadedIn(in0: nat) | Filling(in0: nat, count: nat, built: nat)

  /** `seen` is the true number behind the loaded counter; no step depends on it. */
  datatype Consumer = Waiting | SawIn(in0: nat, seen: nat) | Draining(out0: nat, count: nat, taken: nat)

  datatype Ring<T> = Ring(
    k: nat, w: nat, inCounter: nat, outCounter: nat, slots: seq<Option<T>>,
    producer: Producer, consumer: Consumer, pushed: seq<T>, popped: seq<T>, fault: bool)
  {
    function Capacity(): (c: nat)
      ensures c > 0
    {
      Pow2(k)
    }

    function Built(): nat {
      if producer.Filling? then producer.built else 0
    }

    function Taken(): nat {
      if consumer.Draining? then consumer.taken else 0
    }

    /** The true numbers behind the published counters. */
    function Written(): int {
      |pushed| - Built()
    }

    function Read(): int {
      |popped| - Taken()
    }
  }

  datatype Step<T> =
    | LoadIn
    | LoadOut(limit: nat)
    | Construct(x: T)
    | PublishIn
    | PopLoadIn
    | PopLoadOut(limit: nat)
    | Consume
    | PublishOut

  function Empty<T>(k: nat, w: nat): Ring<T> {
    Ring(k, w, 0, 0, seq(Pow2(k), _ => None), Resting, Waiting, [], [], false)
  }

  predicate Enabled<T>(s: Ring<T>, step: Step<T>) {
    match step
    case LoadIn => s.producer.Resting?
    case LoadOut(_) => s.producer.LoadedIn?
    case Construct(_) => s.producer.Filling? && s.producer.built < s.producer.count
    case PublishIn => s.producer.Filling? && s.producer.built == s.producer.count
    case PopLoadIn => s.consumer.Waiting?
    case PopLoadOut(_) => s.consumer.SawIn?
    case Consume => s.consumer.Draining? && s.consumer.taken < s.consumer.count
    case PublishOut => s.consumer.Draining? && s.consumer.taken == s.consumer.count
  }

  function SlotOf<T>(s: Ring<T>, counter: nat, i: nat, count: nat): int {
    LoopSlot(AndBits(counter, s.Capacity() - 1, s.w), i, count, s.Capacity())
  }

  function Next<T>(s: Ring<T>, step: Step<T>): Ring<T>
    requires Enabled(s, step)
  {
    match step
    case LoadIn => s.(producer := LoadedIn(s.inCounter))
    case LoadOut(limit) =>
      var in0 := s.producer.in0;
      var writable := Difference(s.Capacity(), Difference(in0, s.outCounter, s.w), s.w);
      var count := Min(limit, writable);
      s.(producer := if count == 0 then Resting else Filling(in0, count, 0))
    case Construct(x) => Build(s, x)
    case PublishIn =>
      s.(inCounter := (s.producer.in0 + s.producer.count) % Pow2(s.w), producer := Resting)
    case PopLoadIn => s.(consumer := SawIn(s.inCounter, if s.Written() < 0 then 0 else s.Written()))
    case PopLoadOut(limit) =>
      var count := Min(limit, Difference(s.consumer.in0, s.outCounter, s.w));
      s.(consumer := if count == 0 then Waiting else Draining(s.outCounter, count, 0))
    case Consume => Take(s)
    case PublishOut =>
      s.(outCounter := (s.consumer.out0 + s.consumer.count) % Pow2(s.w), consumer := Waiting)
  }

  /** Constructing over a live element, or outside the array, is a fault. */
  function Build<T>(s: Ring<T>, x: T): Ring<T>
    requires s.producer.Filling?
  {
    var p := s.producer;
    var slot := SlotOf(s, p.in0, p.built, p.count);
    if !(0 <= slot < |s.slots|) || s.slots[slot].Some? then s.(fault := true)
    else
      s.(slots := s.slots[slot := Some(x)], producer := p.(built := p.built + 1), pushed := s.pushed + [x])
  }

  /** Consuming raw memory, or outside the array, is a fault. */
  function Take<T>(s: Ring<T>): Ring<T>
    requires s.consumer.Draining?
  {
    var c := s.consumer;
    var slot := SlotOf(s, c.out0, c.taken, c.count);
    if !(0 <= slot < |s.slots|) || s.slots[slot].None? then s.(fault := true)
    else
      s.(slots := s.slots[slot := None], consumer := c.(taken := c.taken + 1),
         popped := s.popped + [s.slots[slot].value])
  }

  ghost predicate Linked<T(!new)>(s: Ring<T>, t: Ring<T>) {
    exists step: Step<T> :: Enabled(s, step) && t == Next(s, step)
  }

  ghost predicate Steps<T(!new)>(run: seq<Ring<T>>) {
    |run| > 1 ==> Linked(run[|run| - 2], run[|run| - 1]) && Steps(run[..|run| - 1])
  }

  // ---------------------------------------------------------------------------------------
  // The invariant

  /** Numbers and counters: nothing is read before it is published, nothing overtakes by a lap. */
  ghost predicate Ordered<T>(s: Ring<T>) {
    && 1 <= s.k < s.w
    && |s.slots| == s.Capacity() && !s.fault
    && 0 <= s.Read() <= |s.popped| <= s.Written() <= |s.pushed| <= s.Read() + s.Capacity()
    && s.inCounter == s.Written() % Pow2(s.w) && s.outCounter == s.Read() % Pow2(s.w)
    && s.popped == s.pushed[..|s.popped|]
  }

  /** What each thread loaded is still good enough. */
  ghost predicate Trusted<T>(s: Ring<T>)
    requires Ordered(s)
  {
    && (match s.producer
        case Resting => true
        case LoadedIn(in0) => in0 == s.inCounter
        case Filling(in0, count, built) =>
          in0 == s.inCounter && built <= count && s.Written() + count <= s.Read() + s.Capacity())
    && (match s.consumer
        case Waiting => true
        case SawIn(in0, seen) => in0 == seen % Pow2(s.w) && s.Read() <= seen <= s.Written()
        case Draining(out0, count, taken) =>
          out0 == s.outCounter && taken <= count && s.Read() + count <= s.Written())
  }

  /** The elements pushed and not yet popped are in their slots; the rest of the lap is raw. */
  ghost predicate Lap<T>(s: Ring<T>)
    requires Ordered(s)
  {
    && (forall p: nat | |s.popped| <= p < |s.pushed| :: s.slots[SlotFor(p, s.Capacity())] == Some(s.pushed[p]))
    && (forall p: nat | |s.pushed| <= p < |s.popped| + s.Capacity() ::
          s.slots[SlotFor(p, s.Capacity())] == None)
  }

  ghost predicate Inv<T>(s: Ring<T>) {
    Ordered(s) && Trusted(s) && Lap(s)
  }

  lemma EmptyInv<T>(k: nat, w: nat)
    requires 1 <= k < w
    ensures Inv(Empty<T>(k, w))
  {
    hide Pow2, SlotFor;
  }

  /** The slot a thread works on is the slot of the element's true number. */
  lemma SlotIs<T>(s: Ring<T>, n: nat, i: nat, count: nat)
    requires s.k <= s.w && i < count <= s.Capacity()
    ensures SlotOf(s, n % Pow2(s.w), i, count) == SlotFor(n + i, s.Capacity())
  {
    hide Pow2, AndBits, SlotFor, LoopSlot;
    CounterSlot(n, s.k, s.w);
    LoopSlotIs(n, i, count, s.Capacity());
  }

  lemma CapacityFits<T>(s: Ring<T>)
    requires 1 <= s.k < s.w
    ensures s.Capacity() < Pow2(s.w)
  {
    hide Pow2;
    Pow2Grows(s.k, s.w - 1);
    Pow2Step(s.w);
  }

  /** The counters, though they wrap, count exactly. */
  lemma CountsAreExact<T>(s: Ring<T>)
    requires Inv(s)
    ensures Difference(s.inCounter, s.outCounter, s.w) == s.Written() - s.Read()
    ensures Difference(s.Capacity(), Difference(s.inCounter, s.outCounter, s.w), s.w)
            == s.Capacity() - (s.Written() - s.Read())
  {
    hide Pow2;
    CapacityFits(s);
    CountersApart(s.Written(), s.Read(), s.w);
    ModUnique(s.Capacity() - (s.Written() - s.Read()), Pow2(s.w), 0, s.Capacity() - (s.Written() - s.Read()));
  }

  /** The next slot the producer builds in is raw, and belongs to the next number. */
  lemma ProducerSlot<T>(s: Ring<T>)
    requires Inv(s) && s.producer.Filling? && s.producer.built < s.producer.count
    ensures var slot := SlotOf(s, s.producer.in0, s.producer.built, s.producer.count);
            && 0 <= slot < |s.slots| && s.slots[slot] == None
            && slot == SlotFor(|s.pushed|, s.Capacity())
  {
    hide Pow2, SlotFor, SlotOf;
    SlotIs(s, s.Written(), s.producer.built, s.producer.count);
  }

  /** The next slot the consumer empties holds the next element. */
  lemma ConsumerSlot<T>(s: Ring<T>)
    requires Inv(s) && s.consumer.Draining? && s.consumer.taken < s.consumer.count
    ensures var slot := SlotOf(s, s.consumer.out0, s.consumer.taken, s.consumer.count);
            && 0 <= slot < |s.slots| && s.slots[slot] == Some(s.pushed[|s.popped|])
            && slot == SlotFor(|s.popped|, s.Capacity())
  {
    hide Pow2, SlotFor, SlotOf;
    SlotIs(s, s.Read(), s.consumer.taken, s.consumer.count);
  }

  /** A construction puts the element where its number belongs. */
  lemma Constructed<T>(s: Ring<T>, x: T)
    requires Inv(s) && Enabled(s, Construct(x))
    ensures |s.pushed| < |s.popped| + s.Capacity() && 0 <= SlotFor(|s.pushed|, s.Capacity()) < |s.slots|
    ensures Next(s, Construct(x))
            == s.(slots := s.slots[SlotFor(|s.pushed|, s.Capacity()) := Some(x)],
                  producer := s.producer.(built := s.producer.built + 1), pushed := s.pushed + [x])
  {
    hide Pow2, SlotFor, SlotOf;
    ProducerSlot(s);
  }

  lemma ConstructedLap<T>(s: Ring<T>, x: T, t: Ring<T>)
    requires Ordered(s) && Lap(s) && Ordered(t) && t.k == s.k
    requires |s.pushed| < |s.popped| + s.Capacity() && 0 <= SlotFor(|s.pushed|, s.Capacity()) < |s.slots|
    requires t.slots == s.slots[SlotFor(|s.pushed|, s.Capacity()) := Some(x)]
    requires t.pushed == s.pushed + [x] && t.popped == s.popped
    ensures Lap(t)
  {
    hide Pow2, SlotFor;
    LapApart(|s.popped|, |s.pushed|, s.Capacity());
  }

  lemma ConstructKeeps<T>(s: Ring<T>, x: T)
    requires Inv(s) && Enabled(s, Construct(x))
    ensures Inv(Next(s, Construct(x)))
  {
    hide Pow2, SlotFor, Lap, Next;
    Constructed(s, x);
    var t := Next(s, Construct(x));
    assert t.Written() == s.Written();
    assert t.pushed[..|t.popped|] == s.pushed[..|s.popped|];
    ConstructedLap(s, x, t);
  }

  lemma ConsumeKeeps<T>(s: Ring<T>)
    requires Inv(s) && Enabled(s, Consume)
    ensures Inv(Next(s, Consume))
  {
    hide Pow2, SlotFor, SlotOf;
    ConsumerSlot(s);
    LapApart(|s.popped|, |s.popped|, s.Capacity());
    SlotReturns(|s.popped|, s.Capacity());
    assert s.pushed[..|s.popped|] + [s.pushed[|s.popped|]] == s.pushed[..|s.popped| + 1];
  }

  lemma LoadKeeps<T>(s: Ring<T>, step: Step<T>)
    requires Inv(s) && Enabled(s, step)
    requires step.LoadIn? || step.LoadOut? || step.PopLoadIn? || step.PopLoadOut?
    ensures Inv(Next(s, step))
  {
    hide Pow2, SlotFor, Difference;
    CountsAreExact(s);
    if step.PopLoadOut? {
      CapacityFits(s);
      CountersApart(s.consumer.seen, s.Read(), s.w);
    }
  }

  lemma PublishKeeps<T>(s: Ring<T>, step: Step<T>)
    requires Inv(s) && Enabled(s, step)
    requires step.PublishIn? || step.PublishOut?
    ensures Inv(Next(s, step))
  {
    hide Pow2, SlotFor;
    if step.PublishIn? {
      Advanced(s.Written(), s.producer.count, s.w);
    } else {
      Advanced(s.Read(), s.consumer.count, s.w);
    }
  }

  lemma NextKeeps<T>(s: Ring<T>, step: Step<T>)
    requires Inv(s) && Enabled(s, step)
    ensures Inv(Next(s, step))
  {
    hide Inv, Next;
    match step
    case Construct(x) => ConstructKeeps(s, x);
    case Consume => ConsumeKeeps(s);
    case PublishIn => PublishKeeps(s, step);
    case PublishOut => PublishKeeps(s, step);
    case _ => LoadKeeps(s, step);
  }

  lemma {:induction false} RunKeeps<T(!new)>(run: seq<Ring<T>>)
    requires run != [] && Inv(run[0]) && Steps(run)
    ensures Inv(run[|run| - 1])
    decreases |run|
  {
    hide Inv, Linked;
    var n := |run| - 1;
    if n > 0 {
      RunKeeps(run[..n]);
      LinkKeeps(run[n - 1], run[n]);
    }
  }

  lemma LinkKeeps<T(!new)>(s: Ring<T>, t: Ring<T>)
    requires Inv(s) && Linked(s, t)
    ensures Inv(t)
  {
    hide Inv, Next;
    var step :| Enabled(s, step) && t == Next(s, step);
    NextKeeps(s, step);
  }

  // ---------------------------------------------------------------------------------------
  // What the ring guarantees

  ghost predicate Reachable<T(!new)>(s: Ring<T>) {
    exists run: seq<Ring<T>> ::
      && run != [] && 1 <= run[0].k < run[0].w && run[0] == Empty(run[0].k, run[0].w)
      && Steps(run) && run[|run| - 1] == s
  }

  lemma ReachableInv<T(!new)>(s: Ring<T>)
    requires Reachable(s)
    ensures Inv(s)
  {
    hide Inv, Steps;
    var run: seq<Ring<T>> :|
      && run != [] && 1 <= run[0].k < run[0].w && run[0] == Empty(run[0].k, run[0].w)
      && Steps(run) && run[|run| - 1] == s;
    EmptyInv<T>(run[0].k, run[0].w);
    RunKeeps(run);
  }

  /**
   * In every interleaving, however often the counters wrapped: elements come out in the order they
   * went in, none lost, none twice; never more than the capacity is inside; and no element was
   * ever constructed over another or taken from raw memory.
   */
  lemma Fifo<T(!new)>(s: Ring<T>)
    requires Reachable(s)
    ensures |s.popped| <= |s.pushed| <= |s.popped| + s.Capacity()
    ensures s.popped == s.pushed[..|s.popped|]
    ensures !s.fault
  {
    hide Trusted, Lap;
    ReachableInv(s);
  }

  /** No slot is being constructed in and consumed from at once. */
  lemma NoSharedSlot<T(!new)>(s: Ring<T>, i: nat, j: nat)
    requires Reachable(s) && s.producer.Filling? && s.consumer.Draining?
    requires s.producer.built <= i < s.producer.count && s.consumer.taken <= j < s.consumer.count
    ensures SlotOf(s, s.producer.in0, i, s.producer.count) != SlotOf(s, s.consumer.out0, j, s.consumer.count)
  {
    hide Inv, Reachable, SlotOf;
    ReachableInv(s);
    ClaimsApart(s, i, j);
  }

  lemma ClaimsApart<T>(s: Ring<T>, i: nat, j: nat)
    requires Inv(s) && s.producer.Filling? && s.consumer.Draining?
    requires s.producer.built <= i < s.producer.count && s.consumer.taken <= j < s.consumer.count
    ensures SlotOf(s, s.producer.in0, i, s.producer.count) != SlotOf(s, s.consumer.out0, j, s.consumer.count)
  {
    hide Lap, Pow2, SlotFor, SlotOf;
    SlotIs(s, s.Written(), i, s.producer.count);
    SlotIs(s, s.Read(), j, s.consumer.count);
    SlotsApart(s.Read() + j, s.Written() + i, s.Capacity());
  }

  /** What readable() and writable() compute from the wrapped counters is the true number. */
  lemma SizesAreExact<T(!new)>(s: Ring<T>)
    requires Reachable(s)
    ensures Difference(s.inCounter, s.outCounter, s.w) == s.Written() - s.Read()
    ensures s.Capacity() - Difference(s.inCounter, s.outCounter, s.w) >= 0
  {
    hide Pow2;
    ReachableInv(s);
    CountsAreExact(s);
  }

  /** A producer that has loaded both counters claims as many slots as it asks for and are free. */
  lemma ClaimsAsMany<T(!new)>(s: Ring<T>, limit: nat)
    requires Reachable(s) && s.producer.LoadedIn?
    ensures var free := s.Capacity() - (s.Written() - s.Read());
            var count := if limit <= free then limit else free;
            && free >= 0
            && Next(s, LoadOut(limit)).producer
               == if count == 0 then Resting else Filling(s.producer.in0, count, 0)
  {
    hide Pow2, Difference;
    ReachableInv(s);
    CountsAreExact(s);
  }

  /** A consumer claims as many elements as it asks for and had been published when it loaded. */
  lemma TakesAsMany<T(!new)>(s: Ring<T>, limit: nat)
    requires Reachable(s) && s.consumer.SawIn?
    ensures var ready := s.consumer.seen - s.Read();
            var count := if limit <= ready then limit else ready;
            && ready >= 0
            && Next(s, PopLoadOut(limit)).consumer
               == if count == 0 then Waiting else Draining(s.outCounter, count, 0)
  {
    hide Pow2, Difference;
    ReachableInv(s);
    CapacityFits(s);
    CountersApart(s.consumer.seen, s.Read(), s.w);
  }

  /** The elements published and not yet given back: the queue the two threads share. */
  ghost function Queue<T>(s: Ring<T>): seq<T>
    requires Inv(s)
  {
    s.pushed[s.Read()..s.Written()]
  }

  /**
   * Each step refines a queue: publishing appends the batch just constructed, giving back removes
   * what the consumer took, which was the front, and no other step changes the queue.
   */
  lemma RefinesQueue<T>(s: Ring<T>, step: Step<T>)
    requires Inv(s) && Enabled(s, step)
    ensures Inv(Next(s, step))
    ensures var t := Next(s, step);
            match step
            case PublishIn => Queue(t) == Queue(s) + s.pushed[s.Written()..]
            case PublishOut => s.popped[s.Read()..] + Queue(t) == Queue(s)
            case _ => Queue(t) == Queue(s)
  {
    NextKeeps(s, step);
    StepNumbers(s, step);
    var t := Next(s, step);
    match step {
      case PublishIn =>
        assert s.pushed[s.Read()..] == Queue(s) + s.pushed[s.Written()..];
      case PublishOut =>
        assert s.popped[s.Read()..] == s.pushed[s.Read()..|s.popped|];
      case _ =>
        assert t.pushed[..s.Written()] == s.pushed[..s.Written()];
        assert t.pushed[s.Read()..s.Written()] == t.pushed[..s.Written()][s.Read()..];
        assert s.pushed[s.Read()..s.Written()] == s.pushed[..s.Written()][s.Read()..];
    }
  }

  lemma StepNumbers<T>(s: Ring<T>, step: Step<T>)
    requires Inv(s) && Enabled(s, step)
    ensures var t := Next(s, step);
            && t.Written() == (if step.PublishIn? then |s.pushed| else s.Written())
            && t.Read() == (if step.PublishOut? then |s.popped| else s.Read())
            && s.pushed <= t.pushed
  {
    hide SlotFor, SlotOf, Pow2;
    if step.Construct? {
      ProducerSlot(s);
    } else if step.Consume? {
      ConsumerSlot(s);
    }
  }
}
