/** How a staging session treats the NOR: no cell is programmed twice, no sector erased twice. */
module FoeWear {
  import opened Bytes
  import opened NorFlash
  import opened FoeStaging
  import opened FoeCrashSafety

  /** The cells erased and not programmed since, and the sectors erased so far. */
  datatype Wear = Wear(unused: iset<int>, erased: iset<int>)

  ghost predicate Gentle(d: Wear, op: FlashOp) {
    match op
    case Erase(a) => a !in d.erased
    case Program(_, _) => forall i | op.Touches(i) :: i in d.unused
  }

  ghost function Worn(d: Wear, op: FlashOp): Wear {
    match op
    case Erase(a) => Wear((iset i | i in d.unused || op.Touches(i)), d.erased + iset{a})
    case Program(_, _) => Wear((iset i | i in d.unused && !op.Touches(i)), d.erased)
  }

  ghost function WornAll(d: Wear, ops: seq<FlashOp>): Wear
    decreases |ops|
  {
    if ops == [] then d else WornAll(Worn(d, ops[0]), ops[1..])
  }

  ghost predicate AllGentle(d: Wear, ops: seq<FlashOp>)
    decreases |ops|
  {
    ops == [] || (Gentle(d, ops[0]) && AllGentle(Worn(d, ops[0]), ops[1..]))
  }

  /** The operations a row of calls issues when none of them fails. */
  ghost function SessionOps(w: Writer, calls: seq<Call>): seq<FlashOp>
    requires WriterInv(w)
    requires forall c | c in calls :: c.EraseStep? ==> c.end <= IMAGE_CAPACITY
    decreases |calls|
  {
    if calls == [] then []
    else
      AfterKeepsWriterInv(w, calls[0]);
      Ops(w, calls[0]) + SessionOps(After(w, calls[0]), calls[1..])
  }

  lemma AfterKeepsWriterInv(w: Writer, call: Call)
    requires WriterInv(w) && (call.EraseStep? ==> call.end <= IMAGE_CAPACITY)
    ensures WriterInv(After(w, call))
  {
  }

  /** What an open session still has to write on. */
  ghost predicate Ahead(w: Writer, d: Wear) {
    && (w.open ==> forall i :: STATE <= i < IMAGE_START ==> i in d.unused)
    && (w.open ==> forall i :: IMAGE_START + w.nextOffset <= i < IMAGE_START + w.erasedThrough ==>
          i in d.unused)
    && (forall a | a in d.erased :: a == METADATA_START
                                    || IMAGE_START <= a < IMAGE_START + w.erasedThrough)
  }

  /** The wear once [from, to) has been programmed. */
  ghost function Taken(d: Wear, from: int, to: int): Wear {
    Wear((iset i | i in d.unused && !(from <= i < to)), d.erased)
  }

  lemma TakenTwice(d: Wear, from: int, mid: int, to: int)
    requires from <= mid <= to
    ensures Taken(Taken(d, from, mid), mid, to) == Taken(d, from, to)
  {
    assert Taken(Taken(d, from, mid), mid, to).unused == Taken(d, from, to).unused;
  }

  lemma ProgramTakes(d: Wear, from: nat, data: seq<Byte>)
    ensures Worn(d, Program(from, data)) == Taken(d, from, from + |data|)
  {
    assert Worn(d, Program(from, data)).unused == Taken(d, from, from + |data|).unused;
  }

  /** Pieces never exceed what one program call takes, and each goes onto unused cells. */
  lemma {:induction false} PiecesGentle(d: Wear, position: nat, data: seq<Byte>, max: nat)
    requires max > 0
    requires forall i :: IMAGE_START + position <= i < IMAGE_START + position + |data| ==> i in d.unused
    ensures var ops := Pieces(position, data, max);
            && AllGentle(d, ops)
            && (forall op | op in ops :: op.Program? && 0 < |op.data| <= max)
            && WornAll(d, ops) == Taken(d, IMAGE_START + position, IMAGE_START + position + |data|)
    decreases |data|
  {
    var from := IMAGE_START + position;
    if data == [] {
      assert d.unused == Taken(d, from, from).unused;
    } else {
      var n := if |data| < max then |data| else max;
      var head := Program(from, data[..n]);
      var rest := Pieces(position + n, data[n..], max);
      assert ([head] + rest)[1..] == rest;
      ProgramTakes(d, from, data[..n]);
      PiecesGentle(Worn(d, head), position + n, data[n..], max);
      TakenTwice(d, from, from + n, from + |data|);
    }
  }

  lemma CommitGentle(w: Writer, d: Wear)
    requires WriterInv(w) && Ahead(w, d) && Accepts(w, Commit)
    ensures var ops := Ops(w, Commit);
            AllGentle(d, ops) && Ahead(After(w, Commit), WornAll(d, ops))
  {
    var ops := Ops(w, Commit);
    var e := Worn(d, ops[0]);
    assert ops[1..] == [ops[1]] && [ops[1]][1..] == [];
    assert AllGentle(e, [ops[1]]);
    assert WornAll(e, [ops[1]]) == WornAll(Worn(e, ops[1]), []);
  }

  lemma EraseGentle(w: Writer, d: Wear, end: nat)
    requires WriterInv(w) && Ahead(w, d) && w.open && w.erasedThrough < end <= IMAGE_CAPACITY
    ensures var ops := Ops(w, EraseStep(end));
            AllGentle(d, ops) && Ahead(After(w, EraseStep(end)), WornAll(d, ops))
  {
    var ops := Ops(w, EraseStep(end));
    assert ops[1..] == [];
    assert WornAll(d, ops) == WornAll(Worn(d, ops[0]), []);
  }

  ghost predicate AllButLastFull(ops: seq<FlashOp>, max: nat) {
    forall k | 0 <= k < |ops| - 1 :: ops[k].Program? && |ops[k].data| == max
  }

  lemma FullFront(head: FlashOp, rest: seq<FlashOp>, max: nat)
    requires AllButLastFull(rest, max) && (rest != [] ==> head.Program? && |head.data| == max)
    ensures AllButLastFull([head] + rest, max)
  {
    var ops := [head] + rest;
    forall k | 0 <= k < |ops| - 1 ensures ops[k].Program? && |ops[k].data| == max {
      if k > 0 {
        assert ops[k] == rest[k - 1];
      }
    }
  }

  /** All pieces of a block but the last are as long as one program may be. */
  lemma {:induction false} PiecesAreFull(position: nat, data: seq<Byte>, max: nat)
    requires max > 0
    ensures AllButLastFull(Pieces(position, data, max), max)
    decreases |data|
  {
    if data != [] {
      var n := if |data| < max then |data| else max;
      PiecesAreFull(position + n, data[n..], max);
      FullFront(Program(IMAGE_START + position, data[..n]), Pieces(position + n, data[n..], max), max);
    }
  }

  lemma CallGentle(w: Writer, d: Wear, call: Call)
    requires WriterInv(w) && Ahead(w, d) && !call.Begin?
    requires call.EraseStep? ==> call.end <= IMAGE_CAPACITY
    ensures AllGentle(d, Ops(w, call)) && Ahead(After(w, call), WornAll(d, Ops(w, call)))
  {
    if Ops(w, call) != [] {
      match call
      case EraseStep(end) => EraseGentle(w, d, end);
      case Write(offset, data) => PiecesGentle(d, offset, data, w.maxProgram);
      case Commit => CommitGentle(w, d);
      case Abort => assert false;
    }
  }

  lemma {:induction false} GentleAppend(d: Wear, first: seq<FlashOp>, second: seq<FlashOp>)
    ensures AllGentle(d, first + second) <==> AllGentle(d, first) && AllGentle(WornAll(d, first), second)
    ensures WornAll(d, first + second) == WornAll(WornAll(d, first), second)
    decreases |first|
  {
    if first == [] {
      assert first + second == second;
    } else {
      assert (first + second)[1..] == first[1..] + second;
      GentleAppend(Worn(d, first[0]), first[1..], second);
    }
  }

  lemma {:induction false} CallsGentle(w: Writer, d: Wear, calls: seq<Call>)
    requires WriterInv(w) && Ahead(w, d)
    requires forall c | c in calls :: !c.Begin? && (c.EraseStep? ==> c.end <= IMAGE_CAPACITY)
    ensures AllGentle(d, SessionOps(w, calls))
    decreases |calls|
  {
    if calls != [] {
      CallGentle(w, d, calls[0]);
      AfterKeepsWriterInv(w, calls[0]);
      var e := WornAll(d, Ops(w, calls[0]));
      CallsGentle(After(w, calls[0]), e, calls[1..]);
      GentleAppend(d, Ops(w, calls[0]), SessionOps(After(w, calls[0]), calls[1..]));
    }
  }

  /**
   * A whole session, from its first erase on: every cell it programs was erased in this session
   * and not programmed since, and no sector is erased a second time.
   */
  lemma SessionIsGentle(max: nat, calls: seq<Call>)
    requires max > 0
    requires forall c | c in calls :: !c.Begin? && (c.EraseStep? ==> c.end <= IMAGE_CAPACITY)
    ensures AllGentle(Wear(iset{}, iset{}), SessionOps(CLOSED, [Begin(true, max)] + calls))
  {
    var none := Wear(iset{}, iset{});
    var begin := Begin(true, max);
    var erase := Erase(METADATA_START);
    var mark := Program(MAGIC, WordBytes(MAGIC_WORD));
    var marked := Worn(Worn(none, erase), mark);
    var w := After(CLOSED, begin);
    assert [erase, mark][1..] == [mark] && [mark][1..] == [];
    assert WornAll(Worn(none, erase), [mark]) == WornAll(marked, []);
    assert WornAll(none, [erase, mark]) == marked;
    assert AllGentle(Worn(none, erase), [mark]);
    CallsGentle(w, marked, calls);
    GentleAppend(none, [erase, mark], SessionOps(w, calls));
    assert ([begin] + calls)[1..] == calls;
  }

  /** The writer after some erase steps. */
  function Erasing(w: Writer, ends: seq<nat>): Writer
    decreases |ends|
  {
    if ends == [] then w else Erasing(After(w, EraseStep(ends[0])), ends[1..])
  }

  lemma {:induction false} ErasingKeeps(w: Writer, ends: seq<nat>)
    ensures var e := Erasing(w, ends);
            e.open == w.open && e.nextOffset == w.nextOffset && e.erasedThrough >= w.erasedThrough
    decreases |ends|
  {
    if ends != [] {
      ErasingKeeps(After(w, EraseStep(ends[0])), ends[1..]);
    }
  }

  /**
   * A block that the master repeats while it is told busy is taken once: any number of erase steps
   * leave it acceptable, and once it is taken no repetition of it is, however much is erased.
   */
  lemma RepeatedBlock(w: Writer, before: seq<nat>, after: seq<nat>, data: seq<Byte>)
    requires data != []
    ensures var block := Write(w.nextOffset, data);
            var ready := Erasing(w, before);
            && (Accepts(w, block) ==> Accepts(ready, block))
            && (Accepts(ready, block) ==>
                  && After(ready, block).nextOffset == w.nextOffset + |data|
                  && !Accepts(Erasing(After(ready, block), after), block))
  {
    ErasingKeeps(w, before);
    var ready := Erasing(w, before);
    ErasingKeeps(After(ready, Write(w.nextOffset, data)), after);
  }
}
