/** NOR flash: erase sets a sector to ones, program can only clear bits, power may fail anytime. */
module NorFlash {
  import opened Bytes

  const SECTOR := 4096
  const ERASED: Byte := 0xFF

  type Cells = seq<Byte>

  datatype FlashOp = Erase(addr: nat) | Program(addr: nat, data: seq<Byte>) {
    predicate Fits(size: nat) {
      match this
      case Erase(a) => a % SECTOR == 0 && a + SECTOR <= size
      case Program(a, data) => a + |data| <= size
    }

    /** Whether the operation can change the cell at address i. */
    predicate Touches(i: int) {
      match this
      case Erase(a) => a <= i < a + SECTOR
      case Program(a, data) => a <= i < a + |data|
    }
  }

  /** The cells after the operation has gone through. */
  function Apply(cells: Cells, op: FlashOp): (after: Cells)
    ensures |after| == |cells|
    ensures forall i | 0 <= i < |cells| && !op.Touches(i) :: after[i] == cells[i]
  {
    seq(|cells|, (i: int) requires 0 <= i < |cells| =>
      if !op.Touches(i) then cells[i]
      else match op
           case Erase(_) => ERASED
           case Program(a, data) => And(cells[i], data[i - a]))
  }

  function ApplyAll(cells: Cells, ops: seq<FlashOp>): (after: Cells)
    ensures |after| == |cells|
    decreases |ops|
  {
    if ops == [] then cells else ApplyAll(Apply(cells, ops[0]), ops[1..])
  }

  lemma {:induction false} ApplyAllSnoc(cells: Cells, ops: seq<FlashOp>, last: FlashOp)
    ensures ApplyAll(cells, ops + [last]) == Apply(ApplyAll(cells, ops), last)
    decreases |ops|
  {
    if ops == [] {
      assert ops + [last] == [last];
      assert ApplyAll(cells, [last]) == ApplyAll(Apply(cells, last), []);
    } else {
      assert (ops + [last])[1..] == ops[1..] + [last];
      ApplyAllSnoc(Apply(cells, ops[0]), ops[1..], last);
    }
  }

  /**
   * What an interrupted or failed operation may leave behind. An erase happens or does not; a
   * program has cleared some of the bits it was to clear, in any of its cells.
   */
  ghost predicate Torn(before: Cells, op: FlashOp, after: Cells) {
    match op
    case Erase(_) => after == before || after == Apply(before, op)
    case Program(a, data) =>
      && |after| == |before|
      && (forall i | 0 <= i < |before| && !op.Touches(i) :: after[i] == before[i])
      && (forall i | 0 <= i < |before| && op.Touches(i) ::
            && And(after[i], before[i]) == after[i]
            && And(after[i], And(before[i], data[i - a])) == And(before[i], data[i - a]))
  }

  lemma NotYetTorn(cells: Cells, op: FlashOp)
    ensures Torn(cells, op, cells)
  {
    if op.Program? {
      forall i | 0 <= i < |cells| && op.Touches(i)
        ensures And(cells[i], cells[i]) == cells[i]
        ensures var b := And(cells[i], op.data[i - op.addr]); And(cells[i], b) == b
      {
        AndLaws(cells[i], op.data[i - op.addr], 8);
      }
    }
  }

  /** A run of `ops` that got through the first `done` of them and, if any is left, tore the next. */
  ghost predicate Outcome(before: Cells, ops: seq<FlashOp>, done: nat, after: Cells) {
    && done <= |ops|
    && (if done == |ops| then after == ApplyAll(before, ops)
        else Torn(ApplyAll(before, ops[..done]), ops[done], after))
  }

  datatype Fault = NoFault | Fault(op: FlashOp)

  /**
   * The device. Since the last restart it has completed the operations in `log`; a failed one
   * is final, so nothing follows it before the next restart.
   */
  class Device {
    ghost var origin: Cells
    ghost var cells: Cells
    ghost var log: seq<FlashOp>
    ghost var fault: Fault

    /** The cells are what the log and the fault make of the cells at the last restart. */
    ghost predicate Valid()
      reads this
    {
      && |cells| == |origin|
      && (if fault.NoFault? then cells == ApplyAll(origin, log)
          else Torn(ApplyAll(origin, log), fault.op, cells))
    }

    ghost method Restart()
      modifies this
      ensures Valid() && cells == old(cells) == origin && log == [] && fault == NoFault
    {
      origin, log, fault := cells, [], NoFault;
    }

    method Perform(op: FlashOp) returns (ok: bool)
      requires Valid() && fault.NoFault? && op.Fits(|origin|)
      modifies this
      ensures Valid() && origin == old(origin)
      ensures if ok then log == old(log) + [op] && fault == NoFault
              else log == old(log) && fault == Fault(op)
    {
      ok := *;
      if ok {
        ApplyAllSnoc(origin, log, op);
        cells := Apply(cells, op);
        log := log + [op];
      } else {
        NotYetTorn(cells, op);
        ghost var after: Cells :| |after| == |cells| && Torn(cells, op, after);
        cells := after;
        fault := Fault(op);
      }
    }
  }

  lemma {:induction false} ApplyAllAppend(cells: Cells, first: seq<FlashOp>, second: seq<FlashOp>)
    ensures ApplyAll(cells, first + second) == ApplyAll(ApplyAll(cells, first), second)
    decreases |second|
  {
    if second == [] {
      assert first + second == first;
    } else {
      var n := |second| - 1;
      assert first + second == (first + second[..n]) + [second[n]];
      assert second == second[..n] + [second[n]];
      ApplyAllSnoc(cells, first + second[..n], second[n]);
      ApplyAllAppend(cells, first, second[..n]);
      ApplyAllSnoc(ApplyAll(cells, first), second[..n], second[n]);
    }
  }

  /** From a device's account of a row of operations to what the row left of the cells before it. */
  lemma RowOutcome(origin: Cells, before: seq<FlashOp>, ops: seq<FlashOp>, done: nat,
                   fault: Fault, after: Cells)
    requires done <= |ops|
    requires fault == if done == |ops| then NoFault else Fault(ops[done])
    requires if fault.NoFault? then after == ApplyAll(origin, before + ops[..done])
             else Torn(ApplyAll(origin, before + ops[..done]), fault.op, after)
    ensures Outcome(ApplyAll(origin, before), ops, done, after)
  {
    ApplyAllAppend(origin, before, ops[..done]);
    if done == |ops| {
      assert ops[..done] == ops;
    }
  }
}
