/** The staging writer, driving a flash device and updating its own offsets in place. */
module FoeStagingWriter {
  import opened Bytes
  import opened NorFlash
  import opened FoeStaging

  datatype EraseOutcome = Ready | Progressed | Failed

  class StagingWriter {
    var device: Device?
    var maxProgramSize: nat
    var nextOffset: nat
    var erasedThrough: nat
    var open: bool

    ghost predicate Valid()
      reads this, device
    {
      && nextOffset <= MAX_IMAGE
      && erasedThrough % SECTOR == 0 && nextOffset <= erasedThrough <= IMAGE_CAPACITY
      && (open ==> device != null && maxProgramSize > 0)
      && (device != null ==> device.Valid() && |device.origin| == FLASH_SIZE)
    }

    /** A flash operation that failed is final: the session issues no other after it. */
    ghost predicate Live()
      reads this, device
    {
      Valid() && (open ==> device.fault.NoFault?)
    }

    ghost function View(): (w: Writer)
      reads this
    {
      Writer(open, nextOffset, erasedThrough, maxProgramSize)
    }

    /**
     * The log grew by the operations of the call that went through, in order; if one of them
     * failed it is on record, the call answers false, and the writer's state says so. The cells
     * are one of the outcomes that the crash model gives the call.
     */
    twostate predicate Performed(call: Call, ok: bool)
      requires old(Live()) && Valid()
      reads this, device
    {
      var w := old(View());
      var ops := Ops(w, call);
      && device == old(device)
      && (device == null ==> ops == [] && Whole(w, call, ok))
      && (device != null ==>
            && device.origin == old(device.origin)
            && Advanced(old(device.log), ops, device.log, device.fault, old(device.fault))
            && var done := |device.log| - |old(device.log)|;
               && Outcome(old(device.cells), ops, done, device.cells)
               && (done == |ops| ==> Whole(w, call, ok))
               && (done < |ops| ==> View() == Interrupted(w, call) && !ok))
    }

    ghost predicate Whole(before: Writer, call: Call, ok: bool)
      reads this
    {
      View() == After(before, call) && ok == Accepts(before, call)
    }

    /** The same of the call that opens a session, which restarts the device whatever its state. */
    twostate predicate Begun(dev: Device?, maxProgram: nat, ok: bool)
      requires Valid()
      reads this, device, dev
    {
      var call := Call.Begin(dev != null, maxProgram);
      var ops := Ops(CLOSED, call);
      && device == dev
      && (dev == null ==> Whole(CLOSED, call, ok))
      && (dev != null ==>
            && dev.origin == old(dev.cells)
            && Advanced([], ops, dev.log, dev.fault, NoFault)
            && Outcome(old(dev.cells), ops, |dev.log|, dev.cells)
            && (|dev.log| == |ops| ==> Whole(CLOSED, call, ok))
            && (|dev.log| < |ops| ==> View() == Interrupted(CLOSED, call) && !ok))
    }

    constructor ()
      ensures Live() && View() == CLOSED && device == null
    {
      device, maxProgramSize, nextOffset, erasedThrough, open := null, 0, 0, 0, false;
    }

    method Begin(dev: Device?, maxProgram: nat) returns (ok: bool)
      requires dev != null ==> |dev.cells| == FLASH_SIZE
      modifies this, dev
      ensures Valid() && Begun(dev, maxProgram, ok)
    {
      device, maxProgramSize, nextOffset, erasedThrough, open := dev, maxProgram, 0, 0, false;
      if dev == null {
        return false;
      }
      dev.Restart();
      if maxProgram == 0 {
        return false;
      }
      ghost var ops := Ops(CLOSED, Call.Begin(true, maxProgram));
      ok := dev.Perform(Erase(METADATA_START));
      if ok {
        ok := dev.Perform(Program(MAGIC, WordBytes(MAGIC_WORD)));
        open := ok;
      }
      AdvancedOutcome(dev.origin, [], ops, dev.log, dev.fault, dev.cells);
    }

    method EraseStep(end: nat) returns (outcome: EraseOutcome)
      requires Live() && end <= IMAGE_CAPACITY
      modifies this, device
      ensures Valid()
      ensures Performed(Call.EraseStep(end), outcome != Failed)
      ensures outcome == Ready <==> old(open && erasedThrough >= end)
    {
      if !open {
        return Failed;
      }
      if erasedThrough >= end {
        return Ready;
      }
      ghost var ops := Ops(View(), Call.EraseStep(end));
      var ok := device.Perform(Erase(IMAGE_START + erasedThrough));
      AdvancedOutcome(device.origin, old(device.log), ops, device.log, device.fault, device.cells);
      if !ok {
        return Failed;
      }
      erasedThrough := erasedThrough + SECTOR;
      return Progressed;
    }

    method Write(offset: nat, data: seq<Byte>) returns (ok: bool)
      requires Live()
      modifies this, device
      ensures Valid()
      ensures Performed(Call.Write(offset, data), ok)
    {
      hide Torn, Apply;
      if !open || offset != nextOffset {
        return false;
      }
      if |data| == 0 {
        return true;
      }
      if offset > MAX_IMAGE || |data| > MAX_IMAGE - offset {
        return false;
      }
      if offset + |data| > erasedThrough {
        return false;
      }
      ghost var ops := Ops(View(), Call.Write(offset, data));
      ok := ProgramPieces(offset, data);
      AdvancedOutcome(device.origin, old(device.log), ops, device.log, device.fault, device.cells);
      if ok {
        nextOffset := offset + |data|;
      }
    }

    /** The chunk loop: programs `data` piece by piece until it is done or one piece fails. */
    method ProgramPieces(offset: nat, data: seq<Byte>) returns (ok: bool)
      requires device != null && device.Valid() && device.fault.NoFault?
      requires |device.origin| == FLASH_SIZE && offset + |data| <= MAX_IMAGE && maxProgramSize > 0
      modifies device
      ensures device.Valid() && device.origin == old(device.origin)
      ensures var ops := Pieces(offset, data, maxProgramSize);
              && Advanced(old(device.log), ops, device.log, device.fault, NoFault)
              && ok == (|device.log| == |old(device.log)| + |ops|)
    {
      hide Device.Valid, Row, Advanced;
      var cursor: nat := 0;
      var remaining: nat := |data|;
      ghost var before := device.log;
      ghost var todo := Pieces(offset, data, maxProgramSize);
      ghost var ops := todo;
      RowStart(before, ops);
      assert data[0..] == data;
      while remaining > 0
        invariant cursor + remaining == |data|
        invariant device.Valid() && device.fault.NoFault? && device.origin == old(device.origin)
        invariant Row(before, device.log, todo, ops)
        invariant todo == Pieces(offset + cursor, data[cursor..], maxProgramSize)
      {
        var chunk := if remaining < maxProgramSize then remaining else maxProgramSize;
        var op := Program(IMAGE_START + (offset + cursor), data[cursor..cursor + chunk]);
        ghost var rest := Pieces(offset + cursor + chunk, data[cursor + chunk..], maxProgramSize);
        NextPiece(offset + cursor, data, cursor, maxProgramSize);
        RowNext(before, device.log, op, rest, ops);
        ok := device.Perform(op);
        if !ok {
          return;
        }
        todo := rest;
        cursor := cursor + chunk;
        remaining := remaining - chunk;
      }
      assert data[cursor..] == [];
      RowEnd(before, device.log, ops);
      return true;
    }

    method Commit() returns (ok: bool)
      requires Live()
      modifies this, device
      ensures Valid()
      ensures Performed(Call.Commit, ok)
      ensures nextOffset == old(nextOffset) && erasedThrough == old(erasedThrough)
      ensures open == (old(open) && !ok)
    {
      if !open || nextOffset == 0 {
        return false;
      }
      ghost var ops := Ops(View(), Call.Commit);
      ok := device.Perform(Program(IMAGE_SIZE, WordBytes(nextOffset)));
      if ok {
        ok := device.Perform(Program(STATE, WordBytes(READY_WORD)));
        if ok {
          open := false;
        }
      }
      AdvancedOutcome(device.origin, old(device.log), ops, device.log, device.fault, device.cells);
    }

    method Abort()
      requires Valid()
      modifies this
      ensures Live() && View() == After(old(View()), Call.Abort) && device == old(device)
      ensures !open && nextOffset == old(nextOffset) && erasedThrough == old(erasedThrough)
    {
      open := false;
    }
  }

  /** `ops` was carried out up to its first failing operation, if one failed. */
  ghost predicate Advanced(before: seq<FlashOp>, ops: seq<FlashOp>, after: seq<FlashOp>,
                           fault: Fault, faultBefore: Fault)
  {
    var done := |after| - |before|;
    && before <= after <= before + ops
    && fault == if done == |ops| then faultBefore else Fault.Fault(ops[done])
  }

  /** Every call is an event of the crash model: what it leaves is one of the call's outcomes. */
  lemma AdvancedOutcome(origin: Cells, before: seq<FlashOp>, ops: seq<FlashOp>, after: seq<FlashOp>,
                        fault: Fault, cells: Cells)
    requires Advanced(before, ops, after, fault, NoFault)
    requires if fault.NoFault? then cells == ApplyAll(origin, after)
             else Torn(ApplyAll(origin, after), fault.op, cells)
    ensures Outcome(ApplyAll(origin, before), ops, |after| - |before|, cells)
  {
    var done := |after| - |before|;
    assert after == before + ops[..done] by {
      assert after == (before + ops)[..|after|];
    }
    RowOutcome(origin, before, ops, done, fault, cells);
  }

  /** In the middle of carrying out `ops`: `log` is behind it, `todo` is ahead. */
  ghost predicate Row(before: seq<FlashOp>, log: seq<FlashOp>, todo: seq<FlashOp>, ops: seq<FlashOp>) {
    before <= log && before + ops == log + todo
  }

  lemma RowStart(before: seq<FlashOp>, ops: seq<FlashOp>)
    ensures Row(before, before, ops, ops)
  {
  }

  lemma RowNext(before: seq<FlashOp>, log: seq<FlashOp>, op: FlashOp, rest: seq<FlashOp>,
                ops: seq<FlashOp>)
    requires Row(before, log, [op] + rest, ops)
    ensures Row(before, log + [op], rest, ops)
    ensures Advanced(before, ops, log, Fault.Fault(op), NoFault) && |log| < |before| + |ops|
  {
    assert (log + [op]) + rest == log + ([op] + rest);
    assert (before + ops)[|log|] == op;
  }

  lemma RowEnd(before: seq<FlashOp>, log: seq<FlashOp>, ops: seq<FlashOp>)
    requires Row(before, log, [], ops)
    ensures Advanced(before, ops, log, NoFault, NoFault) && |log| == |before| + |ops|
  {
    assert log + [] == log;
  }

  /** The piece the chunk loop programs next, and what is then left to do. */
  lemma NextPiece(position: nat, data: seq<Byte>, cursor: nat, max: nat)
    requires max > 0 && cursor < |data|
    ensures var chunk := if |data| - cursor < max then |data| - cursor else max;
            Pieces(position, data[cursor..], max)
            == [Program(IMAGE_START + position, data[cursor..cursor + chunk])]
               + Pieces(position + chunk, data[cursor + chunk..], max)
  {
    var chunk := if |data| - cursor < max then |data| - cursor else max;
    assert data[cursor..][..chunk] == data[cursor..cursor + chunk];
    assert data[cursor..][chunk..] == data[cursor + chunk..];
  }
}
