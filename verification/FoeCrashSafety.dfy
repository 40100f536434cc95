/**
 * Power may fail at any moment, in the middle of a program too, over any number of sessions:
 * a record that reads Ready always vouches for the exact bytes of one committed session.
 */
module FoeCrashSafety {
  import opened Bytes
  import opened NorFlash
  import opened FoeStaging

  /**
   * The flash, the writer, and what the current session has accepted and the last commit was
   * issued for. `live` says that no flash operation of the session has failed yet.
   */
  datatype World = World(
    cells: Cells, w: Writer, live: bool, accepted: seq<Byte>, committed: seq<Byte>)

  /** A call whose flash operations stop after `done`, leaving the cells as `after`; or a reset. */
  datatype Event = Calls(call: Call, done: nat, after: Cells) | PowerLoss

  ghost predicate WriterInv(w: Writer) {
    && w.nextOffset <= MAX_IMAGE
    && w.nextOffset <= w.erasedThrough <= IMAGE_CAPACITY
    && w.erasedThrough % SECTOR == 0
    && (w.open ==> w.maxProgram > 0)
  }

  /**
   * After a failed operation callers abort the session, and they ask to erase within the image
   * region only.
   */
  ghost predicate Allowed(x: World, ev: Event)
    requires WriterInv(x.w)
  {
    ev.Calls? ==>
      && (x.live || !x.w.open || ev.call.Begin? || ev.call.Abort?)
      && (ev.call.EraseStep? ==> ev.call.end <= IMAGE_CAPACITY)
      && Outcome(x.cells, Ops(x.w, ev.call), ev.done, ev.after)
  }

  /** What the session has accepted after the call; a session that opens starts over. */
  function AcceptedAfter(x: World, call: Call, whole: bool): seq<Byte> {
    if call.Begin? then []
    else if call.Write? && whole && Accepts(x.w, call) then x.accepted + call.data
    else x.accepted
  }

  ghost function Step(x: World, ev: Event): World
    requires WriterInv(x.w)
  {
    if ev.PowerLoss? then World(x.cells, CLOSED, false, [], x.committed)
    else
      var whole := ev.done == |Ops(x.w, ev.call)|;
      var accepts := Accepts(x.w, ev.call);
      World(
        ev.after,
        if whole then After(x.w, ev.call) else Interrupted(x.w, ev.call),
        whole && (x.live || (ev.call.Begin? && accepts)),
        AcceptedAfter(x, ev.call, whole),
        if ev.call.Commit? && accepts && ev.done > 0 then x.accepted else x.committed)
  }

  ghost predicate IsRun(x: World, events: seq<Event>, y: World)
    decreases |events|
  {
    if events == [] then x == y
    else WriterInv(x.w) && Allowed(x, events[0]) && IsRun(Step(x, events[0]), events[1..], y)
  }

  // ---------------------------------------------------------------------------------------
  // Invariants

  ghost predicate Blank(cells: Cells, from: nat, to: nat)
    requires to <= |cells|
  {
    forall i | from <= i < to :: cells[i] == ERASED
  }

  /** The cells from `from` on spell out `data`. */
  ghost predicate Holds(cells: Cells, from: nat, data: seq<Byte>) {
    from + |data| <= |cells| && cells[from..from + |data|] == data
  }

  /** A Ready record describes exactly the image last committed. */
  ghost predicate Vouches(cells: Cells, committed: seq<Byte>)
    requires |cells| == FLASH_SIZE
  {
    RecordIsReady(cells, MAX_IMAGE) ==>
      WordAt(cells, IMAGE_SIZE) == |committed| && Holds(cells, IMAGE_START, committed)
  }

  /** An open session: marked but not committed, its bytes in place, the rest of the front blank. */
  ghost predicate Session(cells: Cells, w: Writer, accepted: seq<Byte>)
    requires |cells| == FLASH_SIZE && WriterInv(w)
  {
    && WordAt(cells, MAGIC) == MAGIC_WORD
    && Blank(cells, STATE, IMAGE_START)
    && w.nextOffset == |accepted|
    && Holds(cells, IMAGE_START, accepted)
    && Blank(cells, IMAGE_START + w.nextOffset, IMAGE_START + w.erasedThrough)
  }

  ghost predicate Inv(x: World) {
    && |x.cells| == FLASH_SIZE
    && WriterInv(x.w)
    && Vouches(x.cells, x.committed)
    && (x.live && x.w.open ==> Session(x.cells, x.w, x.accepted))
  }

  // ---------------------------------------------------------------------------------------
  // What rows of operations leave alone

  ghost predicate Confined(ops: seq<FlashOp>, from: nat, to: nat) {
    forall op, i | op in ops && op.Touches(i) :: from <= i < to
  }

  /** Nothing outside [from, to) differs. */
  ghost predicate Outside(cells: Cells, after: Cells, from: nat, to: nat) {
    |after| == |cells|
    && forall i | 0 <= i < |cells| && !(from <= i < to) :: after[i] == cells[i]
  }

  lemma {:induction false} ApplyAllConfined(cells: Cells, ops: seq<FlashOp>, from: nat, to: nat)
    requires Confined(ops, from, to)
    ensures Outside(cells, ApplyAll(cells, ops), from, to)
    decreases |ops|
  {
    if ops != [] {
      assert ops[0] in ops;
      forall op | op in ops[1..] ensures op in ops {}
      ApplyAllConfined(Apply(cells, ops[0]), ops[1..], from, to);
    }
  }

  /** However far the row got and wherever it tore, nothing outside its range has changed. */
  lemma OutcomeConfined(cells: Cells, ops: seq<FlashOp>, done: nat, after: Cells, from: nat, to: nat)
    requires Outcome(cells, ops, done, after) && Confined(ops, from, to)
    ensures Outside(cells, after, from, to)
  {
    if done == |ops| {
      ApplyAllConfined(cells, ops, from, to);
    } else {
      forall op | op in ops[..done] ensures op in ops {}
      ApplyAllConfined(cells, ops[..done], from, to);
      assert ops[done] in ops;
    }
  }

  lemma {:induction false} PiecesConfined(position: nat, data: seq<Byte>, max: nat)
    requires max > 0
    ensures var from := IMAGE_START + position;
            Confined(Pieces(position, data, max), from, from + |data|)
    decreases |data|
  {
    if data != [] {
      var n := if |data| < max then |data| else max;
      PiecesConfined(position + n, data[n..], max);
    }
  }

  /** Programming blank flash stores the data, and leaves what follows blank. */
  lemma ProgramBlank(cells: Cells, addr: nat, data: seq<Byte>, end: nat)
    requires addr + |data| <= end <= |cells| && Blank(cells, addr, end)
    ensures var after := Apply(cells, Program(addr, data));
            Holds(after, addr, data) && Blank(after, addr + |data|, end)
  {
    var after := Apply(cells, Program(addr, data));
    forall i | 0 <= i < |data| ensures after[addr + i] == data[i] {
      assert cells[addr + i] == ERASED;
      AndOnes(data[i], 8);
    }
  }

  lemma SplitProgram(cells: Cells, addr: nat, data: seq<Byte>, n: nat)
    requires n <= |data|
    ensures Apply(Apply(cells, Program(addr, data[..n])), Program(addr + n, data[n..]))
            == Apply(cells, Program(addr, data))
  {
  }

  lemma ApplyPieces(cells: Cells, position: nat, data: seq<Byte>, max: nat, n: nat)
    requires max > 0 && data != [] && n == if |data| < max then |data| else max
    ensures ApplyAll(cells, Pieces(position, data, max))
            == ApplyAll(Apply(cells, Program(IMAGE_START + position, data[..n])),
                        Pieces(position + n, data[n..], max))
  {
    var head := Program(IMAGE_START + position, data[..n]);
    assert ([head] + Pieces(position + n, data[n..], max))[1..] == Pieces(position + n, data[n..], max);
  }

  /** The chunk loop does to the flash what one unlimited program call would do. */
  lemma {:induction false} PiecesAsOne(cells: Cells, position: nat, data: seq<Byte>, max: nat)
    requires max > 0
    ensures ApplyAll(cells, Pieces(position, data, max))
            == Apply(cells, Program(IMAGE_START + position, data))
    decreases |data|
  {
    if data == [] {
      assert Apply(cells, Program(IMAGE_START + position, data)) == cells;
    } else {
      hide Apply, ApplyAll, Pieces;
      var n := if |data| < max then |data| else max;
      ApplyPieces(cells, position, data, max, n);
      PiecesAsOne(Apply(cells, Program(IMAGE_START + position, data[..n])), position + n, data[n..], max);
      SplitProgram(cells, IMAGE_START + position, data, n);
    }
  }

  lemma Stitch(first: Cells, after: Cells, from: nat, n: nat, data: seq<Byte>)
    requires n <= |data|
    requires Holds(first, from, data[..n]) && Holds(after, from + n, data[n..])
    requires Outside(first, after, from + n, from + |data|)
    ensures Holds(after, from, data)
  {
    assert after[from..from + n] == first[from..from + n];
    assert after[from..from + |data|] == after[from..from + n] + after[from + n..from + |data|];
    assert data == data[..n] + data[n..];
  }

  // ---------------------------------------------------------------------------------------
  // Words

  lemma BlankWord(cells: Cells, addr: nat)
    requires addr + 4 <= |cells| && Blank(cells, addr, addr + 4)
    ensures WordAt(cells, addr) == ERASED_WORD
  {
  }

  /** Programming a blank word stores it. */
  lemma ProgramWord(cells: Cells, addr: nat, w: Word)
    requires addr + 4 <= |cells| && Blank(cells, addr, addr + 4)
    ensures WordAt(Apply(cells, Program(addr, WordBytes(w))), addr) == w
  {
    hide Apply;
    ProgramBlank(cells, addr, WordBytes(w), addr + 4);
    var after := Apply(cells, Program(addr, WordBytes(w)));
    var stored := after[addr..addr + 4];
    assert stored == WordBytes(w);
    assert stored[0] == after[addr] && stored[1] == after[addr + 1];
    assert stored[2] == after[addr + 2] && stored[3] == after[addr + 3];
  }

  // ---------------------------------------------------------------------------------------
  // One call, wherever it stops

  lemma BlankStateVouches(cells: Cells, committed: seq<Byte>)
    requires |cells| == FLASH_SIZE && Blank(cells, STATE, STATE + 4)
    ensures Vouches(cells, committed)
  {
    BlankWord(cells, STATE);
  }

  /** Operations within the image region leave an uncommitted record uncommitted. */
  lemma ImageOpsVouch(x: World, ops: seq<FlashOp>, done: nat, after: Cells)
    requires Inv(x) && x.live && x.w.open
    requires Outcome(x.cells, ops, done, after) && Confined(ops, IMAGE_START, FLASH_SIZE)
    ensures |after| == FLASH_SIZE && Vouches(after, x.committed)
    ensures WordAt(after, MAGIC) == MAGIC_WORD && Blank(after, STATE, IMAGE_START)
  {
    OutcomeConfined(x.cells, ops, done, after, IMAGE_START, FLASH_SIZE);
    BlankStateVouches(after, x.committed);
  }

  ghost predicate MetadataErased(cells: Cells) {
    |cells| == FLASH_SIZE && Blank(cells, METADATA_START, IMAGE_START)
  }

  lemma MarkOutcome(cells: Cells, committed: seq<Byte>, after: Cells, whole: bool)
    requires MetadataErased(cells)
    requires var op := Program(MAGIC, WordBytes(MAGIC_WORD));
             if whole then after == Apply(cells, op) else Torn(cells, op, after)
    ensures |after| == FLASH_SIZE && Vouches(after, committed)
    ensures whole ==> WordAt(after, MAGIC) == MAGIC_WORD && Blank(after, STATE, IMAGE_START)
  {
    assert Blank(after, STATE, IMAGE_START);
    BlankStateVouches(after, committed);
    if whole {
      ProgramWord(cells, MAGIC, MAGIC_WORD);
    }
  }

  lemma EraseMetadata(cells: Cells, committed: seq<Byte>)
    requires |cells| == FLASH_SIZE
    ensures var erased := Apply(cells, Erase(METADATA_START));
            MetadataErased(erased) && Vouches(erased, committed)
  {
    BlankStateVouches(Apply(cells, Erase(METADATA_START)), committed);
  }

  lemma OutcomeOfTwo(cells: Cells, first: FlashOp, second: FlashOp, done: nat, after: Cells)
    requires Outcome(cells, [first, second], done, after)
    ensures done <= 2
    ensures done == 0 ==> Torn(cells, first, after)
    ensures done == 1 ==> Torn(Apply(cells, first), second, after)
    ensures done == 2 ==> after == Apply(Apply(cells, first), second)
  {
    var ops := [first, second];
    var mid := Apply(cells, first);
    assert ops[..0] == [] && ops[..1] == [first] && ops[1..] == [second];
    assert ApplyAll(cells, [first]) == ApplyAll(mid, []);
    assert ApplyAll(mid, [second]) == ApplyAll(Apply(mid, second), []);
  }

  /** A freshly marked record opens an empty session. */
  lemma SessionOpens(cells: Cells, max: nat)
    requires |cells| == FLASH_SIZE && max > 0
    requires WordAt(cells, MAGIC) == MAGIC_WORD && Blank(cells, STATE, IMAGE_START)
    ensures Session(cells, Writer(true, 0, 0, max), [])
  {
  }

  lemma BeginOutcome(x: World, ev: Event)
    requires Inv(x) && Allowed(x, ev) && ev.Calls? && ev.call.Begin? && Accepts(x.w, ev.call)
    ensures |ev.after| == FLASH_SIZE && ev.done <= 2 && Vouches(ev.after, x.committed)
    ensures ev.done == 2 ==> Session(ev.after, Writer(true, 0, 0, ev.call.maxProgram), [])
  {
    var erase := Erase(METADATA_START);
    var mark := Program(MAGIC, WordBytes(MAGIC_WORD));
    OutcomeOfTwo(x.cells, erase, mark, ev.done, ev.after);
    EraseMetadata(x.cells, x.committed);
    if ev.done > 0 {
      MarkOutcome(Apply(x.cells, erase), x.committed, ev.after, ev.done == 2);
    }
    if ev.done == 2 {
      SessionOpens(ev.after, ev.call.maxProgram);
    }
  }

  lemma BeginStep(x: World, ev: Event)
    requires Inv(x) && Allowed(x, ev) && ev.Calls? && ev.call.Begin? && Accepts(x.w, ev.call)
    ensures Inv(Step(x, ev))
  {
    BeginOutcome(x, ev);
  }

  lemma EraseStepStep(x: World, ev: Event)
    requires Inv(x) && Allowed(x, ev) && ev.Calls? && ev.call.EraseStep?
    requires Ops(x.w, ev.call) != []
    ensures Inv(Step(x, ev))
  {
    var op := Erase(IMAGE_START + x.w.erasedThrough);
    assert Ops(x.w, ev.call) == [op];
    assert Confined([op], IMAGE_START, FLASH_SIZE);
    ImageOpsVouch(x, [op], ev.done, ev.after);
    if ev.done == 1 {
      assert ApplyAll(x.cells, [op]) == ApplyAll(Apply(x.cells, op), []);
      assert ev.after == Apply(x.cells, op);
      assert Holds(ev.after, IMAGE_START, x.accepted) by {
        assert ev.after[IMAGE_START..IMAGE_START + |x.accepted|]
            == x.cells[IMAGE_START..IMAGE_START + |x.accepted|];
      }
    }
  }

  lemma WriteStep(x: World, ev: Event)
    requires Inv(x) && Allowed(x, ev) && ev.Calls? && ev.call.Write?
    requires Ops(x.w, ev.call) != []
    ensures Inv(Step(x, ev))
  {
    var Write(offset, data) := ev.call;
    var ops := Pieces(offset, data, x.w.maxProgram);
    PiecesConfined(offset, data, x.w.maxProgram);
    ImageOpsVouch(x, ops, ev.done, ev.after);
    if ev.done == |ops| {
      PiecesAsOne(x.cells, offset, data, x.w.maxProgram);
      ProgramBlank(x.cells, IMAGE_START + offset, data, IMAGE_START + x.w.erasedThrough);
      StitchAppend(x.cells, ev.after, x.accepted, data);
    }
  }

  lemma StitchAppend(cells: Cells, after: Cells, accepted: seq<Byte>, data: seq<Byte>)
    requires Holds(cells, IMAGE_START, accepted) && Holds(after, IMAGE_START + |accepted|, data)
    requires Outside(cells, after, IMAGE_START + |accepted|, IMAGE_START + |accepted| + |data|)
    ensures Holds(after, IMAGE_START, accepted + data)
  {
    var all := accepted + data;
    assert all[..|accepted|] == accepted && all[|accepted|..] == data;
    Stitch(cells, after, IMAGE_START, |accepted|, all);
  }

  /** The state word is the barrier: while only the size may be torn, the record is not Ready. */
  lemma CommitStep(x: World, ev: Event)
    requires Inv(x) && Allowed(x, ev) && ev.Calls? && ev.call.Commit? && Accepts(x.w, ev.call)
    ensures Inv(Step(x, ev))
    ensures ev.done == 2 ==> RecordIsReady(ev.after, MAX_IMAGE)
  {
    var size := Program(IMAGE_SIZE, WordBytes(x.w.nextOffset));
    var state := Program(STATE, WordBytes(READY_WORD));
    var sized := Apply(x.cells, size);
    assert Ops(x.w, ev.call) == [size, state];
    OutcomeOfTwo(x.cells, size, state, ev.done, ev.after);
    if ev.done == 0 {
      BlankStateVouches(ev.after, x.committed);
    } else {
      ProgramWord(x.cells, IMAGE_SIZE, x.w.nextOffset);
      CommittedRecord(x, sized, ev.after);
      if ev.done == 2 {
        ProgramWord(sized, STATE, READY_WORD);
        BlankWord(ev.after, RESERVED);
      }
    }
  }

  /** Once the size is stored, only the state word still changes. */
  lemma CommittedRecord(x: World, sized: Cells, after: Cells)
    requires Inv(x) && x.live && x.w.open && x.w.nextOffset > 0
    requires sized == Apply(x.cells, Program(IMAGE_SIZE, WordBytes(x.w.nextOffset)))
    requires WordAt(sized, IMAGE_SIZE) == x.w.nextOffset
    requires Outside(sized, after, STATE, STATE + 4)
    ensures Vouches(after, x.accepted)
    ensures WordAt(after, MAGIC) == MAGIC_WORD && WordAt(after, IMAGE_SIZE) == x.w.nextOffset
    ensures Blank(after, RESERVED, RESERVED + 4) && Blank(sized, STATE, STATE + 4)
  {
    assert Holds(after, IMAGE_START, x.accepted) by {
      assert after[IMAGE_START..IMAGE_START + |x.accepted|]
          == x.cells[IMAGE_START..IMAGE_START + |x.accepted|];
    }
  }

  lemma StepKeeps(x: World, ev: Event)
    requires Inv(x) && Allowed(x, ev)
    ensures Inv(Step(x, ev))
  {
    if ev.Calls? && Ops(x.w, ev.call) != [] {
      match ev.call
      case Begin(_, _) => BeginStep(x, ev);
      case EraseStep(_) => EraseStepStep(x, ev);
      case Write(_, _) => WriteStep(x, ev);
      case Commit => CommitStep(x, ev);
      case Abort => assert false;
    }
  }

  lemma {:induction false} RunKeeps(x: World, events: seq<Event>, y: World)
    requires Inv(x) && IsRun(x, events, y)
    ensures Inv(y)
    decreases |events|
  {
    if events != [] {
      StepKeeps(x, events[0]);
      RunKeeps(Step(x, events[0]), events[1..], y);
    }
  }

  /**
   * From any flash whatever, after any sequence of sessions, failed operations and power losses:
   * a Ready record's image is, byte for byte, what the session last committed had accepted (or
   * what the record vouched for before the first session).
   */
  lemma CrashSafety(cells: Cells, before: seq<Byte>, events: seq<Event>, y: World)
    requires |cells| == FLASH_SIZE
    requires RecordIsReady(cells, MAX_IMAGE) ==>
               WordAt(cells, IMAGE_SIZE) == |before| && Holds(cells, IMAGE_START, before)
    requires IsRun(World(cells, CLOSED, false, [], before), events, y)
    ensures |y.cells| == FLASH_SIZE
    ensures RecordIsReady(y.cells, MAX_IMAGE) ==>
              && WordAt(y.cells, IMAGE_SIZE) == |y.committed|
              && y.cells[IMAGE_START..IMAGE_START + |y.committed|] == y.committed
  {
    RunKeeps(World(cells, CLOSED, false, [], before), events, y);
  }

  // ---------------------------------------------------------------------------------------
  // In numbers

  /**
   * A record is ready if and only if its four words are the magic, the state, a size that is not
   * zero and fits the app slot, and a reserved word that is still erased. The image then lies
   * within the flash, behind the record's sector.
   */
  lemma ReadyMeans(cells: Cells)
    requires |cells| == 0x40_0000
    ensures RecordIsReady(cells, MAX_IMAGE) <==>
              && WordAt(cells, 0x21_0000) == 0x5453_4D52 && WordAt(cells, 0x21_0004) == 0x5354_4452
              && 0 < WordAt(cells, 0x21_0008) <= 0x20_0000 - 0x2_0000
              && WordAt(cells, 0x21_000C) == 0xFFFF_FFFF
    ensures RecordIsReady(cells, MAX_IMAGE) ==> 0x21_1000 + WordAt(cells, 0x21_0008) <= 0x40_0000
  {
    assert MAX_IMAGE == 0x20_0000 - 0x2_0000 && IMAGE_SIZE == 0x21_0008 && RESERVED == 0x21_000C;
    assert MAGIC == 0x21_0000 && STATE == 0x21_0004;
    hide WordAt;
    WordSign(cells, 0x21_0008);
  }

  lemma WordSign(cells: Cells, addr: nat)
    requires addr + 4 <= |cells|
    ensures WordAt(cells, addr) >= 0
  {
  }

  /** Once anything programmed a bit of the reserved word, the record is not ready before an erase. */
  lemma ReservedIsFinal(cells: Cells, op: FlashOp)
    requires |cells| == 0x40_0000 && op.Program? && op.Fits(|cells|) && WordAt(cells, 0x21_000C) != 0xFFFF_FFFF
    ensures !RecordIsReady(Apply(cells, op), MAX_IMAGE)
  {
    var after := Apply(cells, op);
    forall i | 0x21_000C <= i < 0x21_0010 ensures after[i] <= cells[i] {
    }
    WordBelow(cells, after, 0x21_000C);
    WordTop(cells, 0x21_000C);
  }

  lemma WordBelow(cells: Cells, after: Cells, addr: nat)
    requires addr + 4 <= |cells| == |after| && forall i | addr <= i < addr + 4 :: after[i] <= cells[i]
    ensures WordAt(after, addr) <= WordAt(cells, addr)
  {
  }

  lemma WordTop(cells: Cells, addr: nat)
    requires addr + 4 <= |cells|
    ensures WordAt(cells, addr) <= 0xFFFF_FFFF
  {
  }

  /** An erase sets 4096 cells and no other. */
  lemma EraseSets(cells: Cells, addr: nat, i: nat)
    requires Erase(addr).Fits(|cells|) && i < |cells|
    ensures Apply(cells, Erase(addr))[i] == if addr <= i < addr + 4096 then 0xFF else cells[i]
  {
  }
}
