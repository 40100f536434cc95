/** The firmware staging region: where it lies, its record, and the writer as functions on values. */
module FoeStaging {
  import opened Bytes
  import opened NorFlash

  // Offsets from the start of the flash, as the board defines them.
  const FLASH_SIZE := 0x40_0000
  const METADATA_START := 0x21_0000
  const IMAGE_START := METADATA_START + 0x1000
  const IMAGE_CAPACITY := FLASH_SIZE - IMAGE_START
  const APP_SLOT_CAPACITY := 0x20_0000 - 0x2_0000
  const MAX_IMAGE := if IMAGE_CAPACITY < APP_SLOT_CAPACITY then IMAGE_CAPACITY else APP_SLOT_CAPACITY

  // The record's words, by their offset in it.
  const MAGIC := METADATA_START
  const STATE := METADATA_START + 4
  const IMAGE_SIZE := METADATA_START + 8
  const RESERVED := METADATA_START + 12

  const MAGIC_WORD := 0x54534D52
  const READY_WORD := 0x53544452
  const ERASED_WORD := 0xFFFF_FFFF

  type Word = x: int | 0 <= x < 0x1_0000_0000

  /** A word as it is programmed, low octet first. */
  function WordBytes(w: Word): (b: seq<Byte>)
    ensures |b| == 4
    ensures b[0] as int + 0x100 * b[1] as int + 0x1_0000 * b[2] as int + 0x100_0000 * b[3] as int == w
  {
    [w % 0x100, w / 0x100 % 0x100, w / 0x1_0000 % 0x100, w / 0x100_0000]
  }

  function WordAt(cells: Cells, addr: nat): int
    requires addr + 4 <= |cells|
  {
    cells[addr] as int + 0x100 * cells[addr + 1] as int
    + 0x1_0000 * cells[addr + 2] as int + 0x100_0000 * cells[addr + 3] as int
  }

  /** What the bootloader asks before it installs. */
  function RecordIsReady(cells: Cells, maxImageSize: nat): bool
    requires |cells| == FLASH_SIZE
  {
    && WordAt(cells, MAGIC) == MAGIC_WORD
    && WordAt(cells, STATE) == READY_WORD
    && WordAt(cells, RESERVED) == ERASED_WORD
    && WordAt(cells, IMAGE_SIZE) != 0
    && WordAt(cells, IMAGE_SIZE) <= maxImageSize
  }

  // ---------------------------------------------------------------------------------------
  // The writer

  datatype Writer = Writer(open: bool, nextOffset: nat, erasedThrough: nat, maxProgram: nat)

  const CLOSED := Writer(false, 0, 0, 0)

  /** The calls a session is made of; `usable` is whether both flash primitives were given. */
  datatype Call =
    | Begin(usable: bool, maxProgram: nat)
    | EraseStep(end: nat)
    | Write(offset: nat, data: seq<Byte>)
    | Commit
    | Abort

  /** Programs that cover `data` from `position` on, in pieces of at most `max`. */
  function Pieces(position: nat, data: seq<Byte>, max: nat): (ops: seq<FlashOp>)
    requires max > 0
    decreases |data|
  {
    if data == [] then []
    else
      var n := if |data| < max then |data| else max;
      [Program(IMAGE_START + position, data[..n])] + Pieces(position + n, data[n..], max)
  }

  /** Whether the call is answered with success once its flash operations go through. */
  predicate Accepts(w: Writer, call: Call) {
    match call
    case Begin(usable, max) => usable && max != 0
    case EraseStep(_) => w.open
    case Write(offset, data) =>
      && w.open && offset == w.nextOffset
      && (data != [] ==> offset + |data| <= MAX_IMAGE && offset + |data| <= w.erasedThrough)
    case Commit => w.open && w.nextOffset != 0
    case Abort => true
  }

  /** The flash operations the call issues, in order, if none of them fails. */
  function Ops(w: Writer, call: Call): (ops: seq<FlashOp>)
    requires w.open ==> w.maxProgram > 0 && w.nextOffset <= ERASED_WORD
  {
    if !Accepts(w, call) then []
    else
      match call
      case Begin(_, _) =>
        [Erase(METADATA_START), Program(MAGIC, WordBytes(MAGIC_WORD))]
      case EraseStep(end) =>
        if w.erasedThrough >= end then [] else [Erase(IMAGE_START + w.erasedThrough)]
      case Write(offset, data) => Pieces(offset, data, w.maxProgram)
      case Commit =>
        [Program(IMAGE_SIZE, WordBytes(w.nextOffset)), Program(STATE, WordBytes(READY_WORD))]
      case Abort => []
  }

  /** The writer after a call whose operations all went through. */
  function After(w: Writer, call: Call): Writer {
    match call
    case Begin(_, max) => Writer(Accepts(w, call), 0, 0, max)
    case EraseStep(end) =>
      if !w.open || w.erasedThrough >= end then w
      else w.(erasedThrough := w.erasedThrough + SECTOR)
    case Write(_, data) => if Accepts(w, call) then w.(nextOffset := w.nextOffset + |data|) else w
    case Commit => if Accepts(w, call) then w.(open := false) else w
    case Abort => w.(open := false)
  }

  /** The writer after a call one of whose operations failed. */
  function Interrupted(w: Writer, call: Call): Writer {
    match call
    case Begin(_, max) => Writer(false, 0, 0, max)
    case _ => w
  }
}
