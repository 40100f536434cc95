/**
 * The serializer: a write asks the stream buffer for exactly the bytes its field takes and fills
 * them, member by member, through a moving cursor.
 */
module Serialization {
  import opened Bytes
  import opened Bitfield
  import opened Options
  import opened Protocol
  import opened FieldEncoding
  import opened Admission
  import opened BufferFilling
  import opened StreamBuffers

  datatype SerializeResult = Success | BadAlloc | InvalidArgument

  class Serializer {
    const buffer: StreamBuffer
    /** The sizes of the fields taken so far, and how the buffer was filled before them. */
    ghost var asked: seq<nat>
    ghost const start: Filling

    ghost predicate Valid()
      reads this, buffer, buffer.transport, if buffer.buffer.Some? then {buffer.buffer.value.data} else {}
    {
      && buffer.Valid()
      && FieldSizes(asked) && buffer.Filled() == PutAll(start, asked, buffer.transport.grants)
    }

    constructor (buffer: StreamBuffer)
      requires buffer.Valid()
      ensures this.buffer == buffer && Valid() && asked == [] && start == buffer.Filled()
    {
      this.buffer := buffer;
      asked, start := [], buffer.Filled();
    }

    /** What a write of r answers: it fails only when refused, or when a buffer it needs is refused. */
    ghost function Outcome(r: Request): SerializeResult
      reads buffer, buffer.transport
    {
      if r.WriteUartConfig? && r.baudrate.None? then Success
      else if !Admissible(r) then InvalidArgument
      else if Room(buffer.Filled(), WireSize(r), buffer.transport.grants).held then Success
      else BadAlloc
    }

    /**
     * The steps every write_* function of the original goes through. The field goes into the open
     * buffer if it fits there, into the next one otherwise.
     */
    method Write(r: Request) returns (result: SerializeResult)
      requires Typed(r) && Valid()
      modifies `asked, buffer.Memory()
      ensures result == old(Outcome(r))
      ensures asked == old(asked) + if Admissible(r) then [WireSize(r)] else []
      ensures Valid() && fresh(buffer.Memory() - old(buffer.Memory()))
      ensures buffer.Written()
              == old(buffer.Written()) + if result == Success && Admissible(r) then [r] else []
      ensures buffer.Filled()
              == if Admissible(r) then Put(old(buffer.Filled()), WireSize(r), buffer.transport.grants)
                 else old(buffer.Filled())
    {
      hide Spells, Typed, Required, Image, History, Requests, Admissible, WireSize;
      hide PutAll, FieldSizes, Sizes, SizesOfEach, Total, StreamBuffer.Accounted;
      RequiredExactly(r);
      SilentExactly(r);
      assert asked + [] == asked;
      if Silent(r) {
        return Success;
      }
      var required := Required(r);
      if required == 0 {
        return InvalidArgument;
      }
      PutSnoc(start, asked, required, buffer.transport.grants);
      asked := asked + [required];
      var dst := buffer.Allocate(required);
      if dst.None? {
        return BadAlloc;
      }
      Store(dst.value, r);
      return Success;
    }

    /** Fills the bytes just reserved. */
    method Store(dst: Span, r: Request)
      requires Typed(r) && Required(r) > 0 && buffer.buffer.Some? && buffer.Tidy(Required(r))
      requires dst == Span(buffer.buffer.value.data, buffer.current - Required(r), Required(r))
      modifies buffer`open, dst.mem
      ensures buffer.Valid() && buffer.Written() == old(buffer.Written()) + [r]
      ensures buffer.Filled() == old(buffer.Filled()).(open := old(buffer.Filled().open) + [Required(r)])
    {
      hide Spells, Typed, Required, Image, History, Requests, Sizes, SizesOfEach;
      ghost var earlier := dst.mem[..dst.from];
      Fill(dst, r);
      assert dst.mem[..dst.from] == earlier;
      buffer.Append(Piece(r, dst.Bytes()));
    }
  }

  /**
   * Through a serializer on a new writer: unless the transport refuses a buffer between two it
   * grants, the first field of each transmitted buffer would not have fitted the one before.
   */
  lemma FieldsShareBuffers(s: Serializer, cyclic: bool, from: nat)
    requires s.Valid() && s.start == Started(cyclic, from, s.buffer.transport.grants)
    requires !Interrupted(s.buffer.transport.grants, from)
    ensures forall i, j | 0 <= i && j == i + 1 && j < |s.buffer.sent| ::
              s.buffer.sent[j] != [] && |Image(s.buffer.sent[i])| + |s.buffer.sent[j][0].bytes| > 1023
  {
    hide PutAll, Image, BufferFilling.Sound;
    var sent: seq<seq<Piece>>, grants := s.buffer.sent, s.buffer.transport.grants;
    StartSound(cyclic, grants, from);
    PutAllSound(s.start, s.asked, grants, from);
    PackedBefore(s.buffer.Filled(), grants, from);
    forall i, j | 0 <= i && j == i + 1 && j < |sent|
      ensures sent[j] != [] && |Image(sent[i])| + |sent[j][0].bytes| > 1023
    {
      ImageSize(sent[i]);
      assert Tight(SizesOfEach(sent)[i], SizesOfEach(sent)[j]);
    }
  }

  method Fill(dst: Span, r: Request)
    requires Typed(r) && dst.Fits() && dst.size == Required(r) > 0
    modifies dst.mem
    ensures Spells(dst.Bytes(), r)
    ensures dst.mem[..dst.from] == old(dst.mem[..dst.from])
  {
    hide GetBits, CanSpells, UartSpells, GpioSpells, GpioConfigSpells, SessionSpells, HeaderSpells;
    match r
    case WriteCan(id, can) => FillCan(dst, id, can);
    case WriteUart(id, data, suffix, idle) => FillUart(dst, id, data, suffix, idle);
    case WriteUartConfig(id, baudrate) => FillUartConfig(dst, id, baudrate.value);
    case WriteGpioDigital(channel, high, timestamp) => FillGpioDigital(dst, channel, high, timestamp);
    case WriteGpioAnalog(channel, value) => FillGpioAnalog(dst, channel, value);
    case WriteGpioDigitalConfig(channel, config) => FillGpioDigitalConfig(dst, channel, config);
    case WriteGpioAnalogConfig(channel, config) => FillGpioAnalogConfig(dst, channel, config);
    case WriteSessionControl(kind, nonce) => FillSessionControl(dst, kind, nonce);
    case WriteTimeAnchor(nonce, microframe) => FillTimeAnchor(dst, nonce, microframe);
  }

  method WriteFieldHeader(dst: Span, id: nat) returns (cursor: nat)
    requires dst.Fits() && dst.size > Lead(id) && 0 < id < 256
    modifies dst.mem
    ensures cursor == Lead(id) && HeaderSpells(dst.Bytes(), id)
    ensures dst.mem[..dst.from] == old(dst.mem[..dst.from])
  {
    hide GetBits;
    PowersOfTwo();
    if UseExtendedFieldHeader(id) {
      dst.Set(0, 0, 4, EXTEND);
      dst.Set(0, 4, 8, id);
      cursor := 1;
    } else {
      dst.Set(0, 0, 4, id);
      cursor := 0;
    }
  }

  /** Two blocks written back to back. */
  lemma TwoBlocks(b0: seq<Byte>, b1: seq<Byte>, b2: seq<Byte>, at: nat, x: seq<Byte>, y: seq<Byte>)
    requires BlockSet(b0, b1, at, x) && BlockSet(b1, b2, at + |x|, y)
    ensures |b2| == |b0| && at + |x| + |y| <= |b2| && b2[..at] == b0[..at]
    ensures b2[at..at + |x|] == x && b2[at..at + |x| + |y|] == x + y
  {
    var middle := at + |x|;
    assert b2[..middle] == b1[..middle];
    assert b2[..middle][at..] == b1[..middle][at..] && b2[..middle][..at] == b1[..middle][..at];
    assert b2[at..middle + |y|] == b2[at..middle] + b2[middle..middle + |y|];
  }

  // ---------------------------------------------------------------------------------------
  // CAN

  lemma CanMembersFit(id: nat, v: CanView)
    requires RequiredCanSize(id, v) > 0
    ensures v.canId < Pow2(if v.isExtended then 29 else 11) && LengthCode(v.data) < Pow2(3)
  {
    PowersOfTwo();
  }

  method WriteCanHeaderExtended(dst: Span, cursor: nat, id: nat, v: CanView) returns (next: nat)
    requires v.isExtended && dst.Fits() && cursor == Lead(id) && RequiredCanSize(id, v) > 0
    requires dst.size >= Lead(id) + CAN_EXTENDED_SIZE && HeaderSpells(dst.Bytes(), id)
    modifies dst.mem
    ensures next == cursor + CAN_EXTENDED_SIZE && CanHeaderSpells(dst.Bytes(), id, v)
    ensures dst.mem[..dst.from] == old(dst.mem[..dst.from])
  {
    hide GetBits, MemberSet, CanHeaderSpells, HeaderSpells, RequiredCanSize, LengthCode;
    CanMembersFit(id, v);
    ghost var b0 := dst.Bytes();
    dst.SetFlag(cursor, 4, v.isFd);
    ghost var b1 := dst.Bytes();
    dst.SetFlag(cursor, 5, true);
    ghost var b2 := dst.Bytes();
    dst.SetFlag(cursor, 6, v.isRemote);
    ghost var b3 := dst.Bytes();
    dst.SetFlag(cursor, 40, v.timestamp.Some?);
    ghost var b4 := dst.Bytes();
    dst.SetFlag(cursor, 7, v.data != []);
    ghost var b5 := dst.Bytes();
    dst.Set(cursor, 8, 29, v.canId);
    ghost var b6 := dst.Bytes();
    dst.Set(cursor, 37, 3, LengthCode(v.data));
    CanHeaderWritten(id, v, 8 * cursor, b0, b1, b2, b3, b4, b5, b6, dst.Bytes());
    next := cursor + CAN_EXTENDED_SIZE;
  }

  method WriteCanHeaderStandard(dst: Span, cursor: nat, id: nat, v: CanView) returns (next: nat)
    requires !v.isExtended && dst.Fits() && cursor == Lead(id) && RequiredCanSize(id, v) > 0
    requires dst.size >= Lead(id) + CAN_STANDARD_SIZE && HeaderSpells(dst.Bytes(), id)
    modifies dst.mem
    ensures next == cursor + CAN_STANDARD_SIZE && CanHeaderSpells(dst.Bytes(), id, v)
    ensures dst.mem[..dst.from] == old(dst.mem[..dst.from])
  {
    hide GetBits, MemberSet, CanHeaderSpells, HeaderSpells, RequiredCanSize, LengthCode;
    CanMembersFit(id, v);
    ghost var b0 := dst.Bytes();
    dst.SetFlag(cursor, 4, v.isFd);
    ghost var b1 := dst.Bytes();
    dst.SetFlag(cursor, 5, false);
    ghost var b2 := dst.Bytes();
    dst.SetFlag(cursor, 6, v.isRemote);
    ghost var b3 := dst.Bytes();
    dst.SetFlag(cursor, 19, v.timestamp.Some?);
    ghost var b4 := dst.Bytes();
    dst.SetFlag(cursor, 7, v.data != []);
    ghost var b5 := dst.Bytes();
    dst.Set(cursor, 8, 11, v.canId);
    ghost var b6 := dst.Bytes();
    dst.Set(cursor, 21, 3, LengthCode(v.data));
    CanHeaderWritten(id, v, 8 * cursor, b0, b1, b2, b3, b4, b5, b6, dst.Bytes());
    next := cursor + CAN_STANDARD_SIZE;
  }

  function Bit(flag: bool): nat {
    if flag then 1 else 0
  }

  /** The members of a CAN header do not overlap, so all of them hold in the end. */
  lemma CanHeaderWritten(
    id: nat, v: CanView, o: nat, b0: seq<Byte>, b1: seq<Byte>, b2: seq<Byte>, b3: seq<Byte>,
    b4: seq<Byte>, b5: seq<Byte>, b6: seq<Byte>, b7: seq<Byte>)
    requires o == 8 * Lead(id) && |b0| >= Lead(id) + CanHeaderSize(v.isExtended) && HeaderSpells(b0, id)
    requires MemberSet(b0, b1, o + 4, 1, Bit(v.isFd)) && MemberSet(b1, b2, o + 5, 1, Bit(v.isExtended))
    requires MemberSet(b2, b3, o + 6, 1, Bit(v.isRemote))
    requires MemberSet(b3, b4, if v.isExtended then o + 40 else o + 19, 1, Bit(v.timestamp.Some?))
    requires MemberSet(b4, b5, o + 7, 1, Bit(v.data != []))
    requires MemberSet(b5, b6, o + 8, if v.isExtended then 29 else 11, v.canId)
    requires MemberSet(b6, b7, if v.isExtended then o + 37 else o + 21, 3, LengthCode(v.data))
    ensures |b7| == |b0| && CanHeaderSpells(b7, id, v)
  {
    hide GetBits, LengthCode;
  }

  method FillCan(dst: Span, id: nat, v: CanView)
    requires 0 < id < 256 && Stamp(v.timestamp) && dst.Fits() && dst.size == RequiredCanSize(id, v) > 0
    modifies dst.mem
    ensures CanSpells(dst.Bytes(), id, v)
    ensures dst.mem[..dst.from] == old(dst.mem[..dst.from])
  {
    hide GetBits, LittleEndian, CanHeaderSpells, HeaderSpells, CanSpells;
    var cursor := WriteFieldHeader(dst, id);
    if v.isExtended {
      cursor := WriteCanHeaderExtended(dst, cursor, id, v);
    } else {
      cursor := WriteCanHeaderStandard(dst, cursor, id, v);
    }
    ghost var body, b0 := cursor, dst.Bytes();
    if v.data != [] {
      dst.Copy(cursor, v.data);
      cursor := cursor + |v.data|;
    }
    ghost var b1 := dst.Bytes();
    assert BlockSet(b0, b1, body, v.data);
    ghost var stamp := if v.timestamp.Some? then LittleEndian(v.timestamp.value, 4) else [];
    if v.timestamp.Some? {
      dst.Copy(cursor, LittleEndian(v.timestamp.value, 4));
      cursor := cursor + 4;
    }
    assert cursor == dst.size;
    CanFilled(b0, b1, dst.Bytes(), id, v, stamp);
  }

  lemma CanFilled(
    b0: seq<Byte>, b1: seq<Byte>, b2: seq<Byte>, id: nat, v: CanView, stamp: seq<Byte>)
    requires |b0| == RequiredCanSize(id, v) > 0 && CanHeaderSpells(b0, id, v)
    requires Stamp(v.timestamp)
    requires stamp == if v.timestamp.Some? then LittleEndian(v.timestamp.value, 4) else []
    requires BlockSet(b0, b1, Lead(id) + CanHeaderSize(v.isExtended), v.data)
    requires BlockSet(b1, b2, Lead(id) + CanHeaderSize(v.isExtended) + |v.data|, stamp)
    ensures |b2| == |b0| && CanSpells(b2, id, v)
  {
    hide GetBits, LittleEndian, CanHeaderSpells, HeaderSpells;
    var body := Lead(id) + CanHeaderSize(v.isExtended);
    TwoBlocks(b0, b1, b2, body, v.data, stamp);
    CanHeaderKept(b0, b2, id, v);
    if v.timestamp.Some? {
      WordRead(b2, body + |v.data|, v.timestamp.value);
    }
  }

  lemma CanHeaderKept(b: seq<Byte>, c: seq<Byte>, id: nat, v: CanView)
    requires |b| == |c| >= Lead(id) + CanHeaderSize(v.isExtended) && CanHeaderSpells(b, id, v)
    requires var at := Lead(id) + CanHeaderSize(v.isExtended); b[..at] == c[..at]
    ensures CanHeaderSpells(c, id, v)
  {
    hide GetBits;
    SamePrefixBits(b, c, Lead(id) + CanHeaderSize(v.isExtended));
  }

  /** A number of n bytes as it lies in memory. */
  function LittleEndian(x: nat, n: nat): (b: seq<Byte>)
    ensures |b| == n
  {
    if n == 0 then [] else [x % 256] + LittleEndian(x / 256, n - 1)
  }

  lemma {:induction false} LittleEndianNumber(x: nat, n: nat)
    requires x < Pow2(8 * n)
    ensures Number(LittleEndian(x, n)) == x
  {
    if n > 0 {
      Pow2Shift(8 * (n - 1));
      LittleEndianNumber(x / 256, n - 1);
      assert LittleEndian(x, n)[1..] == LittleEndian(x / 256, n - 1);
    }
  }

  lemma WordRead(b: seq<Byte>, at: nat, x: nat)
    requires x < WORD && at + 4 <= |b| && b[at..at + 4] == LittleEndian(x, 4)
    ensures GetBits(b, 8 * at, 32) == x
  {
    hide TestBit, BitAt, LittleEndian, GetBits, Number;
    PowersOfTwo();
    LittleEndianNumber(x, 4);
    forall n: nat | 8 * at <= n < 8 * at + 32 ensures BitAt(b, n) == TestBit(x, n - 8 * at) {
      NumberBits(LittleEndian(x, 4), n - 8 * at);
      BitWindow(b, at, at + 4, n - 8 * at);
    }
    GetBitsOfValue(b, 8 * at, 32, x);
  }

  // ---------------------------------------------------------------------------------------
  // UART

  method WriteUartHeader(dst: Span, cursor: nat, id: nat, length: nat, idle: bool) returns (next: nat)
    requires dst.Fits() && cursor == Lead(id) && length <= BUFFER_SIZE
    requires dst.size >= Lead(id) + UartHeaderSize(length) && HeaderSpells(dst.Bytes(), id)
    modifies dst.mem
    ensures next == cursor + UartHeaderSize(length) && UartHeaderSpells(dst.Bytes(), id, length, idle)
    ensures dst.mem[..dst.from] == old(dst.mem[..dst.from])
  {
    hide GetBits, MemberSet, UartHeaderSpells, HeaderSpells;
    PowersOfTwo();
    ghost var b0 := dst.Bytes();
    dst.SetFlag(cursor, 4, idle);
    ghost var b1 := dst.Bytes();
    dst.SetFlag(cursor, 5, length >= 4);
    ghost var b2 := dst.Bytes();
    if length >= 4 {
      dst.Set(cursor, 6, 10, length);
      next := cursor + 2;
    } else {
      dst.Set(cursor, 6, 2, length);
      next := cursor + 1;
    }
    UartHeaderWritten(id, length, idle, 8 * cursor, b0, b1, b2, dst.Bytes());
  }

  lemma UartHeaderWritten(
    id: nat, length: nat, idle: bool, o: nat, b0: seq<Byte>, b1: seq<Byte>, b2: seq<Byte>, b3: seq<Byte>)
    requires o == 8 * Lead(id) && |b0| >= Lead(id) + UartHeaderSize(length) && HeaderSpells(b0, id)
    requires MemberSet(b0, b1, o + 4, 1, Bit(idle)) && MemberSet(b1, b2, o + 5, 1, Bit(length >= 4))
    requires MemberSet(b2, b3, o + 6, if length >= 4 then 10 else 2, length)
    ensures |b3| == |b0| && UartHeaderSpells(b3, id, length, idle)
  {
    hide GetBits;
  }

  method FillUart(dst: Span, id: nat, data: seq<Byte>, suffix: seq<Byte>, idle: bool)
    requires 0 < id < 256 && dst.Fits() && dst.size == RequiredUartSize(id, |data| + |suffix|) > 0
    modifies dst.mem
    ensures UartSpells(dst.Bytes(), id, data + suffix, idle)
    ensures dst.mem[..dst.from] == old(dst.mem[..dst.from])
  {
    hide GetBits, UartHeaderSpells, HeaderSpells, UartSpells;
    var cursor := WriteFieldHeader(dst, id);
    cursor := WriteUartHeader(dst, cursor, id, |data| + |suffix|, idle);
    ghost var body, b0 := cursor, dst.Bytes();
    if data != [] {
      dst.Copy(cursor, data);
      cursor := cursor + |data|;
    }
    ghost var b1 := dst.Bytes();
    assert BlockSet(b0, b1, body, data);
    if suffix != [] {
      dst.Copy(cursor, suffix);
      cursor := cursor + |suffix|;
    }
    assert cursor == dst.size;
    UartFilled(b0, b1, dst.Bytes(), id, data, suffix, idle);
  }

  lemma UartFilled(
    b0: seq<Byte>, b1: seq<Byte>, b2: seq<Byte>, id: nat, data: seq<Byte>, suffix: seq<Byte>, idle: bool)
    requires |b0| == RequiredUartSize(id, |data| + |suffix|) > 0
    requires UartHeaderSpells(b0, id, |data| + |suffix|, idle)
    requires BlockSet(b0, b1, Lead(id) + UartHeaderSize(|data| + |suffix|), data)
    requires BlockSet(b1, b2, Lead(id) + UartHeaderSize(|data| + |suffix|) + |data|, suffix)
    ensures |b2| == |b0| && UartSpells(b2, id, data + suffix, idle)
  {
    hide GetBits, UartHeaderSpells, HeaderSpells;
    TwoBlocks(b0, b1, b2, Lead(id) + UartHeaderSize(|data| + |suffix|), data, suffix);
    UartHeaderKept(b0, b2, id, |data| + |suffix|, idle);
  }

  lemma UartHeaderKept(b: seq<Byte>, c: seq<Byte>, id: nat, length: nat, idle: bool)
    requires |b| == |c| >= Lead(id) + UartHeaderSize(length) && UartHeaderSpells(b, id, length, idle)
    requires var at := Lead(id) + UartHeaderSize(length); b[..at] == c[..at]
    ensures UartHeaderSpells(c, id, length, idle)
  {
    hide GetBits;
    SamePrefixBits(b, c, Lead(id) + UartHeaderSize(length));
  }

  method FillUartConfig(dst: Span, id: nat, baudrate: nat)
    requires IsUartConfig(id) && baudrate < WORD && dst.Fits() && dst.size == Lead(id) + 5
    modifies dst.mem
    ensures HeaderSpells(dst.Bytes(), id) && GetBits(dst.Bytes(), 8 * Lead(id) + 4, 32) == baudrate
    ensures dst.mem[..dst.from] == old(dst.mem[..dst.from])
  {
    hide GetBits;
    PowersOfTwo();
    var cursor := WriteFieldHeader(dst, id);
    dst.Set(cursor, 4, 32, baudrate);
    cursor := cursor + 5;
    assert cursor == dst.size;
  }

  // ---------------------------------------------------------------------------------------
  // GPIO

  method WriteGpioHeader(dst: Span, kind: nat, channel: nat, stamped: bool) returns (cursor: nat)
    requires dst.Fits() && dst.size >= 2 && kind < 16 && channel < 64
    modifies dst.mem
    ensures cursor == 2 && GpioSpells(dst.Bytes(), kind, channel, stamped)
    ensures dst.mem[..dst.from] == old(dst.mem[..dst.from])
  {
    hide GetBits;
    PowersOfTwo();
    cursor := WriteFieldHeader(dst, GPIO);
    dst.Set(cursor, 4, 4, kind);
    dst.Set(cursor, 8, 6, channel);
    dst.SetFlag(cursor, 15, stamped);
    cursor := cursor + 2;
  }

  method FillGpioDigital(dst: Span, channel: nat, high: bool, timestamp: Option<nat>)
    requires channel < 64 && Stamp(timestamp) && dst.Fits() && dst.size == 2 + StampSize(timestamp)
    modifies dst.mem
    ensures GpioSpells(dst.Bytes(), if high then DIGITAL_HIGH else DIGITAL_LOW, channel, timestamp.Some?)
    ensures timestamp.Some? ==> GetBits(dst.Bytes(), 16, 32) == timestamp.value
    ensures dst.mem[..dst.from] == old(dst.mem[..dst.from])
  {
    hide GetBits;
    PowersOfTwo();
    var cursor := WriteGpioHeader(dst, if high then DIGITAL_HIGH else DIGITAL_LOW, channel, timestamp.Some?);
    if timestamp.Some? {
      dst.Set(cursor, 0, 32, timestamp.value);
      cursor := cursor + 4;
    }
    assert cursor == dst.size;
  }

  method FillGpioAnalog(dst: Span, channel: nat, value: nat)
    requires channel < 64 && value < 0x1_0000 && dst.Fits() && dst.size == 4
    modifies dst.mem
    ensures GpioSpells(dst.Bytes(), ANALOG, channel, false) && GetBits(dst.Bytes(), 16, 16) == value
    ensures dst.mem[..dst.from] == old(dst.mem[..dst.from])
  {
    hide GetBits;
    PowersOfTwo();
    var cursor := WriteGpioHeader(dst, ANALOG, channel, false);
    dst.Set(cursor, 0, 16, value);
    cursor := cursor + 2;
    assert cursor == dst.size;
  }

  method FillGpioDigitalConfig(dst: Span, channel: nat, c: GpioConfigView)
    requires channel < 64 && TypedConfig(c) && dst.Fits() && dst.size == 5
    modifies dst.mem
    ensures GpioSpells(dst.Bytes(), DIGITAL_READ_CONFIG, channel, c.captureTimestamp)
    ensures GpioConfigSpells(dst.Bytes(), c)
    ensures dst.mem[..dst.from] == old(dst.mem[..dst.from])
  {
    hide GetBits, GpioSpells, GpioConfigSpells;
    var cursor := WriteGpioHeader(dst, DIGITAL_READ_CONFIG, channel, c.captureTimestamp);
    WriteGpioConfig(dst, cursor, c);
    cursor := cursor + 3;
    assert cursor == dst.size;
  }

  method FillGpioAnalogConfig(dst: Span, channel: nat, c: GpioConfigView)
    requires channel < 64 && TypedConfig(c) && !c.rising && !c.falling && !c.captureTimestamp
    requires dst.Fits() && dst.size == 5
    modifies dst.mem
    ensures GpioSpells(dst.Bytes(), ANALOG_READ_CONFIG, channel, false)
    ensures GpioConfigSpells(dst.Bytes(), c)
    ensures dst.mem[..dst.from] == old(dst.mem[..dst.from])
  {
    hide GetBits, GpioSpells, GpioConfigSpells;
    var cursor := WriteGpioHeader(dst, ANALOG_READ_CONFIG, channel, false);
    WriteGpioConfig(dst, cursor, c.(rising := false, falling := false));
    cursor := cursor + 3;
    assert cursor == dst.size;
  }

  method WriteGpioConfig(dst: Span, cursor: nat, c: GpioConfigView)
    requires TypedConfig(c) && dst.Fits() && dst.size == 5 && cursor == 2
    modifies dst.mem
    ensures GpioConfigSpells(dst.Bytes(), c)
    ensures forall kind: nat, channel: nat, stamped: bool ::
              old(GpioSpells(dst.Bytes(), kind, channel, stamped))
              ==> GpioSpells(dst.Bytes(), kind, channel, stamped)
    ensures dst.mem[..dst.from] == old(dst.mem[..dst.from])
  {
    hide GetBits, MemberSet, GpioSpells, GpioConfigSpells;
    PowersOfTwo();
    ghost var b0 := dst.Bytes();
    dst.SetFlag(cursor, 0, c.asap);
    ghost var b1 := dst.Bytes();
    dst.SetFlag(cursor, 1, c.rising);
    ghost var b2 := dst.Bytes();
    dst.SetFlag(cursor, 2, c.falling);
    ghost var b3 := dst.Bytes();
    dst.Set(cursor, 4, 2, c.pull % 4);
    ghost var b4 := dst.Bytes();
    dst.Set(cursor, 8, 16, c.periodMs);
    GpioConfigWritten(c, b0, b1, b2, b3, b4, dst.Bytes());
  }

  lemma GpioConfigWritten(
    c: GpioConfigView, b0: seq<Byte>, b1: seq<Byte>, b2: seq<Byte>, b3: seq<Byte>, b4: seq<Byte>, b5: seq<Byte>)
    requires |b0| == 5
    requires MemberSet(b0, b1, 16, 1, Bit(c.asap)) && MemberSet(b1, b2, 17, 1, Bit(c.rising))
    requires MemberSet(b2, b3, 18, 1, Bit(c.falling))
    requires MemberSet(b3, b4, 20, 2, c.pull % 4) && MemberSet(b4, b5, 24, 16, c.periodMs)
    ensures |b5| == 5 && GpioConfigSpells(b5, c)
    ensures forall kind: nat, channel: nat, stamped: bool ::
              GpioSpells(b0, kind, channel, stamped) ==> GpioSpells(b5, kind, channel, stamped)
  {
    hide GetBits;
  }

  // ---------------------------------------------------------------------------------------
  // Session

  method WriteSessionHeader(dst: Span, kind: nat, nonce: nat) returns (cursor: nat)
    requires dst.Fits() && dst.size >= 6 && nonce < WORD
    modifies dst.mem
    ensures cursor == 6 && SessionSpells(dst.Bytes(), kind, nonce)
    ensures dst.mem[..dst.from] == old(dst.mem[..dst.from])
  {
    hide GetBits, MemberSet, HeaderSpells, SessionSpells;
    PowersOfTwo();
    cursor := WriteFieldHeader(dst, SESSION);
    ghost var b0 := dst.Bytes();
    dst.Set(cursor, 4, 4, kind % 16);
    ghost var b1 := dst.Bytes();
    dst.Set(cursor, 8, 32, nonce);
    SessionHeaderWritten(kind, nonce, b0, b1, dst.Bytes());
    cursor := cursor + 5;
  }

  lemma SessionHeaderWritten(kind: nat, nonce: nat, b0: seq<Byte>, b1: seq<Byte>, b2: seq<Byte>)
    requires |b0| >= 6 && HeaderSpells(b0, SESSION)
    requires MemberSet(b0, b1, 12, 4, kind % 16) && MemberSet(b1, b2, 16, 32, nonce)
    ensures |b2| == |b0| && SessionSpells(b2, kind, nonce)
  {
    hide GetBits;
  }

  method FillSessionControl(dst: Span, kind: nat, nonce: nat)
    requires dst.Fits() && dst.size == 6 && nonce < WORD
    modifies dst.mem
    ensures SessionSpells(dst.Bytes(), kind, nonce)
    ensures dst.mem[..dst.from] == old(dst.mem[..dst.from])
  {
    var cursor := WriteSessionHeader(dst, kind, nonce);
    assert cursor == dst.size;
  }

  method FillTimeAnchor(dst: Span, nonce: nat, microframe: nat)
    requires dst.Fits() && dst.size == 14 && nonce < WORD && microframe < WORD * WORD
    modifies dst.mem
    ensures SessionSpells(dst.Bytes(), TIME_ANCHOR, nonce) && GetBits(dst.Bytes(), 48, 64) == microframe
    ensures dst.mem[..dst.from] == old(dst.mem[..dst.from])
  {
    hide GetBits;
    PowersOfTwo();
    var cursor := WriteSessionHeader(dst, TIME_ANCHOR, nonce);
    dst.Set(cursor, 0, 64, microframe);
    cursor := cursor + 8;
    assert cursor == dst.size;
  }
}
