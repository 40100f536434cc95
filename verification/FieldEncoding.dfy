/**
 * What it means for bytes to spell a field: the layout member by member, whatever the order the
 * serializer writes them in and whatever the buffer held in the bits no member covers.
 */
module FieldEncoding {
  import opened Bytes
  import opened Bitfield
  import opened Options
  import opened Protocol

  /** A field write as callers ask for it. */
  datatype Request =
    | WriteCan(id: nat, can: CanView)
    | WriteUart(id: nat, data: seq<Byte>, suffix: seq<Byte>, idleDelimited: bool)
    | WriteUartConfig(id: nat, baudrate: Option<nat>)
    | WriteGpioDigital(channel: nat, high: bool, timestamp: Option<nat>)
    | WriteGpioAnalog(channel: nat, value: nat)
    | WriteGpioDigitalConfig(channel: nat, config: GpioConfigView)
    | WriteGpioAnalogConfig(channel: nat, config: GpioConfigView)
    | WriteSessionControl(sessionType: nat, nonce: nat)
    | WriteTimeAnchor(nonce: nat, microframe: nat)

  const WORD := 0x1_0000_0000

  /** The value ranges of the parameter types, and the two debug assertions on ids and channels. */
  predicate Typed(r: Request) {
    match r
    case WriteCan(id, can) => 0 < id < 256 && can.canId < WORD && Stamp(can.timestamp)
    case WriteUart(id, _, _, _) => 0 < id < 256
    case WriteUartConfig(id, baudrate) => 0 < id < 256 && Stamp(baudrate)
    case WriteGpioDigital(channel, _, timestamp) => channel < 64 && Stamp(timestamp)
    case WriteGpioAnalog(channel, value) => channel < 64 && value < 0x1_0000
    case WriteGpioDigitalConfig(channel, config) => channel < 64 && TypedConfig(config)
    case WriteGpioAnalogConfig(channel, config) => channel < 64 && TypedConfig(config)
    case WriteSessionControl(kind, nonce) => kind < 256 && nonce < WORD
    case WriteTimeAnchor(nonce, microframe) => nonce < WORD && microframe < WORD * WORD
  }

  predicate Stamp(timestamp: Option<nat>) {
    timestamp.Some? ==> timestamp.value < WORD
  }

  predicate TypedConfig(c: GpioConfigView) {
    c.periodMs < 0x1_0000 && c.pull < 256
  }

  /** The id and the enumerators are of the field's own kind, which the writers do not check. */
  predicate Addressed(r: Request) {
    match r
    case WriteCan(id, _) => IsCan(id)
    case WriteUart(id, _, _, _) => IsUart(id)
    case WriteGpioDigitalConfig(_, config) => config.pull <= 2
    case WriteGpioAnalogConfig(_, config) => config.pull <= 2
    case WriteSessionControl(kind, _) => kind < 16 && SessionPayloadSize(kind) == 0
    case _ => true
  }

  predicate UseExtendedFieldHeader(id: nat) {
    id > 15
  }

  /** Bytes of the field header before the one it shares with the body. */
  function Lead(id: nat): nat {
    if UseExtendedFieldHeader(id) then 1 else 0
  }

  function StampSize(timestamp: Option<nat>): nat {
    if timestamp.Some? then 4 else 0
  }

  function RequiredCanSize(id: nat, can: CanView): nat {
    if can.isRemote && can.data != [] then 0
    else if |can.data| > 8 then 0
    else if can.canId > (if can.isExtended then 0x1FFF_FFFF else 0x7FF) then 0
    else Lead(id) + CanHeaderSize(can.isExtended) + |can.data| + StampSize(can.timestamp)
  }

  function UartHeaderSize(length: nat): nat {
    if length >= 4 then 2 else 1
  }

  function RequiredUartSize(id: nat, length: nat): nat {
    var total := Lead(id) + UartHeaderSize(length) + length;
    if length > BUFFER_SIZE || total > BUFFER_SIZE then 0 else total
  }

  /** The size of the field on the wire; none when the arguments are refused. */
  function Required(r: Request): (size: nat)
    ensures size <= BUFFER_SIZE
  {
    match r
    case WriteCan(id, can) => RequiredCanSize(id, can)
    case WriteUart(id, data, suffix, _) => RequiredUartSize(id, |data| + |suffix|)
    case WriteUartConfig(id, baudrate) =>
      if !IsUartConfig(id) || baudrate.None? || baudrate.value == 0 then 0 else Lead(id) + 5
    case WriteGpioDigital(_, _, timestamp) => 2 + StampSize(timestamp)
    case WriteGpioAnalog(_, _) => 4
    case WriteGpioDigitalConfig(_, _) => 5
    case WriteGpioAnalogConfig(_, c) => if c.falling || c.rising || c.captureTimestamp then 0 else 5
    case WriteSessionControl(_, _) => 6
    case WriteTimeAnchor(_, _) => 14
  }

  /** A sparse patch with nothing set succeeds without putting a byte on the wire. */
  predicate Silent(r: Request) {
    r.WriteUartConfig? && r.baudrate.None?
  }

  /** What the receiver is to be told. */
  function EventOf(r: Request): Event
    requires Required(r) > 0
  {
    match r
    case WriteCan(id, can) => Can(id, can)
    case WriteUart(id, data, suffix, idle) => Uart(id, data + suffix, idle)
    case WriteUartConfig(id, baudrate) => UartConfig(id, baudrate.value)
    case WriteGpioDigital(channel, high, timestamp) => GpioDigital(channel, high, timestamp)
    case WriteGpioAnalog(channel, value) => GpioAnalog(channel, value)
    case WriteGpioDigitalConfig(channel, config) => GpioDigitalConfig(channel, config)
    case WriteGpioAnalogConfig(channel, config) => GpioAnalogConfig(channel, config)
    case WriteSessionControl(kind, nonce) => SessionControl(kind, nonce)
    case WriteTimeAnchor(nonce, microframe) => TimeAnchor(nonce, microframe)
  }

  // ---------------------------------------------------------------------------------------
  // Layouts

  predicate HeaderSpells(b: seq<Byte>, id: nat)
    requires |b| > Lead(id)
  {
    if UseExtendedFieldHeader(id) then GetBits(b, 0, 4) == EXTEND && GetBits(b, 4, 8) == id
    else GetBits(b, 0, 4) == id
  }

  predicate FlagIs(b: seq<Byte>, index: nat, value: bool)
    requires index < 8 * |b|
  {
    GetBits(b, index, 1) == if value then 1 else 0
  }

  function LengthCode(data: seq<Byte>): nat {
    if data == [] then 0 else |data| - 1
  }

  predicate CanHeaderSpells(b: seq<Byte>, id: nat, v: CanView)
    requires |b| >= Lead(id) + CanHeaderSize(v.isExtended)
  {
    var o := 8 * Lead(id);
    && HeaderSpells(b, id)
    && FlagIs(b, o + 4, v.isFd) && FlagIs(b, o + 5, v.isExtended)
    && FlagIs(b, o + 6, v.isRemote) && FlagIs(b, o + 7, v.data != [])
    && if v.isExtended
       then GetBits(b, o + 8, 29) == v.canId && GetBits(b, o + 37, 3) == LengthCode(v.data)
            && FlagIs(b, o + 40, v.timestamp.Some?)
       else GetBits(b, o + 8, 11) == v.canId && GetBits(b, o + 21, 3) == LengthCode(v.data)
            && FlagIs(b, o + 19, v.timestamp.Some?)
  }

  predicate CanSpells(b: seq<Byte>, id: nat, v: CanView)
    requires |b| == RequiredCanSize(id, v) > 0
  {
    var body := Lead(id) + CanHeaderSize(v.isExtended);
    && CanHeaderSpells(b, id, v)
    && b[body..body + |v.data|] == v.data
    && (v.timestamp.Some? ==> GetBits(b, 8 * (body + |v.data|), 32) == v.timestamp.value)
  }

  predicate UartHeaderSpells(b: seq<Byte>, id: nat, length: nat, idle: bool)
    requires |b| >= Lead(id) + UartHeaderSize(length)
  {
    var o, extended := 8 * Lead(id), length >= 4;
    && HeaderSpells(b, id)
    && FlagIs(b, o + 4, idle) && FlagIs(b, o + 5, extended)
    && GetBits(b, o + 6, if extended then 10 else 2) == length
  }

  predicate UartSpells(b: seq<Byte>, id: nat, data: seq<Byte>, idle: bool)
    requires |b| == RequiredUartSize(id, |data|) > 0
  {
    && UartHeaderSpells(b, id, |data|, idle)
    && b[Lead(id) + UartHeaderSize(|data|)..] == data
  }

  predicate GpioSpells(b: seq<Byte>, kind: nat, channel: nat, stamped: bool)
    requires |b| >= 2
  {
    && HeaderSpells(b, GPIO)
    && GetBits(b, 4, 4) == kind && GetBits(b, 8, 6) == channel && FlagIs(b, 15, stamped)
  }

  predicate GpioConfigSpells(b: seq<Byte>, c: GpioConfigView)
    requires |b| == 5
  {
    && FlagIs(b, 16, c.asap) && FlagIs(b, 17, c.rising) && FlagIs(b, 18, c.falling)
    && GetBits(b, 20, 2) == c.pull % 4 && GetBits(b, 24, 16) == c.periodMs
  }

  predicate SessionSpells(b: seq<Byte>, kind: nat, nonce: nat)
    requires |b| >= 6
  {
    HeaderSpells(b, SESSION) && GetBits(b, 12, 4) == kind % 16 && GetBits(b, 16, 32) == nonce
  }

  /** Whether the bytes are a field that carries the request. */
  predicate Spells(b: seq<Byte>, r: Request)
    requires |b| == Required(r) > 0
  {
    match r
    case WriteCan(id, can) => CanSpells(b, id, can)
    case WriteUart(id, data, suffix, idle) => UartSpells(b, id, data + suffix, idle)
    case WriteUartConfig(id, baudrate) =>
      HeaderSpells(b, id) && GetBits(b, 8 * Lead(id) + 4, 32) == baudrate.value
    case WriteGpioDigital(channel, high, timestamp) =>
      && GpioSpells(b, if high then DIGITAL_HIGH else DIGITAL_LOW, channel, timestamp.Some?)
      && (timestamp.Some? ==> GetBits(b, 16, 32) == timestamp.value)
    case WriteGpioAnalog(channel, value) =>
      GpioSpells(b, ANALOG, channel, false) && GetBits(b, 16, 16) == value
    case WriteGpioDigitalConfig(channel, c) =>
      GpioSpells(b, DIGITAL_READ_CONFIG, channel, c.captureTimestamp) && GpioConfigSpells(b, c)
    case WriteGpioAnalogConfig(channel, c) =>
      GpioSpells(b, ANALOG_READ_CONFIG, channel, false) && GpioConfigSpells(b, c)
    case WriteSessionControl(kind, nonce) =>
      SessionSpells(b, kind, nonce)
    case WriteTimeAnchor(nonce, microframe) =>
      SessionSpells(b, TIME_ANCHOR, nonce) && GetBits(b, 48, 64) == microframe
  }

  lemma PowersOfTwo()
    ensures Pow2(1) == 2 && Pow2(3) == 8 && Pow2(4) == 16 && Pow2(6) == 64 && Pow2(8) == 256
    ensures Pow2(2) == 4 && Pow2(10) == 1024 && Pow2(11) == 2048
    ensures Pow2(16) == 0x1_0000 && Pow2(29) == 0x2000_0000 && Pow2(32) == WORD
    ensures Pow2(64) == WORD * WORD
  {
    assert Pow2(4) == 16 && Pow2(8) == 256;
    assert Pow2(11) == 8 * Pow2(8) && Pow2(10) == 4 * Pow2(8);
    Pow2Shift(8);
    Pow2Shift(16);
    assert Pow2(29) == 32 * Pow2(24);
    Pow2Shift(24);
    Pow2Shift(32);
    Pow2Shift(40);
    Pow2Shift(48);
    Pow2Shift(56);
  }
}
