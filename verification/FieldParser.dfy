/** The field grammar as a plain recursive-descent parser over a whole transfer. */
module FieldParser {
  import opened Bytes
  import opened Bitfield
  import opened Options
  import opened Protocol

  /** One field: the event it stands for and the bytes it takes, or nothing that can be used. */
  datatype Parsed = Bad | Field(ev: Event, used: nat)

  /** A field takes at least one byte, and none beyond the end. */
  predicate Within(r: Parsed, b: seq<Byte>) {
    r.Field? ==> 0 < r.used <= |b|
  }

  function ParseCan(id: nat, b: seq<Byte>): (r: Parsed)
    requires b != []
    ensures Within(r, b)
  {
    hide GetBits;
    var flags := b[..1];
    var extended := Flag(flags, 5);
    var size := CanHeaderSize(extended);
    if |b| < size then Bad
    else
      var h := b[..size];
      var length := if Flag(flags, 7) then CanLengthIn(h, extended) else 0;
      var stamped := CanStampedIn(h, extended);
      var tail := length + if stamped then 4 else 0;
      if |b| < size + tail then Bad
      else
        var body := b[size..][..tail];
        Field(
          Can(id, CanView(CanIdIn(h, extended), body[..length], Flag(flags, 4), extended,
                          Flag(flags, 6), if stamped then Some(Word32(body[length..])) else None)),
          size + tail)
  }

  function ParseUart(id: nat, b: seq<Byte>): (r: Parsed)
    requires b != []
    ensures Within(r, b)
  {
    hide GetBits;
    var idle := Flag(b[..1], 4);
    var extended := Flag(b[..1], 5);
    var size := if extended then 2 else 1;
    if |b| < size then Bad
    else
      var length := if extended then GetBits(b[..2], 6, 10) else GetBits(b[..1], 6, 2);
      if length > BUFFER_SIZE || |b| < size + length then Bad
      else Field(Uart(id, b[size..][..length], idle), size + length)
  }

  function ParseUartConfig(id: nat, b: seq<Byte>): (r: Parsed)
    ensures Within(r, b)
  {
    hide GetBits;
    if |b| < 5 then Bad else Field(UartConfig(id, GetBits(b[..5], 4, 32)), 5)
  }

  function ParseGpio(b: seq<Byte>): (r: Parsed)
    ensures Within(r, b)
  {
    hide GetBits;
    if |b| < 2 then Bad
    else
      var kind, channel, stamped := GetBits(b[..2], 4, 4), GetBits(b[..2], 8, 6), Flag(b[..2], 15);
      if kind == DIGITAL_LOW || kind == DIGITAL_HIGH then
        if !stamped then Field(GpioDigital(channel, kind == DIGITAL_HIGH, None), 2)
        else if |b| < 6 then Bad
        else Field(GpioDigital(channel, kind == DIGITAL_HIGH, Some(GetBits(b[2..][..4], 0, 32))), 6)
      else if kind == ANALOG then
        if stamped || |b| < 4 then Bad
        else Field(GpioAnalog(channel, GetBits(b[2..][..2], 0, 16)), 4)
      else if kind == DIGITAL_READ_CONFIG || kind == ANALOG_READ_CONFIG then
        if |b| < 5 then Bad
        else GpioConfigEvent(kind == DIGITAL_READ_CONFIG, channel, GpioConfigIn(b[2..][..3], stamped))
      else Bad
  }

  function GpioConfigEvent(digital: bool, channel: nat, c: GpioConfigView): Parsed {
    if c.pull > 2 then Bad
    else if digital then Field(GpioDigitalConfig(channel, c), 5)
    else if c.captureTimestamp || c.rising || c.falling then Bad
    else Field(GpioAnalogConfig(channel, c), 5)
  }

  function ParseImu(b: seq<Byte>): (r: Parsed)
    requires b != []
    ensures Within(r, b)
  {
    hide GetBits;
    var kind := GetBits(b[..1], 4, 4);
    var size := ImuPayloadSize(kind);
    if size == 0 || |b| < 1 + size then Bad else Field(Imu(kind, b[1..][..size]), 1 + size)
  }

  function ParseSession(b: seq<Byte>): (r: Parsed)
    ensures Within(r, b)
  {
    hide GetBits;
    if |b| < 5 then Bad
    else
      var kind, nonce := GetBits(b[..5], 4, 4), GetBits(b[..5], 8, 32);
      var size := SessionPayloadSize(kind);
      if |b| < 5 + size then Bad
      else Field(SessionEvent(kind, nonce, b[5..][..size]), 5 + size)
  }

  function SessionEvent(kind: nat, nonce: nat, payload: seq<Byte>): Event
    requires |payload| == SessionPayloadSize(kind)
  {
    if SessionPayloadSize(kind) == 0 then SessionControl(kind, nonce)
    else if kind == TIME_ANCHOR then TimeAnchor(nonce, GetBits(payload, 0, 64))
    else SessionPayload(kind, nonce, payload)
  }

  function ParseBody(id: nat, b: seq<Byte>): (r: Parsed)
    requires b != []
    ensures Within(r, b)
  {
    hide GetBits;
    if IsCan(id) then ParseCan(id, b)
    else if IsUart(id) then ParseUart(id, b)
    else if IsUartConfig(id) then ParseUartConfig(id, b)
    else if id == GPIO then ParseGpio(b)
    else if id == IMU then ParseImu(b)
    else if id == SESSION then ParseSession(b)
    else Bad
  }

  /** The field at the front: a 1-byte header, or a 2-byte one whose second byte the body shares. */
  function ParseField(b: seq<Byte>): (r: Parsed)
    requires b != []
    ensures Within(r, b)
  {
    hide GetBits;
    var id := GetBits(b[..1], 0, 4);
    if id != EXTEND then ParseBody(id, b)
    else if |b| < 2 then Bad
    else
      match ParseBody(GetBits(b[..2], 4, 8), b[1..])
      case Bad => Bad
      case Field(ev, used) => Field(ev, used + 1)
  }

  /**
   * Everything a transfer delivers after `log`: its fields in order, up to the first one that is
   * malformed, cut short or refused, which is reported once.
   */
  function ParseTransfer(verdict: Verdict, log: seq<Event>, b: seq<Byte>): seq<Event>
    decreases |b|
  {
    if b == [] then log
    else
      match ParseField(b)
      case Bad => log + [Error]
      case Field(ev, used) =>
        if Refused(verdict, log, ev) then log + [ev, Error]
        else ParseTransfer(verdict, log + [ev], b[used..])
  }
}
