/** The field stream: ids, the views a field carries, and the bit layouts they rest on. */
module Protocol {
  import opened Bytes
  import opened Bitfield
  import opened Options

  const BUFFER_SIZE := 1023

  // Field ids
  const EXTEND := 0
  const GPIO := 1
  const IMU := 15
  const SESSION := 16

  predicate IsCan(id: nat) {
    2 <= id <= 9
  }

  predicate IsUart(id: nat) {
    10 <= id <= 14 || id == 30
  }

  predicate IsUartConfig(id: nat) {
    25 <= id <= 29 || id == 31
  }

  // Session types that carry a payload behind the session header
  const START_ACK := 1
  const TIME_ANCHOR := 4

  function SessionPayloadSize(sessionType: nat): nat {
    match sessionType
    case 4 => 8
    case 5 => 78
    case 6 => 18
    case 7 => 8
    case 8 => 21
    case _ => 0
  }

  // GPIO payload types
  const DIGITAL_LOW := 0
  const DIGITAL_HIGH := 1
  const ANALOG := 2
  const DIGITAL_READ_CONFIG := 4
  const ANALOG_READ_CONFIG := 6

  function ImuPayloadSize(kind: nat): nat {
    match kind
    case 0 => 10
    case 1 => 10
    case 2 => 6
    case _ => 0
  }

  datatype CanView = CanView(
    canId: nat, data: seq<Byte>, isFd: bool, isExtended: bool, isRemote: bool, timestamp: Option<nat>)

  datatype GpioConfigView = GpioConfigView(
    periodMs: nat, asap: bool, rising: bool, falling: bool, captureTimestamp: bool, pull: nat)

  /** What the callbacks are told. The IMU and the longer session payloads stay raw. */
  datatype Event =
    | Can(id: nat, can: CanView)
    | Uart(id: nat, data: seq<Byte>, idleDelimited: bool)
    | UartConfig(id: nat, baudrate: nat)
    | GpioDigital(channel: nat, high: bool, timestamp: Option<nat>)
    | GpioAnalog(channel: nat, value: nat)
    | GpioDigitalConfig(channel: nat, config: GpioConfigView)
    | GpioAnalogConfig(channel: nat, config: GpioConfigView)
    | Imu(kind: nat, payload: seq<Byte>)
    | SessionControl(sessionType: nat, nonce: nat)
    | TimeAnchor(nonce: nat, microframe: nat)
    | SessionPayload(sessionType: nat, nonce: nat, payload: seq<Byte>)
    | Error
  {
    /** Whether the callback answers if the sub-identifier is known; the others cannot refuse. */
    predicate Routed() {
      Can? || Uart? || UartConfig? || GpioDigital? || GpioAnalog? || GpioDigitalConfig? || GpioAnalogConfig?
    }
  }

  /** What a routed callback answers, which may depend on everything delivered before. */
  type Verdict = (seq<Event>, Event) -> bool

  predicate Refused(verdict: Verdict, log: seq<Event>, ev: Event) {
    ev.Routed() && !verdict(log, ev)
  }

  // ---------------------------------------------------------------------------------------
  // Layouts

  predicate Flag(b: seq<Byte>, index: nat)
    requires index < 8 * |b|
  {
    GetBits(b, index, 1) == 1
  }

  function Word32(b: seq<Byte>): nat
    requires |b| == 4
  {
    GetBits(b, 0, 32)
  }

  const CAN_STANDARD_SIZE := 3
  const CAN_EXTENDED_SIZE := 6

  function CanHeaderSize(extended: bool): nat {
    if extended then CAN_EXTENDED_SIZE else CAN_STANDARD_SIZE
  }

  function CanIdIn(h: seq<Byte>, extended: bool): nat
    requires |h| == CanHeaderSize(extended)
  {
    if extended then GetBits(h, 8, 29) else GetBits(h, 8, 11)
  }

  function CanLengthIn(h: seq<Byte>, extended: bool): (length: nat)
    requires |h| == CanHeaderSize(extended)
    ensures 1 <= length <= 8
  {
    assert Pow2(3) == 8;
    1 + if extended then GetBits(h, 37, 3) else GetBits(h, 21, 3)
  }

  predicate CanStampedIn(h: seq<Byte>, extended: bool)
    requires |h| == CanHeaderSize(extended)
  {
    if extended then Flag(h, 40) else Flag(h, 19)
  }

  function GpioConfigIn(p: seq<Byte>, captureTimestamp: bool): GpioConfigView
    requires |p| == 3
  {
    GpioConfigView(GetBits(p, 8, 16), Flag(p, 0), Flag(p, 1), Flag(p, 2), captureTimestamp, GetBits(p, 4, 2))
  }
}
