/** Which field writes are taken, said without the size computation that the writers use. */
module Admission {
  import opened Bytes
  import opened Bitfield
  import opened Options
  import opened Protocol
  import opened FieldParser
  import opened FieldEncoding

  /**
   * At most eight bytes of CAN data, none in a remote frame, under an id of 11 or 29 bits; UART data
   * that fits a buffer with its header; a nonzero rate for one of the six UARTs; no edges or capture
   * for an analog input. Everything else is taken as it is.
   */
  predicate Admissible(r: Request) {
    match r
    case WriteCan(_, v) =>
      && |v.data| <= 8 && !(v.isRemote && v.data != [])
      && v.canId <= (if v.isExtended then 0x1FFF_FFFF else 0x7FF)
    case WriteUart(id, data, suffix, _) =>
      var length := |data| + |suffix|;
      (if id > 15 then 1 else 0) + (if length >= 4 then 2 else 1) + length <= 1023
    case WriteUartConfig(id, baudrate) =>
      id in {25, 26, 27, 28, 29, 31} && baudrate.Some? && baudrate.value != 0
    case WriteGpioAnalogConfig(_, c) => !c.rising && !c.falling && !c.captureTimestamp
    case _ => true
  }

  /** The bytes an admissible field takes on the wire. */
  function WireSize(r: Request): nat {
    match r
    case WriteCan(id, v) =>
      (if id > 15 then 1 else 0) + (if v.isExtended then 6 else 3) + |v.data|
      + (if v.timestamp.Some? then 4 else 0)
    case WriteUart(id, data, suffix, _) =>
      var length := |data| + |suffix|;
      (if id > 15 then 1 else 0) + (if length >= 4 then 2 else 1) + length
    case WriteUartConfig(_, _) => 6
    case WriteGpioDigital(_, _, timestamp) => if timestamp.Some? then 6 else 2
    case WriteGpioAnalog(_, _) => 4
    case WriteGpioDigitalConfig(_, _) => 5
    case WriteGpioAnalogConfig(_, _) => 5
    case WriteSessionControl(_, _) => 6
    case WriteTimeAnchor(_, _) => 14
  }

  /** The writers refuse exactly what is not admissible, and take exactly the bytes of the rest. */
  lemma RequiredExactly(r: Request)
    ensures Required(r) > 0 <==> Admissible(r)
    ensures Admissible(r) ==> Required(r) == WireSize(r)
  {
  }

  /** A sparse patch with nothing set succeeds without being sent. */
  lemma SilentExactly(r: Request)
    ensures Silent(r) <==> r.WriteUartConfig? && r.baudrate.None?
    ensures Silent(r) ==> !Admissible(r)
  {
  }

  /** The request that asks for a view, where there is a writer for it. */
  function RequestFor(ev: Event): Option<Request> {
    match ev
    case Can(id, v) => Some(WriteCan(id, v))
    case Uart(id, data, idle) => Some(WriteUart(id, data, [], idle))
    case UartConfig(id, baudrate) => Some(WriteUartConfig(id, Some(baudrate)))
    case GpioDigital(channel, high, timestamp) => Some(WriteGpioDigital(channel, high, timestamp))
    case GpioAnalog(channel, value) => Some(WriteGpioAnalog(channel, value))
    case GpioDigitalConfig(channel, c) => Some(WriteGpioDigitalConfig(channel, c))
    case GpioAnalogConfig(channel, c) => Some(WriteGpioAnalogConfig(channel, c))
    case SessionControl(kind, nonce) => Some(WriteSessionControl(kind, nonce))
    case TimeAnchor(nonce, microframe) => Some(WriteTimeAnchor(nonce, microframe))
    case _ => None
  }

  /** What can be received but not sent: data in a remote frame, no rate, or more than a buffer. */
  predicate OnlyReceived(ev: Event) {
    || (ev.Can? && ev.can.isRemote && ev.can.data != [])
    || (ev.UartConfig? && ev.baudrate == 0)
    || (ev.Uart? && |ev.data| + (if ev.id > 15 then 3 else 2) > 1023)
  }

  /** The view can be asked for, and is taken unless it is one of those. */
  predicate Returns(ev: Event) {
    RequestFor(ev).Some? ==>
      && var r := RequestFor(ev).value;
      && Typed(r) && Addressed(r)
      && (Admissible(r) <==> !OnlyReceived(ev))
      && (Required(r) > 0 ==> EventOf(r) == ev)
  }

  lemma CanReturns(id: nat, b: seq<Byte>)
    requires IsCan(id) && b != [] && ParseCan(id, b).Field?
    ensures Returns(ParseCan(id, b).ev)
  {
    hide GetBits, Pow2;
    PowersOfTwo();
  }

  lemma UartReturns(id: nat, b: seq<Byte>)
    requires IsUart(id) && b != [] && ParseUart(id, b).Field?
    ensures Returns(ParseUart(id, b).ev)
  {
    hide GetBits, Pow2;
    PowersOfTwo();
    var ev := ParseUart(id, b).ev;
    assert ev.data + [] == ev.data;
  }

  lemma UartConfigReturns(id: nat, b: seq<Byte>)
    requires IsUartConfig(id) && ParseUartConfig(id, b).Field?
    ensures Returns(ParseUartConfig(id, b).ev)
  {
    hide GetBits, Pow2;
    PowersOfTwo();
  }

  lemma GpioReturns(b: seq<Byte>)
    requires ParseGpio(b).Field?
    ensures Returns(ParseGpio(b).ev)
  {
    hide GetBits, Pow2;
    PowersOfTwo();
  }

  lemma SessionReturns(b: seq<Byte>)
    requires ParseSession(b).Field?
    ensures Returns(ParseSession(b).ev)
  {
    hide GetBits, Pow2, SessionPayloadSize;
    PowersOfTwo();
    assert SessionPayloadSize(TIME_ANCHOR) == 8 by { AnchorSize(); }
  }

  lemma AnchorSize()
    ensures SessionPayloadSize(TIME_ANCHOR) == 8
  {
  }

  lemma BodyReturns(id: nat, b: seq<Byte>)
    requires b != [] && ParseBody(id, b).Field?
    ensures Returns(ParseBody(id, b).ev)
  {
    hide GetBits, ParseCan, ParseUart, ParseUartConfig, ParseGpio, ParseSession, Returns;
    if IsCan(id) {
      CanReturns(id, b);
    } else if IsUart(id) {
      UartReturns(id, b);
    } else if IsUartConfig(id) {
      UartConfigReturns(id, b);
    } else if id == GPIO {
      GpioReturns(b);
    } else if id == IMU {
      ImuReturns(b);
    } else {
      SessionReturns(b);
    }
  }

  lemma ImuReturns(b: seq<Byte>)
    requires b != [] && ParseImu(b).Field?
    ensures Returns(ParseImu(b).ev)
  {
    hide GetBits;
  }

  /**
   * Every view the parser delivers can be asked of a writer, which takes it if and only if it is
   * none of the three kinds above, and then stands for that view.
   */
  lemma ReceivedIsAdmissible(b: seq<Byte>)
    requires b != [] && ParseField(b).Field? && RequestFor(ParseField(b).ev).Some?
    ensures var ev := ParseField(b).ev;
            var r := RequestFor(ev).value;
            && Typed(r) && Addressed(r)
            && (Admissible(r) <==> !OnlyReceived(ev))
            && (Required(r) > 0 ==> EventOf(r) == ev)
  {
    hide GetBits, ParseBody;
    var id := GetBits(b[..1], 0, 4);
    if id != EXTEND {
      BodyReturns(id, b);
    } else {
      BodyReturns(GetBits(b[..2], 4, 8), b[1..]);
    }
  }
}
