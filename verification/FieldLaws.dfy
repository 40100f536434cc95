/** The field stream in numbers: whose id is whose, how long each field is, and what a refusal stops. */
module FieldLaws {
  import opened Bytes
  import opened Bitfield
  import opened Options
  import opened Protocol
  import opened FieldParser
  import opened PeekMachine
  import opened Slicing
  import opened FieldEncoding

  // ---------------------------------------------------------------------------------------
  // Ids

  predicate IsGpioView(ev: Event) {
    ev.GpioDigital? || ev.GpioAnalog? || ev.GpioDigitalConfig? || ev.GpioAnalogConfig?
  }

  predicate IsSessionView(ev: Event) {
    ev.SessionControl? || ev.TimeAnchor? || ev.SessionPayload?
  }

  /** Each id makes the views of one kind, under that id, and no other id makes any. */
  lemma ViewsOfIds(id: nat, b: seq<Byte>)
    requires b != [] && ParseBody(id, b).Field?
    ensures var ev := ParseBody(id, b).ev;
            && (ev.Can? <==> id in {2, 3, 4, 5, 6, 7, 8, 9}) && (ev.Can? ==> ev.id == id)
            && (ev.Uart? <==> id in {10, 11, 12, 13, 14, 30}) && (ev.Uart? ==> ev.id == id)
            && (ev.UartConfig? <==> id in {25, 26, 27, 28, 29, 31}) && (ev.UartConfig? ==> ev.id == id)
            && (IsGpioView(ev) <==> id == 1) && (ev.Imu? <==> id == 15) && (IsSessionView(ev) <==> id == 16)
            && !ev.Error?
  {
    hide GetBits, GpioConfigIn, SessionPayloadSize, ImuPayloadSize;
  }

  /** The kinds of ids and enumerators that a request must carry to be read back. */
  lemma OwnKind(r: Request)
    ensures Addressed(r) <==>
              && (r.WriteCan? ==> r.id in {2, 3, 4, 5, 6, 7, 8, 9})
              && (r.WriteUart? ==> r.id in {10, 11, 12, 13, 14, 30})
              && (r.WriteGpioDigitalConfig? || r.WriteGpioAnalogConfig? ==> r.config.pull in {0, 1, 2})
              && (r.WriteSessionControl? ==> r.sessionType in {0, 1, 2, 3, 9, 10, 11, 12, 13, 14, 15})
  {
  }

  /** The GPIO payload types, and what each goes with. */
  lemma GpioKinds(b: seq<Byte>)
    requires |b| >= 2
    ensures var kind, stamped, r := GetBits(b[..2], 4, 4), GetBits(b[..2], 15, 1) == 1, ParseGpio(b);
            && (r.Field? ==> kind in {0, 1, 2, 4, 6} && (kind == 2 ==> !stamped))
            && (r.Field? && kind <= 1 ==>
                  r.ev.GpioDigital? && r.ev.high == (kind == 1) && r.ev.timestamp.Some? == stamped)
            && (r.Field? && kind == 2 ==> r.ev.GpioAnalog?)
            && (r.Field? && kind == 4 ==> r.ev.GpioDigitalConfig? && r.ev.config.captureTimestamp == stamped)
            && (r.Field? && kind == 6 ==> r.ev.GpioAnalogConfig? && !stamped)
  {
    hide GetBits;
  }

  // ---------------------------------------------------------------------------------------
  // Lengths

  /** Bytes of a field from the one its body shares with the header on, but for UART data. */
  function BodyLength(ev: Event): nat {
    match ev
    case Can(_, v) => (if v.isExtended then 6 else 3) + |v.data| + (if v.timestamp.Some? then 4 else 0)
    case UartConfig(_, _) => 5
    case GpioDigital(_, _, timestamp) => if timestamp.Some? then 6 else 2
    case GpioAnalog(_, _) => 4
    case GpioDigitalConfig(_, _) => 5
    case GpioAnalogConfig(_, _) => 5
    case Imu(kind, _) => if kind == 2 then 7 else 11
    case SessionControl(_, _) => 5
    case TimeAnchor(_, _) => 13
    case SessionPayload(kind, _, _) =>
      if kind == 5 then 83 else if kind == 6 then 23 else if kind == 7 then 13 else 26
    case _ => 0
  }

  predicate LengthIs(ev: Event, length: nat) {
    if ev.Uart? then length == |ev.data| + 2 || (length == |ev.data| + 1 && |ev.data| < 4)
    else length == BodyLength(ev)
  }

  /** IMU and session kinds beyond those listed are not delivered with a payload. */
  predicate KindIs(ev: Event) {
    match ev
    case Imu(kind, payload) => kind <= 2 && |payload| == (if kind == 2 then 6 else 10)
    case SessionControl(kind, _) => kind in {0, 1, 2, 3, 9, 10, 11, 12, 13, 14, 15}
    case SessionPayload(kind, _, payload) =>
      || (kind == 5 && |payload| == 78) || (kind == 6 && |payload| == 18)
      || (kind == 7 && |payload| == 8) || (kind == 8 && |payload| == 21)
    case Can(_, v) => |v.data| <= 8
    case Uart(_, data, _) => |data| <= 1023
    case _ => true
  }

  lemma BodyTakes(id: nat, b: seq<Byte>)
    requires b != [] && ParseBody(id, b).Field?
    ensures LengthIs(ParseBody(id, b).ev, ParseBody(id, b).used) && KindIs(ParseBody(id, b).ev)
  {
    hide GetBits, GpioConfigIn, ParseCan, ParseUart, ParseUartConfig, ParseGpio, ParseImu, ParseSession;
    hide LengthIs, KindIs;
    if IsCan(id) {
      CanTakes(id, b);
    } else if IsUart(id) {
      UartTakes(id, b);
    } else if IsUartConfig(id) {
      UartConfigTakes(id, b);
    } else if id == GPIO {
      GpioTakes(b);
    } else if id == IMU {
      ImuTakes(b);
    } else {
      SessionTakes(b);
    }
  }

  lemma CanTakes(id: nat, b: seq<Byte>)
    requires b != [] && ParseCan(id, b).Field?
    ensures LengthIs(ParseCan(id, b).ev, ParseCan(id, b).used) && KindIs(ParseCan(id, b).ev)
  {
    hide GetBits;
  }

  lemma UartTakes(id: nat, b: seq<Byte>)
    requires b != [] && ParseUart(id, b).Field?
    ensures LengthIs(ParseUart(id, b).ev, ParseUart(id, b).used) && KindIs(ParseUart(id, b).ev)
  {
    hide GetBits, Pow2;
    PowersOfTwo();
  }

  lemma UartConfigTakes(id: nat, b: seq<Byte>)
    requires ParseUartConfig(id, b).Field?
    ensures LengthIs(ParseUartConfig(id, b).ev, ParseUartConfig(id, b).used) && KindIs(ParseUartConfig(id, b).ev)
  {
    hide GetBits;
  }

  lemma GpioTakes(b: seq<Byte>)
    requires ParseGpio(b).Field?
    ensures LengthIs(ParseGpio(b).ev, ParseGpio(b).used) && KindIs(ParseGpio(b).ev)
  {
    hide GetBits, GpioConfigIn;
  }

  lemma ImuTakes(b: seq<Byte>)
    requires b != [] && ParseImu(b).Field?
    ensures LengthIs(ParseImu(b).ev, ParseImu(b).used) && KindIs(ParseImu(b).ev)
  {
    hide GetBits;
  }

  lemma SessionTakes(b: seq<Byte>)
    requires ParseSession(b).Field?
    ensures LengthIs(ParseSession(b).ev, ParseSession(b).used) && KindIs(ParseSession(b).ev)
  {
    hide GetBits, Pow2;
    PowersOfTwo();
  }

  /** How many bytes a field takes, by what it delivers; a zero id nibble announces one more of header. */
  lemma FieldTakes(b: seq<Byte>)
    requires b != [] && ParseField(b).Field?
    ensures var lead := if GetBits(b[..1], 0, 4) == 0 then 1 else 0;
            && ParseField(b).used > lead && LengthIs(ParseField(b).ev, ParseField(b).used - lead)
            && KindIs(ParseField(b).ev)
  {
    hide GetBits, ParseBody, LengthIs, KindIs;
    var id := GetBits(b[..1], 0, 4);
    if id != EXTEND {
      BodyTakes(id, b);
    } else {
      BodyTakes(GetBits(b[..2], 4, 8), b[1..]);
    }
  }

  /** Payloads that are delivered raw are the bytes behind the header, all of them and in order. */
  lemma RawPayloads(id: nat, b: seq<Byte>)
    requires b != [] && ParseBody(id, b).Field?
    ensures var ev, used := ParseBody(id, b).ev, ParseBody(id, b).used;
            && (ev.Imu? ==> ev.payload == b[1..used] && ev.kind == GetBits(b[..1], 4, 4))
            && (ev.SessionPayload? ==>
                  && ev.payload == b[5..used] && ev.nonce == GetBits(b[..5], 8, 32)
                  && ev.sessionType == GetBits(b[..5], 4, 4))
  {
    hide GetBits, GpioConfigIn, SessionPayloadSize, ImuPayloadSize, ParseCan, ParseUart, ParseGpio;
    ViewsOfIds(id, b);
    if id == IMU {
      assert b[1..][..ParseImu(b).used - 1] == b[1..ParseImu(b).used];
    } else if id == SESSION {
      assert b[5..][..ParseSession(b).used - 5] == b[5..ParseSession(b).used];
    }
  }

  // ---------------------------------------------------------------------------------------
  // Refusals

  /**
   * A CAN, UART, UART configuration or GPIO callback that answers false ends the transfer with one
   * error. No answer of another callback does, and no answer of these but false.
   */
  lemma RefusalEndsTransfer(verdict: Verdict, log: seq<Event>, b: seq<Byte>)
    requires b != [] && ParseField(b).Field?
    ensures var ev, used := ParseField(b).ev, ParseField(b).used;
            var asked := ev.Can? || ev.Uart? || ev.UartConfig? || ev.GpioDigital? || ev.GpioAnalog?
                         || ev.GpioDigitalConfig? || ev.GpioAnalogConfig?;
            && (asked && !verdict(log, ev) ==> ParseTransfer(verdict, log, b) == log + [ev, Error])
            && (!asked || verdict(log, ev) ==>
                  ParseTransfer(verdict, log, b) == ParseTransfer(verdict, log + [ev], b[used..]))
  {
    hide ParseField;
  }

  /** IMU and session fields are delivered whatever the receiver thinks of them. */
  lemma OthersCannotRefuse(verdict: Verdict, other: Verdict, log: seq<Event>, b: seq<Byte>)
    requires b != [] && ParseField(b).Field?
    requires var ev := ParseField(b).ev;
             ev.Imu? || ev.SessionControl? || ev.TimeAnchor? || ev.SessionPayload?
    requires b[ParseField(b).used..] == []
    ensures ParseTransfer(verdict, log, b) == ParseTransfer(other, log, b) == log + [ParseField(b).ev]
  {
    hide ParseField;
  }

  /** The same of a deserializer fed the transfer in any slices. */
  lemma RefusalEndsFeeding(verdict: Verdict, log: seq<Event>, slices: seq<seq<Byte>>)
    requires var b := Flat(slices);
             && b != [] && ParseField(b).Field? && !verdict(log, ParseField(b).ev)
             && var ev := ParseField(b).ev;
                ev.Can? || ev.Uart? || ev.UartConfig? || ev.GpioDigital? || ev.GpioAnalog?
                || ev.GpioDigitalConfig? || ev.GpioAnalogConfig?
    ensures Finish(FeedAll(verdict, Between(log), slices))
            == Between(log + [ParseField(Flat(slices)).ev, Error])
  {
    hide ParseField, ParseTransfer, Flat;
    SlicingInvariance(verdict, log, slices);
    RefusalEndsTransfer(verdict, log, Flat(slices));
  }
}
