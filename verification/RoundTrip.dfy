/** The parser reads back what the bytes of a field spell, at the front of any stream. */
module RoundTrip {
  import opened Bytes
  import opened Bitfield
  import opened Options
  import opened Protocol
  import opened FieldParser
  import opened FieldEncoding

  /** A member read through a window is the member of the buffer behind it. */
  lemma WindowBits(b: seq<Byte>, from: nat, to: nat)
    requires from <= to <= |b|
    ensures forall i: nat, w: nat | i + w <= 8 * (to - from) ::
              GetBits(b[from..to], i, w) == GetBits(b, 8 * from + i, w)
  {
    hide GetBits, TestBit;
    forall i: nat, w: nat | i + w <= 8 * (to - from)
      ensures GetBits(b[from..to], i, w) == GetBits(b, 8 * from + i, w)
    {
      forall n: nat | i <= n < i + w ensures BitAt(b[from..to], n) == BitAt(b, 8 * from + i + (n - i)) {
        assert (8 * from + n) / 8 == from + n / 8 && (8 * from + n) % 8 == n % 8;
      }
      GetBitsSame(b[from..to], i, b, 8 * from + i, w);
    }
  }

  /** A field is read the same whatever follows it. */
  lemma ParseFieldExtends(b: seq<Byte>, rest: seq<Byte>)
    requires b != [] && ParseField(b).Field?
    ensures ParseField(b + rest) == ParseField(b)
  {
    hide GetBits, ParseBody;
    assert (b + rest)[..1] == b[..1];
    var id := GetBits(b[..1], 0, 4);
    if id != EXTEND {
      ParseBodyExtends(id, b, rest);
    } else {
      assert (b + rest)[..2] == b[..2] && (b + rest)[1..] == b[1..] + rest;
      ParseBodyExtends(GetBits(b[..2], 4, 8), b[1..], rest);
    }
  }

  lemma ParseBodyExtends(id: nat, b: seq<Byte>, rest: seq<Byte>)
    requires b != [] && ParseBody(id, b).Field?
    ensures ParseBody(id, b + rest) == ParseBody(id, b)
  {
    hide GetBits, ParseCan, ParseUart, ParseGpio, ParseSession;
    if IsCan(id) {
      ParseCanExtends(id, b, rest);
    } else if IsUart(id) {
      ParseUartExtends(id, b, rest);
    } else if IsUartConfig(id) {
      assert (b + rest)[..5] == b[..5];
    } else if id == GPIO {
      ParseGpioExtends(b, rest);
    } else if id == IMU {
      assert (b + rest)[..1] == b[..1];
      var size := ImuPayloadSize(GetBits(b[..1], 4, 4));
      assert (b + rest)[1..][..size] == b[1..][..size];
    } else {
      ParseSessionExtends(b, rest);
    }
  }

  lemma ParseCanExtends(id: nat, b: seq<Byte>, rest: seq<Byte>)
    requires b != [] && ParseCan(id, b).Field?
    ensures ParseCan(id, b + rest) == ParseCan(id, b)
  {
    hide GetBits;
    var s := b + rest;
    assert s[..1] == b[..1];
    var extended := Flag(b[..1], 5);
    var size := CanHeaderSize(extended);
    assert s[..size] == b[..size];
    var tail := (if Flag(b[..1], 7) then CanLengthIn(b[..size], extended) else 0)
                + if CanStampedIn(b[..size], extended) then 4 else 0;
    assert s[size..][..tail] == b[size..][..tail];
  }

  lemma ParseUartExtends(id: nat, b: seq<Byte>, rest: seq<Byte>)
    requires b != [] && ParseUart(id, b).Field?
    ensures ParseUart(id, b + rest) == ParseUart(id, b)
  {
    hide GetBits;
    var s := b + rest;
    assert s[..1] == b[..1];
    var size := if Flag(b[..1], 5) then 2 else 1;
    assert s[..size] == b[..size];
    var length := ParseUart(id, b).used - size;
    assert s[size..][..length] == b[size..][..length];
  }

  lemma ParseGpioExtends(b: seq<Byte>, rest: seq<Byte>)
    requires ParseGpio(b).Field?
    ensures ParseGpio(b + rest) == ParseGpio(b)
  {
    hide GetBits, GpioConfigIn;
    var s := b + rest;
    assert s[..2] == b[..2];
    if |b| >= 6 { assert s[2..][..4] == b[2..][..4]; }
    if |b| >= 5 { assert s[2..][..3] == b[2..][..3]; }
    if |b| >= 4 { assert s[2..][..2] == b[2..][..2]; }
  }

  lemma ParseSessionExtends(b: seq<Byte>, rest: seq<Byte>)
    requires ParseSession(b).Field?
    ensures ParseSession(b + rest) == ParseSession(b)
  {
    hide GetBits, SessionPayloadSize, SessionEvent;
    var s := b + rest;
    assert s[..5] == b[..5];
    var size := SessionPayloadSize(GetBits(b[..5], 4, 4));
    assert s[5..][..size] == b[5..][..size];
  }

  // ---------------------------------------------------------------------------------------
  // Each kind of body

  lemma CanHeaderReadsBack(id: nat, b: seq<Byte>, v: CanView)
    requires IsCan(id) && |b| == RequiredCanSize(id, v) > 0 && CanSpells(b, id, v)
    ensures |b| >= CanHeaderSize(v.isExtended)
    ensures var h := b[..CanHeaderSize(v.isExtended)];
            && CanIdIn(h, v.isExtended) == v.canId
            && CanStampedIn(h, v.isExtended) == v.timestamp.Some?
            && (v.data != [] ==> CanLengthIn(h, v.isExtended) == |v.data|)
    ensures Flag(b[..1], 4) == v.isFd && Flag(b[..1], 5) == v.isExtended
    ensures Flag(b[..1], 6) == v.isRemote && Flag(b[..1], 7) == (v.data != [])
  {
    hide GetBits;
    WindowBits(b, 0, 1);
    assert b[0..1] == b[..1];
    var size := CanHeaderSize(v.isExtended);
    WindowBits(b, 0, size);
    assert b[0..size] == b[..size];
  }

  lemma CanTailReadsBack(id: nat, b: seq<Byte>, v: CanView)
    requires IsCan(id) && |b| == RequiredCanSize(id, v) > 0 && CanSpells(b, id, v)
    ensures HeaderSpells(b, id)
    ensures var size, tail := CanHeaderSize(v.isExtended), |v.data| + StampSize(v.timestamp);
            && |b| == size + tail
            && b[size..][..tail][..|v.data|] == v.data
            && (v.timestamp.Some? ==> Word32(b[size..][..tail][|v.data|..]) == v.timestamp.value)
  {
    hide GetBits;
    var size, tail := CanHeaderSize(v.isExtended), |v.data| + StampSize(v.timestamp);
    assert b[size..][..tail] == b[size..];
    assert b[size..][..|v.data|] == b[size..size + |v.data|];
    if v.timestamp.Some? {
      WindowBits(b, size + |v.data|, |b|);
      assert b[size..][|v.data|..] == b[size + |v.data|..|b|];
    }
  }

  lemma CanReadsBack(id: nat, b: seq<Byte>, v: CanView)
    requires IsCan(id) && |b| == RequiredCanSize(id, v) > 0 && CanSpells(b, id, v)
    ensures HeaderSpells(b, id)
    ensures ParseCan(id, b) == Field(Can(id, v), |b|)
  {
    hide GetBits, Flag, CanIdIn, CanLengthIn, CanStampedIn, CanSpells, Word32;
    CanHeaderReadsBack(id, b, v);
    CanTailReadsBack(id, b, v);
  }

  lemma UartReadsBack(id: nat, b: seq<Byte>, data: seq<Byte>, idle: bool)
    requires IsUart(id) && |b| == RequiredUartSize(id, |data|) > 0 && UartSpells(b, id, data, idle)
    ensures HeaderSpells(b, id)
    ensures ParseUart(id, b[Lead(id)..]) == Field(Uart(id, data, idle), |b| - Lead(id))
  {
    hide GetBits;
    var o, body, size := Lead(id), b[Lead(id)..], UartHeaderSize(|data|);
    WindowBits(b, o, o + 1);
    assert b[o..o + 1] == body[..1];
    WindowBits(b, o, o + size);
    assert b[o..o + size] == body[..size];
    assert body[size..][..|data|] == b[o + size..];
  }

  lemma UartConfigReadsBack(id: nat, b: seq<Byte>, baudrate: nat)
    requires |b| == Lead(id) + 5 && GetBits(b, 8 * Lead(id) + 4, 32) == baudrate
    ensures ParseUartConfig(id, b[Lead(id)..]) == Field(UartConfig(id, baudrate), 5)
  {
    hide GetBits;
    WindowBits(b, Lead(id), |b|);
    assert b[Lead(id)..|b|] == b[Lead(id)..][..5];
  }

  lemma GpioHeaderReadsBack(b: seq<Byte>, kind: nat, channel: nat, stamped: bool)
    requires |b| >= 2 && GpioSpells(b, kind, channel, stamped)
    ensures HeaderSpells(b, GPIO)
    ensures GetBits(b[..2], 4, 4) == kind && GetBits(b[..2], 8, 6) == channel && Flag(b[..2], 15) == stamped
  {
    hide GetBits;
    WindowBits(b, 0, 2);
    assert b[0..2] == b[..2];
  }

  lemma GpioValueReadsBack(b: seq<Byte>, r: Request)
    requires r.WriteGpioDigital? || r.WriteGpioAnalog?
    requires |b| == Required(r) && Spells(b, r)
    ensures |b| >= 2 && HeaderSpells(b, GPIO)
    ensures ParseGpio(b) == Field(EventOf(r), |b|)
  {
    hide GetBits, Flag, GpioSpells, HeaderSpells;
    match r {
      case WriteGpioDigital(channel, high, timestamp) =>
        GpioHeaderReadsBack(b, if high then DIGITAL_HIGH else DIGITAL_LOW, channel, timestamp.Some?);
      case WriteGpioAnalog(channel, _) =>
        GpioHeaderReadsBack(b, ANALOG, channel, false);
    }
    WindowBits(b, 2, |b|);
    assert b[2..][..|b| - 2] == b[2..|b|];
  }

  lemma GpioConfigReadsBack(b: seq<Byte>, r: Request)
    requires r.WriteGpioDigitalConfig? || r.WriteGpioAnalogConfig?
    requires Addressed(r) && |b| == Required(r) > 0 && Spells(b, r)
    ensures |b| >= 2 && HeaderSpells(b, GPIO)
    ensures ParseGpio(b) == Field(EventOf(r), |b|)
  {
    hide GetBits, GpioSpells, HeaderSpells, GpioConfigSpells, GpioConfigIn;
    var kind := if r.WriteGpioDigitalConfig? then DIGITAL_READ_CONFIG else ANALOG_READ_CONFIG;
    GpioHeaderReadsBack(b, kind, r.channel, r.config.captureTimestamp);
    ConfigReadsBack(b, r.config);
    assert b[2..][..3] == b[2..5];
  }

  lemma ConfigReadsBack(b: seq<Byte>, c: GpioConfigView)
    requires |b| == 5 && GpioConfigSpells(b, c)
    ensures GpioConfigIn(b[2..5], c.captureTimestamp) == c.(pull := c.pull % 4)
  {
    hide GetBits;
    WindowBits(b, 2, 5);
  }

  lemma AnchorSize()
    ensures SessionPayloadSize(TIME_ANCHOR) == 8
  {
  }

  lemma SessionReadsBack(b: seq<Byte>, r: Request)
    requires r.WriteSessionControl? || r.WriteTimeAnchor?
    requires Addressed(r) && |b| == Required(r) && Spells(b, r)
    ensures |b| >= 6 && HeaderSpells(b, SESSION)
    ensures ParseSession(b[1..]) == Field(EventOf(r), |b| - 1)
  {
    hide GetBits, HeaderSpells, SessionPayloadSize;
    WindowBits(b, 1, 6);
    assert b[1..6] == b[1..][..5];
    WindowBits(b, 6, |b|);
    assert b[1..][5..][..|b| - 6] == b[6..|b|];
    assert SessionPayloadSize(TIME_ANCHOR) == 8 by { AnchorSize(); }
  }

  // ---------------------------------------------------------------------------------------

  /** What is parsed behind a header. */
  function Behind(lead: nat, r: Parsed): Parsed {
    if r.Bad? then Bad else Field(r.ev, r.used + lead)
  }

  /** A body is parsed once the id in front of it is known. */
  lemma HeaderReadsBack(b: seq<Byte>, id: nat)
    requires 0 < id < 256 && |b| > Lead(id) && HeaderSpells(b, id)
    ensures ParseField(b) == Behind(Lead(id), ParseBody(id, b[Lead(id)..]))
  {
    hide GetBits, ParseBody;
    WindowBits(b, 0, 1);
    assert b[0..1] == b[..1];
    if UseExtendedFieldHeader(id) {
      WindowBits(b, 0, 2);
      assert b[0..2] == b[..2];
    } else {
      assert b[0..] == b;
    }
  }

  function IdOf(r: Request): nat {
    match r
    case WriteCan(id, _) => id
    case WriteUart(id, _, _, _) => id
    case WriteUartConfig(id, _) => id
    case WriteSessionControl(_, _) => SESSION
    case WriteTimeAnchor(_, _) => SESSION
    case _ => GPIO
  }

  lemma BodyReadsBack(b: seq<Byte>, r: Request)
    requires Typed(r) && Addressed(r) && |b| == Required(r) > 0 && Spells(b, r)
    ensures var id := IdOf(r);
            && 0 < id < 256 && |b| > Lead(id) && HeaderSpells(b, id)
            && ParseBody(id, b[Lead(id)..]) == Field(EventOf(r), |b| - Lead(id))
  {
    hide GetBits, HeaderSpells, CanSpells, UartSpells, GpioSpells, SessionSpells, GpioConfigSpells;
    hide ParseCan, ParseUart, ParseUartConfig, ParseGpio, ParseSession;
    match r {
      case WriteCan(id, can) =>
        assert b[0..] == b;
        CanReadsBack(id, b, can);
      case WriteUart(id, data, suffix, idle) =>
        UartReadsBack(id, b, data + suffix, idle);
      case WriteUartConfig(id, baudrate) =>
        UartConfigReadsBack(id, b, baudrate.value);
      case WriteSessionControl(_, _) =>
        SessionReadsBack(b, r);
      case WriteTimeAnchor(_, _) =>
        SessionReadsBack(b, r);
      case _ =>
        assert b[0..] == b;
        if r.WriteGpioDigital? || r.WriteGpioAnalog? {
          GpioValueReadsBack(b, r);
        } else {
          GpioConfigReadsBack(b, r);
        }
    }
  }

  // ---------------------------------------------------------------------------------------
  // Requests that the writers take and the parser takes for something else

  /** No id but a CAN one makes a CAN view, and no id but a UART one a UART view. */
  lemma KindOfBody(id: nat, b: seq<Byte>)
    requires b != [] && ParseBody(id, b).Field?
    ensures ParseBody(id, b).ev.Can? ==> IsCan(id)
    ensures ParseBody(id, b).ev.Uart? ==> IsUart(id)
  {
    hide GetBits, GpioConfigIn, SessionPayloadSize;
  }

  lemma PrefixBits(b: seq<Byte>, rest: seq<Byte>)
    ensures forall i: nat, w: nat {:trigger GetBits(b + rest, i, w)} | i + w <= 8 * |b| ::
              GetBits(b + rest, i, w) == GetBits(b, i, w)
  {
    hide GetBits;
    WindowBits(b + rest, 0, |b|);
    assert (b + rest)[0..|b|] == b;
  }

  lemma SessionMisread(b: seq<Byte>, r: Request)
    requires r.WriteSessionControl? && !Addressed(r) && |b| >= 6 && SessionSpells(b, r.sessionType, r.nonce)
    ensures ParseSession(b[1..]).Field? ==> ParseSession(b[1..]).ev != EventOf(r)
  {
    hide GetBits, HeaderSpells, SessionPayloadSize;
    WindowBits(b, 1, 6);
    assert b[1..6] == b[1..][..5];
  }

  lemma ConfigMisread(b: seq<Byte>, r: Request)
    requires r.WriteGpioDigitalConfig? || r.WriteGpioAnalogConfig?
    requires !Addressed(r) && Required(r) > 0 && |b| >= 5
    requires GpioSpells(b, if r.WriteGpioDigitalConfig? then DIGITAL_READ_CONFIG else ANALOG_READ_CONFIG,
                        r.channel, r.config.captureTimestamp)
    requires GetBits(b, 20, 2) == r.config.pull % 4
    ensures ParseGpio(b).Field? ==> ParseGpio(b).ev != EventOf(r)
  {
    hide GetBits, HeaderSpells;
    var kind := if r.WriteGpioDigitalConfig? then DIGITAL_READ_CONFIG else ANALOG_READ_CONFIG;
    GpioHeaderReadsBack(b, kind, r.channel, r.config.captureTimestamp);
    WindowBits(b, 2, 5);
    assert b[2..][..3] == b[2..5];
  }

  lemma Misread(b: seq<Byte>, r: Request, rest: seq<Byte>)
    requires Typed(r) && !Addressed(r) && |b| == Required(r) > 0 && Spells(b, r)
    ensures ParseField(b + rest) != Field(EventOf(r), Required(r))
  {
    hide GetBits, ParseBody, ParseField, ParseGpio, ParseSession;
    var all, id := b + rest, IdOf(r);
    PrefixBits(b, rest);
    HeaderReadsBack(all, id);
    var body := all[Lead(id)..];
    if ParseBody(id, body).Field? {
      KindOfBody(id, body);
    }
    if r.WriteSessionControl? {
      SessionMisread(all, r);
      assert ParseBody(id, body) == ParseSession(body) by { SessionBody(body); }
    } else if r.WriteGpioDigitalConfig? || r.WriteGpioAnalogConfig? {
      ConfigMisread(all, r);
      assert all[0..] == all;
      assert ParseBody(id, body) == ParseGpio(body) by { GpioBody(body); }
    }
  }

  lemma SessionBody(b: seq<Byte>)
    requires b != []
    ensures ParseBody(SESSION, b) == ParseSession(b)
  {
    hide ParseSession;
  }

  lemma GpioBody(b: seq<Byte>)
    requires b != []
    ensures ParseBody(GPIO, b) == ParseGpio(b)
  {
    hide ParseGpio;
  }

  /**
   * Bytes that spell a request are read as exactly that request's view, and exactly those bytes
   * are consumed, whatever follows them, if and only if the request is of its own kind.
   */
  lemma ReadsBack(b: seq<Byte>, r: Request, rest: seq<Byte>)
    requires Typed(r) && |b| == Required(r) > 0 && Spells(b, r)
    ensures ParseField(b + rest) == Field(EventOf(r), Required(r)) <==> Addressed(r)
  {
    hide Spells, HeaderSpells, ParseBody, ParseField, EventOf, Required, Addressed;
    if Addressed(r) {
      BodyReadsBack(b, r);
      HeaderReadsBack(b, IdOf(r));
      ParseFieldExtends(b, rest);
    } else {
      Misread(b, r, rest);
    }
  }

  // ---------------------------------------------------------------------------------------
  // The other way: what is read was spelled

  lemma CanSpelled(id: nat, b: seq<Byte>, v: CanView)
    requires IsCan(id) && |b| == RequiredCanSize(id, v) > 0 && HeaderSpells(b, id) && v.data != []
    requires ParseCan(id, b) == Field(Can(id, v), |b|)
    ensures CanSpells(b, id, v)
  {
    hide GetBits;
    var size := CanHeaderSize(v.isExtended);
    WindowBits(b, 0, 1);
    assert b[0..1] == b[..1];
    WindowBits(b, 0, size);
    assert b[0..size] == b[..size];
    var tail := |b| - size;
    assert b[size..][..tail] == b[size..];
    assert b[size..][..|v.data|] == b[size..size + |v.data|];
    if v.timestamp.Some? {
      WindowBits(b, size + |v.data|, |b|);
      assert b[size..][|v.data|..] == b[size + |v.data|..|b|];
    }
  }

  lemma UartSpelled(id: nat, b: seq<Byte>, data: seq<Byte>, idle: bool)
    requires IsUart(id) && |b| == RequiredUartSize(id, |data|) > 0 && HeaderSpells(b, id)
    requires ParseUart(id, b[Lead(id)..]) == Field(Uart(id, data, idle), |b| - Lead(id))
    ensures UartSpells(b, id, data, idle)
  {
    hide GetBits;
    var o, body, size := Lead(id), b[Lead(id)..], UartHeaderSize(|data|);
    WindowBits(b, o, o + 1);
    assert b[o..o + 1] == body[..1];
    WindowBits(b, o, o + size);
    assert b[o..o + size] == body[..size];
    assert body[size..][..|data|] == b[o + size..];
  }

  lemma GpioValueSpelled(b: seq<Byte>, r: Request)
    requires r.WriteGpioDigital? || r.WriteGpioAnalog?
    requires |b| == Required(r) > 0 && HeaderSpells(b, GPIO)
    requires ParseGpio(b) == Field(EventOf(r), |b|)
    ensures Spells(b, r)
  {
    hide GetBits, HeaderSpells, GpioConfigIn;
    WindowBits(b, 0, 2);
    assert b[0..2] == b[..2];
    WindowBits(b, 2, |b|);
    assert b[2..][..|b| - 2] == b[2..|b|];
  }

  lemma GpioConfigSpelled(b: seq<Byte>, r: Request)
    requires r.WriteGpioDigitalConfig? || r.WriteGpioAnalogConfig?
    requires Addressed(r) && |b| == Required(r) > 0 && HeaderSpells(b, GPIO)
    requires ParseGpio(b) == Field(EventOf(r), |b|)
    ensures Spells(b, r)
  {
    hide GetBits, HeaderSpells, GpioConfigSpells, GpioConfigIn;
    WindowBits(b, 0, 2);
    assert b[0..2] == b[..2];
    assert b[2..][..3] == b[2..5];
    ConfigStamp(b[2..5], Flag(b[..2], 15));
    ConfigSpelled(b, r.config);
  }

  lemma ConfigStamp(p: seq<Byte>, stamped: bool)
    requires |p| == 3
    ensures GpioConfigIn(p, stamped).captureTimestamp == stamped
  {
  }

  lemma ConfigSpelled(b: seq<Byte>, c: GpioConfigView)
    requires |b| == 5 && GpioConfigIn(b[2..5], c.captureTimestamp) == c && c.pull <= 2
    ensures GpioConfigSpells(b, c)
  {
    hide GetBits;
    WindowBits(b, 2, 5);
  }

  lemma SessionSpelled(b: seq<Byte>, r: Request)
    requires r.WriteSessionControl? || r.WriteTimeAnchor?
    requires Addressed(r) && |b| == Required(r) && HeaderSpells(b, SESSION)
    requires ParseSession(b[1..]) == Field(EventOf(r), |b| - 1)
    ensures Spells(b, r)
  {
    hide GetBits, HeaderSpells, SessionPayloadSize;
    WindowBits(b, 1, 6);
    assert b[1..6] == b[1..][..5];
    WindowBits(b, 6, |b|);
    assert b[1..][5..][..|b| - 6] == b[6..|b|];
    assert SessionPayloadSize(TIME_ANCHOR) == 8 by { AnchorSize(); }
  }

  lemma UartConfigSpelled(id: nat, b: seq<Byte>, baudrate: nat)
    requires |b| == Lead(id) + 5 && ParseUartConfig(id, b[Lead(id)..]) == Field(UartConfig(id, baudrate), 5)
    ensures GetBits(b, 8 * Lead(id) + 4, 32) == baudrate
  {
    hide GetBits;
    WindowBits(b, Lead(id), |b|);
    assert b[Lead(id)..|b|] == b[Lead(id)..][..5];
  }
}
