/** Reading back is exact: the bytes of a field are read as a request's view only if they spell it. */
module Spelling {
  import opened Bytes
  import opened Bitfield
  import opened Options
  import opened Protocol
  import opened FieldParser
  import opened FieldEncoding
  import opened FieldLaws
  import opened RoundTrip

  /** A view names the id it came under. */
  lemma IdOfView(id: nat, b: seq<Byte>, r: Request)
    requires b != [] && ParseBody(id, b).Field? && Required(r) > 0 && ParseBody(id, b).ev == EventOf(r)
    ensures id == IdOf(r)
  {
    hide ParseBody;
    ViewsOfIds(id, b);
  }

  /** The header is the shorter one that fits the id: a longer one would not make the same size. */
  lemma LeadOfView(ev: Event, r: Request, length: nat, lead: nat)
    requires Required(r) > 0 && ev == EventOf(r) && LengthIs(ev, length) && lead <= 1
    requires Required(r) == lead + length && (lead == 0 ==> IdOf(r) < 16)
    ensures lead == Lead(IdOf(r))
  {
  }

  lemma NibbleIsSmall(b: seq<Byte>)
    requires b != []
    ensures GetBits(b[..1], 0, 4) < 16
  {
    hide GetBits;
    PowersOfTwo();
  }

  lemma HeaderSpelled(b: seq<Byte>, r: Request)
    requires |b| == Required(r) > 0 && ParseField(b) == Field(EventOf(r), |b|)
    ensures |b| > Lead(IdOf(r)) && HeaderSpells(b, IdOf(r))
    ensures ParseBody(IdOf(r), b[Lead(IdOf(r))..]) == Field(EventOf(r), |b| - Lead(IdOf(r)))
  {
    hide GetBits, ParseBody, EventOf, Required, LengthIs, KindIs;
    WindowBits(b, 0, 1);
    assert b[0..1] == b[..1] && b[0..] == b;
    var id := GetBits(b[..1], 0, 4);
    if id != EXTEND {
      IdOfView(id, b, r);
      BodyTakes(id, b);
      NibbleIsSmall(b);
      LeadOfView(EventOf(r), r, |b|, 0);
    } else {
      WindowBits(b, 0, 2);
      assert b[0..2] == b[..2];
      var extended := GetBits(b[..2], 4, 8);
      IdOfView(extended, b[1..], r);
      BodyTakes(extended, b[1..]);
      LeadOfView(EventOf(r), r, |b| - 1, 1);
    }
  }

  lemma BodySpelled(b: seq<Byte>, r: Request)
    requires Addressed(r) && |b| == Required(r) > 0 && (r.WriteCan? ==> r.can.data != [])
    requires |b| > Lead(IdOf(r)) && HeaderSpells(b, IdOf(r))
    requires ParseBody(IdOf(r), b[Lead(IdOf(r))..]) == Field(EventOf(r), |b| - Lead(IdOf(r)))
    ensures Spells(b, r)
  {
    hide GetBits, HeaderSpells, CanSpells, UartSpells, GpioSpells, SessionSpells, GpioConfigSpells;
    hide ParseCan, ParseUart, ParseUartConfig, ParseGpio, ParseSession;
    match r {
      case WriteCan(id, can) =>
        assert b[0..] == b;
        CanSpelled(id, b, can);
      case WriteUart(id, data, suffix, idle) =>
        UartSpelled(id, b, data + suffix, idle);
      case WriteUartConfig(id, baudrate) =>
        UartConfigSpelled(id, b, baudrate.value);
      case WriteSessionControl(_, _) =>
        SessionSpelled(b, r);
      case WriteTimeAnchor(_, _) =>
        SessionSpelled(b, r);
      case _ =>
        assert b[0..] == b;
        if r.WriteGpioDigital? || r.WriteGpioAnalog? {
          GpioValueSpelled(b, r);
        } else {
          GpioConfigSpelled(b, r);
        }
    }
  }

  /**
   * A field's bytes are read as the view of a request if and only if they spell it. In a CAN field
   * without data the length bits do not matter, so there only one direction holds.
   */
  lemma ReadExactlyIfSpelled(b: seq<Byte>, r: Request)
    requires Typed(r) && Addressed(r) && |b| == Required(r) > 0
    ensures Spells(b, r) ==> ParseField(b) == Field(EventOf(r), |b|)
    ensures ParseField(b) == Field(EventOf(r), |b|) && !(r.WriteCan? && r.can.data == []) ==> Spells(b, r)
  {
    hide Spells, HeaderSpells, ParseBody, ParseField, EventOf, Required, Addressed;
    assert b + [] == b;
    if Spells(b, r) {
      ReadsBack(b, r, []);
    }
    if ParseField(b) == Field(EventOf(r), |b|) && !(r.WriteCan? && r.can.data == []) {
      HeaderSpelled(b, r);
      BodySpelled(b, r);
    }
  }
}
