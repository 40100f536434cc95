/** However a transfer is sliced, the resumable parser delivers what the plain parser delivers. */
module Slicing {
  import opened Bytes
  import opened Bitfield
  import opened Options
  import opened Protocol
  import opened FieldParser
  import opened PeekMachine

  // ---------------------------------------------------------------------------------------
  // Cutting the input anywhere

  /** The machine once it has delivered `ev` and has `rest` ahead. */
  ghost function Delivered(verdict: Verdict, ev: Event, rest: seq<Byte>, log: seq<Event>): Machine {
    if Refused(verdict, log, ev) then Discarding(log + [ev])
    else Drive(verdict, FirstByte, rest, log + [ev])
  }

  lemma DriveStep(verdict: Verdict, c: Cont, u: seq<Byte>, log: seq<Event>)
    requires c.Sane()
    ensures Drive(verdict, c, u, log)
            == if |u| < c.Size() then Machine(c, u, false, log)
               else
                 var a := Resume(c, u[..c.Size()]);
                 if a.Fail? then Discarding(log)
                 else if a.Go? then Drive(verdict, a.next, u[a.used..], log)
                 else Delivered(verdict, a.ev, u[c.Size()..], log)
  {
    hide Resume;
  }

  /** Suspending and going on with more input is the same as having had all of it at once. */
  lemma {:induction false} DriveAppend(
    verdict: Verdict, c: Cont, u: seq<Byte>, more: seq<Byte>, log: seq<Event>)
    requires c.Sane()
    ensures var m := Drive(verdict, c, u, log);
            Drive(verdict, c, u + more, log)
            == if m.discard then m else Drive(verdict, m.cont, m.held + more, m.log)
    decreases |u|, c.Rank()
  {
    hide Resume, Refused, Drive;
    DriveStep(verdict, c, u, log);
    if |u| >= c.Size() {
      DriveStep(verdict, c, u + more, log);
      assert (u + more)[..c.Size()] == u[..c.Size()];
      match Resume(c, u[..c.Size()])
      case Fail =>
      case Go(used, next) =>
        assert (u + more)[used..] == u[used..] + more;
        DriveAppend(verdict, next, u[used..], more, log);
      case Deliver(ev) =>
        assert (u + more)[c.Size()..] == u[c.Size()..] + more;
        if !Refused(verdict, log, ev) {
          DriveAppend(verdict, FirstByte, u[c.Size()..], more, log + [ev]);
        }
    }
  }

  lemma {:induction false} FeedAllJoins(verdict: Verdict, m: Machine, buffers: seq<seq<Byte>>)
    requires m.Suspended()
    ensures FeedAll(verdict, m, buffers)
            == if m.discard then m else Drive(verdict, m.cont, m.held + Flat(buffers), m.log)
    decreases |buffers|
  {
    if buffers == [] {
      assert m.held + [] == m.held;
    } else {
      FlatCons(buffers[0], buffers[1..]);
      assert [buffers[0]] + buffers[1..] == buffers;
      var n := Feed(verdict, m, buffers[0]);
      FeedAllJoins(verdict, n, buffers[1..]);
      if !m.discard {
        var rest := Flat(buffers[1..]);
        assert m.held + (buffers[0] + rest) == (m.held + buffers[0]) + rest;
        if buffers[0] == [] {
          assert m.held + buffers[0] == m.held;
        } else {
          DriveAppend(verdict, m.cont, m.held + buffers[0], rest, m.log);
        }
      }
    }
  }

  // ---------------------------------------------------------------------------------------
  // One field

  /** Driving from `c` over `b` comes to what the plain parser says of it. */
  ghost predicate Lands(verdict: Verdict, c: Cont, b: seq<Byte>, log: seq<Event>, r: Parsed)
    requires c.Sane()
  {
    var m := Drive(verdict, c, b, log);
    match r
    case Bad => Finish(m) == Between(log + [Error])
    case Field(ev, used) => used <= |b| && m == Delivered(verdict, ev, b[used..], log)
  }

  lemma LandsShort(verdict: Verdict, c: Cont, b: seq<Byte>, log: seq<Event>)
    requires c.Sane() && !c.FirstByte? && |b| < c.Size()
    ensures Lands(verdict, c, b, log, Bad)
  {
  }

  lemma LandsFail(verdict: Verdict, c: Cont, b: seq<Byte>, log: seq<Event>)
    requires c.Sane() && |b| >= c.Size() && Resume(c, b[..c.Size()]) == Fail
    ensures Lands(verdict, c, b, log, Bad)
  {
  }

  lemma LandsDeliver(verdict: Verdict, c: Cont, b: seq<Byte>, log: seq<Event>, ev: Event)
    requires c.Sane() && |b| >= c.Size() && Resume(c, b[..c.Size()]) == Deliver(ev)
    ensures Lands(verdict, c, b, log, Field(ev, c.Size()))
  {
  }

  function Later(r: Parsed, used: nat): Parsed {
    match r
    case Bad => Bad
    case Field(ev, n) => Field(ev, n + used)
  }

  lemma LandsGo(verdict: Verdict, c: Cont, b: seq<Byte>, log: seq<Event>, used: nat, next: Cont, r: Parsed)
    requires c.Sane() && |b| >= c.Size() && Resume(c, b[..c.Size()]) == Go(used, next)
    requires next.Sane() && used <= c.Size() && Lands(verdict, next, b[used..], log, r)
    ensures Lands(verdict, c, b, log, Later(r, used))
  {
    hide Resume;
    assert Drive(verdict, c, b, log) == Drive(verdict, next, b[used..], log);
    if r.Field? {
      assert b[used..][r.used..] == b[used + r.used..];
    }
  }

  lemma CanLands(verdict: Verdict, id: nat, b: seq<Byte>, log: seq<Event>)
    requires b != []
    ensures Lands(verdict, CanFlags(id), b, log, ParseCan(id, b))
  {
    hide Lands, GetBits;
    var flags := b[..1];
    var extended := Flag(flags, 5);
    var head := CanHeader(id, Flag(flags, 4), extended, Flag(flags, 6), Flag(flags, 7));
    if |b| < head.Size() {
      LandsShort(verdict, head, b, log);
    } else {
      CanHeaderLands(verdict, head, b, log);
    }
    assert b[0..] == b;
    LandsGo(verdict, CanFlags(id), b, log, 0, head, ParseCan(id, b));
  }

  /** Whether the flags and ids in `head` are those of the field at the front of `b`. */
  predicate HeadOf(head: Cont, b: seq<Byte>)
    requires b != []
  {
    && head.CanHeader?
    && head == CanHeader(head.id, Flag(b[..1], 4), Flag(b[..1], 5), Flag(b[..1], 6), Flag(b[..1], 7))
  }

  /** What the plain parser makes of the bytes behind a CAN header. */
  function CanPayload(tail: Cont, p: seq<Byte>): Parsed
    requires tail.CanTail? && tail.Sane()
  {
    if |p| < tail.Size() then Bad else Field(Resume(tail, p[..tail.Size()]).ev, tail.Size())
  }

  lemma CanHeaderParse(head: Cont, b: seq<Byte>)
    requires head.CanHeader? && b != [] && HeadOf(head, b) && |b| >= head.Size()
    ensures var a := Resume(head, b[..head.Size()]);
            && !a.Fail?
            && (a.Deliver? ==> ParseCan(head.id, b) == Field(a.ev, head.Size()))
            && (a.Go? ==>
                  && a.used == head.Size() && a.next.CanTail?
                  && ParseCan(head.id, b) == Later(CanPayload(a.next, b[a.used..]), a.used))
  {
    hide GetBits, CanIdIn, CanLengthIn, CanStampedIn, Word32;
    var size := head.Size();
    match Resume(head, b[..size])
    case Deliver(ev) =>
      assert b[size..][..0] == [];
    case Go(used, next) =>
      var p := b[size..];
      if |p| >= next.Size() {
        var w := p[..next.Size()];
        assert Resume(next, w) == ResumeCan(next, w);
      }
  }

  lemma CanHeaderLands(verdict: Verdict, head: Cont, b: seq<Byte>, log: seq<Event>)
    requires head.CanHeader? && b != [] && HeadOf(head, b) && |b| >= head.Size()
    ensures Lands(verdict, head, b, log, ParseCan(head.id, b))
  {
    hide Lands, ParseCan, Resume, HeadOf;
    CanHeaderParse(head, b);
    match Resume(head, b[..head.Size()])
    case Deliver(ev) =>
      LandsDeliver(verdict, head, b, log, ev);
    case Go(used, tail) =>
      var p := b[used..];
      if |p| < tail.Size() {
        LandsShort(verdict, tail, p, log);
      } else {
        CanTailDelivers(tail, p[..tail.Size()]);
        LandsDeliver(verdict, tail, p, log, CanPayload(tail, p).ev);
      }
      LandsGo(verdict, head, b, log, used, tail, CanPayload(tail, p));
  }

  lemma CanTailDelivers(tail: Cont, w: seq<Byte>)
    requires tail.CanTail? && tail.Sane() && |w| == tail.Size()
    ensures Resume(tail, w).Deliver?
  {
    hide GetBits, Word32;
  }

  lemma UartLands(verdict: Verdict, id: nat, b: seq<Byte>, log: seq<Event>)
    requires b != []
    ensures Lands(verdict, UartFlags(id), b, log, ParseUart(id, b))
  {
    hide Lands, GetBits;
    var idle := Flag(b[..1], 4);
    if Flag(b[..1], 5) {
      var next := UartLength(id, idle);
      if |b| < 2 {
        LandsShort(verdict, next, b, log);
      } else {
        UartBodyLands(verdict, next, b, log, id, idle, GetBits(b[..2], 6, 10));
      }
      assert b[0..] == b;
      LandsGo(verdict, UartFlags(id), b, log, 0, next, ParseUart(id, b));
    } else {
      UartBodyLands(verdict, UartFlags(id), b, log, id, idle, GetBits(b[..1], 6, 2));
    }
  }

  /** The length is known and the header, all of the window, is done with. */
  lemma UartBodyLands(
    verdict: Verdict, c: Cont, b: seq<Byte>, log: seq<Event>, id: nat, idle: bool, length: nat)
    requires c.Sane() && c.Size() <= 2 && |b| >= c.Size()
    requires Resume(c, b[..c.Size()]) == UartBody(id, idle, length, c.Size())
    ensures Lands(verdict, c, b, log,
                  if length > BUFFER_SIZE || |b| < c.Size() + length then Bad
                  else Field(Uart(id, b[c.Size()..][..length], idle), c.Size() + length))
  {
    hide Lands, GetBits;
    var size := c.Size();
    if length > BUFFER_SIZE {
      LandsFail(verdict, c, b, log);
    } else if length == 0 {
      assert b[size..][..0] == [];
      LandsDeliver(verdict, c, b, log, Uart(id, [], idle));
    } else {
      var data := UartData(id, idle, length);
      if |b| < size + length {
        LandsShort(verdict, data, b[size..], log);
        LandsGo(verdict, c, b, log, size, data, Bad);
      } else {
        var ev := Uart(id, b[size..][..length], idle);
        LandsDeliver(verdict, data, b[size..], log, ev);
        LandsGo(verdict, c, b, log, size, data, Field(ev, length));
      }
    }
  }

  lemma UartConfigLands(verdict: Verdict, id: nat, b: seq<Byte>, log: seq<Event>)
    ensures Lands(verdict, UartBaudrate(id), b, log, ParseUartConfig(id, b))
  {
    hide Lands, GetBits;
    if |b| < 5 {
      LandsShort(verdict, UartBaudrate(id), b, log);
    } else {
      LandsDeliver(verdict, UartBaudrate(id), b, log, UartConfig(id, GetBits(b[..5], 4, 32)));
    }
  }

  /** What the plain parser makes of the bytes behind a GPIO header that has a payload. */
  function GpioPayload(c: Cont, p: seq<Byte>): Parsed
    requires c.GpioStamp? || c.GpioValue? || c.GpioConfig?
  {
    if |p| < c.Size() then Bad
    else
      match c
      case GpioStamp(channel, high) => Field(GpioDigital(channel, high, Some(GetBits(p[..4], 0, 32))), 4)
      case GpioValue(channel) => Field(GpioAnalog(channel, GetBits(p[..2], 0, 16)), 2)
      case GpioConfig(channel, digital, stamped) =>
        match GpioConfigEvent(digital, channel, GpioConfigIn(p[..3], stamped))
        case Bad => Bad
        case Field(ev, _) => Field(ev, 3)
  }

  lemma GpioHeaderParse(b: seq<Byte>)
    requires |b| >= 2
    ensures var a := ResumeGpioHeader(b[..2]);
            && (a.Fail? ==> ParseGpio(b) == Bad)
            && (a.Deliver? ==> ParseGpio(b) == Field(a.ev, 2))
            && (a.Go? ==>
                  && a.used == 2 && (a.next.GpioStamp? || a.next.GpioValue? || a.next.GpioConfig?)
                  && ParseGpio(b) == Later(GpioPayload(a.next, b[2..]), 2))
  {
    hide GetBits, GpioConfigIn, GpioConfigEvent, Pow2;
    var a := ResumeGpioHeader(b[..2]);
    if a.Go? && a.next.GpioConfig? && |b| >= 5 {
      ConfigEventSize(a.next.digital, a.next.channel, GpioConfigIn(b[2..][..3], a.next.stamped));
    }
  }

  lemma ConfigEventSize(digital: bool, channel: nat, c: GpioConfigView)
    ensures var r := GpioConfigEvent(digital, channel, c); r.Field? ==> r.used == 5
  {
  }

  lemma GpioLands(verdict: Verdict, b: seq<Byte>, log: seq<Event>)
    ensures Lands(verdict, GpioHeader, b, log, ParseGpio(b))
  {
    hide Lands, GetBits;
    if |b| < 2 {
      LandsShort(verdict, GpioHeader, b, log);
    } else {
      GpioHeaderLands(verdict, b, log);
    }
  }

  lemma GpioHeaderLands(verdict: Verdict, b: seq<Byte>, log: seq<Event>)
    requires |b| >= 2
    ensures Lands(verdict, GpioHeader, b, log, ParseGpio(b))
  {
    hide Lands, GetBits, ParseGpio, ResumeGpioHeader, GpioPayload;
    GpioHeaderParse(b);
    match ResumeGpioHeader(b[..2])
    case Fail =>
      LandsFail(verdict, GpioHeader, b, log);
    case Deliver(ev) =>
      LandsDeliver(verdict, GpioHeader, b, log, ev);
    case Go(_, next) =>
      GpioPayloadLands(verdict, next, b[2..], log);
      LandsGo(verdict, GpioHeader, b, log, 2, next, GpioPayload(next, b[2..]));
  }

  lemma GpioPayloadResumes(c: Cont, p: seq<Byte>)
    requires c.GpioStamp? || c.GpioValue? || c.GpioConfig?
    requires |p| >= c.Size()
    ensures var a := Resume(c, p[..c.Size()]);
            && !a.Go?
            && (a.Fail? ==> GpioPayload(c, p) == Bad)
            && (a.Deliver? ==> GpioPayload(c, p) == Field(a.ev, c.Size()))
  {
    hide GetBits, GpioConfigIn, GpioConfigEvent, Resume;
    var w := p[..c.Size()];
    PayloadResumes(c, w);
    match c {
      case GpioStamp(_, _) =>
      case GpioValue(_) =>
      case GpioConfig(digital, channel, stamped) =>
        ConfigEventSize(c.digital, c.channel, GpioConfigIn(w, c.stamped));
    }
  }

  lemma PayloadResumes(c: Cont, w: seq<Byte>)
    requires c.GpioStamp? || c.GpioValue? || c.GpioConfig?
    requires |w| == c.Size()
    ensures Resume(c, w) == ResumeGpioPayload(c, w)
  {
    hide ResumeGpioPayload;
  }

  lemma GpioPayloadLands(verdict: Verdict, c: Cont, p: seq<Byte>, log: seq<Event>)
    requires c.GpioStamp? || c.GpioValue? || c.GpioConfig?
    ensures Lands(verdict, c, p, log, GpioPayload(c, p))
  {
    hide Lands, Resume, GpioConfigIn;
    if |p| < c.Size() {
      LandsShort(verdict, c, p, log);
    } else {
      GpioPayloadResumes(c, p);
      match Resume(c, p[..c.Size()])
      case Fail => LandsFail(verdict, c, p, log);
      case Deliver(ev) => LandsDeliver(verdict, c, p, log, ev);
    }
  }

  lemma ImuLands(verdict: Verdict, b: seq<Byte>, log: seq<Event>)
    requires b != []
    ensures Lands(verdict, ImuHeader, b, log, ParseImu(b))
  {
    hide Lands, GetBits;
    var kind := GetBits(b[..1], 4, 4);
    var size := ImuPayloadSize(kind);
    if size == 0 {
      LandsFail(verdict, ImuHeader, b, log);
    } else if |b| < 1 + size {
      LandsShort(verdict, ImuBody(kind), b[1..], log);
      LandsGo(verdict, ImuHeader, b, log, 1, ImuBody(kind), Bad);
    } else {
      var ev := Imu(kind, b[1..][..size]);
      LandsDeliver(verdict, ImuBody(kind), b[1..], log, ev);
      LandsGo(verdict, ImuHeader, b, log, 1, ImuBody(kind), Field(ev, size));
    }
  }

  lemma SessionLands(verdict: Verdict, b: seq<Byte>, log: seq<Event>)
    ensures Lands(verdict, SessionHeader, b, log, ParseSession(b))
  {
    hide Lands, GetBits, SessionPayloadSize, SessionEvent;
    if |b| < 5 {
      LandsShort(verdict, SessionHeader, b, log);
    } else {
      var kind, nonce := GetBits(b[..5], 4, 4), GetBits(b[..5], 8, 32);
      if SessionPayloadSize(kind) == 0 {
        LandsDeliver(verdict, SessionHeader, b, log, SessionControl(kind, nonce));
        SessionEventPlain(kind, nonce, b[5..][..0]);
      } else {
        SessionBodyLands(verdict, kind, nonce, b, log);
      }
    }
  }

  lemma SessionEventPlain(kind: nat, nonce: nat, payload: seq<Byte>)
    requires |payload| == SessionPayloadSize(kind) == 0
    ensures SessionEvent(kind, nonce, payload) == SessionControl(kind, nonce)
  {
  }

  lemma SessionBodyLands(verdict: Verdict, kind: nat, nonce: nat, b: seq<Byte>, log: seq<Event>)
    requires |b| >= 5 && kind == GetBits(b[..5], 4, 4) && nonce == GetBits(b[..5], 8, 32)
    requires SessionPayloadSize(kind) > 0
    ensures Lands(verdict, SessionHeader, b, log, ParseSession(b))
  {
    hide Lands, GetBits, SessionPayloadSize, SessionEvent;
    var size, body := SessionPayloadSize(kind), SessionBody(kind, nonce);
    if |b| < 5 + size {
      LandsShort(verdict, body, b[5..], log);
      LandsGo(verdict, SessionHeader, b, log, 5, body, Bad);
    } else {
      var ev := SessionEvent(kind, nonce, b[5..][..size]);
      LandsDeliver(verdict, body, b[5..], log, ev);
      LandsGo(verdict, SessionHeader, b, log, 5, body, Field(ev, size));
    }
  }

  /** Behind the header, once the id is known; `used` bytes of the header are not shared with the body. */
  lemma DispatchLands(verdict: Verdict, c: Cont, b: seq<Byte>, log: seq<Event>, id: nat, used: nat)
    requires c.Sane() && used < c.Size() <= |b|
    requires Resume(c, b[..c.Size()]) == Dispatch(id, used)
    ensures Lands(verdict, c, b, log, Later(ParseBody(id, b[used..]), used))
  {
    hide Lands, GetBits, Resume, ParseCan, ParseUart, ParseUartConfig, ParseGpio, ParseImu, ParseSession;
    var body := b[used..];
    match Dispatch(id, used)
    case Fail =>
      LandsFail(verdict, c, b, log);
    case Go(_, next) =>
      match next {
        case CanFlags(_) => CanLands(verdict, id, body, log);
        case UartFlags(_) => UartLands(verdict, id, body, log);
        case UartBaudrate(_) => UartConfigLands(verdict, id, body, log);
        case GpioHeader => GpioLands(verdict, body, log);
        case ImuHeader => ImuLands(verdict, body, log);
        case SessionHeader => SessionLands(verdict, body, log);
      }
      LandsGo(verdict, c, b, log, used, next, ParseBody(id, body));
  }

  lemma FieldLands(verdict: Verdict, b: seq<Byte>, log: seq<Event>)
    requires b != []
    ensures Lands(verdict, FirstByte, b, log, ParseField(b))
  {
    hide Lands, GetBits, ParseBody;
    var id := GetBits(b[..1], 0, 4);
    assert b[0..] == b;
    if id != EXTEND {
      DispatchLands(verdict, FirstByte, b, log, id, 0);
    } else {
      if |b| < 2 {
        LandsShort(verdict, ExtendedHeader, b, log);
      } else {
        DispatchLands(verdict, ExtendedHeader, b, log, GetBits(b[..2], 4, 8), 1);
      }
      LandsGo(verdict, FirstByte, b, log, 0, ExtendedHeader, ParseField(b));
    }
  }

  // ---------------------------------------------------------------------------------------
  // Whole transfers

  /** One uninterrupted run over a transfer and its end deliver what the plain parser delivers. */
  lemma {:induction false} DriveIsParse(verdict: Verdict, b: seq<Byte>, log: seq<Event>)
    ensures Finish(Drive(verdict, FirstByte, b, log)) == Between(ParseTransfer(verdict, log, b))
    decreases |b|
  {
    hide ParseField;
    if b != [] {
      FieldLands(verdict, b, log);
      match ParseField(b)
      case Bad =>
      case Field(ev, used) =>
        if !Refused(verdict, log, ev) {
          DriveIsParse(verdict, b[used..], log + [ev]);
        } else {
          assert log + [ev] + [Error] == log + [ev, Error];
        }
    }
  }

  /**
   * However a transfer is cut into buffers, feeding them and finishing delivers exactly what the
   * plain parser finds in their concatenation, and leaves the parser ready for the next transfer.
   */
  lemma SlicingInvariance(verdict: Verdict, log: seq<Event>, buffers: seq<seq<Byte>>)
    ensures Finish(FeedAll(verdict, Between(log), buffers))
            == Between(ParseTransfer(verdict, log, Flat(buffers)))
  {
    FeedAllJoins(verdict, Between(log), buffers);
    assert [] + Flat(buffers) == Flat(buffers);
    DriveIsParse(verdict, Flat(buffers), log);
  }

  /** One transfer after another. */
  function FeedTransfers(verdict: Verdict, m: Machine, transfers: seq<seq<seq<Byte>>>): (n: Machine)
    requires m.Suspended()
    ensures n.Suspended()
    decreases |transfers|
  {
    if transfers == [] then m
    else FeedTransfers(verdict, Finish(FeedAll(verdict, m, transfers[0])), transfers[1..])
  }

  ghost function ParseTransfers(verdict: Verdict, log: seq<Event>, transfers: seq<seq<seq<Byte>>>): seq<Event>
    decreases |transfers|
  {
    if transfers == [] then log
    else ParseTransfers(verdict, ParseTransfer(verdict, log, Flat(transfers[0])), transfers[1..])
  }

  /** A bad transfer never affects a later one: each is parsed as on a fresh parser. */
  lemma {:induction false} TransfersAreIndependent(
    verdict: Verdict, log: seq<Event>, transfers: seq<seq<seq<Byte>>>)
    ensures FeedTransfers(verdict, Between(log), transfers)
            == Between(ParseTransfers(verdict, log, transfers))
    decreases |transfers|
  {
    if transfers != [] {
      SlicingInvariance(verdict, log, transfers[0]);
      TransfersAreIndependent(verdict, ParseTransfer(verdict, log, Flat(transfers[0])), transfers[1..]);
    }
  }

  /** A transfer reports at most one error, and nothing after it. */
  lemma {:induction false} OneErrorAndLast(verdict: Verdict, log: seq<Event>, b: seq<Byte>)
    ensures var out := ParseTransfer(verdict, log, b);
            |out| >= |log| && out[..|log|] == log
            && forall i | |log| <= i < |out| - 1 :: out[i] != Error
    decreases |b|
  {
    hide ParseField;
    if b != [] {
      match ParseField(b)
      case Bad =>
      case Field(ev, used) =>
        FieldIsNoError(b);
        if !Refused(verdict, log, ev) {
          OneErrorAndLast(verdict, log + [ev], b[used..]);
          assert (log + [ev])[..|log|] == log;
          var out := ParseTransfer(verdict, log + [ev], b[used..]);
          assert out[..|log| + 1][..|log|] == out[..|log|];
          assert out[|log|] == out[..|log| + 1][|log|];
        }
    }
  }

  lemma FieldIsNoError(b: seq<Byte>)
    requires b != []
    ensures ParseField(b).Field? ==> ParseField(b).ev != Error
  {
    hide GetBits;
  }
}
