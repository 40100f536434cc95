/**
 * The resumable parser: what each suspension point waits for and does, as functions on values.
 *
 * A `Cont` stands for a suspended coroutine: it asks to peek `Size()` contiguous bytes, and
 * `Resume` says what happens once it has them.
 */
module PeekMachine {
  import opened Bytes
  import opened Bitfield
  import opened Options
  import opened Protocol
  import opened FieldParser

  datatype Cont =
    | FirstByte
    | ExtendedHeader
    | CanFlags(id: nat)
    | CanHeader(id: nat, isFd: bool, extended: bool, isRemote: bool, hasData: bool)
    | CanTail(id: nat, view: CanView, length: nat, stamped: bool)
    | UartFlags(id: nat)
    | UartLength(id: nat, idle: bool)
    | UartData(id: nat, idle: bool, length: nat)
    | UartBaudrate(id: nat)
    | GpioHeader
    | GpioStamp(channel: nat, high: bool)
    | GpioValue(channel: nat)
    | GpioConfig(channel: nat, digital: bool, stamped: bool)
    | ImuHeader
    | ImuBody(kind: nat)
    | SessionHeader
    | SessionBody(kind: nat, nonce: nat)
  {
    /** A suspension point that can be reached: its window is neither empty nor too large. */
    predicate Sane() {
      match this
      case CanTail(_, _, length, stamped) => length <= 8 && (length > 0 || stamped)
      case UartData(_, _, length) => 0 < length <= BUFFER_SIZE
      case ImuBody(kind) => ImuPayloadSize(kind) > 0
      case SessionBody(kind, _) => SessionPayloadSize(kind) > 0
      case _ => true
    }

    function Size(): (n: nat)
      requires Sane()
      ensures 0 < n <= BUFFER_SIZE
    {
      match this
      case FirstByte => 1
      case ExtendedHeader => 2
      case CanFlags(_) => 1
      case CanHeader(_, _, extended, _, _) => CanHeaderSize(extended)
      case CanTail(_, _, length, stamped) => length + if stamped then 4 else 0
      case UartFlags(_) => 1
      case UartLength(_, _) => 2
      case UartData(_, _, length) => length
      case UartBaudrate(_) => 5
      case GpioHeader => 2
      case GpioStamp(_, _) => 4
      case GpioValue(_) => 2
      case GpioConfig(_, _, _) => 3
      case ImuHeader => 1
      case ImuBody(kind) => ImuPayloadSize(kind)
      case SessionHeader => 5
      case SessionBody(kind, _) => SessionPayloadSize(kind)
    }

    /** Decreases whenever a point moves on without consuming anything. */
    function Rank(): nat {
      match this
      case FirstByte => 3
      case ExtendedHeader => 2
      case CanFlags(_) => 1
      case UartFlags(_) => 1
      case _ => 0
    }
  }

  /** Give up the field; go on at `next` having consumed `used` bytes; or deliver the whole window. */
  datatype Action = Fail | Go(used: nat, next: Cont) | Deliver(ev: Event)

  /** Where the id in a field header leads; `used` bytes of the window are consumed on the way. */
  function Dispatch(id: nat, used: nat): Action {
    if IsCan(id) then Go(used, CanFlags(id))
    else if IsUart(id) then Go(used, UartFlags(id))
    else if IsUartConfig(id) then Go(used, UartBaudrate(id))
    else if id == GPIO then Go(used, GpioHeader)
    else if id == IMU then Go(used, ImuHeader)
    else if id == SESSION then Go(used, SessionHeader)
    else Fail
  }

  /** What every step must keep: only growing windows, and progress. */
  predicate Sound(c: Cont, a: Action)
    requires c.Sane()
  {
    a.Go? ==>
      && a.next.Sane() && !a.next.FirstByte? && a.used <= c.Size()
      && (a.used < c.Size() ==> a.next.Size() >= c.Size() - a.used)
      && (a.used == 0 ==> a.next.Rank() < c.Rank())
  }

  /** What the point `c` does once the window `w` it asked for is there. */
  function Resume(c: Cont, w: seq<Byte>): (a: Action)
    requires c.Sane() && |w| == c.Size()
    ensures Sound(c, a)
  {
    match c
    case FirstByte => ResumeFieldHeader(c, w)
    case ExtendedHeader => ResumeFieldHeader(c, w)
    case CanFlags(_) => ResumeCan(c, w)
    case CanHeader(_, _, _, _, _) => ResumeCan(c, w)
    case CanTail(_, _, _, _) => ResumeCan(c, w)
    case UartFlags(_) => ResumeUart(c, w)
    case UartLength(_, _) => ResumeUart(c, w)
    case UartData(_, _, _) => ResumeUart(c, w)
    case UartBaudrate(_) => ResumeUart(c, w)
    case GpioHeader => ResumeGpioHeader(w)
    case GpioStamp(_, _) => ResumeGpioPayload(c, w)
    case GpioValue(_) => ResumeGpioPayload(c, w)
    case GpioConfig(_, _, _) => ResumeGpioPayload(c, w)
    case ImuHeader => ResumeImu(c, w)
    case ImuBody(_) => ResumeImu(c, w)
    case SessionHeader => ResumeSession(c, w)
    case SessionBody(_, _) => ResumeSession(c, w)
  }

  function ResumeFieldHeader(c: Cont, w: seq<Byte>): (a: Action)
    requires c.FirstByte? || c.ExtendedHeader?
    requires |w| == c.Size()
    ensures Sound(c, a)
  {
    match c
    case FirstByte =>
      var id := GetBits(w, 0, 4);
      if id == EXTEND then Go(0, ExtendedHeader) else Dispatch(id, 0)
    case ExtendedHeader => Dispatch(GetBits(w, 4, 8), 1)
  }

  function ResumeImu(c: Cont, w: seq<Byte>): (a: Action)
    requires c.ImuHeader? || c.ImuBody?
    requires c.Sane() && |w| == c.Size()
    ensures Sound(c, a)
  {
    match c
    case ImuHeader =>
      var kind := GetBits(w, 4, 4);
      if ImuPayloadSize(kind) == 0 then Fail else Go(1, ImuBody(kind))
    case ImuBody(kind) => Deliver(Imu(kind, w))
  }

  function ResumeSession(c: Cont, w: seq<Byte>): (a: Action)
    requires c.SessionHeader? || c.SessionBody?
    requires c.Sane() && |w| == c.Size()
    ensures Sound(c, a)
  {
    match c
    case SessionHeader =>
      var kind, nonce := GetBits(w, 4, 4), GetBits(w, 8, 32);
      if SessionPayloadSize(kind) == 0 then Deliver(SessionControl(kind, nonce))
      else Go(5, SessionBody(kind, nonce))
    case SessionBody(kind, nonce) => Deliver(SessionEvent(kind, nonce, w))
  }

  function ResumeCan(c: Cont, w: seq<Byte>): (a: Action)
    requires c.CanFlags? || c.CanHeader? || c.CanTail?
    requires c.Sane() && |w| == c.Size()
    ensures Sound(c, a)
  {
    match c
    case CanFlags(id) => Go(0, CanHeader(id, Flag(w, 4), Flag(w, 5), Flag(w, 6), Flag(w, 7)))
    case CanHeader(_, _, _, _, _) => ResumeCanHeader(c, w)
    case CanTail(id, view, length, stamped) =>
      Deliver(Can(id, view.(data := w[..length],
                            timestamp := if stamped then Some(Word32(w[length..])) else None)))
  }

  function ResumeUart(c: Cont, w: seq<Byte>): (a: Action)
    requires c.UartFlags? || c.UartLength? || c.UartData? || c.UartBaudrate?
    requires c.Sane() && |w| == c.Size()
    ensures Sound(c, a)
  {
    match c
    case UartFlags(id) =>
      if Flag(w, 5) then Go(0, UartLength(id, Flag(w, 4)))
      else UartBody(id, Flag(w, 4), GetBits(w, 6, 2), 1)
    case UartLength(id, idle) => UartBody(id, idle, GetBits(w, 6, 10), 2)
    case UartData(id, idle, _) => Deliver(Uart(id, w, idle))
    case UartBaudrate(id) => Deliver(UartConfig(id, GetBits(w, 4, 32)))
  }

  function ResumeGpioPayload(c: Cont, w: seq<Byte>): (a: Action)
    requires c.GpioStamp? || c.GpioValue? || c.GpioConfig?
    requires |w| == c.Size()
    ensures Sound(c, a)
  {
    match c
    case GpioStamp(channel, high) => Deliver(GpioDigital(channel, high, Some(GetBits(w, 0, 32))))
    case GpioValue(channel) => Deliver(GpioAnalog(channel, GetBits(w, 0, 16)))
    case GpioConfig(channel, digital, stamped) =>
      match GpioConfigEvent(digital, channel, GpioConfigIn(w, stamped))
      case Bad => Fail
      case Field(ev, _) => Deliver(ev)
  }

  function ResumeCanHeader(c: Cont, w: seq<Byte>): (a: Action)
    requires c.CanHeader? && |w| == c.Size()
    ensures Sound(c, a)
  {
    var length := if c.hasData then CanLengthIn(w, c.extended) else 0;
    var view := CanView(CanIdIn(w, c.extended), [], c.isFd, c.extended, c.isRemote, None);
    var stamped := CanStampedIn(w, c.extended);
    if length == 0 && !stamped then Deliver(Can(c.id, view))
    else Go(|w|, CanTail(c.id, view, length, stamped))
  }

  function ResumeGpioHeader(w: seq<Byte>): (a: Action)
    requires |w| == 2
    ensures Sound(GpioHeader, a)
  {
    var kind, channel, stamped := GetBits(w, 4, 4), GetBits(w, 8, 6), Flag(w, 15);
    if kind == DIGITAL_LOW || kind == DIGITAL_HIGH then
      if stamped then Go(2, GpioStamp(channel, kind == DIGITAL_HIGH))
      else Deliver(GpioDigital(channel, kind == DIGITAL_HIGH, None))
    else if kind == ANALOG then
      if stamped then Fail else Go(2, GpioValue(channel))
    else if kind == DIGITAL_READ_CONFIG || kind == ANALOG_READ_CONFIG then
      Go(2, GpioConfig(channel, kind == DIGITAL_READ_CONFIG, stamped))
    else Fail
  }

  function UartBody(id: nat, idle: bool, length: nat, size: nat): Action {
    if length > BUFFER_SIZE then Fail
    else if length == 0 then Deliver(Uart(id, [], idle))
    else Go(size, UartData(id, idle, length))
  }

  // ---------------------------------------------------------------------------------------
  // The machine

  /** A suspended parser: the bytes it holds back, and whether it ignores the rest of a transfer. */
  datatype Machine = Machine(cont: Cont, held: seq<Byte>, discard: bool, log: seq<Event>) {
    ghost predicate Suspended() {
      && cont.Sane()
      && |held| < cont.Size()
      && (discard ==> cont.FirstByte?)
    }
  }

  function Between(log: seq<Event>): Machine {
    Machine(FirstByte, [], false, log)
  }

  function Discarding(log: seq<Event>): Machine {
    Machine(FirstByte, [], true, log + [Error])
  }

  /** Runs from `c` with all of `u` at hand until it must wait for more or gives up. */
  function Drive(verdict: Verdict, c: Cont, u: seq<Byte>, log: seq<Event>): (m: Machine)
    requires c.Sane()
    ensures m.Suspended()
    decreases |u|, c.Rank()
  {
    if |u| < c.Size() then Machine(c, u, false, log)
    else
      match Resume(c, u[..c.Size()])
      case Fail => Discarding(log)
      case Go(used, next) => Drive(verdict, next, u[used..], log)
      case Deliver(ev) =>
        if Refused(verdict, log, ev) then Discarding(log + [ev])
        else Drive(verdict, FirstByte, u[c.Size()..], log + [ev])
  }

  function Feed(verdict: Verdict, m: Machine, buffer: seq<Byte>): (n: Machine)
    requires m.Suspended()
    ensures n.Suspended()
  {
    if buffer == [] || m.discard then m else Drive(verdict, m.cont, m.held + buffer, m.log)
  }

  function Finish(m: Machine): (n: Machine)
    requires m.Suspended()
    ensures n.Suspended()
  {
    if m.cont.FirstByte? then m.(discard := false) else Between(m.log + [Error])
  }

  function FeedAll(verdict: Verdict, m: Machine, buffers: seq<seq<Byte>>): (n: Machine)
    requires m.Suspended()
    ensures n.Suspended()
    decreases |buffers|
  {
    if buffers == [] then m else FeedAll(verdict, Feed(verdict, m, buffers[0]), buffers[1..])
  }
}
