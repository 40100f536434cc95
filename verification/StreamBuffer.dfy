/**
 * The writer's buffers: acquired from a transport on demand, filled field by field, and handed
 * back once each.
 */
module StreamBuffers {
  import opened Bytes
  import opened Bitfield
  import opened BufferFilling
  import opened Options
  import opened Protocol
  import opened FieldEncoding

  /** The member now has the value, and no other member changed. */
  ghost predicate MemberSet(b: seq<Byte>, c: seq<Byte>, n: nat, width: nat, value: nat) {
    && |b| == |c| && n + width <= 8 * |c|
    && GetBits(c, n, width) == value
    && forall i: nat, w: nat {:trigger GetBits(c, i, w)} |
         i + w <= 8 * |c| && (i + w <= n || n + width <= i) :: GetBits(c, i, w) == GetBits(b, i, w)
  }

  /** The block is there, and nothing in front of it changed. */
  ghost predicate BlockSet(b: seq<Byte>, c: seq<Byte>, at: nat, block: seq<Byte>) {
    && |b| == |c| && at + |block| <= |c|
    && c[at..at + |block|] == block && c[..at] == b[..at]
  }

  /** A stretch of somebody's memory. */
  datatype Span = Span(mem: array<Byte>, from: nat, size: nat) {
    ghost predicate Fits() {
      from + size <= mem.Length
    }

    ghost function Bytes(): (b: seq<Byte>)
      requires Fits()
      reads mem
      ensures |b| == size
    {
      mem[from..from + size]
    }

    /** Stores a member of the structure at `at`. */
    method Set(at: nat, index: nat, width: nat, value: nat)
      requires Fits() && value < Pow2(width)
      requires Bitfield.Fits(size, 8 * at + index, width)
      modifies mem
      ensures MemberSet(old(Bytes()), Bytes(), 8 * at + index, width, value)
      ensures mem[..from] == old(mem[..from])
    {
      hide GetBits, SetBits, MemberSet;
      ghost var before := mem[..];
      assert before[from..from + size] == Bytes();
      WriteBits(mem, 8 * from + (8 * at + index), width, value);
      SetInside(before, from, size, 8 * at + index, width, value);
      SetHolds(before[from..from + size], 8 * at + index, width, value);
      assert mem[..][from..from + size] == Bytes();
      assert mem[..][..from] == mem[..from] && before[..from] == old(mem[..from]);
    }

    method SetFlag(at: nat, index: nat, value: bool)
      requires Fits() && 8 * at + index < 8 * size
      modifies mem
      ensures MemberSet(old(Bytes()), Bytes(), 8 * at + index, 1, if value then 1 else 0)
      ensures mem[..from] == old(mem[..from])
    {
      Set(at, index, 1, if value then 1 else 0);
    }

    method Copy(at: nat, block: seq<Byte>)
      requires Fits() && at + |block| <= size
      modifies mem
      ensures BlockSet(old(Bytes()), Bytes(), at, block)
      ensures mem[..from] == old(mem[..from])
    {
      ghost var before := Bytes();
      var start := from + at;
      forall j | start <= j < start + |block| {
        mem[j] := block[j - start];
      }
      assert forall j | 0 <= j < size :: Bytes()[j] == mem[from + j];
      assert forall j | 0 <= j < size :: before[j] == old(mem[from + j]);
    }
  }

  lemma SetHolds(b: seq<Byte>, n: nat, width: nat, value: nat)
    requires n + width <= 8 * |b| && value < Pow2(width)
    ensures MemberSet(b, SetBits(b, n, width, value), n, width, value)
  {
    hide SetBits, GetBits;
    GetAfterSet(b, n, width, value);
    ModUnique(value, Pow2(width), 0, value);
    forall i: nat, w: nat | i + w <= 8 * |b| && (i + w <= n || n + width <= i)
      ensures GetBits(SetBits(b, n, width, value), i, w) == GetBits(b, i, w)
    {
      GetOther(b, n, width, value, i, w);
    }
  }

  lemma BitWindow(b: seq<Byte>, from: nat, to: nat, m: nat)
    requires from <= to <= |b| && m < 8 * (to - from)
    ensures BitAt(b[from..to], m) == BitAt(b, 8 * from + m)
  {
    hide TestBit;
    assert (8 * from + m) / 8 == from + m / 8 && (8 * from + m) % 8 == m % 8;
  }

  /** Setting a member inside a stretch is setting it in the stretch, and touches nothing before it. */
  lemma SetInside(b: seq<Byte>, from: nat, size: nat, n: nat, width: nat, value: nat)
    requires from + size <= |b| && n + width <= 8 * size
    ensures var after := SetBits(b, 8 * from + n, width, value);
            && after[from..from + size] == SetBits(b[from..from + size], n, width, value)
            && after[..from] == b[..from]
  {
    hide SetBits, BitAt, TestBit;
    var span := b[from..from + size];
    var after := SetBits(b, 8 * from + n, width, value);
    forall m: nat | m < 8 * size
      ensures BitAt(after[from..from + size], m) == BitAt(SetBits(span, n, width, value), m)
    {
      BitWindow(after, from, from + size, m);
      BitWindow(b, from, from + size, m);
      SetBitsAt(b, 8 * from + n, width, value, 8 * from + m);
      SetBitsAt(span, n, width, value, m);
    }
    BitwiseEqual(after[from..from + size], SetBits(span, n, width, value));
    forall m: nat | m < 8 * from ensures BitAt(after[0..from], m) == BitAt(b[0..from], m) {
      BitWindow(after, 0, from, m);
      BitWindow(b, 0, from, m);
      SetBitsAt(b, 8 * from + n, width, value, m);
    }
    BitwiseEqual(after[0..from], b[0..from]);
    assert after[0..from] == after[..from] && b[0..from] == b[..from];
  }

  /** Members within a common prefix are the same. */
  lemma SamePrefixBits(b: seq<Byte>, c: seq<Byte>, at: nat)
    requires at <= |b| == |c| && b[..at] == c[..at]
    ensures forall i: nat, w: nat {:trigger GetBits(c, i, w)} | i + w <= 8 * at ::
              GetBits(b, i, w) == GetBits(c, i, w)
  {
    hide GetBits, TestBit;
    forall i: nat, w: nat | i + w <= 8 * at ensures GetBits(b, i, w) == GetBits(c, i, w) {
      forall n: nat | i <= n < i + w ensures BitAt(b, n) == BitAt(c, i + (n - i)) {
        assert b[..at][n / 8] == c[..at][n / 8];
      }
      GetBitsSame(b, i, c, i, w);
    }
  }

  // ---------------------------------------------------------------------------------------

  /** What became of a buffer that was handed out. */
  datatype Fate = Transmitted(payload: seq<Byte>) | Released

  datatype TransportBuffer = TransportBuffer(id: nat, data: array<Byte>)

  /** The other side: it may run out of buffers, and every one it lends must come back once. */
  class Transport {
    const grants: nat -> bool
    var attempts: nat
    var acquired: nat
    var fate: map<nat, Fate>
    var wire: seq<seq<Byte>>

    ghost predicate AllHandedBack()
      reads this
    {
      forall k: nat :: k in fate <==> k < acquired
    }

    constructor (grants: nat -> bool)
      ensures this.grants == grants && attempts == acquired == 0 && fate == map[] && wire == []
    {
      this.grants := grants;
      attempts, acquired, fate, wire := 0, 0, map[], [];
    }

    method AcquireTransmitBuffer() returns (buffer: Option<TransportBuffer>)
      modifies `attempts, `acquired
      ensures attempts == old(attempts) + 1
      ensures buffer.Some? <==> grants(old(attempts))
      ensures acquired == old(acquired) + if buffer.Some? then 1 else 0
      ensures buffer.Some? ==>
                && buffer.value.id == old(acquired)
                && fresh(buffer.value.data) && buffer.value.data.Length == BUFFER_SIZE
    {
      attempts := attempts + 1;
      if !grants(attempts - 1) {
        return None;
      }
      var data := new Byte[BUFFER_SIZE];
      buffer := Some(TransportBuffer(acquired, data));
      acquired := acquired + 1;
    }

    method Transmit(buffer: TransportBuffer, size: nat)
      requires buffer.id < acquired && buffer.id !in fate && size <= buffer.data.Length
      modifies `fate, `wire
      ensures fate == old(fate)[buffer.id := Transmitted(buffer.data[..size])]
      ensures wire == old(wire) + [buffer.data[..size]]
    {
      fate := fate[buffer.id := Transmitted(buffer.data[..size])];
      wire := wire + [buffer.data[..size]];
    }

    method ReleaseTransmitBuffer(buffer: TransportBuffer)
      requires buffer.id < acquired && buffer.id !in fate
      modifies `fate
      ensures fate == old(fate)[buffer.id := Released]
    {
      fate := fate[buffer.id := Released];
    }
  }

  // ---------------------------------------------------------------------------------------

  /** A field in a buffer: what was asked for and the bytes that spell it. */
  datatype Piece = Piece(request: Request, bytes: seq<Byte>) {
    ghost predicate Good() {
      Typed(request) && |bytes| == Required(request) > 0 && Spells(bytes, request)
    }
  }

  /** The bytes of the pieces, one after the other. */
  ghost function Image(pieces: seq<Piece>): seq<Byte> {
    if pieces == [] then [] else Image(pieces[..|pieces| - 1]) + pieces[|pieces| - 1].bytes
  }

  ghost function Requests(pieces: seq<Piece>): (rs: seq<Request>)
    ensures |rs| == |pieces|
  {
    seq(|pieces|, (i: int) requires 0 <= i < |pieces| => pieces[i].request)
  }

  /** The requests of the transmitted buffers, in order. */
  ghost function History(sent: seq<seq<Piece>>): seq<Request> {
    if sent == [] then [] else History(sent[..|sent| - 1]) + Requests(sent[|sent| - 1])
  }

  ghost predicate AllGood(pieces: seq<Piece>) {
    forall p | p in pieces :: p.Good()
  }

  function Sizes(pieces: seq<Piece>): (sizes: seq<nat>)
    ensures |sizes| == |pieces|
  {
    seq(|pieces|, (i: int) requires 0 <= i < |pieces| => |pieces[i].bytes|)
  }

  function SizesOfEach(sent: seq<seq<Piece>>): (sizes: seq<seq<nat>>)
    ensures |sizes| == |sent|
  {
    seq(|sent|, (i: int) requires 0 <= i < |sent| => Sizes(sent[i]))
  }

  lemma {:induction false} ImageSize(pieces: seq<Piece>)
    ensures Total(Sizes(pieces)) == |Image(pieces)|
  {
    if pieces != [] {
      var n := |pieces| - 1;
      ImageSize(pieces[..n]);
      assert Sizes(pieces)[..n] == Sizes(pieces[..n]);
    }
  }

  lemma SizesSnoc(sent: seq<seq<Piece>>, open: seq<Piece>, piece: Piece)
    ensures Sizes(open + [piece]) == Sizes(open) + [|piece.bytes|]
    ensures SizesOfEach(sent + [open]) == SizesOfEach(sent) + [Sizes(open)]
  {
  }

  lemma ImageEmpty(pieces: seq<Piece>)
    requires AllGood(pieces)
    ensures Image(pieces) == [] <==> pieces == []
  {
    if pieces != [] {
      assert pieces[|pieces| - 1].Good();
    }
  }

  lemma HistorySnoc(sent: seq<seq<Piece>>, last: seq<Piece>)
    ensures History(sent + [last]) == History(sent) + Requests(last)
  {
    assert (sent + [last])[..|sent|] == sent;
  }

  lemma Snoc(sent: seq<seq<Piece>>, open: seq<Piece>, piece: Piece)
    ensures Image(open + [piece]) == Image(open) + piece.bytes
    ensures History(sent) + Requests(open + [piece]) == (History(sent) + Requests(open)) + [piece.request]
    ensures AllGood(open) && piece.Good() ==> AllGood(open + [piece])
  {
    hide Piece.Good;
    assert (open + [piece])[..|open|] == open;
    assert Requests(open + [piece]) == Requests(open) + [piece.request];
  }

  class StreamBuffer {
    const transport: Transport
    /** What the transport had sent before this writer. */
    ghost const base: nat
    var buffer: Option<TransportBuffer>
    var current: nat
    var end: nat
    /** The fields in the open buffer, and those of each transmitted one. */
    ghost var open: seq<Piece>
    ghost var sent: seq<seq<Piece>>

    ghost function Memory(): set<object>
      reads this
    {
      {this, transport} + if buffer.Some? then {buffer.value.data} else {}
    }

    /** Every buffer the transport lent but the one held has been handed back. */
    ghost predicate Accounted()
      reads this, transport
    {
      forall k: nat :: k in transport.fate <==>
        k < transport.acquired && (buffer.Some? ==> k != buffer.value.id)
    }

    /** Each transmitted buffer holds whole fields, and so does the open one. */
    ghost predicate Tidy(reserved: nat)
      reads this, transport, if buffer.Some? then {buffer.value.data} else {}
    {
      && Accounted()
      && |transport.wire| == base + |sent|
      && (forall i | 0 <= i < |sent| ::
            transport.wire[base + i] == Image(sent[i]) && AllGood(sent[i]) && sent[i] != [])
      && AllGood(open)
      && match buffer
         case None => open == [] && current == end == 0
         case Some(b) =>
           && b.id < transport.acquired
           && b.data.Length == end == BUFFER_SIZE
           && current <= end && current == |Image(open)| + reserved
           && b.data[..current - reserved] == Image(open)
    }

    ghost predicate Valid()
      reads this, transport, if buffer.Some? then {buffer.value.data} else {}
    {
      Tidy(0)
    }

    /** How the fields are divided over buffers, by their sizes. */
    ghost function Filled(): Filling
      reads this, transport
    {
      Filling(SizesOfEach(sent), Sizes(open), buffer.Some?, transport.attempts)
    }

    /** Everything written so far, in order. */
    ghost function Written(): seq<Request>
      reads this
    {
      History(sent) + Requests(open)
    }

    /**
     * A cyclic writer takes its first buffer at once. Whatever used the transport before has handed
     * every buffer back, as every destroyed writer has.
     */
    constructor (transport: Transport, cyclic: bool)
      requires transport.AllHandedBack()
      modifies transport
      ensures this.transport == transport && fresh(Memory() - {transport})
      ensures transport.wire == old(transport.wire) && base == |transport.wire|
      ensures buffer.Some? <==> cyclic && transport.grants(old(transport.attempts))
      ensures Filled() == Started(cyclic, old(transport.attempts), transport.grants)
      ensures Valid() && Written() == []
    {
      this.transport, this.base := transport, |transport.wire|;
      buffer, current, end := None, 0, 0;
      open, sent := [], [];
      new;
      if cyclic {
        var ok := InitBuffer();
      }
    }

    /** Room in the open buffer, or in the next one; then no buffer but this one is touched. */
    method Allocate(size: nat) returns (span: Option<Span>)
      requires Valid() && 0 < size <= BUFFER_SIZE
      modifies this, transport
      ensures span.None? <==>
                old(buffer.None? || |Image(open)| + size > 1023) && !transport.grants(old(transport.attempts))
      ensures old(buffer.Some? && |Image(open)| + size <= 1023) ==>
                && buffer == old(buffer) && open == old(open) && sent == old(sent)
                && unchanged(transport)
      ensures Filled() == Room(old(Filled()), size, transport.grants)
      ensures Written() == old(Written())
      ensures fresh(Memory() - old(Memory()))
      ensures span.None? ==> buffer.None? && Valid()
      ensures span.Some? ==>
                && buffer.Some? && Tidy(size)
                && span.value == Span(buffer.value.data, current - size, size)
    {
      hide Image;
      assert current <= end;
      ImageSize(open);
      if buffer.None? {
        var ok := InitBuffer();
        if !ok {
          return None;
        }
      } else if end - current < size {
        FinalizeBuffer();
        var ok := InitBuffer();
        if !ok {
          return None;
        }
      }
      var begin := current;
      current := current + size;
      return Some(Span(buffer.value.data, begin, size));
    }

    /** Records that the bytes just reserved now spell a field. */
    ghost method Append(piece: Piece)
      requires piece.Good() && buffer.Some? && Tidy(|piece.bytes|)
      requires piece.bytes == buffer.value.data[current - |piece.bytes|..current]
      modifies `open
      ensures Valid() && Written() == old(Written()) + [piece.request]
      ensures Filled() == old(Filled()).(open := old(Filled().open) + [|piece.bytes|])
    {
      hide Image, History, Requests, Piece.Good;
      Snoc(sent, open, piece);
      SizesSnoc(sent, open, piece);
      var before := current - |piece.bytes|;
      assert buffer.value.data[..current] == buffer.value.data[..before] + piece.bytes;
      open := open + [piece];
    }

    method InitBuffer() returns (ok: bool)
      requires buffer.None? && Valid()
      modifies this, transport
      ensures transport.wire == old(transport.wire)
      ensures Filled() == old(Filled()).(held := ok, attempts := old(transport.attempts) + 1)
      ensures sent == old(sent)
      ensures ok <==> buffer.Some?
      ensures ok <==> transport.grants(old(transport.attempts))
      ensures Valid() && Written() == old(Written()) && open == [] && current == 0
      ensures fresh(Memory() - old(Memory()))
    {
      assert buffer.None? && current == 0 && end == 0;
      buffer := transport.AcquireTransmitBuffer();
      if buffer.None? {
        return false;
      }
      current := 0;
      end := buffer.value.data.Length;
      assert end == BUFFER_SIZE;
      return true;
    }

    /** Transmits what was written, or gives an unused buffer back. */
    method FinalizeBuffer()
      requires buffer.Some? && Valid()
      modifies this, transport
      ensures buffer.None? && Valid() && Written() == old(Written())
      ensures Filled() == Close(old(Filled()))
      ensures transport.attempts == old(transport.attempts)
      ensures transport.acquired == old(transport.acquired)
      ensures transport.fate == old(transport.fate)[old(buffer.value.id) :=
                if old(open) == [] then Released else Transmitted(Image(old(open)))]
    {
      assert current <= end;
      ImageEmpty(open);
      var payloadSize := current;
      if payloadSize == 0 {
        transport.ReleaseTransmitBuffer(buffer.value);
      } else {
        transport.Transmit(buffer.value, payloadSize);
        HistorySnoc(sent, open);
        SizesSnoc(sent, open, open[0]);
        sent := sent + [open];
      }
      open := [];
      buffer, current, end := None, 0, 0;
    }

    /** What the destructor does. */
    method Destroy()
      requires Valid()
      modifies this, transport
      ensures buffer.None? && Valid() && Written() == old(Written())
      ensures transport.AllHandedBack() && Filled() == Close(old(Filled()))
    {
      if buffer.Some? {
        FinalizeBuffer();
      }
    }
  }
}
