/** What the lines of an Intel HEX file mean, said without the reader that goes through them. */
module IntelHexMeaning {
  import opened Bytes
  import opened Options
  import opened IntelHex
  import opened IntelHexRoundTrip

  // ---------------------------------------------------------------------------------------
  // One line

  /** What the digits of a record spell: size, offset, kind, payload, and whatever checks the sum. */
  function Frame(kind: Byte, offset: nat, payload: seq<Byte>, check: Byte): seq<Byte>
    requires offset < 65536 && |payload| < 256
  {
    [|payload|, offset / 256, offset % 256, kind] + payload + [check]
  }

  lemma Framed(body: seq<Byte>, kind: Byte, offset: nat, payload: seq<Byte>)
    requires |body| >= 5 && |body| - 5 == body[0]
    requires kind == body[3] && offset == Word16(body[2], body[1]) && payload == body[4..|body| - 1]
    ensures |payload| < 256 && offset < 65536 && body == Frame(kind, offset, payload, body[|body| - 1])
  {
    assert body == body[..4] + body[4..|body| - 1] + [body[|body| - 1]];
  }

  lemma Unframed(kind: Byte, offset: nat, payload: seq<Byte>, check: Byte)
    requires offset < 65536 && |payload| < 256
    ensures var body := Frame(kind, offset, payload, check);
            && |body| >= 5 && |body| - 5 == body[0]
            && kind == body[3] && offset == Word16(body[2], body[1]) && payload == body[4..|body| - 1]
  {
  }

  /**
   * A line is a record if and only if, blanks at its ends aside, it is a colon and hexadecimal
   * digits for the payload size, the offset, the kind, the payload, and a byte that makes the sum
   * of all a multiple of 256.
   */
  lemma DecodeExactly(line: string, kind: Byte, offset: nat, payload: seq<Byte>)
    ensures Decode(line) == Record(kind, offset, payload) <==>
              && |payload| < 256 && offset < 65536
              && Strip(line) != "" && Strip(line)[0] == ':'
              && exists check: Byte ::
                   && FromHex(Strip(line)[1..]) == Some(Frame(kind, offset, payload, check))
                   && Sum(Frame(kind, offset, payload, check)) % 256 == 0
  {
    hide Sum, Strip, FromHex, Frame, Word16;
    var text := Strip(line);
    if Decode(line) == Record(kind, offset, payload) {
      Framed(FromHex(text[1..]).value, kind, offset, payload);
    }
    if |payload| < 256 && offset < 65536 {
      forall check: Byte
        ensures var body := Frame(kind, offset, payload, check);
                && |body| >= 5 && |body| - 5 == body[0]
                && kind == body[3] && offset == Word16(body[2], body[1]) && payload == body[4..|body| - 1]
      {
        Unframed(kind, offset, payload, check);
      }
    }
  }

  /** The digits are read in either case. */
  lemma DigitsInEitherCase(n: nat)
    requires n < 16
    ensures DigitValue("0123456789ABCDEF"[n]) == Some(n) && DigitValue("0123456789abcdef"[n]) == Some(n)
  {
  }

  lemma NoOtherDigits(c: char)
    ensures DigitValue(c).Some? <==> c in "0123456789ABCDEFabcdef"
  {
    var all := "0123456789ABCDEFabcdef";
    assert all[0] == '0' && all[1] == '1' && all[2] == '2' && all[3] == '3' && all[4] == '4' && all[5] == '5';
    assert all[6] == '6' && all[7] == '7' && all[8] == '8' && all[9] == '9' && all[10] == 'A' && all[11] == 'B';
    assert all[12] == 'C' && all[13] == 'D' && all[14] == 'E' && all[15] == 'F' && all[16] == 'a' && all[17] == 'b';
    assert all[18] == 'c' && all[19] == 'd' && all[20] == 'e' && all[21] == 'f';
    if DigitValue(c).Some? {
      assert c == all[if c <= '9' then c as int - '0' as int
                      else if c <= 'F' then c as int - 'A' as int + 10 else c as int - 'a' as int + 16];
    }
  }

  /** Blanks between the pairs of digits do not count, nor do those around a line. */
  lemma BlanksDoNotCount(s: string, c: char)
    requires c as int == 32 || 9 <= c as int <= 13
    ensures FromHex([c] + s) == FromHex(s) && Strip([c] + s) == Strip(s) && Strip(s + [c]) == Strip(s)
  {
    assert ([c] + s)[1..] == s;
    BlankAtEnd(s, c);
  }

  lemma {:induction false} BlankAtEnd(s: string, c: char)
    requires IsBlank(c)
    ensures Strip(s + [c]) == Strip(s)
  {
    assert (s + [c])[..|s|] == s;
    if s != "" && IsBlank(s[0]) {
      assert (s + [c])[1..] == s[1..] + [c];
      BlankAtEnd(s[1..], c);
    } else if s == "" {
      assert (s + [c])[1..] == "";
    }
  }

  // ---------------------------------------------------------------------------------------
  // All lines

  /** A byte of the file: which line it is on, and which byte of that line's payload it is. */
  datatype Place = Place(line: nat, index: nat)

  ghost predicate IsData(lines: seq<string>, p: Place) {
    && p.line < |lines|
    && var d := Decode(lines[p.line]);
       d.Record? && d.kind == 0 && p.index < |d.payload|
  }

  ghost function DataAt(lines: seq<string>, p: Place): Byte
    requires IsData(lines, p)
  {
    Decode(lines[p.line]).payload[p.index]
  }

  /** A base and whether addresses wrap around within 64 KiB above it. */
  datatype Base = Base(value: nat, wraps: bool)

  /** The base in force on a line is the one that a line before it selected last. */
  ghost function BaseAt(lines: seq<string>, line: nat): Base
    requires line <= |lines|
  {
    if line == 0 then Base(0, false)
    else
      var d := Decode(lines[line - 1]);
      if d.Record? && |d.payload| == 2 && d.kind == 2 then Base(16 * (256 * (d.payload[0] as int) + d.payload[1]), true)
      else if d.Record? && |d.payload| == 2 && d.kind == 4 then
        Base(65536 * (256 * (d.payload[0] as int) + d.payload[1]), false)
      else BaseAt(lines, line - 1)
  }

  ghost function Address(lines: seq<string>, p: Place): nat
    requires IsData(lines, p)
  {
    var b, offset := BaseAt(lines, p.line), Decode(lines[p.line]).offset + p.index;
    b.value + if b.wraps then offset % 65536 else offset
  }

  /** Empty, or a record of kind 0 to 5 with two bytes of payload if it selects a base. */
  ghost predicate Readable(line: string) {
    var d := Decode(line);
    d.Empty? || (d.Record? && d.kind <= 5 && (d.kind == 2 || d.kind == 4 ==> |d.payload| == 2))
  }

  /** In front of the i-th byte of a line. */
  predicate Before(p: Place, line: nat, i: nat) {
    p.line < line || (p.line == line && p.index < i)
  }

  ghost predicate Distinct(lines: seq<string>, line: nat, i: nat) {
    forall p, q | IsData(lines, p) && IsData(lines, q) && Before(p, line, i) && Before(q, line, i) && p != q ::
      Address(lines, p) != Address(lines, q)
  }

  /** The memory is exactly the bytes in front of a place, each at its address. */
  ghost predicate Holds(lines: seq<string>, line: nat, i: nat, memory: Memory) {
    && (forall p | IsData(lines, p) && Before(p, line, i) ::
          Address(lines, p) in memory && memory[Address(lines, p)] == DataAt(lines, p))
    && (forall a | a in memory ::
          exists p :: IsData(lines, p) && Before(p, line, i) && Address(lines, p) == a)
  }

  ghost predicate Meant(lines: seq<string>, line: nat, i: nat, r: Reader)
    requires line <= |lines|
  {
    && Base(r.base, r.segmentMode) == BaseAt(lines, line)
    && Holds(lines, line, i, r.memory)
  }

  lemma OneMoreByte(lines: seq<string>, p: Place, memory: Memory)
    requires IsData(lines, p) && Holds(lines, p.line, p.index, memory) && Distinct(lines, p.line, p.index)
    ensures Distinct(lines, p.line, p.index + 1) <==> Address(lines, p) !in memory
    ensures Address(lines, p) !in memory ==>
              Holds(lines, p.line, p.index + 1, memory[Address(lines, p) := DataAt(lines, p)])
  {
    hide IsData, Address, DataAt;
    var a := Address(lines, p);
    forall q | IsData(lines, q) && Before(q, p.line, p.index + 1) ensures q == p || Before(q, p.line, p.index) {
    }
    if a in memory {
      var q :| IsData(lines, q) && Before(q, p.line, p.index) && Address(lines, q) == a;
      assert q != p && Before(q, p.line, p.index + 1) && Before(p, p.line, p.index + 1);
    } else {
      var after := memory[a := DataAt(lines, p)];
      assert Before(p, p.line, p.index + 1);
      forall b | b in after
        ensures exists q :: IsData(lines, q) && Before(q, p.line, p.index + 1) && Address(lines, q) == b
      {
        if b != a {
          var q :| IsData(lines, q) && Before(q, p.line, p.index) && Address(lines, q) == b;
          assert Before(q, p.line, p.index + 1);
        }
      }
    }
  }

  /** A data record stores its bytes in turn, and fails when one of their addresses was used. */
  lemma {:induction false} StoreMeaning(lines: seq<string>, line: nat, i: nat, r: Reader)
    requires line < |lines| && Decode(lines[line]).Record? && Decode(lines[line]).kind == 0
    requires i <= |Decode(lines[line]).payload| && Meant(lines, line, i, r) && Distinct(lines, line, i)
    ensures var d := Decode(lines[line]);
            var s := Store(r, d.offset, d.payload, i);
            && (s.Some? <==> Distinct(lines, line, |d.payload|))
            && (s.Some? ==> Meant(lines, line, |d.payload|, s.value))
    decreases |Decode(lines[line]).payload| - i
  {
    hide Decode, Holds, Distinct;
    var d := Decode(lines[line]);
    if i < |d.payload| {
      var p := Place(line, i);
      OneMoreByte(lines, p, r.memory);
      assert r.AddressOf(d.offset, i) == Address(lines, p);
      if Address(lines, p) in r.memory {
        DistinctSoFar(lines, line, i + 1, line, |d.payload|);
      } else {
        StoreMeaning(lines, line, i + 1, r.(memory := r.memory[Address(lines, p) := d.payload[i]]));
      }
    }
  }

  lemma DistinctSoFar(lines: seq<string>, line: nat, i: nat, later: nat, j: nat)
    requires line < later || (line == later && i <= j)
    ensures Distinct(lines, later, j) ==> Distinct(lines, line, i)
  {
    hide IsData, Address;
  }

  /** Past the last byte of a line is in front of the next line. */
  lemma LineEnds(lines: seq<string>, line: nat, memory: Memory)
    requires line < |lines|
    ensures var d := Decode(lines[line]);
            var n := if d.Record? && d.kind == 0 then |d.payload| else 0;
            && (Holds(lines, line, n, memory) <==> Holds(lines, line + 1, 0, memory))
            && (Distinct(lines, line, n) <==> Distinct(lines, line + 1, 0))
  {
    hide Decode;
    var d := Decode(lines[line]);
    var n := if d.Record? && d.kind == 0 then |d.payload| else 0;
    forall p ensures IsData(lines, p) && Before(p, line, n) <==> IsData(lines, p) && Before(p, line + 1, 0) {
    }
  }

  ghost predicate ReadableTo(lines: seq<string>, line: nat)
    requires line <= |lines|
  {
    (forall k | 0 <= k < line :: Readable(lines[k])) && Distinct(lines, line, 0)
  }

  lemma LineMeaning(lines: seq<string>, line: nat, r: Reader)
    requires line < |lines| && Meant(lines, line, 0, r) && ReadableTo(lines, line)
    ensures var s := Read(r, lines[line]);
            && (s.Some? <==> ReadableTo(lines, line + 1))
            && (s.Some? ==> Meant(lines, line + 1, 0, s.value))
  {
    hide Decode, Holds, Distinct, Store;
    var d := Decode(lines[line]);
    LineEnds(lines, line, r.memory);
    if d.Record? && d.kind == 0 {
      StoreMeaning(lines, line, 0, r);
      var s := Store(r, d.offset, d.payload, 0);
      if s.Some? {
        LineEnds(lines, line, s.value.memory);
      }
    }
  }

  const START := Reader(map[], 0, false)

  lemma {:induction false} PrefixMeaning(lines: seq<string>, line: nat)
    requires line <= |lines|
    ensures var s := ReadAll(START, lines[..line]);
            && (s.Some? <==> ReadableTo(lines, line))
            && (s.Some? ==> Meant(lines, line, 0, s.value))
  {
    hide Read, Readable, Meant, Distinct, Decode;
    if line == 0 {
      NothingRead(lines);
    } else {
      PrefixMeaning(lines, line - 1);
      var before := ReadAll(START, lines[..line - 1]);
      assert lines[..line] == lines[..line - 1] + [lines[line - 1]];
      ReadAllJoins(START, lines[..line - 1], [lines[line - 1]]);
      DistinctSoFar(lines, line - 1, 0, line, 0);
      if before.Some? {
        LineMeaning(lines, line - 1, before.value);
        ReadOne(before.value, lines[line - 1]);
      }
    }
  }

  lemma NothingRead(lines: seq<string>)
    ensures Meant(lines, 0, 0, START) && Distinct(lines, 0, 0)
  {
  }

  /**
   * A file is read if and only if every line is readable and no two bytes have one address; the
   * memory then holds exactly the file's bytes, each at the address its line's base gives it.
   */
  lemma FileMeaning(lines: seq<string>)
    ensures Parse(lines).Some? <==>
              (forall line | line in lines :: Readable(line)) && Distinct(lines, |lines|, 0)
    ensures Parse(lines).Some? ==> Holds(lines, |lines|, 0, Parse(lines).value)
  {
    hide Readable, Distinct, Holds, ReadAll;
    PrefixMeaning(lines, |lines|);
    assert lines[..|lines|] == lines;
  }

  // ---------------------------------------------------------------------------------------
  // Type-02 bases

  function SegmentAddress(u: nat, offset: nat, i: nat): nat {
    16 * u + (offset + i) % 65536
  }

  function SegmentLines(u: nat, offset: nat, payload: seq<Byte>): seq<string>
    requires u < 65536 && offset < 65536 && |payload| < 256
  {
    [HexRecord(2, 0, [u / 256, u % 256]), HexRecord(0, offset, payload)]
  }

  lemma SegmentPlaces(u: nat, offset: nat, payload: seq<Byte>)
    requires u < 65536 && offset < 65536 && |payload| < 256
    ensures var lines := SegmentLines(u, offset, payload);
            && (forall line | line in lines :: Readable(line))
            && (forall p :: IsData(lines, p) <==> p.line == 1 && p.index < |payload|)
            && (forall i | 0 <= i < |payload| ::
                  && Address(lines, Place(1, i)) == SegmentAddress(u, offset, i)
                  && DataAt(lines, Place(1, i)) == payload[i])
  {
    hide Decode, HexRecord;
    var lines := SegmentLines(u, offset, payload);
    RecordReads(2, 0, [u / 256, u % 256]);
    RecordReads(0, offset, payload);
    assert BaseAt(lines, 1) == Base(16 * u, true);
  }

  /**
   * A data record behind a type-02 base: byte i lies at sixteen times the base's word plus the
   * offset, which wraps around within 64 KiB.
   */
  lemma SegmentRecord(u: nat, offset: nat, payload: seq<Byte>)
    requires u < 65536 && offset < 65536 && |payload| < 256
    ensures var memory := Parse(SegmentLines(u, offset, payload));
            && memory.Some?
            && (forall i | 0 <= i < |payload| ::
                  SegmentAddress(u, offset, i) in memory.value
                  && memory.value[SegmentAddress(u, offset, i)] == payload[i])
            && (forall a | a in memory.value ::
                  exists i :: 0 <= i < |payload| && a == SegmentAddress(u, offset, i))
  {
    hide IsData, Address, DataAt, Parse, SegmentAddress, Readable, SegmentLines;
    var lines := SegmentLines(u, offset, payload);
    SegmentPlaces(u, offset, payload);
    FileMeaning(lines);
    TwoLines(u, offset, payload);
    forall p, q | IsData(lines, p) && IsData(lines, q) && p != q
      ensures Address(lines, p) != Address(lines, q)
    {
      assert p == Place(1, p.index) && q == Place(1, q.index);
      SegmentApart(u, offset, p.index, q.index);
    }
    forall p | IsData(lines, p) ensures p == Place(1, p.index) && p.index < |payload| && Before(p, 2, 0) {
    }
  }

  lemma TwoLines(u: nat, offset: nat, payload: seq<Byte>)
    requires u < 65536 && offset < 65536 && |payload| < 256
    ensures |SegmentLines(u, offset, payload)| == 2
  {
  }

  lemma SegmentApart(u: nat, offset: nat, i: nat, j: nat)
    requires i != j && i < 256 && j < 256
    ensures SegmentAddress(u, offset, i) != SegmentAddress(u, offset, j)
  {
    WrapsApart(offset + i, offset + j);
  }

  lemma WrapsApart(m: nat, n: nat)
    requires m != n && m < n + 256 && n < m + 256
    ensures m % 65536 != n % 65536
  {
  }

  /** A memory written byte by byte behind type-02 bases, with any segment for each address. */
  ghost function SegmentFile(memory: Memory, segment: nat -> nat, address: nat, end: nat): seq<string>
    requires forall a | a in memory :: segment(a) < 65536 && 16 * segment(a) <= a < 16 * segment(a) + 65536
    decreases end - address
  {
    if address >= end then []
    else
      (if address in memory then SegmentByte(segment(address), address - 16 * segment(address), memory[address])
       else [])
      + SegmentFile(memory, segment, address + 1, end)
  }

  ghost function SegmentByte(u: nat, offset: nat, x: Byte): seq<string>
    requires u < 65536 && offset < 65536
  {
    [HexRecord(2, 0, [u / 256, u % 256]), HexRecord(0, offset, [x])]
  }

  lemma SegmentByteReads(r: Reader, u: nat, offset: nat, x: Byte)
    requires u < 65536 && offset < 65536 && 16 * u + offset !in r.memory
    ensures ReadAll(r, SegmentByte(u, offset, x)) == Some(Reader(r.memory[16 * u + offset := x], 16 * u, true))
  {
    hide Decode, HexRecord;
    RecordReads(2, 0, [u / 256, u % 256]);
    RecordReads(0, offset, [x]);
    var based := Reader(r.memory, 16 * u, true);
    assert Read(r, HexRecord(2, 0, [u / 256, u % 256])) == Some(based);
    assert Store(based, offset, [x], 1) == Some(based);
    assert based.AddressOf(offset, 0) == 16 * u + offset;
    var stored := based.(memory := r.memory[16 * u + offset := x]);
    assert Store(stored, offset, [x], 1) == Some(stored);
    assert Read(based, HexRecord(0, offset, [x])) == Some(stored);
    assert SegmentByte(u, offset, x) == [HexRecord(2, 0, [u / 256, u % 256])] + [HexRecord(0, offset, [x])];
    ReadAllJoins(r, [HexRecord(2, 0, [u / 256, u % 256])], [HexRecord(0, offset, [x])]);
    ReadOne(r, HexRecord(2, 0, [u / 256, u % 256]));
    ReadOne(based, HexRecord(0, offset, [x]));
  }

  lemma {:induction false} SegmentFileReads(
    memory: Memory, segment: nat -> nat, address: nat, end: nat, r: Reader)
    requires forall a | a in memory :: segment(a) < 65536 && 16 * segment(a) <= a < 16 * segment(a) + 65536
    requires r.memory == Below(memory, address) && forall a | a in memory :: a < end
    ensures var last := ReadAll(r, SegmentFile(memory, segment, address, end));
            last.Some? && last.value.memory == memory
    decreases end - address
  {
    hide ReadAll, SegmentByte;
    if address >= end {
      NoLines(r);
      assert Below(memory, address) == memory;
    } else if address in memory {
      var u := segment(address);
      var byte := SegmentByte(u, address - 16 * u, memory[address]);
      SegmentByteReads(r, u, address - 16 * u, memory[address]);
      var next := Reader(r.memory[address := memory[address]], 16 * u, true);
      assert next.memory == Below(memory, address + 1);
      ReadAllJoins(r, byte, SegmentFile(memory, segment, address + 1, end));
      SegmentFileReads(memory, segment, address + 1, end, next);
    } else {
      assert Below(memory, address) == Below(memory, address + 1);
      assert [] + SegmentFile(memory, segment, address + 1, end) == SegmentFile(memory, segment, address + 1, end);
      SegmentFileReads(memory, segment, address + 1, end, r);
    }
  }

  lemma NoLines(r: Reader)
    ensures ReadAll(r, []) == Some(r)
  {
  }

  /**
   * A memory written behind type-02 bases, whatever segment is chosen for each address, is read
   * back; writing what was read, with type-04 bases, and reading that again gives it once more.
   */
  lemma SegmentsRoundTrip(memory: Memory, segment: nat -> nat, low: nat, high: nat)
    requires forall a | a in memory :: segment(a) < 65536 && 16 * segment(a) <= a < 16 * segment(a) + 65536
    requires IsLeast(low, memory.Keys) && IsGreatest(high, memory.Keys)
    ensures Parse(SegmentFile(memory, segment, 0, high + 1)) == Some(memory)
    ensures Emit(memory, low, high + 1, None).Some?
    ensures Parse(Emit(memory, low, high + 1, None).value) == Some(memory)
  {
    hide ReadAll, SegmentFile, Emit;
    assert Below(memory, 0) == map[];
    SegmentFileReads(memory, segment, 0, high + 1, START);
    MemoryRoundTrip(memory, low, high);
    assert high in memory;
  }
}
