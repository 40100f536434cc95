/** What is written is read back: records, whole memories, and merged fragments. */
module IntelHexRoundTrip {
  import opened Bytes
  import opened Options
  import opened IntelHex

  // ---------------------------------------------------------------------------------------
  // One record

  lemma DigitsRead(n: nat)
    requires n < 16
    ensures DigitValue(Digit(n)) == Some(n) && !IsBlank(Digit(n))
  {
  }

  lemma {:induction false} HexReads(b: seq<Byte>)
    ensures FromHex(ToHex(b)) == Some(b)
    ensures forall c | c in ToHex(b) :: !IsBlank(c)
  {
    hide Digit, DigitValue, IsBlank;
    if b != [] {
      HexReads(b[1..]);
      DigitsRead(b[0] / 16);
      DigitsRead(b[0] % 16);
      NoBlanks(b[0], ToHex(b[1..]));
      assert ToHex(b)[2..] == ToHex(b[1..]);
      assert [b[0]] + b[1..] == b;
    }
  }

  lemma NoBlanks(x: Byte, rest: string)
    requires !IsBlank(Digit(x / 16)) && !IsBlank(Digit(x % 16))
    ensures !IsSpace(Digit(x / 16))
    ensures forall c | c in [Digit(x / 16), Digit(x % 16)] + rest :: !IsBlank(c) || c in rest
  {
    hide Digit;
  }

  lemma {:induction false} HexJoins(a: seq<Byte>, b: seq<Byte>)
    ensures ToHex(a) + ToHex(b) == ToHex(a + b)
  {
    hide Digit;
    if a == [] {
      assert a + b == b;
    } else {
      HexJoins(a[1..], b);
      assert (a + b)[1..] == a[1..] + b;
      JoinAssociates([Digit(a[0] / 16), Digit(a[0] % 16)], ToHex(a[1..]), ToHex(b));
    }
  }

  lemma {:induction false} SumSnoc(b: seq<Byte>, x: Byte)
    ensures Sum(b + [x]) == Sum(b) + x
  {
    if b == [] {
      assert b + [x] == [x];
      assert [x][1..] == [];
    } else {
      SumSnoc(b[1..], x);
      assert (b + [x])[1..] == b[1..] + [x];
    }
  }

  lemma {:induction false} Unstripped(s: string)
    requires forall c | c in s :: !IsBlank(c)
    ensures Strip(s) == s
  {
    if s != "" {
      assert s[0] in s && s[|s| - 1] in s;
    }
  }

  /** A record is read back as what it was made of. */
  lemma RecordReads(kind: Byte, offset: nat, payload: seq<Byte>)
    requires offset < BLOCK && |payload| < 256
    ensures Decode(HexRecord(kind, offset, payload)) == Record(kind, offset, payload)
  {
    hide ToHex, FromHex, Strip, Sum;
    var body := Body(kind, offset, payload);
    var sum: int := Sum(body);
    var check: Byte := (-sum) % 256;
    var all := body + [check];
    HexJoins(body, [check]);
    HexReads(all);
    var line := HexRecord(kind, offset, payload);
    JoinAssociates(":", ToHex(body), ToHex([check]));
    assert line == ":" + ToHex(all);
    assert line[1..] == ToHex(all);
    forall c | c in line ensures !IsBlank(c) {
      if c != ':' {
        assert c in ToHex(all);
      }
    }
    Unstripped(line);
    SumSnoc(body, check);
    ChecksToZero(sum, check);
    assert all[4..|all| - 1] == payload;
    assert all[1] == offset / 256 && all[2] == offset % 256;
  }

  lemma ChecksToZero(sum: int, check: int)
    requires check == (-sum) % 256
    ensures (sum + check) % 256 == 0
  {
  }

  // ---------------------------------------------------------------------------------------
  // Whole memories

  /** The part of a memory below an address. */
  ghost function Below(memory: Memory, address: nat): Memory {
    map a | a in memory && a < address :: memory[a]
  }

  /** Storing a run of a memory adds exactly that run. */
  lemma {:induction false} StoreRun(memory: Memory, r: Reader, address: nat, n: nat, i: nat)
    requires !r.segmentMode && r.base + address % BLOCK == address && i <= n
    requires forall a: nat | address <= a < address + n :: a in memory
    requires r.memory == Below(memory, address + i)
    ensures Store(r, address % BLOCK, Chunk(memory, address, n), i)
            == Some(r.(memory := Below(memory, address + n)))
    decreases n - i
  {
    if i < n {
      assert r.AddressOf(address % BLOCK, i) == address + i;
      assert Below(memory, address + i)[address + i := memory[address + i]] == Below(memory, address + i + 1);
      StoreRun(memory, r.(memory := Below(memory, address + i + 1)), address, n, i + 1);
    }
  }

  /** The reader stands where the writer's last type-04 record put it. */
  ghost predicate Follows(r: Reader, memory: Memory, address: nat, upper: Option<nat>) {
    && r.memory == Below(memory, address)
    && (upper.Some? ==> upper.value < BLOCK && !r.segmentMode && r.base == upper.value * BLOCK)
  }

  lemma UpperReads(r: Reader, upper: nat)
    requires upper < BLOCK
    ensures Read(r, UpperRecord(upper)) == Some(r.(base := upper * BLOCK, segmentMode := false))
  {
    hide Decode, HexRecord;
    RecordReads(EXTENDED_LINEAR_ADDRESS, 0, [upper / 256, upper % 256]);
  }

  lemma EofReads(r: Reader)
    ensures Read(r, HexRecord(EOF, 0, [])) == Some(r)
  {
    hide Decode, HexRecord;
    RecordReads(EOF, 0, []);
  }

  /** A run of the memory, read behind the base of its block. */
  lemma RunReads(memory: Memory, r: Reader, address: nat, n: nat)
    requires Follows(r, memory, address, Some(address / BLOCK)) && n <= RECORD_PAYLOAD_SIZE
    requires forall a: nat | address <= a < address + n :: a in memory
    ensures Read(r, HexRecord(DATA, address % BLOCK, Chunk(memory, address, n)))
            == Some(r.(memory := Below(memory, address + n)))
  {
    hide Decode, HexRecord, Store, Chunk;
    RecordReads(DATA, address % BLOCK, Chunk(memory, address, n));
    StoreRun(memory, r, address, n, 0);
  }

  /** Reading what is written from an address on completes the memory. */
  lemma {:induction false} EmitReads(memory: Memory, r: Reader, address: nat, end: nat, upper: Option<nat>)
    requires Follows(r, memory, address, upper) && forall a | a in memory :: a < end
    requires Emit(memory, address, end, upper).Some?
    ensures var last := ReadAll(r, Emit(memory, address, end, upper).value);
            last.Some? && last.value.memory == memory
    decreases end - address
  {
    hide HexRecord, Read, ReadAll, RunLength, Limit, Chunk;
    if address >= end {
      EofReads(r);
      ReadOne(r, HexRecord(EOF, 0, []));
      assert Below(memory, address) == memory;
    } else {
      var n := RunLength(memory, address, Limit(address, end));
      if n == 0 {
        RunStops(memory, address, end);
        assert Below(memory, address) == Below(memory, address + 1);
        EmitReads(memory, r, address + 1, end, upper);
      } else {
        RunEmitReads(memory, r, address, end, upper, n);
      }
    }
  }

  lemma RunStops(memory: Memory, address: nat, end: nat)
    requires address < end && RunLength(memory, address, Limit(address, end)) == 0
    ensures address !in memory
  {
  }

  lemma RunFits(memory: Memory, address: nat, end: nat)
    ensures var n := RunLength(memory, address, Limit(address, end));
            n <= RECORD_PAYLOAD_SIZE && address % BLOCK + n <= BLOCK && (address < end ==> address + n <= end)
  {
  }

  lemma {:induction false} RunEmitReads(
    memory: Memory, r: Reader, address: nat, end: nat, upper: Option<nat>, n: nat)
    requires Follows(r, memory, address, upper) && forall a | a in memory :: a < end
    requires address < end && n == RunLength(memory, address, Limit(address, end)) > 0
    requires Emit(memory, address, end, upper).Some?
    ensures var last := ReadAll(r, Emit(memory, address, end, upper).value);
            last.Some? && last.value.memory == memory
    decreases end - address, 0
  {
    hide HexRecord, Read, ReadAll, RunLength, Limit, Chunk;
    RunFits(memory, address, end);
    var block := address / BLOCK;
    var rest := Emit(memory, address + n, end, Some(block)).value;
    var line := HexRecord(DATA, address % BLOCK, Chunk(memory, address, n));
    var head := if upper != Some(block) then [UpperRecord(block)] else [];
    var based := r.(base := block * BLOCK, segmentMode := false);
    HeadReads(r, block, upper != Some(block));
    RunReads(memory, based, address, n);
    var next := based.(memory := Below(memory, address + n));
    ReadOne(based, line);
    ReadAllJoins(r, head + [line], rest);
    ReadAllJoins(r, head, [line]);
    EmitReads(memory, next, address + n, end, Some(block));
  }

  lemma HeadReads(r: Reader, block: nat, select: bool)
    requires block < BLOCK && (!select ==> !r.segmentMode && r.base == block * BLOCK)
    ensures ReadAll(r, if select then [UpperRecord(block)] else [])
            == Some(r.(base := block * BLOCK, segmentMode := false))
  {
    hide Read, UpperRecord;
    if select {
      UpperReads(r, block);
      ReadOne(r, UpperRecord(block));
    }
  }

  /** Writing fails exactly when a byte lies beyond the 32-bit address space. */
  lemma {:induction false} EmitSucceeds(memory: Memory, address: nat, end: nat, upper: Option<nat>)
    requires forall a | a in memory :: a < end
    requires upper.Some? ==> upper.value < BLOCK
    ensures Emit(memory, address, end, upper).Some?
            <==> forall a | a in memory && address <= a :: a < ADDRESS_SPACE
    decreases end - address
  {
    hide HexRecord, RunLength, Limit, Chunk;
    if address < end {
      var n, block := RunLength(memory, address, Limit(address, end)), address / BLOCK;
      RunFits(memory, address, end);
      if n == 0 {
        RunStops(memory, address, end);
        EmitSucceeds(memory, address + 1, end, upper);
      } else if block < BLOCK {
        EmitSucceeds(memory, address + n, end, Some(block));
        assert address + n <= ADDRESS_SPACE;
      } else {
        assert address in memory && address >= ADDRESS_SPACE;
      }
    }
  }

  /**
   * Every non-empty memory below 2^32 is written and read back unchanged; a memory beyond is
   * refused. This holds whatever addressing the memory was read with.
   */
  lemma MemoryRoundTrip(memory: Memory, low: nat, high: nat)
    requires IsLeast(low, memory.Keys) && IsGreatest(high, memory.Keys)
    ensures var text := Emit(memory, low, high + 1, None);
            && (text.Some? <==> high < ADDRESS_SPACE)
            && (text.Some? ==> Parse(text.value) == Some(memory))
  {
    hide Emit, ReadAll;
    EmitSucceeds(memory, low, high + 1, None);
    if Emit(memory, low, high + 1, None).Some? {
      assert Below(memory, low) == map[];
      EmitReads(memory, Reader(map[], 0, false), low, high + 1, None);
    }
  }

  /** A line is one of the records the writer may use. */
  ghost predicate WellFormed(line: string) {
    || line == HexRecord(EOF, 0, [])
    || (exists upper: nat :: upper < BLOCK && line == UpperRecord(upper))
    || (exists offset: nat, payload: seq<Byte> ::
          && offset + |payload| <= BLOCK && 0 < |payload| <= RECORD_PAYLOAD_SIZE
          && line == HexRecord(DATA, offset, payload))
  }

  /**
   * Only type-04 bases are used, every data record has at most 16 bytes and stays within its
   * 64 KiB block, and the last line is the only end-of-file record.
   */
  lemma {:induction false} EmitWellFormed(memory: Memory, address: nat, end: nat, upper: Option<nat>)
    requires Emit(memory, address, end, upper).Some?
    ensures var lines := Emit(memory, address, end, upper).value;
            && lines != [] && lines[|lines| - 1] == HexRecord(EOF, 0, [])
            && (forall line | line in lines :: WellFormed(line))
    decreases end - address
  {
    hide HexRecord, RunLength, Limit, Chunk, UpperRecord;
    if address < end {
      var n, block := RunLength(memory, address, Limit(address, end)), address / BLOCK;
      RunFits(memory, address, end);
      if n == 0 {
        EmitWellFormed(memory, address + 1, end, upper);
      } else {
        EmitWellFormed(memory, address + n, end, Some(block));
        if upper != Some(block) {
          assert WellFormed(UpperRecord(block));
        }
        assert WellFormed(HexRecord(DATA, address % BLOCK, Chunk(memory, address, n)));
      }
    }
  }

  /** A record of consecutive bytes that could not be longer. */
  ghost predicate Longest(memory: Memory, line: string) {
    exists a: nat, n: nat ::
      && 0 < n <= 16 && (forall b: nat | a <= b < a + n :: b in memory)
      && (n == 16 || (a + n) % 65536 == 0 || a + n !in memory)
      && line == HexRecord(0, a % 65536, Chunk(memory, a, n))
  }

  ghost predicate IsBaseOrEnd(line: string) {
    line == HexRecord(1, 0, []) || exists upper: nat :: upper < 65536 && line == UpperRecord(upper)
  }

  lemma RunIsLongest(memory: Memory, address: nat, end: nat)
    requires address < end && forall a | a in memory :: a < end
    ensures var n := RunLength(memory, address, Limit(address, end));
            n == 16 || (address + n) % 65536 == 0 || address + n !in memory
  {
    RunEnds(memory, address, Limit(address, end));
  }

  lemma {:induction false} RunEnds(memory: Memory, address: nat, limit: nat)
    ensures var n := RunLength(memory, address, limit); address + n >= limit || address + n !in memory
    decreases limit - address
  {
    if address < limit && address in memory {
      RunEnds(memory, address + 1, limit);
    }
  }

  /** Data records are as long as 16 bytes, the 64 KiB block and the gaps of the memory let them be. */
  lemma {:induction false} EmitLongest(memory: Memory, address: nat, end: nat, upper: Option<nat>)
    requires Emit(memory, address, end, upper).Some? && forall a | a in memory :: a < end
    ensures forall line | line in Emit(memory, address, end, upper).value ::
              IsBaseOrEnd(line) || Longest(memory, line)
    decreases end - address
  {
    hide HexRecord, RunLength, Limit, Chunk, UpperRecord, Longest;
    if address < end {
      var n, block := RunLength(memory, address, Limit(address, end)), address / BLOCK;
      RunFits(memory, address, end);
      if n == 0 {
        EmitLongest(memory, address + 1, end, upper);
      } else {
        EmitLongest(memory, address + n, end, Some(block));
        RunIsLongest(memory, address, end);
        LongestIs(memory, address, n);
      }
    }
  }

  lemma LongestIs(memory: Memory, a: nat, n: nat)
    requires 0 < n <= 16 && (forall b: nat | a <= b < a + n :: b in memory)
    requires n == 16 || (a + n) % 65536 == 0 || a + n !in memory
    ensures Longest(memory, HexRecord(DATA, a % BLOCK, Chunk(memory, a, n)))
  {
  }

  lemma UpperIsRecord(upper: nat)
    requires upper < 65536
    ensures Decode(UpperRecord(upper)) == Record(4, 0, [upper / 256, upper % 256])
  {
    RecordReads(4, 0, [upper / 256, upper % 256]);
  }

  /** Line i selects the block u. */
  ghost predicate Selects(lines: seq<string>, i: nat, u: nat) {
    i < |lines| && u < 65536 && Decode(lines[i]) == Record(4, 0, [u / 256, u % 256])
  }

  /** A block is selected once, and the blocks in ascending order. */
  lemma {:induction false} EmitBases(memory: Memory, address: nat, end: nat, upper: Option<nat>)
    requires Emit(memory, address, end, upper).Some?
    requires upper.Some? ==> upper.value <= address / 65536
    ensures var lines := Emit(memory, address, end, upper).value;
            && (forall i: nat, u: nat | Selects(lines, i, u) ::
                  address / 65536 <= u && (upper.Some? ==> upper.value < u))
            && (forall i: nat, j: nat, u: nat, v: nat | i < j && Selects(lines, i, u) && Selects(lines, j, v) :: u < v)
    decreases end - address
  {
    hide HexRecord, RunLength, Limit, Chunk, UpperRecord, Decode;
    if address >= end {
      RecordReads(EOF, 0, []);
    } else {
      var n, block := RunLength(memory, address, Limit(address, end)), address / BLOCK;
      RunFits(memory, address, end);
      if n == 0 {
        EmitBases(memory, address + 1, end, upper);
      } else {
        EmitBases(memory, address + n, end, Some(block));
        var rest := Emit(memory, address + n, end, Some(block)).value;
        RecordReads(DATA, address % BLOCK, Chunk(memory, address, n));
        var data := HexRecord(DATA, address % BLOCK, Chunk(memory, address, n));
        assert !Selects([data], 0, 0);
        if upper != Some(block) {
          UpperIsRecord(block);
          var lines := [UpperRecord(block), data] + rest;
          assert lines == [UpperRecord(block)] + [data] + rest;
          forall i: nat, u: nat | Selects(lines, i, u)
            ensures (i == 0 && u == block) || (i >= 2 && Selects(rest, i - 2, u))
          {
          }
        } else {
          var lines := [data] + rest;
          assert lines == [] + [data] + rest;
          forall i: nat, u: nat | Selects(lines, i, u) ensures i >= 1 && Selects(rest, i - 1, u) {
          }
        }
      }
    }
  }

  /** Records are written in capitals. */
  lemma {:induction false} HexIsUpperCase(b: seq<Byte>)
    ensures forall c | c in ToHex(b) :: '0' <= c <= '9' || 'A' <= c <= 'F'
  {
    if b != [] {
      HexIsUpperCase(b[1..]);
    }
  }

  lemma HexCons(x: Byte, rest: seq<Byte>)
    ensures ToHex([x] + rest) == [Digit(x / 16), Digit(x % 16)] + ToHex(rest)
    ensures Sum([x] + rest) == x + Sum(rest)
  {
    hide Digit;
    assert ([x] + rest)[1..] == rest;
  }

  /** A record in full. */
  lemma SampleRecord()
    ensures HexRecord(0, 0, [0x55]) == ":0100000055AA"
  {
    hide ToHex, Sum;
    assert Body(0, 0, [0x55]) == [1] + ([0] + ([0] + ([0] + ([0x55] + []))));
    HexCons(1, [0] + ([0] + ([0] + ([0x55] + []))));
    HexCons(0, [0] + ([0] + ([0x55] + [])));
    HexCons(0, [0] + ([0x55] + []));
    HexCons(0, [0x55] + []);
    HexCons(0x55, []);
    HexCons(0xAA, []);
    NoHex();
    assert [0xAA] + [] == [0xAA];
  }

  lemma NoHex()
    ensures ToHex([]) == "" && Sum([]) == 0
  {
  }

  // ---------------------------------------------------------------------------------------
  // Merging

  ghost predicate Present(fragments: seq<Memory>, a: nat) {
    exists i :: 0 <= i < |fragments| && a in fragments[i]
  }

  /** No fragment is empty, and no two share an address. */
  ghost predicate Compatible(fragments: seq<Memory>) {
    && (forall i | 0 <= i < |fragments| :: fragments[i] != map[])
    && (forall i, j | 0 <= i < j < |fragments| :: fragments[i].Keys !! fragments[j].Keys)
  }

  lemma PresentSnoc(init: seq<Memory>, last: Memory, a: nat)
    ensures Present(init + [last], a) <==> Present(init, a) || a in last
  {
    var all := init + [last];
    if a in last {
      PresentAt(all, |init|, a);
    }
    if Present(init, a) {
      var i :| 0 <= i < |init| && a in init[i];
      PresentAt(all, i, a);
    }
    if Present(all, a) {
      var i :| 0 <= i < |all| && a in all[i];
      if i < |init| {
        PresentAt(init, i, a);
      }
    }
  }

  lemma CompatibleSnoc(init: seq<Memory>, last: Memory)
    requires Compatible(init)
    ensures Compatible(init + [last]) <==> last != map[] && forall a | a in last :: !Present(init, a)
  {
    var all, n := init + [last], |init|;
    if Compatible(all) {
      assert all[n] == last;
      forall i, a | 0 <= i < n && a in init[i] ensures a !in last {
        assert all[i].Keys !! all[n].Keys;
      }
    }
    if last != map[] && forall a | a in last :: !Present(init, a) {
      forall i, j | 0 <= i < j < |all| ensures all[i].Keys !! all[j].Keys {
        if j == n {
          forall a | a in init[i] ensures a !in last {
            PresentAt(init, i, a);
          }
        }
      }
    }
  }

  lemma PresentAt(fragments: seq<Memory>, i: nat, a: nat)
    requires i < |fragments| && a in fragments[i]
    ensures Present(fragments, a)
  {
  }

  lemma CompatibleInit(init: seq<Memory>, last: Memory)
    requires Compatible(init + [last])
    ensures Compatible(init)
  {
    var all := init + [last];
    forall i | 0 <= i < |init| ensures init[i] != map[] {
      assert all[i] == init[i];
    }
    forall i, j | 0 <= i < j < |init| ensures init[i].Keys !! init[j].Keys {
      assert all[i] == init[i] && all[j] == init[j];
    }
  }

  /** The merged memory holds each fragment unchanged, and nothing else. */
  lemma {:induction false} MergedHoldsAll(fragments: seq<Memory>)
    requires MergeAll(fragments).Some?
    ensures var merged := MergeAll(fragments).value;
            && (forall a: nat :: a in merged <==> Present(fragments, a))
            && (forall i, a | 0 <= i < |fragments| && a in fragments[i] ::
                  a in merged && merged[a] == fragments[i][a])
    decreases |fragments|
  {
    hide Present;
    if fragments == [] {
      NothingPresent();
    } else {
      var n := |fragments| - 1;
      var init, last := fragments[..n], fragments[n];
      assert fragments == init + [last];
      MergedHoldsAll(init);
      var before, merged := MergeAll(init).value, MergeAll(fragments).value;
      assert merged == before + last && before.Keys * last.Keys == {};
      forall a: nat ensures a in merged <==> Present(fragments, a) {
        PresentSnoc(init, last, a);
      }
      forall i, a | 0 <= i < |fragments| && a in fragments[i]
        ensures a in merged && merged[a] == fragments[i][a]
      {
        if i < n {
          assert a in init[i] && a in before;
          assert a !in before.Keys * last.Keys;
        }
      }
    }
  }

  lemma NothingPresent()
    ensures forall a: nat :: !Present([], a)
  {
  }

  /** Merging succeeds if and only if no fragment is empty and no two share an address. */
  lemma {:induction false} MergeSucceeds(fragments: seq<Memory>)
    ensures MergeAll(fragments).Some? <==> Compatible(fragments)
    decreases |fragments|
  {
    hide Compatible, Present;
    if fragments == [] {
      NothingIncompatible();
    } else {
      var n := |fragments| - 1;
      var init, last := fragments[..n], fragments[n];
      assert fragments == init + [last];
      MergeSucceeds(init);
      if MergeAll(init).Some? {
        MergedHoldsAll(init);
        CompatibleSnoc(init, last);
        OverlapIs(MergeAll(init).value, last);
      } else if Compatible(fragments) {
        CompatibleInit(init, last);
      }
    }
  }

  lemma NothingIncompatible()
    ensures Compatible([])
  {
  }

  lemma OverlapIs(merged: Memory, last: Memory)
    ensures merged.Keys * last.Keys == {} <==> forall a | a in last :: a !in merged
  {
    if merged.Keys * last.Keys == {} {
      forall a | a in last ensures a !in merged {
        assert a !in merged.Keys * last.Keys;
      }
    }
  }

  /**
   * Merging files succeeds if and only if all are well-formed, none is empty of data and no two
   * share an address; the result then holds exactly their bytes.
   */
  lemma MergedFiles(files: seq<seq<string>>)
    ensures MergeFiles(files).Some? <==> ParseAll(files).Some? && Compatible(ParseAll(files).value)
    ensures MergeFiles(files).Some? ==>
              forall i, a | 0 <= i < |files| && a in ParseAll(files).value[i] ::
                a in MergeFiles(files).value && MergeFiles(files).value[a] == ParseAll(files).value[i][a]
  {
    hide Compatible, ParseAll, MergeAll;
    if ParseAll(files).Some? {
      MergeSucceeds(ParseAll(files).value);
      if MergeAll(ParseAll(files).value).Some? {
        MergedHoldsAll(ParseAll(files).value);
      }
    }
  }
}
