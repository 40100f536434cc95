/**
 * Intel HEX fragments merged into one file and one flat image.
 *
 * A file is the sequence of its lines, a memory the map from absolute addresses to bytes. The
 * functions say what reading and writing mean; the methods do it the way the script does.
 */
module IntelHex {
  import opened Bytes
  import opened Options

  const DATA := 0
  const EOF := 1
  const EXTENDED_SEGMENT_ADDRESS := 2
  const START_SEGMENT_ADDRESS := 3
  const EXTENDED_LINEAR_ADDRESS := 4
  const START_LINEAR_ADDRESS := 5

  const GAP_FILL := 0xFF
  const RECORD_PAYLOAD_SIZE := 16
  const BLOCK := 0x1_0000
  const ADDRESS_SPACE := 0x1_0000_0000

  type Memory = map<nat, Byte>

  // ---------------------------------------------------------------------------------------
  // Hexadecimal text

  function Digit(n: nat): char
    requires n < 16
  {
    "0123456789ABCDEF"[n]
  }

  function DigitValue(c: char): (v: Option<nat>)
    ensures v.Some? ==> v.value < 16
  {
    if '0' <= c <= '9' then Some(c as int - '0' as int)
    else if 'A' <= c <= 'F' then Some(c as int - 'A' as int + 10)
    else if 'a' <= c <= 'f' then Some(c as int - 'a' as int + 10)
    else None
  }

  function ToHex(b: seq<Byte>): (s: string)
    ensures |s| == 2 * |b|
  {
    if b == [] then "" else [Digit(b[0] / 16), Digit(b[0] % 16)] + ToHex(b[1..])
  }

  predicate IsSpace(c: char) {
    c == ' ' || 9 <= c as int <= 13
  }

  /** Pairs of digits, with blanks allowed between the pairs. */
  function FromHex(s: string): Option<seq<Byte>> {
    if s == "" then Some([])
    else if IsSpace(s[0]) then FromHex(s[1..])
    else if |s| < 2 then None
    else
      match (DigitValue(s[0]), DigitValue(s[1]))
      case (Some(high), Some(low)) =>
        (match FromHex(s[2..])
         case None => None
         case Some(rest) => Some([16 * high + low] + rest))
      case _ => None
  }

  predicate IsBlank(c: char) {
    IsSpace(c) || 28 <= c as int <= 31
  }

  function Strip(s: string): (t: string)
    ensures t != "" ==> !IsBlank(t[0]) && !IsBlank(t[|t| - 1])
  {
    if s == "" then ""
    else if IsBlank(s[0]) then Strip(s[1..])
    else if IsBlank(s[|s| - 1]) then Strip(s[..|s| - 1])
    else s
  }

  function Sum(b: seq<Byte>): nat {
    if b == [] then 0 else b[0] + Sum(b[1..])
  }

  // ---------------------------------------------------------------------------------------
  // Reading

  datatype Line = Empty | Malformed | Record(kind: Byte, offset: nat, payload: seq<Byte>)

  function Decode(line: string): Line {
    var text := Strip(line);
    if text == "" then Empty
    else if text[0] != ':' then Malformed
    else
      match FromHex(text[1..])
      case None => Malformed
      case Some(body) =>
        if |body| < 5 || |body| - 5 != body[0] || Sum(body) % 256 != 0 then Malformed
        else Record(body[3], Word16(body[2], body[1]), body[4..|body| - 1])
  }

  datatype Reader = Reader(memory: Memory, base: nat, segmentMode: bool) {
    /** A type-02 base wraps inside its 64 KiB segment, a type-04 base does not. */
    function AddressOf(offset: nat, index: nat): nat {
      if segmentMode then base + (offset + index) % BLOCK else base + offset + index
    }
  }

  function Store(r: Reader, offset: nat, payload: seq<Byte>, i: nat): Option<Reader>
    requires i <= |payload|
    decreases |payload| - i
  {
    if i == |payload| then Some(r)
    else
      var address := r.AddressOf(offset, i);
      if address in r.memory then None
      else Store(r.(memory := r.memory[address := payload[i]]), offset, payload, i + 1)
  }

  function Read(r: Reader, line: string): Option<Reader> {
    match Decode(line)
    case Empty => Some(r)
    case Malformed => None
    case Record(kind, offset, payload) =>
      if kind == DATA then Store(r, offset, payload, 0)
      else if kind == EXTENDED_SEGMENT_ADDRESS then
        if |payload| != 2 then None
        else Some(r.(base := Word16(payload[1], payload[0]) * 16, segmentMode := true))
      else if kind == EXTENDED_LINEAR_ADDRESS then
        if |payload| != 2 then None
        else Some(r.(base := Word16(payload[1], payload[0]) * BLOCK, segmentMode := false))
      else if kind == EOF || kind == START_SEGMENT_ADDRESS || kind == START_LINEAR_ADDRESS then Some(r)
      else None
  }

  function ReadAll(r: Reader, lines: seq<string>): Option<Reader>
    decreases |lines|
  {
    if lines == [] then Some(r)
    else
      match Read(r, lines[0])
      case None => None
      case Some(next) => ReadAll(next, lines[1..])
  }

  lemma {:induction false} ReadAllJoins(r: Reader, a: seq<string>, b: seq<string>)
    ensures ReadAll(r, a + b)
            == match ReadAll(r, a) case None => None case Some(next) => ReadAll(next, b)
    decreases |a|
  {
    if a == [] {
      assert a + b == b;
    } else {
      assert (a + b)[1..] == a[1..] + b;
      var next := Read(r, a[0]);
      if next.Some? {
        ReadAllJoins(next.value, a[1..], b);
      }
    }
  }

  lemma ReadOne(r: Reader, line: string)
    ensures ReadAll(r, [line]) == Read(r, line)
  {
    hide Read;
    assert [line][1..] == [];
  }

  /** The memory a file describes, unless it is malformed or writes an address twice. */
  function Parse(lines: seq<string>): Option<Memory> {
    match ReadAll(Reader(map[], 0, false), lines)
    case None => None
    case Some(r) => Some(r.memory)
  }

  /** Up to the line before this one, counted from 1, the file can be read, and then no further. */
  predicate FailsAt(lines: seq<string>, number: nat) {
    1 <= number <= |lines| && Parse(lines[..number - 1]).Some? && Parse(lines[..number]).None?
  }

  lemma LineRead(start: Reader, lines: seq<string>, number: nat, r: Reader)
    requires number < |lines| && ReadAll(start, lines[..number]) == Some(r)
    ensures ReadAll(start, lines[..number + 1]) == Read(r, lines[number])
  {
    assert lines[..number + 1] == lines[..number] + [lines[number]];
    ReadAllJoins(start, lines[..number], [lines[number]]);
    ReadOne(r, lines[number]);
  }

  /** When the file cannot be read, `number` is the line the complaint names. */
  method ParseIntelHex(lines: seq<string>) returns (result: Option<Memory>, number: nat)
    ensures result == Parse(lines)
    ensures result.None? ==> FailsAt(lines, number)
  {
    hide Decode, Store;
    var memory: Memory := map[];
    var base: nat, segmentMode := 0, false;
    ghost var start := Reader(map[], 0, false);
    number := 0;
    while number < |lines|
      invariant number <= |lines|
      invariant ReadAll(start, lines) == ReadAll(Reader(memory, base, segmentMode), lines[number..])
      invariant ReadAll(start, lines[..number]) == Some(Reader(memory, base, segmentMode))
    {
      LineRead(start, lines, number, Reader(memory, base, segmentMode));
      assert lines[number..][1..] == lines[number + 1..];
      var line := lines[number];
      number := number + 1;
      match Decode(line)
      case Empty =>
      case Malformed =>
        return None, number;
      case Record(kind, offset, payload) =>
        if kind == DATA {
          var stored := StorePayload(memory, base, segmentMode, offset, payload);
          if stored.None? {
            return None, number;
          }
          memory := stored.value;
        } else if kind == EXTENDED_SEGMENT_ADDRESS {
          if |payload| != 2 {
            return None, number;
          }
          base, segmentMode := Word16(payload[1], payload[0]) * 16, true;
        } else if kind == EXTENDED_LINEAR_ADDRESS {
          if |payload| != 2 {
            return None, number;
          }
          base, segmentMode := Word16(payload[1], payload[0]) * BLOCK, false;
        } else if kind != EOF && kind != START_SEGMENT_ADDRESS && kind != START_LINEAR_ADDRESS {
          return None, number;
        }
    }
    return Some(memory), number;
  }

  /** The bytes of a data record, each at its own address. */
  method StorePayload(memory: Memory, base: nat, segmentMode: bool, offset: nat, payload: seq<Byte>)
    returns (result: Option<Memory>)
    ensures Store(Reader(memory, base, segmentMode), offset, payload, 0)
            == if result.None? then None else Some(Reader(result.value, base, segmentMode))
  {
    var after: Memory := memory;
    for index := 0 to |payload|
      invariant Store(Reader(memory, base, segmentMode), offset, payload, 0)
                == Store(Reader(after, base, segmentMode), offset, payload, index)
    {
      var address := if segmentMode then base + (offset + index) % BLOCK else base + offset + index;
      if address in after {
        return None;
      }
      after := after[address := payload[index]];
    }
    return Some(after);
  }

  // ---------------------------------------------------------------------------------------
  // Writing

  function Body(kind: Byte, offset: nat, payload: seq<Byte>): seq<Byte>
    requires offset < BLOCK && |payload| < 256
  {
    [|payload|, offset / 256, offset % 256, kind] + payload
  }

  function HexRecord(kind: Byte, offset: nat, payload: seq<Byte>): string
    requires offset < BLOCK && |payload| < 256
  {
    var body := Body(kind, offset, payload);
    var sum: int := Sum(body);
    ":" + ToHex(body) + ToHex([(-sum) % 256])
  }

  function Limit(address: nat, end: nat): nat {
    var full := address + RECORD_PAYLOAD_SIZE;
    var block := address / BLOCK * BLOCK + BLOCK;
    if end <= full && end <= block then end else if full <= block then full else block
  }

  /** How many addresses from this one on are present, up to the limit. */
  function RunLength(memory: Memory, address: nat, limit: nat): (n: nat)
    ensures n > 0 ==> address + n <= limit
    ensures forall a: nat | address <= a < address + n :: a in memory
    decreases limit - address
  {
    if address < limit && address in memory then 1 + RunLength(memory, address + 1, limit) else 0
  }

  function Chunk(memory: Memory, address: nat, n: nat): (b: seq<Byte>)
    requires forall a: nat | address <= a < address + n :: a in memory
    ensures |b| == n
  {
    seq(n, (i: int) requires 0 <= i < n => memory[address + i])
  }

  function UpperRecord(upper: nat): string
    requires upper < BLOCK
  {
    HexRecord(EXTENDED_LINEAR_ADDRESS, 0, [upper / 256, upper % 256])
  }

  /** The records from an address on, given the block the last type-04 record selected. */
  function Emit(memory: Memory, address: nat, end: nat, upper: Option<nat>): Option<seq<string>>
    decreases end - address
  {
    if address >= end then Some([HexRecord(EOF, 0, [])])
    else
      var n := RunLength(memory, address, Limit(address, end));
      var block := address / BLOCK;
      if n == 0 then Emit(memory, address + 1, end, upper)
      else if upper != Some(block) && block >= BLOCK then None
      else
        match Emit(memory, address + n, end, Some(block))
        case None => None
        case Some(rest) =>
          Some((if upper != Some(block) then [UpperRecord(block)] else [])
               + [HexRecord(DATA, address % BLOCK, Chunk(memory, address, n))] + rest)
  }

  ghost predicate IsLeast(a: nat, s: set<nat>) {
    a in s && forall b | b in s :: a <= b
  }

  ghost predicate IsGreatest(a: nat, s: set<nat>) {
    a in s && forall b | b in s :: b <= a
  }

  lemma {:induction false} Extremes(s: set<nat>)
    requires s != {}
    ensures exists a: nat :: IsLeast(a, s)
    ensures exists a: nat :: IsGreatest(a, s)
    decreases |s|
  {
    var x :| x in s;
    var rest := s - {x};
    if rest == {} {
      assert s == {x};
      assert IsLeast(x, s) && IsGreatest(x, s);
    } else {
      Extremes(rest);
      var low: nat :| IsLeast(low, rest);
      var high: nat :| IsGreatest(high, rest);
      assert s == rest + {x};
      assert IsLeast(if low < x then low else x, s);
      assert IsGreatest(if high > x then high else x, s);
    }
  }

  /** The two bounds of the loop below. */
  method Bounds(memory: Memory) returns (low: nat, high: nat)
    requires memory != map[]
    ensures IsLeast(low, memory.Keys) && IsGreatest(high, memory.Keys)
  {
    Extremes(memory.Keys);
    low :| low in memory.Keys && forall b | b in memory.Keys :: low <= b;
    high :| high in memory.Keys && forall b | b in memory.Keys :: b <= high;
  }

  /** Fails, as packing a base of more than 16 bits does, without a result. */
  method ToIntelHex(memory: Memory) returns (result: Option<seq<string>>)
    requires memory != map[]
    ensures forall low: nat, high: nat | IsLeast(low, memory.Keys) && IsGreatest(high, memory.Keys) ::
              result == Emit(memory, low, high + 1, None)
  {
    hide HexRecord, RunLength, Chunk, Limit, Emit, Prefixed;
    var address, last := Bounds(memory);
    ghost var low := address;
    var lines: seq<string> := [];
    var upper: Option<nat> := None;
    var end := last + 1;
    PrefixedByNone(Emit(memory, address, end, None));
    while address < end
      invariant Prefixed(lines, Emit(memory, address, end, upper)) == Emit(memory, low, end, None)
      decreases end - address
    {
      var chunk := NextChunk(memory, address, Limit(address, end));
      EmitStep(memory, address, end, upper, lines);
      if chunk == [] {
        address := address + 1;
        continue;
      }
      if upper != Some(address / BLOCK) {
        upper := Some(address / BLOCK);
        if upper.value >= BLOCK {
          return None;
        }
        lines := lines + [UpperRecord(upper.value)];
      }
      lines := lines + [HexRecord(DATA, address % BLOCK, chunk)];
      address := address + |chunk|;
    }
    EmitEnd(memory, address, end, upper, lines);
    lines := lines + [HexRecord(EOF, 0, [])];
    return Some(lines);
  }

  lemma PrefixedByNone(more: Option<seq<string>>)
    ensures Prefixed([], more) == more
  {
    if more.Some? {
      assert [] + more.value == more.value;
    }
  }

  lemma EmitEnd(memory: Memory, address: nat, end: nat, upper: Option<nat>, lines: seq<string>)
    requires address >= end
    ensures Prefixed(lines, Emit(memory, address, end, upper)) == Some(lines + [HexRecord(EOF, 0, [])])
  {
  }

  /** One round of the loop. */
  lemma EmitStep(memory: Memory, address: nat, end: nat, upper: Option<nat>, lines: seq<string>)
    requires address < end
    ensures var block := address / BLOCK;
            var chunk := Chunk(memory, address, RunLength(memory, address, Limit(address, end)));
            && |chunk| <= RECORD_PAYLOAD_SIZE
            && Prefixed(lines, Emit(memory, address, end, upper))
               == if chunk == [] then Prefixed(lines, Emit(memory, address + 1, end, upper))
                  else if upper != Some(block) && block >= BLOCK then None
                  else
                    var selected := if upper != Some(block) then lines + [UpperRecord(block)] else lines;
                    Prefixed(selected + [HexRecord(DATA, address % BLOCK, chunk)],
                             Emit(memory, address + |chunk|, end, Some(block)))
  {
    hide HexRecord, Chunk, UpperRecord;
    var n, block := RunLength(memory, address, Limit(address, end)), address / BLOCK;
    if n > 0 && (upper == Some(block) || block < BLOCK) {
      var data := [HexRecord(DATA, address % BLOCK, Chunk(memory, address, n))];
      var rest := Emit(memory, address + n, end, Some(block));
      if rest.Some? {
        if upper != Some(block) {
          var head := [UpperRecord(block)];
          assert lines + (head + data + rest.value) == ((lines + head) + data) + rest.value;
        } else {
          assert lines + ([] + data + rest.value) == (lines + data) + rest.value;
        }
      }
    }
  }

  method NextChunk(memory: Memory, address: nat, limit: nat) returns (chunk: seq<Byte>)
    ensures chunk == Chunk(memory, address, RunLength(memory, address, limit))
  {
    chunk := [];
    while address + |chunk| < limit && address + |chunk| in memory
      invariant RunLength(memory, address, limit) == |chunk| + RunLength(memory, address + |chunk|, limit)
      invariant chunk == Chunk(memory, address, |chunk|)
      decreases limit - |chunk|
    {
      chunk := chunk + [memory[address + |chunk|]];
    }
  }

  /** Lines put in front of others, if there are any. */
  function Prefixed(lines: seq<string>, more: Option<seq<string>>): Option<seq<string>> {
    match more
    case None => None
    case Some(rest) => Some(lines + rest)
  }

  /** The image from address 0 to the last one present, gaps filled. */
  method ToFlatBinary(memory: Memory) returns (image: seq<Byte>)
    requires memory != map[]
    ensures |image| > 0 && IsGreatest(|image| - 1, memory.Keys)
    ensures forall a | 0 <= a < |image| :: image[a] == if a in memory then memory[a] else 0xFF
  {
    var low, high := Bounds(memory);
    image := seq(high + 1, _ => GAP_FILL);
    var items := memory.Keys;
    while items != {}
      invariant items <= memory.Keys && |image| == high + 1
      invariant forall a | 0 <= a < |image| ::
                  image[a] == if a in memory && a !in items then memory[a] else GAP_FILL
      decreases |items|
    {
      var address :| address in items;
      image := image[address := memory[address]];
      items := items - {address};
    }
  }

  /** What the fragments make together; nothing when one is empty or overlaps an earlier one. */
  function MergeAll(fragments: seq<Memory>): Option<Memory> {
    if fragments == [] then Some(map[])
    else
      var last := fragments[|fragments| - 1];
      match MergeAll(fragments[..|fragments| - 1])
      case None => None
      case Some(merged) =>
        if last == map[] || merged.Keys * last.Keys != {} then None else Some(merged + last)
  }

  /** What the files hold, unless one is malformed. */
  function ParseAll(files: seq<seq<string>>): (fragments: Option<seq<Memory>>)
    ensures fragments.Some? ==> |fragments.value| == |files|
  {
    if files == [] then Some([])
    else
      match (ParseAll(files[..|files| - 1]), Parse(files[|files| - 1]))
      case (Some(earlier), Some(last)) => Some(earlier + [last])
      case _ => None
  }

  function MergeFiles(files: seq<seq<string>>): Option<Memory> {
    match ParseAll(files)
    case None => None
    case Some(fragments) => MergeAll(fragments)
  }

  lemma MergeStep(files: seq<seq<string>>, i: nat)
    requires i < |files|
    ensures MergeFiles(files[..i]).None? ==> MergeFiles(files[..i + 1]).None?
    ensures MergeFiles(files[..i]).Some? ==>
              var all, last := MergeFiles(files[..i]).value, Parse(files[i]);
              MergeFiles(files[..i + 1])
              == if last.None? || last.value == map[] || all.Keys * last.value.Keys != {} then None
                 else Some(all + last.value)
  {
    hide Parse;
    var init := files[..i];
    assert files[..i + 1][..i] == init && files[..i + 1][i] == files[i];
    if ParseAll(init).Some? && Parse(files[i]).Some? {
      var earlier := ParseAll(init).value;
      assert (earlier + [Parse(files[i]).value])[..i] == earlier;
    }
  }

  /** Once merging fails it stays failed. */
  lemma {:induction false} MergeStops(files: seq<seq<string>>, i: nat)
    requires i <= |files| && MergeFiles(files[..i]).None?
    ensures MergeFiles(files).None?
    decreases |files| - i
  {
    hide MergeFiles;
    if i == |files| {
      assert files[..i] == files;
    } else {
      MergeStep(files, i);
      MergeStops(files, i + 1);
    }
  }

  /** When the files cannot be merged, `number` is the one the complaint names, counted from 1. */
  method Merge(files: seq<seq<string>>) returns (merged: Option<Memory>, number: nat)
    ensures merged == MergeFiles(files)
    ensures merged.None? ==>
              && 1 <= number <= |files|
              && MergeFiles(files[..number - 1]).Some? && MergeFiles(files[..number]).None?
  {
    hide MergeFiles, Parse;
    var all: Memory := map[];
    MergeNone();
    number := 0;
    while number < |files|
      invariant number <= |files| && MergeFiles(files[..number]) == Some(all)
    {
      MergeStep(files, number);
      var fragment, line := ParseIntelHex(files[number]);
      number := number + 1;
      if fragment.None? || fragment.value == map[] {
        MergeStops(files, number);
        return None, number;
      }
      var overlap := all.Keys * fragment.value.Keys;
      if overlap != {} {
        MergeStops(files, number);
        return None, number;
      }
      all := all + fragment.value;
    }
    assert files[..|files|] == files;
    merged := Some(all);
  }

  lemma MergeNone()
    ensures MergeFiles([]) == Some(map[])
  {
  }
}
