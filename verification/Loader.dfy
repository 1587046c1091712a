/** Raw, COFF and ELF images, cut into sections and handed to the flat-file sink. */
module Loader {
  import opened Bytes
  import opened Overlay
  import opened BinSink

  datatype Status = Loaded | SinkFailed | InvalidSize | InvalidArgument | NotSupported | Failed

  // Little-endian fields.

  function Le16(buf: seq<byte>, at: nat): nat
    requires at + 2 <= |buf|
  {
    buf[at] as int + 0x100 * buf[at + 1] as int
  }

  function Le32(buf: seq<byte>, at: nat): u32
    requires at + 4 <= |buf|
  {
    buf[at] as int + 0x100 * buf[at + 1] as int + 0x1_0000 * buf[at + 2] as int + 0x100_0000 * buf[at + 3] as int
  }

  type u16 = x: int | 0 <= x < 0x1_0000
  type u32 = x: int | 0 <= x < WORD

  function Bytes2(x: u16): (r: seq<byte>)
    ensures |r| == 2
  {
    [x % 0x100, x / 0x100]
  }

  function Bytes4(x: u32): (r: seq<byte>)
    ensures |r| == 4
  {
    [x % 0x100, x / 0x100 % 0x100, x / 0x1_0000 % 0x100, x / 0x100_0000]
  }

  /** Reading a field back from a rendered header. */
  lemma FieldRead(buf: seq<byte>, at: nat, before: seq<byte>, x: u32, after: seq<byte>)
    requires at + |before| + 4 + |after| <= |buf|
    requires buf[at..at + |before| + 4 + |after|] == before + Bytes4(x) + after
    ensures Le32(buf, at + |before|) == x
  {
    var r := before + Bytes4(x) + after;
    var s := buf[at..at + |before| + 4 + |after|];
    assert forall i :: 0 <= i < 4 ==> s[|before| + i] == buf[at + |before| + i] && r[|before| + i] == Bytes4(x)[i];
    FourDigits(x);
  }

  lemma FourDigits(x: u32)
    ensures x % 0x100 + 0x100 * (x / 0x100 % 0x100) + 0x1_0000 * (x / 0x1_0000 % 0x100)
            + 0x100_0000 * (x / 0x100_0000) == x
  {
    var a := x / 0x100;
    var b := a / 0x100;
    assert b == x / 0x1_0000 && b / 0x100 == x / 0x100_0000;
    assert x == 0x100 * a + x % 0x100 && a == 0x100 * b + a % 0x100 && b == 0x100 * (b / 0x100) + b % 0x100;
  }

  lemma HalfRead(buf: seq<byte>, at: nat, before: seq<byte>, x: u16, after: seq<byte>)
    requires at + |before| + 2 + |after| <= |buf|
    requires buf[at..at + |before| + 2 + |after|] == before + Bytes2(x) + after
    ensures Le16(buf, at + |before|) == x
  {
    var r := before + Bytes2(x) + after;
    var s := buf[at..at + |before| + 2 + |after|];
    assert forall i :: 0 <= i < 2 ==> s[|before| + i] == buf[at + |before| + i] && r[|before| + i] == Bytes2(x)[i];
  }

  // Sections, whatever header describes them.

  /** What a header entry asks for: nothing, bytes beyond the file, or a section to load. */
  datatype Entry = Skip | Beyond | Load(write: Write)

  /** The sections up to the first one beyond the file, and whether there was none. */
  function Plan(entries: seq<Entry>): (seq<Write>, bool)
    decreases |entries|
  {
    if entries == [] then ([], true) else
      match entries[0]
      case Skip => Plan(entries[1..])
      case Beyond => ([], false)
      case Load(w) => var (ws, complete) := Plan(entries[1..]); ([w] + ws, complete)
  }

  function LoadAll(s: State, entries: seq<Entry>): (State, Status)
    decreases |entries|
  {
    if entries == [] then (s, Loaded) else
      match entries[0]
      case Skip => LoadAll(s, entries[1..])
      case Beyond => (s, Failed)
      case Load(w) =>
        var (t, ok) := Run(s, Chunks(w.addr, w.data));
        if ok then LoadAll(t, entries[1..]) else (t, SinkFailed)
  }

  ghost predicate InRangeEntries(entries: seq<Entry>) {
    forall i :: 0 <= i < |entries| && entries[i].Load? ==> entries[i].write.data != [] && entries[i].write.End() < WORD
  }

  lemma {:induction false} PlanInRange(entries: seq<Entry>)
    requires InRangeEntries(entries)
    ensures InRange(Plan(entries).0) && NonEmpty(Plan(entries).0)
    decreases |entries|
  {
    if entries != [] { PlanInRange(entries[1..]); }
  }

  /** Loading is running the plan. */
  lemma {:induction false} LoadAllIsRun(s: State, entries: seq<Entry>)
    requires InRangeEntries(entries)
    ensures var (ws, complete) := Plan(entries);
            var (t, ok) := Run(s, ws);
            LoadAll(s, entries) == (t, if !ok then SinkFailed else if complete then Loaded else Failed)
    decreases |entries|
  {
    if entries != [] {
      match entries[0]
      case Skip => LoadAllIsRun(s, entries[1..]);
      case Beyond =>
      case Load(w) =>
        ChunksAreWhole(s, w);
        var ws := Plan(entries[1..]).0;
        RunAppend(s, [w], ws);
        LoadAllIsRun(Run(s, [w]).0, entries[1..]);
    }
  }

  /** How loading on a new file ends, from the sections before the first one beyond the input. */
  lemma LoadedIff(entries: seq<Entry>)
    requires InRangeEntries(entries)
    ensures var (ws, complete) := Plan(entries);
            var (t, status) := LoadAll(EMPTY, entries);
            && status == (if !Ascending(ws) then SinkFailed else if complete then Loaded else Failed)
            && (status == Loaded ==> Shows(t, ws))
  {
    LoadAllIsRun(EMPTY, entries);
    PlanInRange(entries);
    RunIff(Plan(entries).0);
  }

  // The reader.

  class Reader {
    var input: seq<byte>  // bytes still to come

    constructor (input: seq<byte>)
      ensures this.input == input
    {
      this.input := input;
    }

    method Read(n: nat) returns (buf: seq<byte>)
      modifies this
      ensures buf == old(input)[..if n < |old(input)| then n else |old(input)|]
      ensures input == old(input)[|buf|..]
    {
      var k := if n < |input| then n else |input|;
      buf := input[..k];
      input := input[k..];
    }

    /** Read until `size` bytes are there or nothing more comes. */
    method ReadWhole(size: nat) returns (buf: seq<byte>)
      modifies this
      ensures buf == old(input)[..if size < |old(input)| then size else |old(input)|]
    {
      buf := [];
      while |buf| < size
        invariant |buf| <= size && old(input) == buf + input
        decreases size - |buf|
      {
        var piece := Read(size - |buf|);
        if piece == [] { break; }
        buf := buf + piece;
      }
    }
  }

  // Raw images.

  /** A raw image is copied unchanged, of whatever length. */
  method ProcessBin(reader: Reader, sink: Sink) returns (status: Status)
    requires sink.View() == EMPTY
    modifies reader, sink
    ensures status == Loaded && sink.file == old(reader.input)
  {
    var addr := 0;
    while true
      invariant old(reader.input) == sink.file + reader.input
      invariant sink.offset == addr
      decreases |reader.input|
    {
      var buf := reader.Read(512);
      if buf == [] { break; }
      ghost var before := sink.View();
      assert [Write(addr, buf)][1..] == [];
      assert Fill(0, ERASED) == [] && before.file + [] == before.file;
      var ok := sink.Accept(addr, buf);
      if !ok { return SinkFailed; }
      addr := (addr + |buf|) % WORD;
    }
    return Loaded;
  }

  // COFF.

  const COFF_TARGET := 0x9D
  const COFF_VERSION_1 := 0xC1
  const COFF_VERSION_2 := 0xC2
  const NOT_LOADED: nat := 0x9B  // dummy 0x1, no load 0x2, padding 0x8, copy 0x10, bss 0x80

  datatype CoffLayout = Unsupported | Layout(wide: bool, count: nat, table: nat)

  function SectionHeaderSize(wide: bool): nat {
    if wide then 48 else 40
  }

  /** The header can be read: the source does not check this itself. */
  predicate CoffReadable(buf: seq<byte>) {
    && |buf| >= 2
    && (Le16(buf, 0) == COFF_VERSION_1 || Le16(buf, 0) == COFF_VERSION_2 ==> |buf| >= 22)
    && (Le16(buf, 0) == COFF_TARGET ==> |buf| >= 18)
  }

  function CoffHeader(buf: seq<byte>): CoffLayout
    requires CoffReadable(buf)
  {
    var version := Le16(buf, 0);
    if version == COFF_VERSION_1 || version == COFF_VERSION_2 then
      Layout(version == COFF_VERSION_2, Le16(buf, 2), 22 + Le16(buf, 16))
    else if version == COFF_TARGET then Layout(false, Le16(buf, 2), 20 + Le16(buf, 16))
    else Unsupported
  }

  /** Entry i of a table that fits is inside the buffer. */
  lemma EntryInside(table: nat, size: nat, count: nat, length: nat, i: nat)
    requires i < count && table + size * count <= length
    ensures table + size * i + size <= length
  {
    assert size * i + size == size * (i + 1);
    assert size * (i + 1) <= size * count;
  }

  /** The fields of a section header that are used; size is in bytes. */
  datatype Section = Section(physical: u32, size: u32, raw: u32, flags: nat) {
    predicate Skipped() {
      size == 0 || raw == 0 || And(flags, NOT_LOADED) != 0
    }
  }

  /** The mask picks out bits 0, 1, 3, 4 and 7. */
  lemma NotLoadedBits(flags: nat)
    ensures And(flags, NOT_LOADED) != 0 <==>
              flags % 2 == 1 || flags / 2 % 2 == 1 || flags / 8 % 2 == 1 || flags / 16 % 2 == 1 || flags / 128 % 2 == 1
  {
    hide And;
    var f1 := flags / 2;
    var f2 := f1 / 2;
    var f3 := f2 / 2;
    var f4 := f3 / 2;
    var f5 := f4 / 2;
    var f6 := f5 / 2;
    var f7 := f6 / 2;
    LowBit(flags, 0x4D);
    LowBit(f1, 0x26);
    LowBit(f2, 0x13);
    LowBit(f3, 0x9);
    LowBit(f4, 0x4);
    LowBit(f5, 0x2);
    LowBit(f6, 0x1);
    LowBit(f7, 0x0);
    AndZero(f7 / 2);
    assert f3 == flags / 8 && f4 == flags / 16 && f7 == flags / 128;
  }

  lemma AndZero(x: nat)
    ensures And(x, 0) == 0
  {
  }

  /** Two odd numbers share their lowest bit; the rest is shared above it. */
  lemma LowBit(x: nat, half: nat)
    ensures And(x, 2 * half + 1) != 0 <==> x % 2 == 1 || And(x / 2, half) != 0
    ensures And(x, 2 * half) != 0 <==> And(x / 2, half) != 0
  {
  }

  function ReadSection(buf: seq<byte>, at: nat, wide: bool): Section
    requires at + SectionHeaderSize(wide) <= |buf|
  {
    if wide then Section(Le32(buf, at + 8), Le32(buf, at + 16) * 2 % WORD, Le32(buf, at + 20), Le32(buf, at + 40))
    else Section(Le32(buf, at + 8), Le32(buf, at + 16), Le32(buf, at + 20), Le16(buf, at + 36))
  }

  /** The range test as the source computes it, in 32 bits. */
  predicate TestPasses(buf: seq<byte>, from: nat, size: nat) { (from + size) % WORD <= |buf| }

  /** The sum reaches 2^32 and exceeds it by no more than the length of the file. */
  predicate Wild(buf: seq<byte>, from: u32, size: u32) { WORD <= from + size <= WORD + |buf| }

  /** The range test is wrong exactly for sums from 2^32 to 2^32 plus the length of the file. */
  lemma RangeTestIff(buf: seq<byte>, from: u32, size: u32)
    requires |buf| < WORD
    ensures (TestPasses(buf, from, size) <==> from + size <= |buf|) <==> !Wild(buf, from, size)
  {
    assert (from + size) % WORD == if from + size < WORD then from + size else from + size - WORD;
  }

  /** What is let through is inside the file, unless the sum is in that range. */
  lemma TestIsSafe(buf: seq<byte>, from: u32, size: u32)
    requires TestPasses(buf, from, size) && !Wild(buf, from, size)
    ensures from + size <= |buf|
  {
    assert (from + size) % WORD == if from + size < WORD then from + size else from + size - WORD;
  }

  /** Two bytes at 0xFFFFFFFF are taken for part of any file that is not empty. */
  lemma WildInput(buf: seq<byte>)
    requires 0 < |buf| < WORD
    ensures TestPasses(buf, 0xFFFF_FFFF, 2) && !(0xFFFF_FFFF + 2 <= |buf|)
  {
    assert (0xFFFF_FFFF + 2) % WORD == 1;
  }

  predicate WildSection(buf: seq<byte>, s: Section) { !s.Skipped() && Wild(buf, s.raw, s.size) }

  function SectionEntry(buf: seq<byte>, s: Section): Entry
    requires !WildSection(buf, s)
  {
    if s.Skipped() then Skip
    else if TestPasses(buf, s.raw, s.size) then
      TestIsSafe(buf, s.raw, s.size);
      Load(Write(s.physical, buf[s.raw..s.raw + s.size]))
    else Beyond
  }

  function Sections(buf: seq<byte>, table: nat, count: nat, wide: bool): (r: seq<Section>)
    requires table + SectionHeaderSize(wide) * count <= |buf|
    ensures |r| == count
  {
    seq(count, i requires 0 <= i < count =>
      EntryInside(table, SectionHeaderSize(wide), count, |buf|, i);
      ReadSection(buf, table + SectionHeaderSize(wide) * i, wide))
  }

  predicate NoneWild(buf: seq<byte>, sections: seq<Section>) {
    forall i :: 0 <= i < |sections| ==> !WildSection(buf, sections[i])
  }

  function SectionEntries(buf: seq<byte>, sections: seq<Section>): (r: seq<Entry>)
    requires NoneWild(buf, sections)
    ensures |r| == |sections|
  {
    seq(|sections|, i requires 0 <= i < |sections| => SectionEntry(buf, sections[i]))
  }

  /** The header can be read and no section's range test goes wrong. */
  predicate CoffSound(buf: seq<byte>) {
    && CoffReadable(buf)
    && var l := CoffHeader(buf);
      l.Layout? && l.table + SectionHeaderSize(l.wide) * l.count <= |buf| ==>
        NoneWild(buf, Sections(buf, l.table, l.count, l.wide))
  }

  function Coff(input: seq<byte>, size: nat, s: State): (State, Status)
    requires 0 < size <= |input| ==> CoffSound(input[..size])
  {
    if size == 0 then (s, InvalidSize)
    else if |input| < size then (s, Failed)
    else
      var buf := input[..size];
      match CoffHeader(buf)
      case Unsupported => (s, NotSupported)
      case Layout(wide, count, table) =>
        if table + SectionHeaderSize(wide) * count > size then (s, Failed)
        else LoadAll(s, SectionEntries(buf, Sections(buf, table, count, wide)))
  }

  method ProcessCoff(reader: Reader, size: nat, sink: Sink) returns (status: Status)
    requires 0 < size <= |reader.input| ==> CoffSound(reader.input[..size])
    modifies reader, sink
    ensures (sink.View(), status) == Coff(old(reader.input), size, old(sink.View()))
  {
    hide ReadSection, SectionEntry, WildSection, Le16, Le32, Run, Chunks;
    if size == 0 { return InvalidSize; }
    var buf := reader.ReadWhole(size);
    if |buf| != size { return Failed; }
    var header := CoffHeader(buf);
    if header.Unsupported? { return NotSupported; }
    var Layout(wide, count, table) := header;
    var step := SectionHeaderSize(wide);
    if table + step * count > size { return Failed; }
    ghost var sections := Sections(buf, table, count, wide);
    ghost var entries := SectionEntries(buf, sections);
    assert entries[0..] == entries;
    for i := 0 to count
      invariant LoadAll(old(sink.View()), entries) == LoadAll(sink.View(), entries[i..])
    {
      assert entries[i..][1..] == entries[i + 1..] && entries[i..][0] == entries[i];
      EntryInside(table, step, count, |buf|, i);
      var stop;
      stop, status := LoadSection(buf, table + step * i, wide, sink);
      if stop { return; }
    }
    return Loaded;
  }

  /** One turn of the section loop. */
  method LoadSection(buf: seq<byte>, at: nat, wide: bool, sink: Sink) returns (stop: bool, status: Status)
    requires at + SectionHeaderSize(wide) <= |buf|
    requires !WildSection(buf, ReadSection(buf, at, wide))
    modifies sink
    ensures match SectionEntry(buf, ReadSection(buf, at, wide))
            case Skip => !stop && sink.View() == old(sink.View())
            case Beyond => stop && status == Failed && sink.View() == old(sink.View())
            case Load(w) => (sink.View(), !stop) == Run(old(sink.View()), Chunks(w.addr, w.data))
                            && (stop ==> status == SinkFailed)
  {
    hide Run, Chunks;
    status := Loaded;
    var s := ReadSection(buf, at, wide);
    if s.size == 0 || s.raw == 0 { return false, status; }
    if And(s.flags, NOT_LOADED) != 0 { return false, status; }
    if !TestPasses(buf, s.raw, s.size) { return true, Failed; }
    TestIsSafe(buf, s.raw, s.size);
    var ok := sink.Send(s.physical, buf[s.raw..s.raw + s.size]);
    if !ok { return true, SinkFailed; }
    return false, status;
  }

  // ELF.

  const MAGIC: seq<byte> := [0x7F, 0x45, 0x4C, 0x46]
  const CLASS_32: byte := 1
  const DATA_LSB: byte := 1
  const PT_LOAD: u32 := 1
  const ELF_HEADER := 52
  const USED := 20  // bytes of a program header the loader looks at

  datatype Segment = Segment(kind: u32, offset: u32, physical: u32, size: u32)

  function ReadSegment(buf: seq<byte>, at: nat): Segment
    requires at + USED <= |buf|
  {
    Segment(Le32(buf, at), Le32(buf, at + 4), Le32(buf, at + 12), Le32(buf, at + 16))
  }

  predicate WildSegment(buf: seq<byte>, s: Segment) {
    s.kind == PT_LOAD && s.size != 0 && Wild(buf, s.offset, s.size)
  }

  function SegmentEntry(buf: seq<byte>, s: Segment): Entry
    requires !WildSegment(buf, s)
  {
    if s.kind != PT_LOAD || s.size == 0 then Skip
    else if TestPasses(buf, s.offset, s.size) then
      TestIsSafe(buf, s.offset, s.size);
      Load(Write(s.physical, buf[s.offset..s.offset + s.size]))
    else Beyond
  }

  /** Where the program headers are. */
  datatype ElfTable = ElfTable(start: nat, size: nat, count: nat) {
    predicate Usable() { start != 0 && size != 0 && count != 0 }

    ghost predicate EntriesInside(length: nat) {
      forall i: nat :: i < count ==> At(i) + USED <= length
    }

    function At(i: nat): nat { start + size * i }
  }

  function ElfHeader(buf: seq<byte>): ElfTable
    requires |buf| >= ELF_HEADER
  {
    ElfTable(Le32(buf, 28), Le16(buf, 42), Le16(buf, 44))
  }

  ghost function Segments(buf: seq<byte>, t: ElfTable): (r: seq<Segment>)
    requires t.EntriesInside(|buf|)
    ensures |r| == t.count
  {
    seq(t.count, i requires 0 <= i < t.count => ReadSegment(buf, t.At(i)))
  }

  predicate NoWildSegment(buf: seq<byte>, segments: seq<Segment>) {
    forall i :: 0 <= i < |segments| ==> !WildSegment(buf, segments[i])
  }

  ghost function SegmentEntries(buf: seq<byte>, segments: seq<Segment>): (r: seq<Entry>)
    requires NoWildSegment(buf, segments)
    ensures |r| == |segments|
  {
    seq(|segments|, i requires 0 <= i < |segments| => SegmentEntry(buf, segments[i]))
  }

  /** When the table's range test passes the program headers can be read, and no segment's range test goes wrong. */
  ghost predicate ElfSound(buf: seq<byte>)
    requires |buf| >= ELF_HEADER
  {
    var t := ElfHeader(buf);
    t.Usable() && TestPasses(buf, t.start, t.size * t.count) ==>
      t.EntriesInside(|buf|) && NoWildSegment(buf, Segments(buf, t))
  }

  ghost function Elf(input: seq<byte>, size: nat, s: State): (State, Status)
    requires ELF_HEADER <= size <= |input| ==> ElfSound(input[..size])
  {
    if size < ELF_HEADER then (s, InvalidSize)
    else if |input| < size then (s, Failed)
    else
      var buf := input[..size];
      if buf[..4] != MAGIC then (s, InvalidArgument)
      else if buf[4] != CLASS_32 || buf[5] != DATA_LSB then (s, NotSupported)
      else
        var t := ElfHeader(buf);
        if !t.Usable() then (s, InvalidSize)
        else if !TestPasses(buf, t.start, t.size * t.count) then (s, Failed)
        else LoadAll(s, SegmentEntries(buf, Segments(buf, t)))
  }

  method ProcessElf(reader: Reader, size: nat, sink: Sink) returns (status: Status)
    requires ELF_HEADER <= size <= |reader.input| ==> ElfSound(reader.input[..size])
    modifies reader, sink
    ensures (sink.View(), status) == Elf(old(reader.input), size, old(sink.View()))
  {
    hide ReadSegment, SegmentEntry, WildSegment, Le16, Le32, Run, Chunks;
    if size < ELF_HEADER { return InvalidSize; }
    var buf := reader.ReadWhole(size);
    if |buf| != size { return Failed; }
    if buf[0] != MAGIC[0] || buf[1] != MAGIC[1] || buf[2] != MAGIC[2] || buf[3] != MAGIC[3] { return InvalidArgument; }
    assert buf[..4] == MAGIC;
    if buf[4] != CLASS_32 || buf[5] != DATA_LSB { return NotSupported; }
    var t := ElfHeader(buf);
    if t.start == 0 || t.size == 0 || t.count == 0 { return InvalidSize; }
    if !TestPasses(buf, t.start, t.size * t.count) { return Failed; }
    ghost var entries := SegmentEntries(buf, Segments(buf, t));
    assert entries[0..] == entries;
    for i := 0 to t.count
      invariant LoadAll(old(sink.View()), entries) == LoadAll(sink.View(), entries[i..])
    {
      assert entries[i..][1..] == entries[i + 1..] && entries[i..][0] == entries[i];
      assert Segments(buf, t)[i] == ReadSegment(buf, t.At(i));
      var stop;
      stop, status := LoadSegment(buf, t.At(i), sink);
      if stop { return; }
    }
    return Loaded;
  }

  /** One turn of the segment loop. */
  method LoadSegment(buf: seq<byte>, at: nat, sink: Sink) returns (stop: bool, status: Status)
    requires at + USED <= |buf|
    requires !WildSegment(buf, ReadSegment(buf, at))
    modifies sink
    ensures match SegmentEntry(buf, ReadSegment(buf, at))
            case Skip => !stop && sink.View() == old(sink.View())
            case Beyond => stop && status == Failed && sink.View() == old(sink.View())
            case Load(w) => (sink.View(), !stop) == Run(old(sink.View()), Chunks(w.addr, w.data))
                            && (stop ==> status == SinkFailed)
  {
    hide Run, Chunks;
    status := Loaded;
    var s := ReadSegment(buf, at);
    if s.kind != PT_LOAD { return false, status; }
    if s.size == 0 { return false, status; }
    if !TestPasses(buf, s.offset, s.size) { return true, Failed; }
    TestIsSafe(buf, s.offset, s.size);
    var ok := sink.Send(s.physical, buf[s.offset..s.offset + s.size]);
    if !ok { return true, SinkFailed; }
    return false, status;
  }

  // The headers as the file formats lay them out.

  predicate At(buf: seq<byte>, at: nat, part: seq<byte>) {
    at + |part| <= |buf| && buf[at..at + |part|] == part
  }

  /** COFF file header; `stamps` is time, symbol table and symbol count, `wide` version 2, `bare` version 0. */
  datatype CoffFileHeader = CoffFileHeader(bare: bool, wide: bool, count: u16, stamps: seq<byte>,
                                           optional: u16, flags: u16, target: u16) {
    predicate Valid() { |stamps| == 12 && !(bare && wide) }

    function Version(): u16 { if bare then COFF_TARGET else if wide then COFF_VERSION_2 else COFF_VERSION_1 }

    function Render(): seq<byte> {
      Bytes2(Version()) + Bytes2(count) + stamps + Bytes2(optional) + Bytes2(flags) +
      if bare then [] else Bytes2(target)
    }
  }

  /** COFF section header; `links` holds the relocation and line number fields. */
  datatype CoffSection = CoffSection(name: seq<byte>, physical: u32, virtualAddress: u32, length: u32, raw: u32,
                                     links: seq<byte>, flags: u32, tail: seq<byte>) {
    predicate Valid(wide: bool) {
      |name| == 8 && |links| == (if wide then 16 else 12) && |tail| == (if wide then 4 else 2)
      && (!wide ==> flags < 0x1_0000)
    }

    function Render(wide: bool): (r: seq<byte>)
      requires Valid(wide)
      ensures |r| == SectionHeaderSize(wide)
    {
      name + Bytes4(physical) + Bytes4(virtualAddress) + Bytes4(length) + Bytes4(raw) + links +
      (if wide then Bytes4(flags) else Bytes2(flags)) + tail
    }

    /** Version 2 counts sections in 16-bit words. */
    function Meaning(wide: bool): Section {
      Section(physical, if wide then length * 2 % WORD else length, raw, flags)
    }
  }

  lemma CoffHeaderRead(buf: seq<byte>, h: CoffFileHeader)
    requires h.Valid() && At(buf, 0, h.Render())
    ensures CoffReadable(buf)
    ensures CoffHeader(buf) == Layout(h.wide, h.count, (if h.bare then 20 else 22) + h.optional)
  {
    hide Bytes4, Bytes2, Le32, Le16;
    var r := h.Render();
    var target := if h.bare then [] else Bytes2(h.target);
    assert r == [] + Bytes2(h.Version()) + (Bytes2(h.count) + h.stamps + Bytes2(h.optional) + Bytes2(h.flags) + target);
    HalfRead(buf, 0, [], h.Version(), Bytes2(h.count) + h.stamps + Bytes2(h.optional) + Bytes2(h.flags) + target);
    assert r == Bytes2(h.Version()) + Bytes2(h.count) + (h.stamps + Bytes2(h.optional) + Bytes2(h.flags) + target);
    HalfRead(buf, 0, Bytes2(h.Version()), h.count, h.stamps + Bytes2(h.optional) + Bytes2(h.flags) + target);
    var front := Bytes2(h.Version()) + Bytes2(h.count) + h.stamps;
    assert r == front + Bytes2(h.optional) + (Bytes2(h.flags) + target);
    HalfRead(buf, 0, front, h.optional, Bytes2(h.flags) + target);
  }

  lemma CoffSectionRead(buf: seq<byte>, at: nat, h: CoffSection, wide: bool)
    requires h.Valid(wide) && At(buf, at, h.Render(wide))
    ensures ReadSection(buf, at, wide) == h.Meaning(wide)
  {
    hide Bytes4, Bytes2, Le32, Le16;
    var r := h.Render(wide);
    var flags := if wide then Bytes4(h.flags) else Bytes2(h.flags);
    var last := h.links + flags + h.tail;
    var middle := Bytes4(h.virtualAddress) + Bytes4(h.length) + Bytes4(h.raw) + last;
    assert r == h.name + Bytes4(h.physical) + middle;
    FieldRead(buf, at, h.name, h.physical, middle);
    var front := h.name + Bytes4(h.physical) + Bytes4(h.virtualAddress);
    assert r == front + Bytes4(h.length) + (Bytes4(h.raw) + last);
    FieldRead(buf, at, front, h.length, Bytes4(h.raw) + last);
    assert r == front + Bytes4(h.length) + Bytes4(h.raw) + last;
    FieldRead(buf, at, front + Bytes4(h.length), h.raw, last);
    var all := front + Bytes4(h.length) + Bytes4(h.raw) + h.links;
    assert r == all + flags + h.tail;
    if wide { FieldRead(buf, at, all, h.flags, h.tail); } else { HalfRead(buf, at, all, h.flags, h.tail); }
  }

  /** A COFF file: its header, and the section headers behind the optional header. */
  ghost predicate IsCoff(buf: seq<byte>, h: CoffFileHeader, hs: seq<CoffSection>) {
    && h.Valid() && At(buf, 0, h.Render()) && |hs| == h.count
    && CoffTable(h) + SectionHeaderSize(h.wide) * |hs| <= |buf|
    && forall i :: 0 <= i < |hs| ==>
         hs[i].Valid(h.wide) && At(buf, CoffTable(h) + SectionHeaderSize(h.wide) * i, hs[i].Render(h.wide))
  }

  function CoffTable(h: CoffFileHeader): nat {
    (if h.bare then 20 else 22) + h.optional
  }

  function CoffMeanings(hs: seq<CoffSection>, wide: bool): seq<Section> {
    seq(|hs|, i requires 0 <= i < |hs| => hs[i].Meaning(wide))
  }

  /** A section that is not dummy, no-load, padding, copy or bss, and has bytes in the file. */
  predicate Loadable(h: CoffSection, size: nat) {
    && size != 0 && h.raw != 0
    && h.flags % 2 == 0 && h.flags / 2 % 2 == 0 && h.flags / 8 % 2 == 0 && h.flags / 16 % 2 == 0
    && h.flags / 128 % 2 == 0
  }

  /** The writes of the loadable sections up to the first one beyond the file, and whether there was none. */
  function CoffWrites(buf: seq<byte>, hs: seq<CoffSection>, wide: bool): (seq<Write>, bool)
    decreases |hs|
  {
    if hs == [] then ([], true) else
      var (h, size) := (hs[0], if wide then hs[0].length * 2 % 0x1_0000_0000 else hs[0].length);
      if !Loadable(h, size) then CoffWrites(buf, hs[1..], wide)
      else if h.raw + size > |buf| then ([], false)
      else
        var (ws, complete) := CoffWrites(buf, hs[1..], wide);
        ([Write(h.physical, buf[h.raw..h.raw + size])] + ws, complete)
  }

  lemma {:induction false} CoffPlan(buf: seq<byte>, hs: seq<CoffSection>, wide: bool)
    requires |buf| < WORD && NoneWild(buf, CoffMeanings(hs, wide))
    ensures Plan(SectionEntries(buf, CoffMeanings(hs, wide))) == CoffWrites(buf, hs, wide)
    decreases |hs|
  {
    hide And, TestPasses, Plan;
    var meanings := CoffMeanings(hs, wide);
    var entries := SectionEntries(buf, meanings);
    PlanStep(entries);
    if hs != [] {
      var s := meanings[0];
      NotLoadedBits(s.flags);
      if !s.Skipped() { RangeTestIff(buf, s.raw, s.size); }
      assert meanings[1..] == CoffMeanings(hs[1..], wide);
      assert forall i :: 0 <= i < |hs| - 1 ==> meanings[1..][i] == meanings[i + 1];
      assert entries[1..] == SectionEntries(buf, meanings[1..]);
      CoffPlan(buf, hs[1..], wide);
    }
  }

  lemma PlanStep(entries: seq<Entry>)
    ensures entries == [] ==> Plan(entries) == ([], true)
    ensures entries != [] ==>
              Plan(entries) ==
              match entries[0]
              case Skip => Plan(entries[1..])
              case Beyond => ([], false)
              case Load(w) => var (ws, complete) := Plan(entries[1..]); ([w] + ws, complete)
  {
  }

  /**
   * How a COFF file ends on a new sink: refused if its loadable sections do not ascend, else loaded if none of them
   * lies beyond the file; the result is then their overlay on 0xff.
   */
  lemma CoffLoads(buf: seq<byte>, h: CoffFileHeader, hs: seq<CoffSection>)
    requires |buf| < WORD && IsCoff(buf, h, hs) && NoneWild(buf, CoffMeanings(hs, h.wide))
    requires InRangeEntries(SectionEntries(buf, CoffMeanings(hs, h.wide)))
    ensures CoffSound(buf) && buf[..|buf|] == buf
    ensures var (ws, complete) := CoffWrites(buf, hs, h.wide);
            var (s, status) := Coff(buf, |buf|, EMPTY);
            && status == (if !Ascending(ws) then SinkFailed else if complete then Loaded else Failed)
            && (status == Loaded ==> Shows(s, ws))
  {
    hide Coff, CoffHeader, CoffReadable, CoffMeanings, Sections, SectionEntries, NoneWild, LoadAll, Plan, Ascending,
      BinSink.Shows, CoffWrites, CoffFileHeader.Render, CoffSection.Render, CoffSection.Valid, At;
    CoffHeaderRead(buf, h);
    assert buf[..|buf|] == buf;
    CoffSectionsRead(buf, h, hs);
    CoffRuns(buf, EMPTY);
    LoadedIff(SectionEntries(buf, CoffMeanings(hs, h.wide)));
    CoffPlan(buf, hs, h.wide);
  }

  lemma CoffSectionsRead(buf: seq<byte>, h: CoffFileHeader, hs: seq<CoffSection>)
    requires IsCoff(buf, h, hs)
    ensures Sections(buf, CoffTable(h), h.count, h.wide) == CoffMeanings(hs, h.wide)
  {
    hide ReadSection, CoffSection.Meaning, CoffSection.Render, CoffSection.Valid, CoffFileHeader.Render, At;
    var (table, step) := (CoffTable(h), SectionHeaderSize(h.wide));
    forall i | 0 <= i < |hs|
      ensures Sections(buf, table, |hs|, h.wide)[i] == CoffMeanings(hs, h.wide)[i]
    {
      EntryInside(table, step, |hs|, |buf|, i);
      CoffSectionRead(buf, table + step * i, hs[i], h.wide);
    }
  }

  /** A file whose table fits comes down to its entries. */
  lemma CoffRuns(buf: seq<byte>, s: State)
    requires buf != [] && CoffReadable(buf) && CoffHeader(buf).Layout?
    requires var l := CoffHeader(buf);
             && l.table + SectionHeaderSize(l.wide) * l.count <= |buf|
             && NoneWild(buf, Sections(buf, l.table, l.count, l.wide))
    ensures CoffSound(buf) && buf[..|buf|] == buf
    ensures var l := CoffHeader(buf);
            Coff(buf, |buf|, s) == LoadAll(s, SectionEntries(buf, Sections(buf, l.table, l.count, l.wide)))
  {
    hide Sections, SectionEntries, NoneWild, LoadAll, CoffHeader, CoffReadable;
    assert buf[..|buf|] == buf;
  }

  /** ELF file header; `other` parts are not looked at. */
  datatype ElfFileHeader = ElfFileHeader(ident: seq<byte>, machine: seq<byte>, phoff: u32, other: seq<byte>,
                                         phentsize: u16, phnum: u16, sections: seq<byte>) {
    predicate Valid() { |ident| == 10 && |machine| == 12 && |other| == 10 && |sections| == 6 }

    function Render(): seq<byte> {
      MAGIC + [CLASS_32, DATA_LSB] + ident + machine + Bytes4(phoff) + other + Bytes2(phentsize) +
      Bytes2(phnum) + sections
    }
  }

  datatype ElfSegment = ElfSegment(kind: u32, offset: u32, virtualAddress: u32, physical: u32,
                                   fileSize: u32, memorySize: u32, flags: u32, align: u32) {
    function Render(): seq<byte> {
      Bytes4(kind) + Bytes4(offset) + Bytes4(virtualAddress) + Bytes4(physical) +
      Bytes4(fileSize) + Bytes4(memorySize) + Bytes4(flags) + Bytes4(align)
    }

    function Meaning(): Segment { Segment(kind, offset, physical, fileSize) }
  }

  lemma ElfHeaderRead(buf: seq<byte>, h: ElfFileHeader)
    requires h.Valid() && At(buf, 0, h.Render())
    ensures |buf| >= ELF_HEADER && ElfHeader(buf) == ElfTable(h.phoff, h.phentsize, h.phnum)
    ensures buf[..4] == MAGIC && buf[4] == CLASS_32 && buf[5] == DATA_LSB
  {
    hide Bytes4, Bytes2, Le32, Le16;
    var r := h.Render();
    var front := MAGIC + [CLASS_32, DATA_LSB] + h.ident + h.machine;
    var last := Bytes2(h.phentsize) + Bytes2(h.phnum) + h.sections;
    assert r == front + Bytes4(h.phoff) + (h.other + last);
    FieldRead(buf, 0, front, h.phoff, h.other + last);
    var middle := front + Bytes4(h.phoff) + h.other;
    assert r == middle + Bytes2(h.phentsize) + (Bytes2(h.phnum) + h.sections);
    HalfRead(buf, 0, middle, h.phentsize, Bytes2(h.phnum) + h.sections);
    assert r == middle + Bytes2(h.phentsize) + Bytes2(h.phnum) + h.sections;
    HalfRead(buf, 0, middle + Bytes2(h.phentsize), h.phnum, h.sections);
    assert buf[..|r|] == r && r[..4] == MAGIC && r[4] == CLASS_32 && r[5] == DATA_LSB;
    assert buf[..4] == buf[..|r|][..4];
  }

  lemma ElfSegmentRead(buf: seq<byte>, at: nat, h: ElfSegment)
    requires At(buf, at, h.Render())
    ensures at + USED <= |buf| && ReadSegment(buf, at) == h.Meaning()
  {
    hide Bytes4, Bytes2, Le32, Le16;
    var r := h.Render();
    var last := Bytes4(h.memorySize) + Bytes4(h.flags) + Bytes4(h.align);
    var late := Bytes4(h.physical) + (Bytes4(h.fileSize) + last);
    assert r == [] + Bytes4(h.kind) + (Bytes4(h.offset) + Bytes4(h.virtualAddress) + late);
    FieldRead(buf, at, [], h.kind, Bytes4(h.offset) + Bytes4(h.virtualAddress) + late);
    assert r == Bytes4(h.kind) + Bytes4(h.offset) + (Bytes4(h.virtualAddress) + late);
    FieldRead(buf, at, Bytes4(h.kind), h.offset, Bytes4(h.virtualAddress) + late);
    var front := Bytes4(h.kind) + Bytes4(h.offset) + Bytes4(h.virtualAddress);
    assert r == front + Bytes4(h.physical) + (Bytes4(h.fileSize) + last);
    FieldRead(buf, at, front, h.physical, Bytes4(h.fileSize) + last);
    assert r == front + Bytes4(h.physical) + Bytes4(h.fileSize) + last;
    FieldRead(buf, at, front + Bytes4(h.physical), h.fileSize, last);
  }

  /** An ELF file: its header, and program headers at phoff, phentsize apart. */
  ghost predicate IsElf(buf: seq<byte>, h: ElfFileHeader, hs: seq<ElfSegment>) {
    && h.Valid() && At(buf, 0, h.Render()) && |hs| == h.phnum
    && h.phoff != 0 && h.phentsize != 0 && h.phnum != 0
    && h.phoff + h.phentsize * h.phnum <= |buf| && h.phoff + h.phentsize * h.phnum < WORD
    && forall i: nat :: i < |hs| ==> At(buf, h.phoff + h.phentsize * i, hs[i].Render())
  }

  function ElfMeanings(hs: seq<ElfSegment>): seq<Segment> {
    seq(|hs|, i requires 0 <= i < |hs| => hs[i].Meaning())
  }

  /** The same for an ELF file: segments of type 1 with bytes in the file. */
  function ElfWrites(buf: seq<byte>, hs: seq<ElfSegment>): (seq<Write>, bool)
    decreases |hs|
  {
    if hs == [] then ([], true) else
      var h := hs[0];
      if h.kind != 1 || h.fileSize == 0 then ElfWrites(buf, hs[1..])
      else if h.offset + h.fileSize > |buf| then ([], false)
      else
        var (ws, complete) := ElfWrites(buf, hs[1..]);
        ([Write(h.physical, buf[h.offset..h.offset + h.fileSize])] + ws, complete)
  }

  lemma {:induction false} ElfPlan(buf: seq<byte>, hs: seq<ElfSegment>)
    requires |buf| < WORD && NoWildSegment(buf, ElfMeanings(hs))
    ensures Plan(SegmentEntries(buf, ElfMeanings(hs))) == ElfWrites(buf, hs)
    decreases |hs|
  {
    hide TestPasses, Plan;
    var meanings := ElfMeanings(hs);
    var entries := SegmentEntries(buf, meanings);
    PlanStep(entries);
    if hs != [] {
      var s := meanings[0];
      if s.kind == 1 && s.size != 0 { RangeTestIff(buf, s.offset, s.size); }
      assert meanings[1..] == ElfMeanings(hs[1..]);
      assert forall i :: 0 <= i < |hs| - 1 ==> meanings[1..][i] == meanings[i + 1];
      assert entries[1..] == SegmentEntries(buf, meanings[1..]);
      ElfPlan(buf, hs[1..]);
    }
  }

  lemma ElfSegmentsRead(buf: seq<byte>, h: ElfFileHeader, hs: seq<ElfSegment>)
    requires |buf| >= ELF_HEADER && IsElf(buf, h, hs) && ElfHeader(buf) == ElfTable(h.phoff, h.phentsize, h.phnum)
    ensures var t := ElfHeader(buf); t.EntriesInside(|buf|) && Segments(buf, t) == ElfMeanings(hs)
  {
    hide ReadSegment, ElfSegment.Render, ElfFileHeader.Render, ElfHeader, At;
    var t := ElfHeader(buf);
    forall i: nat | i < |hs|
      ensures t.At(i) + USED <= |buf| && ReadSegment(buf, t.At(i)) == ElfMeanings(hs)[i]
    {
      ElfSegmentRead(buf, t.At(i), hs[i]);
    }
  }

  /** The same for an ELF file and its loadable segments. */
  lemma ElfLoads(buf: seq<byte>, h: ElfFileHeader, hs: seq<ElfSegment>)
    requires |buf| < WORD && IsElf(buf, h, hs) && NoWildSegment(buf, ElfMeanings(hs))
    requires InRangeEntries(SegmentEntries(buf, ElfMeanings(hs)))
    ensures |buf| >= ELF_HEADER && ElfSound(buf) && buf[..|buf|] == buf
    ensures var (ws, complete) := ElfWrites(buf, hs);
            var (s, status) := Elf(buf, |buf|, EMPTY);
            && status == (if !Ascending(ws) then SinkFailed else if complete then Loaded else Failed)
            && (status == Loaded ==> Shows(s, ws))
  {
    hide Elf, ElfMeanings, Segments, SegmentEntries, NoWildSegment, LoadAll, Plan, Ascending, BinSink.Shows, ElfWrites,
      ElfFileHeader.Render, ElfSegment.Render, At, ElfHeader;
    ElfHeaderRead(buf, h);
    assert buf[..|buf|] == buf;
    ElfSegmentsRead(buf, h, hs);
    TableInside(buf, h);
    ElfRuns(buf, EMPTY);
    LoadedIff(SegmentEntries(buf, ElfMeanings(hs)));
    ElfPlan(buf, hs);
  }

  lemma TableInside(buf: seq<byte>, h: ElfFileHeader)
    requires h.phoff + h.phentsize * h.phnum <= |buf| && h.phoff + h.phentsize * h.phnum < WORD
    ensures TestPasses(buf, h.phoff, h.phentsize * h.phnum)
  {
    assert h.phentsize * h.phnum >= 0;
  }

  /** A file with a usable table comes down to its entries. */
  lemma ElfRuns(buf: seq<byte>, s: State)
    requires |buf| >= ELF_HEADER && buf[..4] == MAGIC && buf[4] == CLASS_32 && buf[5] == DATA_LSB
    requires var t := ElfHeader(buf);
             && t.Usable() && TestPasses(buf, t.start, t.size * t.count)
             && t.EntriesInside(|buf|) && NoWildSegment(buf, Segments(buf, t))
    ensures ElfSound(buf) && buf[..|buf|] == buf
    ensures Elf(buf, |buf|, s) == LoadAll(s, SegmentEntries(buf, Segments(buf, ElfHeader(buf))))
  {
    hide Segments, SegmentEntries, NoWildSegment, LoadAll, ElfHeader, TestPasses, ElfTable.EntriesInside;
    assert buf[..|buf|] == buf;
  }

  // Files that are refused before any section is looked at.

  lemma {:induction false} LoadAllStatus(s: State, entries: seq<Entry>)
    ensures var status := LoadAll(s, entries).1; status == Loaded || status == Failed || status == SinkFailed
    decreases |entries|
  {
    hide Run, Chunks;
    if entries != [] {
      match entries[0]
      case Skip => LoadAllStatus(s, entries[1..]);
      case Beyond =>
      case Load(w) => LoadAllStatus(Run(s, Chunks(w.addr, w.data)).0, entries[1..]);
    }
  }

  /** The first two bytes, low one first, are one of the three version numbers. */
  predicate CoffVersion(input: seq<byte>)
    requires |input| >= 2
  {
    input[1] == 0 && (input[0] == 0x9D || input[0] == 0xC1 || input[0] == 0xC2)
  }

  /** Where the section table ends: the headers are 22 or 20 bytes, the entries 48 or 40. */
  function CoffTableEnd(input: seq<byte>): nat
    requires |input| >= 18
  {
    (if input[0] == 0x9D then 20 else 22) + (input[16] + 0x100 * input[17] as int)
    + (if input[0] == 0xC2 then 48 else 40) * (input[2] + 0x100 * input[3] as int)
  }

  /** Which COFF files are refused, and with what status; nothing is then written. */
  lemma CoffRefused(input: seq<byte>, size: nat, s: State)
    requires 0 < size <= |input| ==> CoffSound(input[..size])
    ensures var (t, status) := Coff(input, size, s);
            && (status == InvalidSize <==> size == 0)
            && (status == NotSupported <==> 0 < size <= |input| && !CoffVersion(input))
            && status != InvalidArgument
            && (status == InvalidSize || status == NotSupported ==> t == s)
            && (|input| < size ==> status == Failed && t == s)
            && (0 < size <= |input| && CoffVersion(input) && CoffTableEnd(input) > size ==> status == Failed && t == s)
  {
    hide LoadAll, SectionEntries, Sections, NoneWild;
    if 0 < size <= |input| {
      var buf := input[..size];
      var l := CoffHeader(buf);
      if l.Layout? && l.table + SectionHeaderSize(l.wide) * l.count <= size {
        LoadAllStatus(s, SectionEntries(buf, Sections(buf, l.table, l.count, l.wide)));
      }
    }
  }

  predicate ElfMagic(input: seq<byte>)
    requires |input| >= 4
  {
    input[0] == 0x7F && input[1] == 0x45 && input[2] == 0x4C && input[3] == 0x46
  }

  /** One of start, entry size and count of the program header table is 0. */
  predicate NoTable(input: seq<byte>)
    requires |input| >= 46
  {
    Le32(input, 28) == 0 || Le16(input, 42) == 0 || Le16(input, 44) == 0
  }

  /** Where the program header table ends. */
  function ElfTableEnd(input: seq<byte>): int
    requires |input| >= 46
  {
    Le32(input, 28) + Le16(input, 42) * Le16(input, 44)
  }

  lemma SameTable(input: seq<byte>, size: nat)
    requires 52 <= size <= |input|
    ensures var (buf, t) := (input[..size], ElfHeader(input[..size]));
            && (t.Usable() <==> !NoTable(input)) && t.start + t.size * t.count == ElfTableEnd(input)
            && (size < ElfTableEnd(input) < 0x1_0000_0000 ==> !TestPasses(buf, t.start, t.size * t.count))
            && (ElfMagic(input) <==> buf[..4] == MAGIC)
  {
    var buf := input[..size];
    assert buf[..4] == [input[0], input[1], input[2], input[3]];
    assert Le32(buf, 28) == Le32(input, 28) && Le16(buf, 42) == Le16(input, 42) && Le16(buf, 44) == Le16(input, 44);
    hide Le32, Le16;
  }

  /** Which ELF files are refused, and with what status; nothing is then written. */
  lemma ElfRefused(input: seq<byte>, size: nat, s: State)
    requires 52 <= size <= |input| ==> ElfSound(input[..size])
    ensures var (t, status) := Elf(input, size, s);
            var complete := 52 <= size <= |input|;
            var readable := complete && ElfMagic(input) && input[4] == 1 && input[5] == 1;
            && (status == InvalidSize <==> size < 52 || (readable && NoTable(input)))
            && (status == InvalidArgument <==> complete && !ElfMagic(input))
            && (status == NotSupported <==> complete && ElfMagic(input) && !readable)
            && (52 <= size && |input| < size ==> status == Failed)
            && (!readable || NoTable(input) ==> t == s)
            && (readable && !NoTable(input) && size < ElfTableEnd(input) < 0x1_0000_0000 ==> status == Failed && t == s)
  {
    hide LoadAll, SegmentEntries, Segments, NoWildSegment, TestPasses, ElfHeader, ElfMagic, NoTable, ElfTableEnd,
      ElfTable.EntriesInside;
    if 52 <= size <= |input| {
      SameTable(input, size);
      var (buf, t) := (input[..size], ElfHeader(input[..size]));
      assert buf[4] == input[4] && buf[5] == input[5];
      if t.Usable() && TestPasses(buf, t.start, t.size * t.count) && ElfMagic(input) && buf[4] == 1 && buf[5] == 1 {
        LoadAllStatus(s, SegmentEntries(buf, Segments(buf, t)));
      }
    }
  }
}
