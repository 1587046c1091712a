/** The Intel HEX reader as it runs: a packed flags byte, a record buffer and a conversion context. */
module IhexParser {
  import opened Bytes
  import opened Hex
  import opened Overlay
  import opened Records
  import opened ImageContext
  import opened IhexReader
  import opened ChunkSource

  // Layout of the flags byte: record type in bits 0-2, read state in bits 3-6.
  const TYPE_MASK: bv8 := 0x07
  const STATE_MASK: bv8 := 0x78

  const COUNT_HIGH: bv8 := 1
  const DATA_HIGH: bv8 := 9

  function PhaseOf(state: bv8): Phase {
    if state == 1 then First(Count)
    else if state == 2 then Second(Count)
    else if state == 3 then First(AddressHigh)
    else if state == 4 then Second(AddressHigh)
    else if state == 5 then First(AddressLow)
    else if state == 6 then Second(AddressLow)
    else if state == 7 then First(RecordType)
    else if state == 8 then Second(RecordType)
    else if state == 9 then First(Payload)
    else if state == 10 then Second(Payload)
    else Waiting
  }

  function StateBits(flags: bv8): bv8 { (flags & STATE_MASK) >> 3 }

  function TypeOf(flags: bv8): nat {
    var t := flags & TYPE_MASK;
    if t == 0 then 0 else if t == 1 then 1 else if t == 2 then 2 else if t == 3 then 3
    else if t == 4 then 4 else if t == 5 then 5 else if t == 6 then 6 else 7
  }

  function TypeBits(b: nat): (t: bv8)
    requires b < 8
    ensures t & TYPE_MASK == t && TypeOf(t) == b
  {
    if b == 0 then 0 else if b == 1 then 1 else if b == 2 then 2 else if b == 3 then 3
    else if b == 4 then 4 else if b == 5 then 5 else if b == 6 then 6 else 7
  }

  /** Packing a state and a type into a byte loses neither. */
  lemma Packed(t: bv8, state: bv8)
    requires t & TYPE_MASK == t && state <= 10
    ensures StateBits(t | (state << 3)) == state
    ensures (t | (state << 3)) & TYPE_MASK == t
    ensures (t | (state << 3)) ^ ((t | (state << 3)) & STATE_MASK) == t
  {
  }

  lemma AddressBytes(address: nat)
    ensures address % 0x1_0000 % 256 == address % 256
    ensures address % 0x1_0000 / 256 == address / 256 % 256
  {
    var (high, low) := (address / 0x1_0000, address % 0x1_0000);
    var (middle, last) := (low / 256, low % 256);
    assert address == 0x1_0000 * high + 256 * middle + last && 0 <= middle < 256;
    assert address == 256 * (256 * high + middle) + last;
    assert address / 256 == 256 * high + middle;
  }

  lemma ReplaceUpper(address: nat, upper: nat)
    ensures var a := address % 0x1_0000 + upper * 0x1_0000;
            a / 0x1_0000 == upper && a % 0x1_0000 == address % 0x1_0000
  {
  }

  lemma ReplaceLower(address: nat, low: nat)
    requires low < 0x1_0000
    ensures var a := address - address % 0x1_0000 + low;
            a / 0x1_0000 == address / 0x1_0000 && a % 0x1_0000 == low
  {
  }

  lemma AddLow(address: nat, b: byte)
    requires address % 0x1_0000 % 256 == 0
    ensures (address + b) / 0x1_0000 == address / 0x1_0000
    ensures (address + b) % 0x1_0000 == address % 0x1_0000 + b
  {
    ReplaceLower(address, address % 0x1_0000 + b);
  }

  /** The value compared with the stored checksum byte is zero exactly when the checksum holds. */
  lemma ChecksumTest(sum: nat, check: byte) returns (negated: byte)
    ensures negated == (256 - sum % 256) % 256
    ensures XorByte(negated, check) == 0 <==> (sum + check) % 256 == 0
  {
    hide Xor;
    negated := (256 - sum % 256) % 256;
    XorZero(negated, check);
    assert sum == 256 * (sum / 256) + sum % 256;
  }

  class Parser {
    var address: nat
    var segment: nat
    var flags: bv8
    var lineLength: nat
    var length: nat
    const data: array<byte>
    const ctx: Context
    ghost var events: seq<Event>

    ghost predicate Valid()
      reads this, data, ctx
    {
      && data.Length == 256
      && flags & 0x80 == 0 && StateBits(flags) <= 10
      && address < 0x1_0000_0000
      && Unpacked().Valid()
      && Told()
    }

    /** The context has been told every callback so far. */
    ghost predicate Told()
      reads this`events, ctx
    {
      ctx.Valid() && ctx.writes == DataWrites(events) && ctx.faults == AnyFault(events)
    }

    ghost function Unpacked(): Fields
      reads this, data
    {
      Fields(PhaseOf(StateBits(flags)), TypeOf(flags), address / 0x1_0000, address % 0x1_0000, segment,
             lineLength, length, data[..], events)
    }

    /** The reader's state with the flags unpacked. */
    ghost function View(): State
      requires Valid()
      reads this, data, ctx
    {
      Unpacked()
    }

    constructor (ctx: Context)
      requires ctx.Valid() && ctx.writes == [] && !ctx.faults
      ensures Valid() && this.ctx == ctx && fresh(data)
      ensures View() == Start(data[..])
    {
      this.ctx := ctx;
      address, segment, flags, lineLength, length := 0, 0, 0, 0, 0;
      data := new byte[256];
      events := [];
    }

    /** The callback: reports whether the record was taken. */
    method DataRead(rtype: nat, mismatch: bool) returns (ok: bool)
      requires Told() && data.Length == 256 && length <= 255
      requires rtype == DATA ==> length > 0
      modifies ctx, this`events
      ensures Told()
      ensures events == old(events) + [Event(rtype, (address + segment * 16) % 0x100_0000, data[..length],
                                             rtype == DATA, mismatch, length < lineLength)]
      ensures rtype != DATA ==> ok == (!mismatch && length >= lineLength)
    {
      hide Context.Valid, AnyFault, DataWrites;
      ghost var e := Event(rtype, (address + segment * 16) % 0x100_0000, data[..length],
                           rtype == DATA, mismatch, length < lineLength);
      EventStep(events, e);
      events := events + [e];
      ok := true;
      if mismatch || length < lineLength {
        ctx.Fault();
        ok := false;
      } else if rtype == DATA {
        ok := ctx.Put((address + segment * 16) % 0x100_0000, data[..length]);
      }
    }

    /** Sum of the record's bytes, as the source's loop adds them. */
    method RecordSum() returns (sum: nat)
      requires data.Length == 256 && length <= 255
      ensures sum == Sum(data[..length])
    {
      sum := 0;
      var r := 0;
      while r < length
        invariant r <= length
        invariant sum == Sum(data[..r])
      {
        SumAppend(data[..r], [data[r]]);
        assert data[..r + 1] == data[..r] + [data[r]];
        sum := sum + data[r];
        r := r + 1;
      }
    }

    /** An accepted address record moves the base. */
    method Rebase(rtype: nat)
      requires data.Length == 256 && address < 0x1_0000_0000
      modifies this`address, this`segment
      ensures address < 0x1_0000_0000 && address % 0x1_0000 == old(address) % 0x1_0000
      ensures address / 0x1_0000
              == if rtype == EXTENDED_LINEAR then BigEndian(data[0], data[1]) else old(address) / 0x1_0000
      ensures segment == if rtype == EXTENDED_SEGMENT then BigEndian(data[0], data[1]) else old(segment)
    {
      ReplaceUpper(address, BigEndian(data[0], data[1]));
      if rtype == EXTENDED_LINEAR {
        address := address % 0x1_0000 + BigEndian(data[0], data[1]) * 0x1_0000;
      } else if rtype == EXTENDED_SEGMENT {
        segment := BigEndian(data[0], data[1]);
      }
    }

    method EndRead()
      requires data.Length == 256 && flags & STATE_MASK == 0 && flags & 0x80 == 0
      requires address < 0x1_0000_0000 && Unpacked().Bounded() && Told()
      modifies this`address, this`segment, this`length, this`flags, this`events, ctx
      ensures flags == 0 && address < 0x1_0000_0000
      ensures Unpacked() == End(old(Unpacked()))
      ensures Told()
    {
      hide Context.Valid, AnyFault, DataWrites, Sum, Told, XorByte;
      AddressBytes(address);
      var rtype := TypeOf(flags);
      if length == 0 && rtype == DATA { return; }
      var sum := RecordSum();
      sum := length + rtype + address % 256 + address / 256 % 256 + sum;
      ghost var negated := ChecksumTest(sum, data[length]);
      assert (XorByte(negated, data[length]) == 0) == old(Unpacked()).ChecksumHolds();
      var ok := DataRead(rtype, XorByte((256 - sum % 256) % 256, data[length]) != 0);
      if ok { Rebase(rtype); }
      length := 0;
      flags := 0;
    }

    /** At the end of the file a pending record is closed. */
    method CloseFile()
      requires Valid()
      modifies this`address, this`segment, this`length, this`flags, this`events, ctx
      ensures Told() && events == End(old(View())).events
    {
      hide Told, End;
      EndKeepsPhase(View(), Waiting);
      flags := flags ^ (flags & STATE_MASK);
      EndRead();
    }

    /** The state bits are cleared; all else is as in s. */
    ghost predicate Resting(s: State)
      reads this, data, ctx
    {
      && data.Length == 256
      && flags & TYPE_MASK == flags
      && address < 0x1_0000_0000
      && Unpacked() == s.(phase := Waiting)
      && Told()
    }

    /** A character that is not a digit: the mark closes a pending record and opens the next. */
    method ReadOther(c: byte, before: bv8, ghost s: State) returns (state: bv8)
      requires HexValue(c) < 0 && before <= 10 && Resting(s) && s.phase == PhaseOf(before)
      modifies this`address, this`segment, this`flags, this`length, this`events, ctx
      ensures var r := if c == MARK then Step(s, Mark) else s;
              && state <= 10 && PhaseOf(state) == r.phase
              && flags & TYPE_MASK == flags && address < 0x1_0000_0000
              && Unpacked() == r.(phase := Waiting)
      ensures Told()
    {
      hide Told, End;
      state := before;
      if c == MARK {
        EndKeepsPhase(s, Waiting);
        state := COUNT_HIGH;
        EndRead();
      }
    }

    /** The first digit of a byte goes to the upper half of the buffer cell. */
    method ReadFirst(n: nibble, before: bv8, ghost s: State) returns (state: bv8)
      requires before <= 10 && s.phase == PhaseOf(before) && s.phase.First? && Resting(s)
      modifies data
      ensures var r := Step(s, Digit(n));
              && state <= 10 && PhaseOf(state) == r.phase
              && flags & TYPE_MASK == flags && address < 0x1_0000_0000
              && Unpacked() == r.(phase := Waiting)
      ensures Told()
    {
      hide Told;
      data[length] := n * 16;
      return before + 1;
    }

    /** The second digit completes a byte; a digit outside a record only disturbs the buffer. */
    method ReadSecond(n: nibble, before: bv8, ghost s: State) returns (state: bv8)
      requires before <= 10 && s.phase == PhaseOf(before) && !s.phase.First? && Resting(s)
      modifies this`address, this`segment, this`flags, this`lineLength, this`length, this`events, data, ctx
      ensures var r := Step(s, Digit(n));
              && state <= 10 && PhaseOf(state) == r.phase
              && flags & TYPE_MASK == flags && address < 0x1_0000_0000
              && Unpacked() == r.(phase := Waiting)
      ensures Told()
    {
      hide Told, End;
      JoinDigits(data[length] / 16, n);
      var len := length;
      var b := OrByte(data[len], n);
      data[len] := b;
      state := before + 1;
      if state == 3 || state == 5 || state == 7 {
        StoreHead(state, b, n, s);
      } else if state == 9 && b < 8 {
        flags := (flags & !TYPE_MASK) | TypeBits(b);
      } else if state == 11 {
        state := ReadPayload(len, s);
      } else {
        state := 0;
      }
    }

    /** A byte of the record's head: its length or one half of its offset. */
    method StoreHead(state: bv8, b: byte, n: nibble, ghost s: State)
      requires state == 3 || state == 5 || state == 7
      requires s.phase == PhaseOf(state - 1) && b == s.data[s.length] + n
      requires flags & TYPE_MASK == flags && address < 0x1_0000_0000 && Told()
      requires Unpacked() == s.(phase := Waiting, data := s.data[s.length := b])
      modifies this`address, this`lineLength
      ensures PhaseOf(state) == Step(s, Digit(n)).phase && address < 0x1_0000_0000
      ensures Unpacked() == Step(s, Digit(n)).(phase := Waiting) && Told()
    {
      hide Told, End, TypeOf;
      if state == 3 {
        lineLength := b;
      } else if state == 5 {
        ReplaceLower(address, BigEndian(b, 0));
        address := address - address % 0x1_0000 + BigEndian(b, 0);
      } else {
        AddLow(address, b);
        address := address + b;
      }
    }

    /** A payload byte: one more data byte, or the checksum that closes the record. */
    method ReadPayload(len: nat, ghost s: State) returns (state: bv8)
      requires s.phase == Second(Payload) && len == s.length && data.Length == 256 && flags & TYPE_MASK == flags
      requires address < 0x1_0000_0000 && Told()
      requires Unpacked() == s.(phase := Waiting, data := s.data[len := data[len]])
      modifies this`address, this`segment, this`flags, this`length, this`events, ctx
      ensures address < 0x1_0000_0000 && flags & TYPE_MASK == flags && Told()
      ensures state == if len < s.lineLength then DATA_HIGH else 0
      ensures Unpacked() == if len < s.lineLength
                            then s.(phase := Waiting, data := data[..], length := len + 1)
                            else End(s.(data := data[..])).(phase := Waiting)
      ensures data[..] == old(data[..])
    {
      hide Told, End;
      EndKeepsPhase(s.(data := data[..]), Waiting);
      if len < lineLength {
        length := len + 1;
        return DATA_HIGH;
      }
      EndRead();
      return 0;
    }

    method ReadByte(c: byte)
      requires Valid()
      modifies this`address, this`segment, this`flags, this`lineLength, this`length, this`events, data, ctx
      ensures Valid()
      ensures View() == if TokenOf(c, MARK) == [] then old(View()) else Step(old(View()), TokenOf(c, MARK)[0])
    {
      hide Step, Told;
      ghost var s := View();
      var state := flags & STATE_MASK;
      flags := flags ^ state;
      state := state >> 3;
      if HexValue(c) < 0 {
        state := ReadOther(c, state, s);
      } else if (state + 1) & 1 == 0 {
        state := ReadFirst(HexValue(c), state, s);
      } else {
        state := ReadSecond(HexValue(c), state, s);
      }
      SaveState(state, if TokenOf(c, MARK) == [] then s else Step(s, TokenOf(c, MARK)[0]));
    }

    method SaveState(state: bv8, ghost r: State)
      requires state <= 10 && PhaseOf(state) == r.phase && Resting(r)
      modifies this`flags
      ensures Valid() && View() == r
    {
      hide Told;
      Packed(flags, state);
      flags := flags | (state << 3);
    }

    method ReadBytes(text: seq<byte>)
      requires Valid()
      modifies this`address, this`segment, this`flags, this`lineLength, this`length, this`events, data, ctx
      ensures Valid() && View() == Run(old(View()), Tokens(text, MARK))
    {
      ghost var goal := Run(View(), Tokens(text, MARK));
      var i := 0;
      while i < |text|
        invariant i <= |text| && Valid()
        invariant Run(View(), Tokens(text[i..], MARK)) == goal
      {
        RunText(View(), text[i..]);
        assert text[i..][1..] == text[i + 1..];
        ReadByte(text[i]);
        i := i + 1;
      }
    }
  }

  /** Read a source to its end; ctx has then been told exactly the text's callbacks. */
  method ReadAll(source: Source, ctx: Context) returns (ghost events: seq<Event>, ghost junk: seq<byte>)
    requires ctx.Valid() && ctx.writes == [] && !ctx.faults
    modifies source, ctx
    ensures ctx.Valid() && |junk| == 256
    ensures events == Callbacks(TextOf(old(source.chunks)), junk)
    ensures ctx.writes == DataWrites(events) && ctx.faults == AnyFault(events)
  {
    var parser := new Parser(ctx);
    junk := parser.data[..];
    ghost var goal := Run(parser.View(), Tokens(TextOf(source.chunks), MARK));
    while true
      invariant parser.Valid() && parser.ctx == ctx && fresh(parser) && fresh(parser.data)
      invariant Run(parser.View(), Tokens(TextOf(source.chunks), MARK)) == goal
      decreases |source.chunks|
    {
      ghost var rest := TextOf(source.chunks);
      var buf := source.Read();
      if |buf| == 0 { break; }
      TokensAppend(buf, TextOf(source.chunks), MARK);
      RunAppend(parser.View(), Tokens(buf, MARK), Tokens(TextOf(source.chunks), MARK));
      parser.ReadBytes(buf);
    }
    parser.CloseFile();
    events := parser.events;
  }

  /** Convert to an image in memory. */
  method ToImage(source: Source) returns (r: Converted, ghost junk: seq<byte>)
    modifies source
    ensures |junk| == 256 && r == Convert(Callbacks(TextOf(old(source.chunks)), junk))
  {
    var ctx := new Context(false, (_, _) => true);
    ghost var events;
    events, junk := ReadAll(source, ctx);
    r := ctx.Result();
  }

  /** Convert by streaming to a sink. */
  method ToSink(source: Source, sink: Sink) returns (ok: bool, calls: seq<Write>, ghost junk: seq<byte>)
    modifies source
    ensures |junk| == 256
    ensures var events := Callbacks(TextOf(old(source.chunks)), junk);
            calls == Streamed(DataWrites(events)) && ok == (!AnyFault(events) && StreamOk(DataWrites(events), sink))
  {
    var ctx := new Context(true, sink);
    ghost var events;
    events, junk := ReadAll(source, ctx);
    ok, calls := !ctx.hasError, ctx.calls;
  }
}
