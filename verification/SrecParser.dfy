/** The S-record reader as it runs: a packed flags byte, a record buffer and a conversion context. */
module SrecParser {
  import opened Bytes
  import opened Hex
  import opened Overlay
  import opened Records
  import opened ImageContext
  import opened ChunkSource
  import opened SrecReader
  import opened SrecCounts

  // Layout of the flags byte: read state in bits 0-3, record type in bits 4-7.
  const STATE_MASK: bv8 := 0x0F

  const RECORD_TYPE: bv8 := 1
  const COUNT_HIGH: bv8 := 3
  const DATA_HIGH: bv8 := 5

  function PhaseOf(state: bv8): Phase {
    if state == 1 then TypeDigit
    else if state == 3 then CountFirst
    else if state == 4 then CountSecond
    else if state == 5 then DataFirst
    else if state == 6 then DataSecond
    else Waiting
  }

  predicate IsState(state: bv8) { state <= 6 && state != 2 }

  /** The type digit, one bit at a time. */
  function TypeOf(flags: bv8): (t: nat)
    ensures t < 16
  {
    (if flags & 0x80 != 0 then 8 else 0) + (if flags & 0x40 != 0 then 4 else 0)
    + (if flags & 0x20 != 0 then 2 else 0) + (if flags & 0x10 != 0 then 1 else 0)
  }

  function TypeBits(n: nibble): (flags: bv8)
    ensures flags & STATE_MASK == 0 && TypeOf(flags) == n
  {
    (if n / 8 == 1 then 0x80 else 0) | (if n / 4 % 2 == 1 then 0x40 else 0)
    | (if n / 2 % 2 == 1 then 0x20 else 0) | (if n % 2 == 1 then 0x10 else 0)
  }

  /** Packing a state beside a type loses neither. */
  lemma Packed(flags: bv8, state: bv8)
    requires flags & STATE_MASK == 0 && IsState(state)
    ensures (flags | state) & STATE_MASK == state
    ensures (flags | state) ^ ((flags | state) & STATE_MASK) == flags
    ensures TypeOf(flags | state) == TypeOf(flags)
  {
  }

  class Parser {
    var flags: bv8
    var byteCount: nat
    var length: nat
    const data: array<byte>
    const ctx: Context
    ghost var events: seq<Event>

    ghost predicate Valid()
      reads this, data, ctx
    {
      && data.Length == MAX_BYTE_COUNT + 1
      && IsState(flags & STATE_MASK)
      && Unpacked().Valid()
      && Told()
    }

    /** The context has been told every callback so far. */
    ghost predicate Told()
      reads this`events, ctx
    {
      ctx.Valid() && ctx.writes == DataWrites(events) && ctx.faults == AnyFault(events)
    }

    ghost function Unpacked(): Fields
      reads this, data
    {
      Fields(PhaseOf(flags & STATE_MASK), TypeOf(flags), byteCount, length, data[..], events)
    }

    /** The reader's state with the flags unpacked. */
    ghost function View(): State
      requires Valid()
      reads this, data, ctx
    {
      Unpacked()
    }

    constructor (ctx: Context)
      requires ctx.Valid() && ctx.writes == [] && !ctx.faults
      ensures Valid() && this.ctx == ctx && fresh(data)
      ensures View() == Start(data[..])
    {
      this.ctx := ctx;
      flags, byteCount, length := 0, 0, 0;
      data := new byte[MAX_BYTE_COUNT + 1];
      events := [];
    }

    /** The callback: payload is the record's data between address and checksum. */
    method DataRead(rtype: nat, address: nat, payload: seq<byte>, mismatch: bool)
      requires Told()
      modifies ctx, this`events
      ensures Told()
      ensures events == old(events) + [Event(rtype, address, payload, IsData(rtype) && payload != [],
                                             mismatch, length != byteCount)]
    {
      hide Context.Valid, AnyFault, DataWrites;
      ghost var e := Event(rtype, address, payload, IsData(rtype) && payload != [], mismatch, length != byteCount);
      EventStep(events, e);
      events := events + [e];
      if mismatch || length != byteCount {
        ctx.Fault();
      } else if IsData(rtype) && |payload| != 0 {
        var _ := ctx.Put(address, payload);
      }
    }

    /** The checksum loop of the source, without its reduction to a byte. */
    method RecordSum() returns (sum: nat)
      requires data.Length == MAX_BYTE_COUNT + 1 && length <= data.Length
      ensures sum == length + Sum(data[..length]) + 1
    {
      sum := length;
      var r := 0;
      while r < length
        invariant r <= length
        invariant sum == length + Sum(data[..r])
      {
        SumAppend(data[..r], [data[r]]);
        assert data[..r + 1] == data[..r] + [data[r]];
        sum := sum + data[r];
        r := r + 1;
      }
      sum := sum + 1;
    }

    method RecordAddress(count: nat) returns (address: nat)
      requires data.Length == MAX_BYTE_COUNT + 1 && 0 < count <= MAX_BYTE_COUNT
      ensures address == SrecReader.BigEndian(data[..count])
    {
      address := 0;
      var r := 0;
      while r < count
        invariant r <= count
        invariant address == SrecReader.BigEndian(data[..r])
      {
        assert data[..r + 1][..r] == data[..r];
        address := address * 256 + data[r];
        r := r + 1;
      }
    }

    method EndRead()
      requires data.Length == MAX_BYTE_COUNT + 1 && flags & STATE_MASK == 0
      requires Unpacked().Bounded() && Told()
      modifies this`flags, this`byteCount, this`length, this`events, ctx
      ensures flags & STATE_MASK == 0
      ensures Unpacked() == End(old(Unpacked()))
      ensures Told()
    {
      hide Context.Valid, AnyFault, DataWrites, Sum, SrecReader.BigEndian, Told;
      if byteCount == 0 { return; }
      var rtype := TypeOf(flags);
      var sum := RecordSum();
      var start := AddressByteCount(rtype);
      var address := RecordAddress(start);
      DataRead(rtype, address, if length > start then data[start..length - 1] else [], sum % 256 != 0);
      flags := 0;
      length := 0;
      byteCount := 0;
    }

    /** At the end of the file a pending record is closed. */
    method CloseFile()
      requires Valid()
      modifies this`flags, this`byteCount, this`length, this`events, ctx
      ensures Told() && events == End(old(View())).events
    {
      hide Told, End;
      EndKeepsPhase(View(), Waiting);
      Packed(flags ^ (flags & STATE_MASK), flags & STATE_MASK);
      flags := flags ^ (flags & STATE_MASK);
      EndRead();
    }

    /** The state bits are cleared; all else is as in s. */
    ghost predicate Resting(s: State)
      reads this, data, ctx
    {
      && data.Length == MAX_BYTE_COUNT + 1
      && flags & STATE_MASK == 0
      && Unpacked() == s.(phase := Waiting)
      && Told()
    }

    /** A character that is not a digit: the mark closes a pending record and opens the next. */
    method ReadOther(c: byte, before: bv8, ghost s: State) returns (state: bv8)
      requires HexValue(c) < 0 && IsState(before) && Resting(s) && s.phase == PhaseOf(before)
      modifies this`flags, this`byteCount, this`length, this`events, ctx
      ensures var r := if c == MARK then Step(s, Mark) else s;
              && IsState(state) && PhaseOf(state) == r.phase
              && flags & STATE_MASK == 0
              && Unpacked() == r.(phase := Waiting)
      ensures Told()
    {
      hide Told, End;
      state := before;
      if c == MARK {
        EndKeepsPhase(s, Waiting);
        state := RECORD_TYPE;
        EndRead();
      }
    }

    /** The type digit, or the first digit of a byte. */
    method ReadFirst(n: nibble, before: bv8, ghost s: State) returns (state: bv8)
      requires IsState(before) && (before + 1) & 1 == 0 && s.phase == PhaseOf(before) && Resting(s)
      requires Step(s, Digit(n)).phase != Overrun
      modifies this`flags, data
      ensures var r := Step(s, Digit(n));
              && IsState(state) && PhaseOf(state) == r.phase
              && flags & STATE_MASK == 0
              && Unpacked() == r.(phase := Waiting)
      ensures Told()
    {
      hide Told;
      state := before + 1;
      if state != 2 {
        data[length] := n * 16;
      } else {
        state := state + 1;
        flags := TypeBits(n);
      }
    }

    /** The second digit completes a byte; a digit outside a record only disturbs the buffer. */
    method ReadSecond(n: nibble, before: bv8, ghost s: State) returns (state: bv8)
      requires IsState(before) && (before + 1) & 1 != 0 && s.phase == PhaseOf(before) && Resting(s)
      requires Step(s, Digit(n)).phase != Overrun
      modifies this`flags, this`byteCount, this`length, this`events, data, ctx
      ensures var r := Step(s, Digit(n));
              && IsState(state) && PhaseOf(state) == r.phase
              && flags & STATE_MASK == 0
              && Unpacked() == r.(phase := Waiting)
      ensures Told()
    {
      hide Told, End;
      JoinDigits(data[length] / 16, n);
      var b := OrByte(data[length], n);
      data[length] := b;
      state := before + 1;
      if state == 5 {
        state := StoreCount(b, s);
      } else if state == 7 {
        state := ReadData(s);
      } else {
        state := 0;
      }
    }

    /** The byte count; one too large for the buffer closes the record. */
    method StoreCount(b: byte, ghost s: State) returns (state: bv8)
      requires s.phase == CountSecond && data.Length == MAX_BYTE_COUNT + 1 && flags & STATE_MASK == 0 && Told()
      requires Unpacked() == s.(phase := Waiting, data := data[..])
      modifies this`flags, this`byteCount, this`length, this`events, ctx
      ensures flags & STATE_MASK == 0 && Told()
      ensures state == if b > MAX_BYTE_COUNT then 0 else DATA_HIGH
      ensures var s' := s.(data := data[..], byteCount := b);
              Unpacked() == (if b > MAX_BYTE_COUNT then End(s') else s').(phase := Waiting)
      ensures data[..] == old(data[..])
    {
      hide Told, End;
      EndKeepsPhase(s.(data := data[..], byteCount := b), Waiting);
      byteCount := b;
      if b > MAX_BYTE_COUNT {
        EndRead();
        return 0;
      }
      return DATA_HIGH;
    }

    /** A counted byte is complete; the last one closes the record. */
    method ReadData(ghost s: State) returns (state: bv8)
      requires s.phase == DataSecond && data.Length == MAX_BYTE_COUNT + 1 && flags & STATE_MASK == 0 && Told()
      requires Unpacked() == s.(phase := Waiting, data := data[..])
      modifies this`flags, this`byteCount, this`length, this`events, ctx
      ensures flags & STATE_MASK == 0 && Told()
      ensures state == if s.length + 1 < s.byteCount then DATA_HIGH else 0
      ensures var s' := s.(data := data[..], length := s.length + 1);
              Unpacked() == (if s.length + 1 < s.byteCount then s' else End(s')).(phase := Waiting)
      ensures data[..] == old(data[..])
    {
      hide Told, End;
      EndKeepsPhase(s.(data := data[..], length := s.length + 1), Waiting);
      length := length + 1;
      if length < byteCount { return DATA_HIGH; }
      EndRead();
      return 0;
    }

    method ReadByte(c: byte)
      requires Valid()
      requires TokenOf(c, MARK) != [] ==> Step(View(), TokenOf(c, MARK)[0]).phase != Overrun
      modifies this`flags, this`byteCount, this`length, this`events, data, ctx
      ensures Valid()
      ensures View() == if TokenOf(c, MARK) == [] then old(View()) else Step(old(View()), TokenOf(c, MARK)[0])
    {
      hide Step, Told;
      ghost var s := View();
      var state := flags & STATE_MASK;
      Packed(flags ^ state, state);
      flags := flags ^ state;
      if HexValue(c) < 0 {
        state := ReadOther(c, state, s);
      } else if (state + 1) & 1 == 0 {
        state := ReadFirst(HexValue(c), state, s);
      } else {
        state := ReadSecond(HexValue(c), state, s);
      }
      SaveState(state, if TokenOf(c, MARK) == [] then s else Step(s, TokenOf(c, MARK)[0]));
    }

    method SaveState(state: bv8, ghost r: State)
      requires IsState(state) && PhaseOf(state) == r.phase && Resting(r)
      modifies this`flags
      ensures Valid() && View() == r
    {
      hide Told;
      Packed(flags, state);
      flags := flags | state;
    }

    method ReadBytes(text: seq<byte>)
      requires Valid() && Run(View(), Tokens(text, MARK)).phase != Overrun
      modifies this`flags, this`byteCount, this`length, this`events, data, ctx
      ensures Valid() && View() == Run(old(View()), Tokens(text, MARK))
    {
      ghost var goal := Run(View(), Tokens(text, MARK));
      var i := 0;
      while i < |text|
        invariant i <= |text| && Valid()
        invariant Run(View(), Tokens(text[i..], MARK)) == goal
      {
        hide Step, Told;
        RunText(View(), text[i..]);
        ghost var next := if TokenOf(text[i], MARK) == [] then View() else Step(View(), TokenOf(text[i], MARK)[0]);
        assert text[i..][1..] == text[i + 1..];
        if next.phase == Overrun { OverrunForGood(next, Tokens(text[i + 1..], MARK)); }
        ReadByte(text[i]);
        i := i + 1;
      }
    }
  }

  /** Read a source to its end; ctx has then been told exactly the text's callbacks. */
  method ReadAll(source: Source, ctx: Context) returns (ghost events: seq<Event>, ghost junk: seq<byte>)
    requires ctx.Valid() && ctx.writes == [] && !ctx.faults
    requires Contained(TextOf(source.chunks))
    modifies source, ctx
    ensures ctx.Valid() && |junk| == MAX_BYTE_COUNT + 1
    ensures events == Callbacks(TextOf(old(source.chunks)), junk)
    ensures ctx.writes == DataWrites(events) && ctx.faults == AnyFault(events)
  {
    var parser := new Parser(ctx);
    junk := parser.data[..];
    ghost var text := TextOf(source.chunks);
    OverrunIff(text, junk);
    ghost var goal := Final(text, junk);
    while true
      invariant parser.Valid() && parser.ctx == ctx && fresh(parser) && fresh(parser.data)
      invariant Run(parser.View(), Tokens(TextOf(source.chunks), MARK)) == goal
      decreases |source.chunks|
    {
      var buf := source.Read();
      if |buf| == 0 { break; }
      ghost var rest := Tokens(TextOf(source.chunks), MARK);
      TokensAppend(buf, TextOf(source.chunks), MARK);
      RunAppend(parser.View(), Tokens(buf, MARK), rest);
      ghost var next := Run(parser.View(), Tokens(buf, MARK));
      if next.phase == Overrun { OverrunForGood(next, rest); }
      parser.ReadBytes(buf);
    }
    parser.CloseFile();
    events := parser.events;
  }

  /** Convert to an image in memory. */
  method ToImage(source: Source) returns (r: Converted, ghost junk: seq<byte>)
    requires Contained(TextOf(source.chunks))
    modifies source
    ensures |junk| == MAX_BYTE_COUNT + 1 && r == Convert(Callbacks(TextOf(old(source.chunks)), junk))
  {
    var ctx := new Context(false, (_, _) => true);
    ghost var events;
    events, junk := ReadAll(source, ctx);
    r := ctx.Result();
  }

  /** Convert by streaming to a sink. */
  method ToSink(source: Source, sink: Sink) returns (ok: bool, calls: seq<Write>, ghost junk: seq<byte>)
    requires Contained(TextOf(source.chunks))
    modifies source
    ensures |junk| == MAX_BYTE_COUNT + 1
    ensures var events := Callbacks(TextOf(old(source.chunks)), junk);
            calls == Streamed(DataWrites(events)) && ok == (!AnyFault(events) && StreamOk(DataWrites(events), sink))
  {
    var ctx := new Context(true, sink);
    ghost var events;
    events, junk := ReadAll(source, ctx);
    ok, calls := !ctx.hasError, ctx.calls;
  }
}
