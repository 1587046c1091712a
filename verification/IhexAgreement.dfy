/** The two Intel HEX decoders against each other. */
module IhexAgreement {
  import opened Bytes
  import opened Hex
  import opened Overlay
  import opened Records
  import opened ImageContext
  import opened IhexLines
  import opened IhexFile
  import HexFiles
  import IhexReader

  /** A line that writes a record out, in either letter case. */
  ghost predicate Spells(line: seq<byte>, r: Record) {
    && |line| == 1 + 2 * |r.Body()|
    && line[0] == 0x3A
    && forall k :: 0 <= k < |r.Body()| ==> HexByte(line, 1 + 2 * k) == r.Body()[k]
  }

  ghost predicate LineEnd(eol: seq<byte>) { eol == [10] || eol == [13, 10] }

  predicate Printable(line: seq<byte>) {
    forall i :: 0 <= i < |line| ==> line[i] != CR && line[i] != LF && line[i] != 0
  }

  lemma SpelledIsPrintable(line: seq<byte>, r: Record)
    requires Spells(line, r)
    ensures Printable(line)
  {
    forall i | 0 < i < |line|
      ensures HexValue(line[i]) >= 0
    {
      var k := (i - 1) / 2;
      assert HexByte(line, 1 + 2 * k) == r.Body()[k];
    }
  }

  lemma {:induction false} SpelledDigits(line: seq<byte>, r: Record, k: nat)
    requires Spells(line, r) && k <= |r.Body()|
    ensures Tokens(line[1 + 2 * k..], IhexReader.MARK) == Digits(r.Body()[k..])
    decreases |r.Body()| - k
  {
    hide RecordFields.Body;
    if k < |r.Body()| {
      var i := 1 + 2 * k;
      assert HexByte(line, 1 + 2 * k) == r.Body()[k];
      var (tail, bytes) := (line[i..], r.Body()[k..]);
      assert tail[1..][1..] == line[i + 2..] && bytes[1..] == r.Body()[k + 1..];
      assert TokenOf(tail[0], IhexReader.MARK) == [Digit(bytes[0] / 16)];
      assert TokenOf(tail[1..][0], IhexReader.MARK) == [Digit(bytes[0] % 16)];
      SpelledDigits(line, r, k + 1);
    }
  }

  lemma SpelledTokens(line: seq<byte>, r: Record)
    requires Spells(line, r)
    ensures Tokens(line, IhexReader.MARK) == Render(r)
  {
    SpelledDigits(line, r, 0);
    assert r.Body()[0..] == r.Body();
    assert TokenOf(line[0], IhexReader.MARK) == [Mark];
  }

  lemma {:induction false} SpelledSum(line: seq<byte>, r: Record, k: nat)
    requires Spells(line, r) && k <= |r.Body()|
    ensures AllPairs(line, 1 + 2 * k) && PairSum(line, 1 + 2 * k) == Sum(r.Body()[k..])
    decreases |r.Body()| - k
  {
    hide RecordFields.Body, HexByte;
    if k < |r.Body()| {
      assert HexByte(line, 1 + 2 * k) == r.Body()[k];
      SpelledSum(line, r, k + 1);
      assert 1 + 2 * k + 2 == 1 + 2 * (k + 1);
      assert r.Body()[k..][1..] == r.Body()[k + 1..];
    }
  }

  lemma SpelledByte(line: seq<byte>, r: Record, i: nat, k: nat)
    requires Spells(line, r) && k < |r.Body()| && i == 1 + 2 * k
    ensures HexByte(line, i) == r.Body()[k]
  {
  }

  /** What the line decoder makes of a record. */
  function Meaning(r: Record, base: nat): Action {
    if !r.Good() then Reject
    else if r.rtype == IhexReader.DATA then Store((base + r.offset) % 0x1_0000_0000, r.data)
    else if r.rtype == IhexReader.END_OF_FILE then Finish
    else if r.rtype == IhexReader.EXTENDED_SEGMENT then Rebase(IhexReader.BigEndian(r.data[0], r.data[1]) * 16)
    else if r.rtype == IhexReader.EXTENDED_LINEAR then Rebase(IhexReader.BigEndian(r.data[0], r.data[1]) * 0x1_0000)
    else Ignore
  }

  lemma DecodeSpelled(line: seq<byte>, r: Record, base: nat)
    requires Spells(line, r)
    ensures Decode(line, base) == Meaning(r, base)
  {
    hide HexByte, AllPairs, PairSum, Sum;
    SpelledSum(line, r, 0);
    assert r.Body()[0..] == r.Body();
    var body := r.Body();
    SpelledByte(line, r, 1, 0);
    SpelledByte(line, r, 3, 1);
    SpelledByte(line, r, 5, 2);
    SpelledByte(line, r, 7, 3);
    forall k | 0 <= k < |r.data|
      ensures HexByte(line, 9 + 2 * k) == r.data[k]
    {
      SpelledByte(line, r, 9 + 2 * k, 4 + k);
    }
    if r.rtype == IhexReader.DATA && r.Good() {
      forall k | 0 <= k < |r.data|
        ensures HexByte(line, 9 + 2 * k) >= 0
      {
        SpelledByte(line, r, 9 + 2 * k, 4 + k);
      }
      assert PairBytes(line, 9, |r.data|) == r.data;
      assert (base + r.offset / 256 * 256 + r.offset % 256) == base + r.offset;
    }
    if |r.data| >= 2 {
      SpelledByte(line, r, 9, 4);
      SpelledByte(line, r, 11, 5);
    }
  }

  // Reading lines.

  lemma {:induction false} TakeShortLine(line: seq<byte>, eol: seq<byte>, rest: seq<byte>, held: nat)
    requires Printable(line) && LineEnd(eol) && held + |line| < MAX_LINE
    ensures TakeLine(line + eol + rest, held) == Taken(line, rest, false)
  {
    var all := line + eol + rest;
    if line == [] {
      assert all == eol + rest;
      if eol == [CR, LF] {
        assert all[1..] == [LF] + rest;
        assert all[1..][1..] == rest;
      } else {
        assert all[1..] == rest;
      }
    } else {
      assert all[1..] == line[1..] + eol + rest;
      TakeShortLine(line[1..], eol, rest, held + 1);
    }
  }

  lemma {:induction false} TakeFullLine(line: seq<byte>, rest: seq<byte>, held: nat)
    requires Printable(line) && held + |line| == MAX_LINE
    ensures TakeLine(line + rest, held) == Taken(line, rest, false)
  {
    if line == [] {
      assert line + rest == rest;
    } else {
      assert (line + rest)[1..] == line[1..] + rest;
      TakeFullLine(line[1..], rest, held + 1);
    }
  }

  lemma {:induction false} PrintableCString(line: seq<byte>)
    requires Printable(line)
    ensures CString(line) == line
  {
    if line != [] { PrintableCString(line[1..]); }
  }

  // Whole files.

  /** The calls a sink receives when the writes are offered until it refuses one. */
  function Offer(made: seq<Write>, ws: seq<Write>, verdict: bool, sink: Consumer): Outcome
    decreases |ws|
  {
    if ws == [] then Outcome(made, verdict)
    else
      var calls := made + [ws[0]];
      if sink(calls) then Offer(calls, ws[1..], verdict, sink) else Outcome(calls, false)
  }

  function Join(lines: seq<seq<byte>>, eols: seq<seq<byte>>): seq<byte>
    requires |lines| == |eols|
  {
    if lines == [] then [] else lines[0] + eols[0] + Join(lines[1..], eols[1..])
  }

  /** A file of records with good checksums, one a line. */
  ghost predicate Tidy(rs: seq<Record>, lines: seq<seq<byte>>, eols: seq<seq<byte>>) {
    && |rs| == |lines| == |eols|
    && forall i :: 0 <= i < |rs| ==> Spells(lines[i], rs[i]) && LineEnd(eols[i]) && rs[i].Good()
  }

  function RecordWrites(r: Record, addr: nat): seq<Write> {
    if r.rtype == IhexReader.DATA then [Write(addr, r.data)] else []
  }

  /** The line decoder's base is that of the last extended address record, of either kind. */
  function LastBase(base: nat, r: Record): nat
    requires r.Good()
  {
    match Meaning(r, base)
    case Rebase(b) => b
    case _ => base
  }

  /** Whether the line decoder stops after a line: its line feed reads as a blank line, or it ends the file. */
  predicate Stops(r: Record, line: seq<byte>) { |line| == 255 || r.rtype == 1 }

  /** What the line decoder hands out, and its verdict if all is taken. */
  function LineWrites(base: nat, rs: seq<Record>, lines: seq<seq<byte>>): (seq<Write>, bool)
    requires |rs| == |lines| && forall i :: 0 <= i < |rs| ==> rs[i].Good()
    decreases |rs|
  {
    if rs == [] then ([], true)
    else if |lines[0]| > 255 then ([], false)
    else
      var w := RecordWrites(rs[0], (base + rs[0].offset) % 0x1_0000_0000);
      if Stops(rs[0], lines[0]) then (w, true)
      else
        var (ws, verdict) := LineWrites(LastBase(base, rs[0]), rs[1..], lines[1..]);
        (w + ws, verdict)
  }

  lemma NotEmpty(line: seq<byte>, r: Record)
    requires Spells(line, r)
    ensures line != []
  {
  }

  lemma TidyTail(rs: seq<Record>, lines: seq<seq<byte>>, eols: seq<seq<byte>>)
    requires Tidy(rs, lines, eols) && rs != []
    ensures |rs| == |lines| == |eols|
    ensures Spells(lines[0], rs[0]) && LineEnd(eols[0]) && rs[0].Good()
    ensures Tidy(rs[1..], lines[1..], eols[1..])
  {
    hide Spells;
  }

  /** A tidy file is offered to the sink write by write. */
  lemma {:induction false} ProcessTidy(rs: seq<Record>, lines: seq<seq<byte>>, eols: seq<seq<byte>>,
                                       base: nat, made: seq<Write>, sink: Consumer)
    requires Tidy(rs, lines, eols)
    ensures var (ws, verdict) := LineWrites(base, rs, lines);
            Process(Join(lines, eols), false, base, made, sink) == Offer(made, ws, verdict, sink)
    decreases |rs|
  {
    hide Spells, Decode, TakeLine, CString, LineEnd;
    if rs == [] {
      EmptyText(base, made, sink);
      return;
    }
    TidyTail(rs, lines, eols);
    var (line, rest) := (lines[0], Join(lines[1..], eols[1..]));
    if |line| > MAX_LINE {
      LongLineFails(line, rs[0], eols[0] + rest, base, made, sink);
      assert line + eols[0] + rest == line + (eols[0] + rest);
    } else if |line| == MAX_LINE {
      FullLineEndsFile(line, rs[0], eols[0], rest, base, made, sink);
    } else {
      ShortLine(line, rs[0], eols[0], rest, base, made, sink);
      if rs[0].rtype != IhexReader.END_OF_FILE {
        var w := RecordWrites(rs[0], (base + rs[0].offset) % 0x1_0000_0000);
        ProcessTidy(rs[1..], lines[1..], eols[1..], LastBase(base, rs[0]), made + w, sink);
        var (ws, verdict) := LineWrites(LastBase(base, rs[0]), rs[1..], lines[1..]);
        OfferMore(made, w, ws, verdict, sink);
      }
    }
  }

  lemma EmptyText(base: nat, made: seq<Write>, sink: Consumer)
    ensures Process([], false, base, made, sink) == Outcome(made, true)
  {
  }

  /** Offering one record's writes, then the rest. */
  lemma OfferMore(made: seq<Write>, w: seq<Write>, ws: seq<Write>, verdict: bool, sink: Consumer)
    requires |w| <= 1
    ensures Offer(made, w + ws, verdict, sink) ==
            if w == [] || sink(made + w) then Offer(made + w, ws, verdict, sink) else Outcome(made + w, false)
  {
    if w == [] {
      assert w + ws == ws && made + w == made;
    } else {
      assert (w + ws)[1..] == ws && w == [w[0]];
    }
  }

  /** A line that fits. */
  lemma ShortLine(line: seq<byte>, r: Record, eol: seq<byte>, rest: seq<byte>,
                  base: nat, made: seq<Write>, sink: Consumer)
    requires Spells(line, r) && LineEnd(eol) && |line| < 255 && r.Good()
    ensures var w := RecordWrites(r, (base + r.offset) % 0x1_0000_0000);
            Process(line + eol + rest, false, base, made, sink) ==
            if w != [] && !sink(made + w) then Outcome(made + w, false)
            else if r.rtype == IhexReader.END_OF_FILE then Outcome(made + w, true)
            else Process(rest, false, LastBase(base, r), made + w, sink)
  {
    hide Spells, Decode, TakeLine, CString;
    SpelledIsPrintable(line, r);
    TakeShortLine(line, eol, rest, 0);
    PrintableCString(line);
    DecodeSpelled(line, r, base);
    NotEmpty(line, r);
    assert made + [] == made;
  }

  // Lines that do not fit.

  /** A line of exactly 255 characters: its line end reads as an empty line, and the rest of the file is lost. */
  lemma FullLineEndsFile(line: seq<byte>, r: Record, eol: seq<byte>, rest: seq<byte>, base: nat,
                         made: seq<Write>, sink: Consumer)
    requires Spells(line, r) && LineEnd(eol) && |line| == 255 && r.Good()
    ensures Process(line + eol + rest, false, base, made, sink) ==
            Offer(made, RecordWrites(r, (base + r.offset) % 0x1_0000_0000), true, sink)
  {
    hide Spells, Decode, CString;
    SpelledIsPrintable(line, r);
    assert line + eol + rest == line + (eol + rest);
    TakeFullLine(line, eol + rest, 0);
    PrintableCString(line);
    DecodeSpelled(line, r, base);
    NotEmpty(line, r);
    BlankLine(eol, rest);
    hide TakeLine;
    var w := RecordWrites(r, (base + r.offset) % 0x1_0000_0000);
    OfferMore(made, w, [], true, sink);
    assert w + [] == w && made + [] == made;
    BlankLineEnds(eol, rest, LastBase(base, r), made, sink);
    BlankLineEnds(eol, rest, base, made + w, sink);
  }

  lemma BlankLine(eol: seq<byte>, rest: seq<byte>)
    requires LineEnd(eol)
    ensures TakeLine(eol + rest, 0) == Taken([], rest, false)
  {
    if eol == [LF] {
      assert (eol + rest)[1..] == rest;
    } else {
      assert (eol + rest)[1..] == [LF] + rest && (eol + rest)[1..][1..] == rest;
    }
  }

  lemma BlankLineEnds(eol: seq<byte>, rest: seq<byte>, base: nat, made: seq<Write>, sink: Consumer)
    requires LineEnd(eol)
    ensures Process(eol + rest, false, base, made, sink) == Outcome(made, true)
  {
    BlankLine(eol, rest);
  }

  /** A line longer than that is cut in two and rejected. */
  lemma LongLineFails(line: seq<byte>, r: Record, rest: seq<byte>, base: nat, made: seq<Write>, sink: Consumer)
    requires Spells(line, r) && |line| > 255
    ensures Process(line + rest, false, base, made, sink) == Outcome(made, false)
  {
    hide CString;
    SpelledIsPrintable(line, r);
    var (front, back) := (line[..MAX_LINE], line[MAX_LINE..]);
    assert line + rest == front + (back + rest);
    TakeFullLine(front, back + rest, 0);
    PrintableCString(front);
    SpelledByte(line, r, 1, 0);
    assert HexByte(front, 1) == |r.data|;
    assert Decode(front, base) == Reject;
  }

  // The character reader on the same text.

  lemma LineEndTokens(eol: seq<byte>)
    requires LineEnd(eol)
    ensures Tokens(eol, IhexReader.MARK) == []
  {
    NoTokens(eol, IhexReader.MARK);
  }

  lemma {:induction false} JoinTokens(rs: seq<Record>, lines: seq<seq<byte>>, eols: seq<seq<byte>>)
    requires |rs| == |lines| == |eols|
    requires forall i :: 0 <= i < |rs| ==> Spells(lines[i], rs[i]) && LineEnd(eols[i])
    ensures Tokens(Join(lines, eols), IhexReader.MARK) == RenderAll(rs)
  {
    hide Spells, LineEnd, Render, Tokens;
    if rs == [] {
      assert Tokens([], IhexReader.MARK) == [] by { NoTokens([], IhexReader.MARK); }
    } else {
      SpelledTokens(lines[0], rs[0]);
      LineEndTokens(eols[0]);
      TokensAppend(lines[0], eols[0], IhexReader.MARK);
      TokensAppend(lines[0] + eols[0], Join(lines[1..], eols[1..]), IhexReader.MARK);
      JoinTokens(rs[1..], lines[1..], eols[1..]);
    }
  }

  // When the two decoders agree.

  predicate Carries(r: Record) { r.rtype == IhexReader.DATA && r.data != [] }

  /**
   * Up to the line where the line decoder stops, no line is longer than 255 characters and no data record is
   * empty; after it, no record carries data.
   */
  predicate LinesFit(rs: seq<Record>, lines: seq<seq<byte>>)
    requires |rs| == |lines|
    decreases |rs|
  {
    rs != [] ==>
      && |lines[0]| <= 255
      && !rs[0].Dropped()
      && if Stops(rs[0], lines[0]) then forall i :: 0 < i < |rs| ==> !Carries(rs[i])
         else LinesFit(rs[1..], lines[1..])
  }

  /** Whether the last extended address record was the linear kind. */
  function NowLinear(linear: bool, r: Record): bool {
    if r.rtype == IhexReader.EXTENDED_LINEAR then true
    else if r.rtype == IhexReader.EXTENDED_SEGMENT then false
    else linear
  }

  /** The line decoder's base, from the two bases of the character reader. */
  function LineBase(b: Base, linear: bool): nat { if linear then b.upper * 0x1_0000 else b.segment * 16 }

  predicate Bounded(b: Base) { b.upper < 0x1_0000 && b.segment < 0x1_0000 }

  /**
   * Last a linear base: no segment base is left over, and the linear one is below 2^24. Last a segment base, or
   * none: any linear base left over is a multiple of 2^24.
   */
  predicate BaseFits(b: Base, linear: bool) {
    if linear then b.segment == 0 && b.upper < 0x100 else b.upper % 0x100 == 0
  }

  lemma LinearSum(upper: nat, segment: nat, offset: nat)
    requires upper < 0x1_0000 && segment < 0x1_0000 && offset < 0x1_0000
    ensures (upper * 0x1_0000 + offset + segment * 16) % 0x100_0000 == upper * 0x1_0000 + offset
            <==> segment == 0 && upper < 0x100
  {
    var address := upper * 0x1_0000 + offset;
    if upper < 0x100 {
      var sum := address + segment * 16;
      assert address < 0x100_0000 && segment * 16 < 0x10_0000;
      assert sum % 0x100_0000 == if sum < 0x100_0000 then sum else sum - 0x100_0000;
    } else {
      assert address >= 0x100_0000;
    }
  }

  lemma SegmentSum(upper: nat, segment: nat, offset: nat)
    requires segment < 0x1_0000 && offset < 0x1_0000
    ensures (upper * 0x1_0000 + offset + segment * 16) % 0x100_0000 == segment * 16 + offset <==> upper % 0x100 == 0
  {
    var (high, low) := (upper / 0x100, upper % 0x100);
    var rest := low * 0x1_0000 + (segment * 16 + offset);
    assert upper * 0x1_0000 + offset + segment * 16 == 0x100_0000 * high + rest;
    ModMultiple(high, rest);
    assert rest < 0x200_0000;
  }

  lemma ModMultiple(high: nat, rest: nat)
    requires rest < 0x200_0000
    ensures (0x100_0000 * high + rest) % 0x100_0000 == if rest < 0x100_0000 then rest else rest - 0x100_0000
  {
  }

  /** The two decoders compute the same address exactly if the base fits, whatever the offset. */
  lemma BaseFitsIff(b: Base, linear: bool, offset: nat)
    requires Bounded(b) && offset < 0x1_0000
    ensures b.Linear(offset) == (LineBase(b, linear) + offset) % 0x1_0000_0000 <==> BaseFits(b, linear)
  {
    LinearSum(b.upper, b.segment, offset);
    SegmentSum(b.upper, b.segment, offset);
    assert b.upper * 0x1_0000 + offset < 0x1_0000_0000;
  }

  /** Wherever data is carried, the bases set by the records before it fit. */
  predicate BasesFit(b: Base, linear: bool, rs: seq<Record>)
    decreases |rs|
  {
    rs != [] ==>
      && (Carries(rs[0]) ==> BaseFits(b, linear))
      && BasesFit(b.Next(rs[0]), NowLinear(linear, rs[0]), rs[1..])
  }

  lemma BaseStep(b: Base, linear: bool, r: Record)
    requires Bounded(b) && r.Good()
    ensures Bounded(b.Next(r)) && LastBase(LineBase(b, linear), r) == LineBase(b.Next(r), NowLinear(linear, r))
  {
    hide RecordFields.Body;
  }

  /** One kind of extended address record, and linear bases below 2^24: the bases always fit. */
  lemma {:induction false} OneKindFits(b: Base, linear: bool, rs: seq<Record>)
    requires forall i :: 0 <= i < |rs| ==> rs[i].Good()
    requires || (b.upper == 0 && !linear && forall i :: 0 <= i < |rs| ==> rs[i].rtype != IhexReader.EXTENDED_LINEAR)
             || (b.segment == 0 && b.upper < 0x100 && (linear || b.upper == 0)
                 && forall i :: 0 <= i < |rs| ==>
                      && rs[i].rtype != IhexReader.EXTENDED_SEGMENT
                      && (rs[i].rtype == IhexReader.EXTENDED_LINEAR ==> rs[i].data[0] == 0))
    ensures BasesFit(b, linear, rs)
    decreases |rs|
  {
    if rs != [] {
      assert rs[0].Good();
      OneKindFits(b.Next(rs[0]), NowLinear(linear, rs[0]), rs[1..]);
    }
  }

  lemma {:induction false} DenoteNothingIff(b: Base, rs: seq<Record>)
    ensures Denote(b, rs) == [] <==> forall i :: 0 <= i < |rs| ==> !Carries(rs[i])
    ensures forall i :: 0 <= i < |Denote(b, rs)| ==> Denote(b, rs)[i].data != []
    decreases |rs|
  {
    if rs != [] {
      DenoteNothingIff(b.Next(rs[0]), rs[1..]);
      if forall i :: 0 <= i < |rs| - 1 ==> !Carries(rs[1..][i]) {
        forall i | 0 < i < |rs|
          ensures !Carries(rs[i])
        {
          assert rs[i] == rs[1..][i - 1];
        }
      } else {
        var i :| 0 <= i < |rs| - 1 && Carries(rs[1..][i]);
        assert Carries(rs[i + 1]);
      }
    }
  }

  /** Both write lists are the same, and complete, exactly if lines and bases fit. */
  lemma {:induction false} SameWritesIff(b: Base, linear: bool, rs: seq<Record>, lines: seq<seq<byte>>)
    requires |rs| == |lines| && Bounded(b) && forall i :: 0 <= i < |rs| ==> rs[i].Good()
    ensures LineWrites(LineBase(b, linear), rs, lines) == (Denote(b, rs), true)
            <==> LinesFit(rs, lines) && BasesFit(b, linear, rs)
    decreases |rs|
  {
    hide BaseFits, LineBase, LastBase;
    if rs != [] && |lines[0]| <= MAX_LINE {
      BaseStep(b, linear, rs[0]);
      if Stops(rs[0], lines[0]) {
        StopsIff(b, linear, rs, lines);
      } else {
        var (next, nextLinear) := (b.Next(rs[0]), NowLinear(linear, rs[0]));
        SameWritesIff(next, nextLinear, rs[1..], lines[1..]);
        HeadsAgree(b, linear, rs, LineWrites(LineBase(next, nextLinear), rs[1..], lines[1..]).0);
      }
    }
  }

  /** One more record in front. */
  lemma {:induction false} HeadsAgree(b: Base, linear: bool, rs: seq<Record>, ws: seq<Write>)
    requires rs != [] && rs[0].Good() && Bounded(b)
    ensures var w := RecordWrites(rs[0], (LineBase(b, linear) + rs[0].offset) % 0x1_0000_0000);
            w + ws == Denote(b, rs) <==>
            && !rs[0].Dropped()
            && (Carries(rs[0]) ==> BaseFits(b, linear))
            && ws == Denote(b.Next(rs[0]), rs[1..])
  {
    hide BaseFits, LineBase;
    var w := RecordWrites(rs[0], (LineBase(b, linear) + rs[0].offset) % 0x1_0000_0000);
    var rest := Denote(b.Next(rs[0]), rs[1..]);
    BaseFitsIff(b, linear, rs[0].offset);
    DenoteNothingIff(b, rs);
    var head := if Carries(rs[0]) then [Write(b.Linear(rs[0].offset), rs[0].data)] else [];
    assert Denote(b, rs) == head + rest;
    if w == [] {
      assert w + ws == ws && head + rest == rest;
    } else {
      assert (w + ws)[0] == w[0] && (w + ws)[1..] == ws;
      if head != [] { assert (head + rest)[0] == head[0] && (head + rest)[1..] == rest; }
    }
  }

  /** Where the line decoder stops. */
  lemma StopsIff(b: Base, linear: bool, rs: seq<Record>, lines: seq<seq<byte>>)
    requires |rs| == |lines| && rs != [] && Bounded(b) && forall i :: 0 <= i < |rs| ==> rs[i].Good()
    requires |lines[0]| <= 255 && Stops(rs[0], lines[0])
    ensures LineWrites(LineBase(b, linear), rs, lines) == (Denote(b, rs), true)
            <==> LinesFit(rs, lines) && BasesFit(b, linear, rs)
  {
    hide Denote, Stops, Base.Next, BaseFits, LineBase;
    var rest := rs[1..];
    HeadsAgree(b, linear, rs, []);
    var w := RecordWrites(rs[0], (LineBase(b, linear) + rs[0].offset) % 0x1_0000_0000);
    assert w + [] == w;
    DenoteNothingIff(b.Next(rs[0]), rest);
    assert (forall i :: 0 <= i < |rest| ==> !Carries(rest[i])) <==> (forall i :: 0 < i < |rs| ==> !Carries(rs[i])) by {
      assert forall i :: 0 <= i < |rest| ==> rest[i] == rs[i + 1];
      assert forall i :: 0 < i < |rs| ==> rs[i] == rest[i - 1];
    }
    if forall i :: 0 <= i < |rest| ==> !Carries(rest[i]) {
      NoDataFits(b.Next(rs[0]), NowLinear(linear, rs[0]), rest);
    }
  }

  lemma {:induction false} NoDataFits(b: Base, linear: bool, rs: seq<Record>)
    requires forall i :: 0 <= i < |rs| ==> !Carries(rs[i])
    ensures BasesFit(b, linear, rs)
    decreases |rs|
  {
    if rs != [] { NoDataFits(b.Next(rs[0]), NowLinear(linear, rs[0]), rs[1..]); }
  }

  lemma {:induction false} OfferAll(made: seq<Write>, ws: seq<Write>, verdict: bool, sink: Consumer)
    requires forall calls :: sink(calls)
    ensures Offer(made, ws, verdict, sink) == Outcome(made + ws, verdict)
    decreases |ws|
  {
    if ws == [] {
      assert made + ws == made;
    } else {
      OfferAll(made + [ws[0]], ws[1..], verdict, sink);
      assert made + [ws[0]] + ws[1..] == made + ws;
    }
  }

  /** A sink that takes everything. */
  function Willing(): Consumer { (calls: seq<Write>) => true }

  /**
   * The line decoder hands a willing sink exactly the writes the character reader accepts, and succeeds, exactly
   * if lines and bases fit.
   */
  lemma DecodersAgreeIff(rs: seq<Record>, lines: seq<seq<byte>>, eols: seq<seq<byte>>, junk: seq<byte>)
    requires Tidy(rs, lines, eols) && |junk| == 256
    ensures var text := Join(lines, eols);
            var events := IhexReader.Callbacks(text, junk);
            && !AnyFault(events)
            && (Process(text, false, 0, [], Willing()) == Outcome(DataWrites(events), true)
                <==> LinesFit(rs, lines) && BasesFit(Base(0, 0), false, rs))
  {
    hide Spells, Process, LineWrites, LinesFit, BasesFit;
    var text := Join(lines, eols);
    JoinTokens(rs, lines, eols);
    TextReports(text, junk, rs);
    CorruptIff(rs);
    ReportsMean(Base(0, 0), rs);
    SameWritesIff(Base(0, 0), false, rs, lines);
    var (lineWrites, verdict) := LineWrites(0, rs, lines);
    ProcessTidy(rs, lines, eols, 0, [], Willing());
    OfferAll([], lineWrites, verdict, Willing());
    assert [] + lineWrites == lineWrites;
  }

  // Streaming, the other way the character reader feeds a sink.

  /** The calls are the writes, each address reduced by d. */
  predicate ShiftedBy(calls: seq<Write>, ws: seq<Write>, d: nat) {
    && |calls| == |ws|
    && forall i :: 0 <= i < |ws| ==> ws[i].addr == calls[i].addr + d && calls[i].data == ws[i].data
  }

  lemma {:induction false} CallsMissing(base: nat, ws: seq<Write>)
    ensures |SinkCalls(base, ws)| <= |ws|
    ensures (exists i :: 0 <= i < |ws| && ws[i].addr < base) ==> |SinkCalls(base, ws)| < |ws|
  {
    if ws != [] {
      var n := |ws| - 1;
      CallsMissing(base, ws[..n]);
      if i :| 0 <= i < |ws| && ws[i].addr < base {
        assert i < n ==> ws[..n][i].addr < base;
      }
    }
  }

  /** Streamed calls are the writes shifted by the first address, and all succeed, exactly if none lies below it. */
  lemma StreamedShiftedIff(ws: seq<Write>)
    requires ws != []
    ensures ShiftedBy(Streamed(ws), ws, ws[0].addr) <==> !HexFiles.Underflows(ws)
    ensures StreamOk(ws, (_, _) => true) <==> !HexFiles.Underflows(ws)
  {
    HexFiles.PatientSinkFails(ws[0].addr, ws, (_, _) => true);
    CallsMissing(ws[0].addr, ws);
    if !HexFiles.Underflows(ws) { HexFiles.CallsAreShifted(ws[0].addr, ws); }
  }

  /**
   * On files where lines and bases fit, the streaming conversion hands an accepting sink the line decoder's calls,
   * shifted by the first address, and succeeds, exactly if no record lies below the first.
   */
  lemma StreamingAgreesIff(rs: seq<Record>, lines: seq<seq<byte>>, eols: seq<seq<byte>>, junk: seq<byte>)
    requires Tidy(rs, lines, eols) && |junk| == 256 && LinesFit(rs, lines) && BasesFit(Base(0, 0), false, rs)
    ensures var text := Join(lines, eols);
            var ws := DataWrites(IhexReader.Callbacks(text, junk));
            var o := Process(text, false, 0, [], Willing());
            && o.ok && !AnyFault(IhexReader.Callbacks(text, junk))
            && |o.calls| == |ws|
            && (ws != [] ==>
                  && (ShiftedBy(Streamed(ws), o.calls, o.calls[0].addr) <==> !HexFiles.Underflows(o.calls))
                  && (StreamOk(ws, (_, _) => true) <==> !HexFiles.Underflows(o.calls)))
  {
    hide LinesFit, BasesFit, Process;
    DecodersAgreeIff(rs, lines, eols, junk);
    var ws := DataWrites(IhexReader.Callbacks(Join(lines, eols), junk));
    if ws != [] { StreamedShiftedIff(ws); }
  }
}
