/** The line decoder in use: files it reads differently, and files packed into the flat-file sink. */
module IhexPackaging {
  import opened Bytes
  import opened Overlay
  import opened Records
  import opened IhexLines
  import opened IhexFile
  import opened IhexAgreement
  import IhexReader
  import HexFiles
  import BinSink

  // A file the two decoders read differently.

  function HexDigit(v: nibble): byte {
    if v < 10 then '0' as int + v else 'A' as int + v - 10
  }

  function Spelling(bytes: seq<byte>): (line: seq<byte>)
    ensures |line| == 2 * |bytes|
  {
    if bytes == [] then [] else [HexDigit(bytes[0] / 16), HexDigit(bytes[0] % 16)] + Spelling(bytes[1..])
  }

  lemma {:induction false} SpellingAt(bytes: seq<byte>, k: nat)
    requires k < |bytes|
    ensures HexByte(Spelling(bytes), 2 * k) == bytes[k]
    decreases |bytes|
  {
    var line := Spelling(bytes);
    if k > 0 {
      SpellingAt(bytes[1..], k - 1);
      var tail := Spelling(bytes[1..]);
      assert line[2 * k] == tail[2 * (k - 1)] && line[2 * k + 1] == tail[2 * (k - 1) + 1];
    }
  }

  /** A record in upper case. */
  function LineOf(r: Record): seq<byte> { [0x3A] + Spelling(r.Body()) }

  lemma LineOfSpells(r: Record)
    ensures Spells(LineOf(r), r)
  {
    var (line, body) := (LineOf(r), r.Body());
    forall k | 0 <= k < |body|
      ensures HexByte(line, 1 + 2 * k) == body[k]
    {
      SpellingAt(body, k);
      assert line[1 + 2 * k] == Spelling(body)[2 * k] && line[2 + 2 * k] == Spelling(body)[2 * k + 1];
    }
  }

  function LinesOf(rs: seq<Record>): (lines: seq<seq<byte>>)
    ensures |lines| == |rs|
  {
    seq(|rs|, i requires 0 <= i < |rs| => LineOf(rs[i]))
  }

  function LineFeeds(n: nat): seq<seq<byte>> { seq(n, _ => [LF]) }

  lemma LinesOfTidy(rs: seq<Record>)
    requires forall i :: 0 <= i < |rs| ==> rs[i].Good()
    ensures Tidy(rs, LinesOf(rs), LineFeeds(|rs|))
  {
    forall i | 0 <= i < |rs|
      ensures Spells(LinesOf(rs)[i], rs[i])
    {
      LineOfSpells(rs[i]);
    }
  }

  /** Linear base 0x10000, then segment base 0x1000, then one byte at offset 0. */
  predicate MixedBases(a: Record, b: Record, d: Record) {
    && a.Good() && a.rtype == 4 && a.data == [0, 1]
    && b.Good() && b.rtype == 2 && b.data == [0x10, 0]
    && d.Good() && d.rtype == 0 && d.offset == 0 && d.data == [7]
  }

  lemma MixedBasesExist() returns (a: Record, b: Record, d: Record)
    ensures MixedBases(a, b, d)
  {
    hide HexFiles.IhexRecord;
    a := HexFiles.IhexRecord(IhexReader.EXTENDED_LINEAR, 0, [0, 1]);
    b := HexFiles.IhexRecord(IhexReader.EXTENDED_SEGMENT, 0, [0x10, 0]);
    d := HexFiles.IhexRecord(IhexReader.DATA, 0, [7]);
  }

  /** What the line decoder makes of it. */
  lemma MixedLines(a: Record, b: Record, d: Record, lines: seq<seq<byte>>)
    requires MixedBases(a, b, d) && |lines| == 3 && forall i :: 0 <= i < 3 ==> |lines[i]| < MAX_LINE
    ensures LineWrites(0, [a, b, d], lines) == ([Write(0x1_0000, [7])], true)
    ensures LinesFit([a, b, d], lines)
  {
    hide RecordFields.Body, RecordFields.Good, LineWrites, LastBase, LinesFit;
    MixedLastBases(a, b, d);
    var more: seq<seq<byte>> := lines[1..];
    var last: seq<seq<byte>> := more[1..];
    assert |last| == 1 && last[0] == lines[2] && more[0] == lines[1];
    var none: seq<seq<byte>> := last[1..];
    var w := Write(0x1_0000, [7]);
    NoLines(0x1_0000, none);
    LineStep(0x1_0000, d, [], last);
    assert [d] + [] == [d] && [w] + [] == [w];
    assert LineWrites(0x1_0000, [d], last) == ([w], true);
    LineStep(0x1_0000, b, [d], more);
    assert [b] + [d] == [b, d] && [] + [w] == [w];
    LineStep(0, a, [b, d], lines);
    assert [a] + [b, d] == [a, b, d];
  }

  lemma MixedLastBases(a: Record, b: Record, d: Record)
    requires MixedBases(a, b, d)
    ensures LastBase(0, a) == 0x1_0000 && LastBase(0x1_0000, b) == 0x1_0000 && LastBase(0x1_0000, d) == 0x1_0000
  {
    assert IhexReader.BigEndian(0, 1) == 1 && IhexReader.BigEndian(0x10, 0) == 0x1000;
  }

  lemma NoLines(base: nat, lines: seq<seq<byte>>)
    requires |lines| == 0
    ensures LineWrites(base, [], lines) == ([], true) && LinesFit([], lines)
  {
  }

  /** A short line that does not end the file. */
  lemma LineStep(base: nat, r: Record, rs: seq<Record>, lines: seq<seq<byte>>)
    requires |lines| == |rs| + 1 && r.Good() && forall i :: 0 <= i < |rs| ==> rs[i].Good()
    requires |lines[0]| < MAX_LINE && r.rtype != IhexReader.END_OF_FILE && !r.Dropped()
    ensures var (ws, verdict) := LineWrites(LastBase(base, r), rs, lines[1..]);
            LineWrites(base, [r] + rs, lines) == (RecordWrites(r, (base + r.offset) % 0x1_0000_0000) + ws, verdict)
    ensures LinesFit([r] + rs, lines) <==> LinesFit(rs, lines[1..])
  {
    hide RecordFields.Body, RecordFields.Good, LastBase;
    assert ([r] + rs)[0] == r && ([r] + rs)[1..] == rs;
  }

  /** What the character reader makes of it. */
  lemma MixedDenote(a: Record, b: Record, d: Record)
    requires MixedBases(a, b, d)
    ensures Denote(Base(0, 0), [a, b, d]) == [Write(0x2_0000, [7])]
  {
    assert Base(0, 0).Next(a) == Base(1, 0) && Base(1, 0).Next(b) == Base(1, 0x1000) by {
      assert IhexReader.BigEndian(0, 1) == 1 && IhexReader.BigEndian(0x10, 0) == 0x1000;
    }
    hide RecordFields.Body, RecordFields.Good, Base.Next, Denote;
    DenoteStep(Base(0, 0), a, [b, d]);
    DenoteStep(Base(1, 0), b, [d]);
    DenoteStep(Base(1, 0x1000), d, []);
    DenoteNothingIff(Base(1, 0x1000).Next(d), []);
    assert [a] + [b, d] == [a, b, d] && [b] + [d] == [b, d] && [d] + [] == [d];
  }

  lemma DenoteStep(base: Base, r: Record, rs: seq<Record>)
    ensures Denote(base, [r] + rs) ==
            (if Carries(r) then [Write(base.Linear(r.offset), r.data)] else []) + Denote(base.Next(r), rs)
  {
    hide Base.Next;
    assert ([r] + rs)[0] == r && ([r] + rs)[1..] == rs;
  }

  /** The character reader adds the two bases, the line decoder forgets the first: the same file, two addresses. */
  lemma MixedBasesDiffer(a: Record, b: Record, d: Record, junk: seq<byte>)
    requires MixedBases(a, b, d) && |junk| == 256
    ensures var (rs, lines) := ([a, b, d], LinesOf([a, b, d]));
            var writes := DataWrites(IhexReader.Callbacks(Join(lines, LineFeeds(3)), junk));
            && LinesFit(rs, lines)
            && Process(Join(lines, LineFeeds(3)), false, 0, [], Willing()) == Outcome([Write(0x1_0000, [7])], true)
            && writes == [Write(0x2_0000, [7])]
  {
    hide LineWrites, LinesFit, Denote, Join, Spells, Process, RecordFields.Good;
    var rs := [a, b, d];
    var lines := LinesOf(rs);
    LinesOfTidy(rs);
    MixedLines(a, b, d, lines);
    MixedDenote(a, b, d);
    ProcessTidy(rs, lines, LineFeeds(3), 0, [], Willing());
    OfferAll([], LineWrites(0, rs, lines).0, true, Willing());
    assert [] + LineWrites(0, rs, lines).0 == LineWrites(0, rs, lines).0;
    JoinTokens(rs, lines, LineFeeds(3));
    TextReports(Join(lines, LineFeeds(3)), junk, rs);
    CorruptIff(rs);
    ReportsMean(Base(0, 0), rs);
  }

  // Packing into the flat file.

  /** The flat-file sink as the decoder sees it: it takes a call exactly if the whole run up to it succeeds. */
  function FlatFile(): Consumer { (calls: seq<Write>) => BinSink.Run(BinSink.EMPTY, calls).1 }

  lemma {:induction false} OfferFlat(made: seq<Write>, ws: seq<Write>, verdict: bool)
    requires BinSink.Run(BinSink.EMPTY, made).1
    ensures var o := Offer(made, ws, verdict, FlatFile());
            && (o.ok <==> verdict && BinSink.Run(BinSink.EMPTY, made + ws).1)
            && (o.ok ==> o.calls == made + ws)
    decreases |ws|
  {
    if ws == [] {
      assert made + ws == made;
    } else {
      var calls := made + [ws[0]];
      assert made + ws == calls + ws[1..];
      BinSink.RunAppend(BinSink.EMPTY, calls, ws[1..]);
      if FlatFile()(calls) { OfferFlat(calls, ws[1..], verdict); }
    }
  }

  /**
   * An Intel HEX file is packed exactly if no line is too long and its data records, up to the line where the
   * decoder stops, ascend; the flat file is then their overlay on 0xff.
   */
  lemma PackedIff(rs: seq<Record>, lines: seq<seq<byte>>, eols: seq<seq<byte>>)
    requires Tidy(rs, lines, eols) && BinSink.InRange(LineWrites(0, rs, lines).0)
    ensures var (ws, complete) := LineWrites(0, rs, lines);
            var o := Process(Join(lines, eols), false, 0, [], FlatFile());
            && (o.ok <==> complete && BinSink.Ascending(ws))
            && (o.ok ==> o.calls == ws && BinSink.Shows(BinSink.Run(BinSink.EMPTY, o.calls).0, ws))
  {
    var (ws, complete) := LineWrites(0, rs, lines);
    ProcessTidy(rs, lines, eols, 0, [], FlatFile());
    OfferFlat([], ws, complete);
    assert [] + ws == ws;
    BinSink.RunIff(ws);
  }
}
