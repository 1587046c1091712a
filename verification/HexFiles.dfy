/** The two hex formats, and the two ways of converting, against each other. */
module HexFiles {
  import opened Bytes
  import opened Hex
  import opened Overlay
  import opened Records
  import opened ImageContext
  import Ihex = IhexFile
  import IhexReader
  import Srec = SrecFile
  import SrecReader

  // One write list, rendered in each format.

  /** Intel HEX: an extended linear address record before every data record. */
  predicate FitsIhex(w: Write) { w.addr < 0x100_0000 && 0 < |w.data| <= 255 }

  function IhexRecord(rtype: nat, offset: nat, data: seq<byte>): (r: Ihex.Record)
    requires rtype < 8 && offset < 0x1_0000 && |data| <= 255
    requires rtype == IhexReader.EXTENDED_SEGMENT || rtype == IhexReader.EXTENDED_LINEAR ==> |data| >= 2
    ensures r == Ihex.RecordFields(rtype, offset, data, r.check) && r.Good()
  {
    var sum := |data| + offset / 256 + offset % 256 + rtype + Sum(data);
    Closes(sum);
    var r: Ihex.Record := Ihex.RecordFields(rtype, offset, data, (256 - sum % 256) % 256);
    Ihex.BodySum(r);
    r
  }

  lemma Closes(sum: nat)
    ensures (sum + (256 - sum % 256) % 256) % 256 == 0
  {
    assert sum == 256 * (sum / 256) + sum % 256;
  }

  function IhexOf(ws: seq<Write>): seq<Ihex.Record>
    requires forall i :: 0 <= i < |ws| ==> FitsIhex(ws[i])
  {
    if ws == [] then [] else
      var w := ws[0];
      assert FitsIhex(w);
      [IhexRecord(IhexReader.EXTENDED_LINEAR, 0, [0, w.addr / 0x1_0000]),
       IhexRecord(IhexReader.DATA, w.addr % 0x1_0000, w.data)] + IhexOf(ws[1..])
  }

  lemma {:induction false} IhexOfDenotes(base: Ihex.Base, ws: seq<Write>)
    requires base.segment == 0
    requires forall i :: 0 <= i < |ws| ==> FitsIhex(ws[i])
    ensures Ihex.Denote(base, IhexOf(ws)) == ws && !Ihex.Corrupt(IhexOf(ws))
    decreases |ws|
  {
    if ws != [] {
      var w := ws[0];
      assert FitsIhex(w);
      var base' := Ihex.Base(w.addr / 0x1_0000, 0);
      var a := IhexRecord(IhexReader.EXTENDED_LINEAR, 0, [0, w.addr / 0x1_0000]);
      var b := IhexRecord(IhexReader.DATA, w.addr % 0x1_0000, w.data);
      assert base.After(a) == base' && base'.After(b) == base';
      assert base'.Linear(w.addr % 0x1_0000) == w.addr;
      IhexOfDenotes(base', ws[1..]);
      PairDenotes(base, a, b, IhexOf(ws[1..]));
    }
  }

  /** An address record and a data record in front. */
  lemma PairDenotes(base: Ihex.Base, a: Ihex.Record, b: Ihex.Record, rs: seq<Ihex.Record>)
    requires a.Good() && b.Good() && a.rtype == IhexReader.EXTENDED_LINEAR && b.rtype == IhexReader.DATA && b.data != []
    ensures var base' := base.After(a);
            Ihex.Denote(base, [a, b] + rs) ==
            [Write(base'.Linear(b.offset), b.data)] + Ihex.Denote(base'.After(b), rs)
    ensures Ihex.Corrupt([a, b] + rs) <==> Ihex.Corrupt(rs)
  {
    hide Ihex.RecordFields.Good, Ihex.Base.After, Ihex.Base.Linear;
    var all := [a, b] + rs;
    assert all[1..] == [b] + rs && all[1..][1..] == rs;
  }

  predicate FitsSrec(w: Write, kind: nat) {
    && 1 <= kind <= 3 && w.data != []
    && w.addr < Srec.Power256(kind + 1) && kind + 2 + |w.data| <= 37
  }

  function SrecRecord(rtype: nat, address: nat, data: seq<byte>): (r: Srec.Record)
    requires Srec.RecordFields(rtype, address, data, 0).WellFormed()
    ensures r == Srec.RecordFields(rtype, address, data, r.check) && r.Good()
  {
    var blank := Srec.RecordFields(rtype, address, data, 0);
    var sum := (blank.Count() + Sum(blank.Counted())) % 256;
    var r := Srec.RecordFields(rtype, address, data, 255 - sum);
    SumUpdate(blank.Counted(), blank.Count() - 1, 255 - sum);
    assert r.Counted() == blank.Counted()[blank.Count() - 1 := r.check];
    r
  }

  /** S-records: each write as S1, S2 or S3 as its kind says. */
  function SrecOf(ws: seq<Write>, kinds: seq<nat>): seq<Srec.Record>
    requires |kinds| == |ws| && forall i :: 0 <= i < |ws| ==> FitsSrec(ws[i], kinds[i])
  {
    if ws == [] then [] else
      assert FitsSrec(ws[0], kinds[0]);
      [SrecRecord(kinds[0], ws[0].addr, ws[0].data)] + SrecOf(ws[1..], kinds[1..])
  }

  lemma {:induction false} SrecOfDenotes(ws: seq<Write>, kinds: seq<nat>)
    requires |kinds| == |ws| && forall i :: 0 <= i < |ws| ==> FitsSrec(ws[i], kinds[i])
    ensures Srec.Denote(SrecOf(ws, kinds)) == ws && !Srec.Corrupt(SrecOf(ws, kinds))
  {
    if ws != [] {
      assert FitsSrec(ws[0], kinds[0]);
      SrecOfDenotes(ws[1..], kinds[1..]);
      assert SrecOf(ws, kinds)[1..] == SrecOf(ws[1..], kinds[1..]);
    }
  }

  /** Good header, count and termination records may stand anywhere in an S-record file. */
  lemma {:induction false} OtherRecordsNoEffect(before: seq<Srec.Record>, r: Srec.Record, after: seq<Srec.Record>)
    requires r.Good() && (r.rtype == 0 || r.rtype > 3)
    ensures Srec.Denote(before + [r] + after) == Srec.Denote(before + after)
    ensures Srec.Corrupt(before + [r] + after) == Srec.Corrupt(before + after)
  {
    if before == [] {
      assert (before + [r] + after)[1..] == after;
      assert before + after == after;
    } else {
      assert (before + [r] + after)[1..] == before[1..] + [r] + after;
      assert (before + after)[1..] == before[1..] + after;
      OtherRecordsNoEffect(before[1..], r, after);
    }
  }

  /** The same writes in either format convert to the identical base address, size and bytes. */
  lemma FormatsAgree(ws: seq<Write>, kinds: seq<nat>, ihex: seq<byte>, srec: seq<byte>,
                     junk: seq<byte>, junk': seq<byte>)
    requires |kinds| == |ws|
    requires forall i :: 0 <= i < |ws| ==> FitsIhex(ws[i]) && FitsSrec(ws[i], kinds[i])
    requires Tokens(ihex, IhexReader.MARK) == Ihex.RenderAll(IhexOf(ws))
    requires Tokens(srec, SrecReader.MARK) == Srec.RenderAll(SrecOf(ws, kinds))
    requires |junk| == 256 && |junk'| == SrecReader.MAX_BYTE_COUNT + 1
    ensures Convert(IhexReader.Callbacks(ihex, junk)) == Convert(SrecReader.Callbacks(srec, junk'))
    ensures Convert(IhexReader.Callbacks(ihex, junk)) == if ws == [] then Empty else ImageOf(ws)
  {
    IhexOfDenotes(Ihex.Base(0, 0), ws);
    SrecOfDenotes(ws, kinds);
    Ihex.ConversionMeans(ihex, junk, IhexOf(ws));
    Srec.ConversionMeans(srec, junk', SrecOf(ws, kinds));
  }

  /** Streamed, a file with corrupt records hands on exactly its other records, and fails. */
  lemma CorruptStream(ihex: seq<byte>, junk: seq<byte>, rs: seq<Ihex.Record>)
    requires Tokens(ihex, IhexReader.MARK) == Ihex.RenderAll(rs) && |junk| == 256
    ensures var events := IhexReader.Callbacks(ihex, junk);
            && Streamed(DataWrites(events)) == Streamed(Ihex.Denote(Ihex.Base(0, 0), Ihex.Sound(rs)))
            && (AnyFault(events) <==> Ihex.Corrupt(rs))
  {
    Ihex.TextReports(ihex, junk, rs);
    Ihex.CorruptSkipped(Ihex.Base(0, 0), rs);
    Ihex.ReportsMean(Ihex.Base(0, 0), rs);
  }

  /** The same for S-records. */
  lemma CorruptSrecStream(srec: seq<byte>, junk: seq<byte>, rs: seq<Srec.Record>)
    requires Tokens(srec, SrecReader.MARK) == Srec.RenderAll(rs) && |junk| == SrecReader.MAX_BYTE_COUNT + 1
    ensures var events := SrecReader.Callbacks(srec, junk);
            && Streamed(DataWrites(events)) == Streamed(Srec.Denote(Srec.Sound(rs)))
            && (AnyFault(events) <==> Srec.Corrupt(rs))
  {
    Srec.ConversionMeans(srec, junk, rs);
    Srec.CorruptSkipped(rs);
    Srec.ReportsMean(rs);
  }

  // Two small files, character by character.

  /** The record S1, count 4, address 0, byte 7, checksum F4. */
  lemma SampleSrec(junk: seq<byte>)
    requires |junk| == 38
    ensures var text := [0x53, 0x31, 0x30, 0x34, 0x30, 0x30, 0x30, 0x30, 0x30, 0x37, 0x46, 0x34];
            Convert(SrecReader.Callbacks(text, junk)) == Image(0, [7])
  {
    hide Tokens, Convert, ImageOf, SrecReader.Callbacks, Srec.RenderAll, Srec.Denote, Srec.Corrupt;
    var r := Srec.RecordFields(1, 0, [7], 0xF4);
    SampleRecord(r);
    SampleText([0x53, 0x31], [0x30, 0x34, 0x30, 0x30, 0x30, 0x30, 0x30, 0x37, 0x46, 0x34]);
    var text := [0x53, 0x31] + [0x30, 0x34, 0x30, 0x30, 0x30, 0x30, 0x30, 0x37, 0x46, 0x34];
    assert text == [0x53, 0x31, 0x30, 0x34, 0x30, 0x30, 0x30, 0x30, 0x30, 0x37, 0x46, 0x34];
    Srec.ConversionMeans(text, junk, [r]);
    SampleImage(0);
    SampleDenotes(r);
  }

  lemma SampleText(head: seq<byte>, digits: seq<byte>)
    requires head == [0x53, 0x31] && digits == [0x30, 0x34, 0x30, 0x30, 0x30, 0x30, 0x30, 0x37, 0x46, 0x34]
    ensures Tokens(head + digits, SrecReader.MARK) == [Mark, Digit(1)] + Digits([4, 0, 0, 7, 0xF4])
  {
    WrittenTokens(digits, [4, 0, 0, 7, 0xF4], 0x53);
    TokensAppend(head, digits, 0x53);
    assert head[1..] == [0x31] && head[1..][1..] == [];
    assert Tokens(head, 0x53) == [Mark, Digit(1)];
  }

  lemma SampleDenotes(r: Srec.Record)
    requires r == Srec.RecordFields(1, 0, [7], 0xF4) && r.Good()
    ensures Srec.Denote([r]) == [Write(0, [7])] && !Srec.Corrupt([r])
  {
    hide Srec.RecordFields.Good;
    assert [r][1..] == [];
  }

  lemma SampleRecord(r: Srec.RecordFields)
    requires r == Srec.RecordFields(1, 0, [7], 0xF4)
    ensures r.WellFormed() && Srec.RenderAll([r]) == [Mark, Digit(1)] + Digits([4, 0, 0, 7, 0xF4]) && r.Good()
  {
    assert Srec.AddressBytes(0, 1) == [0] && Srec.AddressBytes(0, 2) == [0, 0];
    assert Srec.Power256(1) == 256;
    assert r.Counted() == [0, 0, 7, 0xF4];
    assert [0, 0, 7, 0xF4][1..] == [0, 7, 0xF4] && [0, 7, 0xF4][1..] == [7, 0xF4] && [7, 0xF4][1..] == [0xF4];
    assert Sum([0, 0, 7, 0xF4]) == 0xFB;
    assert [r][1..] == [];
  }

  lemma SampleImage(a: nat)
    ensures ImageOf([Write(a, [7])]) == Image(a, [7])
  {
    var ws := [Write(a, [7])];
    Bounds(ws);
    assert ws[..0] == [];
  }

  // Streaming against buffering.

  /** Some record lies below the first one. */
  ghost predicate Underflows(ws: seq<Write>) {
    exists i :: 0 <= i < |ws| && ws[i].addr < ws[0].addr
  }

  lemma {:induction false} CallsAreShifted(base: nat, ws: seq<Write>)
    requires forall i :: 0 <= i < |ws| ==> base <= ws[i].addr
    ensures SinkCalls(base, ws) == Shift(ws, base)
  {
    if ws != [] {
      var n := |ws| - 1;
      CallsAreShifted(base, ws[..n]);
      assert Shift(ws, base) == Shift(ws[..n], base) + [Write(ws[n].addr - base, ws[n].data)];
    }
  }

  /** A sink that takes everything refuses exactly when a record lies below the base. */
  lemma PatientSinkFails(base: nat, ws: seq<Write>, sink: Sink)
    requires forall offset, data :: sink(offset, data)
    ensures SinkFails(base, ws, sink) <==> exists i :: 0 <= i < |ws| && ws[i].addr < base
  {
    SinkFailsIff(base, ws, sink);
  }

  /**
   * Streaming into a sink that takes everything succeeds exactly when no record lies below the first;
   * the bytes handed over, laid over zeros, are then the buffered image.
   */
  lemma StreamingAgrees(ws: seq<Write>, sink: Sink)
    requires ws != [] && forall offset, data :: sink(offset, data)
    ensures StreamOk(ws, sink) <==> !Underflows(ws)
    ensures !Underflows(ws) ==>
              ImageOf(ws) == Image(ws[0].addr, Window(Streamed(ws), 0, High(ws) - ws[0].addr, 0))
  {
    PatientSinkFails(ws[0].addr, ws, sink);
    if !Underflows(ws) {
      LowIsFirst(ws);
      CallsAreShifted(ws[0].addr, ws);
      ShiftedWindow(ws, Low(ws), High(ws));
    }
  }

  lemma LowIsFirst(ws: seq<Write>)
    requires ws != [] && !Underflows(ws)
    ensures ws[0].addr == Low(ws) <= High(ws)
    ensures forall i :: 0 <= i < |ws| ==> ws[0].addr <= ws[i].addr
  {
    Bounds(ws);
  }

  lemma ShiftedWindow(ws: seq<Write>, lo: nat, hi: nat)
    requires lo <= hi && forall i :: 0 <= i < |ws| ==> lo <= ws[i].addr
    ensures Window(Shift(ws, lo), 0, hi - lo, 0) == Window(ws, lo, hi, 0)
  {
    forall a: nat
      ensures Cell(Shift(ws, lo), a, 0) == Cell(ws, a + lo, 0)
    {
      ShiftCell(ws, lo, a, 0);
    }
  }
}
