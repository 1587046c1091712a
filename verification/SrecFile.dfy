/** Whole S-record files: what their records denote, and that the reader reports exactly that. */
module SrecFile {
  import opened Bytes
  import opened Hex
  import opened Overlay
  import opened Records
  import opened ImageContext
  import opened SrecReader
  import opened SrecCounts

  function Power256(n: nat): (p: nat)
    ensures p > 0
  {
    if n == 0 then 1 else 256 * Power256(n - 1)
  }

  /** The n address bytes of a record, most significant first. */
  function AddressBytes(address: nat, n: nat): (bytes: seq<byte>)
    ensures |bytes| == n
  {
    if n == 0 then [] else AddressBytes(address / 256, n - 1) + [address % 256]
  }

  lemma {:induction false} AddressRoundTrip(address: nat, n: nat)
    requires address < Power256(n)
    ensures SrecReader.BigEndian(AddressBytes(address, n)) == address
  {
    if n > 0 {
      AddressRoundTrip(address / 256, n - 1);
      var bytes := AddressBytes(address, n);
      assert bytes[..n - 1] == AddressBytes(address / 256, n - 1);
    }
  }

  /** A record as it stands in the file; its checksum byte may be wrong. */
  datatype RecordFields = RecordFields(rtype: nat, address: nat, data: seq<byte>, check: byte) {
    function Count(): nat { AddressByteCount(rtype) + |data| + 1 }

    predicate WellFormed() {
      && rtype < 16
      && address < Power256(AddressByteCount(rtype))
      && Count() <= 37
    }

    /** The counted bytes: address, data, checksum. */
    function Counted(): (bytes: seq<byte>)
      ensures |bytes| == Count()
    {
      AddressBytes(address, AddressByteCount(rtype)) + data + [check]
    }

    /** Count and all counted bytes add up to 0xFF mod 256. */
    predicate Good() {
      (Count() + Sum(Counted())) % 256 == 255
    }

    /** Whether the record contributes bytes: S1, S2 and S3 records with data. */
    predicate Carries() { IsData(rtype) && data != [] }
  }

  type Record = r: RecordFields | r.WellFormed() witness RecordFields(0, 0, [], 0)

  function Render(r: Record): seq<Token> {
    [Mark, Digit(r.rtype)] + Digits([r.Count()] + r.Counted())
  }

  function RenderAll(rs: seq<Record>): seq<Token> {
    if rs == [] then [] else Render(rs[0]) + RenderAll(rs[1..])
  }

  function Reported(r: Record): Event {
    Event(r.rtype, r.address, r.data, r.Carries(), !r.Good(), false)
  }

  function Reports(rs: seq<Record>): seq<Event> {
    if rs == [] then [] else [Reported(rs[0])] + Reports(rs[1..])
  }

  // Feeding whole bytes instead of digits.

  function StepByte(s: State, b: byte): State {
    Step(Step(s, Digit(b / 16)), Digit(b % 16))
  }

  function Feed(s: State, bytes: seq<byte>): State
    decreases |bytes|
  {
    if bytes == [] then s else Feed(StepByte(s, bytes[0]), bytes[1..])
  }

  lemma {:induction false} FeedDigits(s: State, bytes: seq<byte>, rest: seq<Token>)
    ensures Run(s, Digits(bytes) + rest) == Run(Feed(s, bytes), rest)
    decreases |bytes|
  {
    hide Step;
    if bytes == [] {
      assert Digits(bytes) + rest == rest;
    } else {
      var ts := Digits(bytes) + rest;
      assert ts[1..][1..] == Digits(bytes[1..]) + rest;
      FeedDigits(StepByte(s, bytes[0]), bytes[1..], rest);
    }
  }

  /** The counted bytes but the last land in the buffer one after the other. */
  lemma {:induction false} FeedCounted(s: State, d: seq<byte>)
    requires s.phase == DataFirst && s.length + |d| < s.byteCount
    ensures var r := Feed(s, d);
            && r == s.(length := s.length + |d|, data := r.data)
            && r.data[..r.length] == s.data[..s.length] + d
    decreases |d|
  {
    if d != [] {
      var s' := StepByte(s, d[0]);
      assert s' == s.(length := s.length + 1, data := s'.data);
      assert s'.data[..s'.length] == s.data[..s.length] + [d[0]];
      FeedCounted(s', d[1..]);
    }
  }

  /** The last counted byte closes the record. */
  lemma FeedLast(s: State, check: byte)
    requires s.phase == DataFirst && s.length + 1 == s.byteCount
    ensures StepByte(s, check) ==
            End(s.(data := s.data[s.length := check], length := s.length + 1)).(phase := Waiting)
  {
    hide End, OrByte;
    var half := Step(s, Digit(check / 16));
    assert half.data[s.length := check] == s.data[s.length := check];
    EndKeepsPhase(s.(data := s.data[s.length := check], length := s.length + 1), DataSecond);
  }

  /** The type digit and the count. */
  lemma FeedHead(s: State, rtype: nibble, count: byte)
    requires s.phase == Waiting && s.length == 0 && 0 < count <= MAX_BYTE_COUNT
    ensures var h := StepByte(Step(Step(s, Mark), Digit(rtype)), count);
            h == s.(phase := DataFirst, rtype := rtype, byteCount := count, data := h.data)
  {
  }

  lemma {:induction false} FeedAppend(s: State, a: seq<byte>, b: seq<byte>)
    ensures Feed(s, a + b) == Feed(Feed(s, a), b)
    decreases |a|
  {
    hide StepByte;
    if a == [] {
      assert a + b == b;
    } else {
      assert (a + b)[1..] == a[1..] + b;
      FeedAppend(StepByte(s, a[0]), a[1..], b);
    }
  }

  /** The state after one record. */
  function AfterRecord(s: State, r: Record): State {
    Feed(Step(Step(s, Mark), Digit(r.rtype)), [r.Count()] + r.Counted())
  }

  lemma RunRecord(s: State, r: Record, rest: seq<Token>)
    ensures Run(s, Render(r) + rest) == Run(AfterRecord(s, r), rest)
  {
    hide StepByte, Step;
    var bytes := [r.Count()] + r.Counted();
    var ts := Render(r) + rest;
    assert ts[1..][1..] == Digits(bytes) + rest;
    FeedDigits(Step(Step(s, Mark), Digit(r.rtype)), bytes, rest);
  }

  /** One record read from an idle reader. */
  lemma ReadRecord(s: State, r: Record)
    requires s.phase == Waiting && s.length == 0
    ensures AfterRecord(s, r).phase == Waiting && AfterRecord(s, r).length == 0
    ensures AfterRecord(s, r).events == s.events + [Reported(r)]
  {
    hide StepByte, Step, End, Feed, Reported, RecordFields.Counted, RecordFields.Count;
    var started := Step(Step(s, Mark), Digit(r.rtype));
    var s1 := StepByte(started, r.Count());
    CountedSplit(r);
    var body := r.Counted()[..r.Count() - 1];
    FeedHead(s, r.rtype, r.Count());
    FeedCounted(s1, body);
    var s2 := Feed(s1, body);
    FeedRecord(started, r, body);
    FeedLast(s2, r.check);
    RecordClosed(s2.(data := s2.data[s2.length := r.check], length := s2.length + 1), r);
  }

  /** The counted bytes end in the checksum. */
  lemma CountedSplit(r: Record)
    ensures 0 < r.Count() <= MAX_BYTE_COUNT && |r.Counted()| == r.Count()
    ensures r.Counted() == r.Counted()[..r.Count() - 1] + [r.check]
  {
  }

  /** Count, body, checksum. */
  lemma FeedRecord(s: State, r: Record, body: seq<byte>)
    requires r.Counted() == body + [r.check]
    ensures Feed(s, [r.Count()] + r.Counted()) == StepByte(Feed(StepByte(s, r.Count()), body), r.check)
  {
    hide StepByte, RecordFields.Counted, RecordFields.Count;
    var bytes := [r.Count()] + r.Counted();
    assert bytes[1..] == body + [r.check];
    FeedAppend(StepByte(s, r.Count()), body, [r.check]);
    assert [r.check][1..] == [];
  }

  lemma RecordClosed(s: Fields, r: Record)
    requires s.Bounded() && s.rtype == r.rtype && s.length == s.byteCount == r.Count()
    requires s.data[..s.length] == r.Counted()
    ensures End(s).events == s.events + [Reported(r)]
  {
    hide AddressBytes, SrecReader.BigEndian, Sum;
    var n := AddressByteCount(r.rtype);
    assert r.Counted()[..n] == AddressBytes(r.address, n);
    assert forall i :: 0 <= i < s.length ==> s.data[i] == s.data[..s.length][i];
    assert s.data[..n] == s.data[..s.length][..n] == r.Counted()[..n];
    assert s.data[n..s.length - 1] == s.data[..s.length][n..s.length - 1];
    assert r.Counted()[n..n + |r.data|] == r.data;
    AddressRoundTrip(r.address, n);
    assert s.ChecksumHolds() <==> r.Good();
  }

  /** The reader calls back exactly the file's records, in order. */
  lemma {:induction false} ReadFile(s: State, rs: seq<Record>)
    requires s.phase == Waiting && s.length == 0
    ensures Run(s, RenderAll(rs)).phase == Waiting && Run(s, RenderAll(rs)).length == 0
    ensures Run(s, RenderAll(rs)).events == s.events + Reports(rs)
    decreases |rs|
  {
    hide Step, StepByte, AfterRecord, Render, Reported, RenderAll, Reports, Run;
    FileStep(s, rs);
    if rs != [] {
      var s' := AfterRecord(s, rs[0]);
      RunRecord(s, rs[0], RenderAll(rs[1..]));
      ReadRecord(s, rs[0]);
      ReadFile(s', rs[1..]);
      assert s.events + [Reported(rs[0])] + Reports(rs[1..]) == s.events + ([Reported(rs[0])] + Reports(rs[1..]));
    }
  }

  lemma FileStep(s: State, rs: seq<Record>)
    ensures rs == [] ==> Run(s, RenderAll(rs)) == s && Reports(rs) == []
    ensures rs != [] ==> RenderAll(rs) == Render(rs[0]) + RenderAll(rs[1..])
    ensures rs != [] ==> Reports(rs) == [Reported(rs[0])] + Reports(rs[1..])
  {
    hide Step, Render, Reported;
  }

  // What a file means.

  /** The (address, data) writes a file denotes; header, count and termination records have no effect. */
  function Denote(rs: seq<Record>): seq<Write> {
    if rs == [] then [] else
      (if rs[0].Carries() then [Write(rs[0].address, rs[0].data)] else []) + Denote(rs[1..])
  }

  predicate Corrupt(rs: seq<Record>) {
    rs != [] && (!rs[0].Good() || Corrupt(rs[1..]))
  }

  lemma {:induction false} CorruptIff(rs: seq<Record>)
    ensures Corrupt(rs) <==> exists i :: 0 <= i < |rs| && !rs[i].Good()
  {
    if rs != [] {
      CorruptIff(rs[1..]);
      if i :| 0 <= i < |rs| && !rs[i].Good() {
        assert i > 0 ==> rs[1..][i - 1] == rs[i];
      }
      if Corrupt(rs[1..]) {
        var i :| 0 <= i < |rs| - 1 && !rs[1..][i].Good();
        assert rs[i + 1] == rs[1..][i];
      }
    }
  }

  lemma {:induction false} ReportsMean(rs: seq<Record>)
    ensures AnyFault(Reports(rs)) == Corrupt(rs)
    ensures !Corrupt(rs) ==> DataWrites(Reports(rs)) == Denote(rs)
  {
    if rs != [] {
      EventsAppend([Reported(rs[0])], Reports(rs[1..]));
      EventStep([], Reported(rs[0]));
      assert [] + [Reported(rs[0])] == [Reported(rs[0])];
      ReportsMean(rs[1..]);
    }
  }

  /** The records whose checksum is good. */
  function Sound(rs: seq<Record>): seq<Record> {
    if rs == [] then [] else (if rs[0].Good() then [rs[0]] else []) + Sound(rs[1..])
  }

  /** A corrupt record is as good as absent: it writes nothing. */
  lemma {:induction false} CorruptSkipped(rs: seq<Record>)
    ensures DataWrites(Reports(rs)) == Denote(Sound(rs))
  {
    if rs != [] {
      hide RecordFields.Good;
      EventsAppend([Reported(rs[0])], Reports(rs[1..]));
      EventStep([], Reported(rs[0]));
      assert [] + [Reported(rs[0])] == [Reported(rs[0])];
      CorruptSkipped(rs[1..]);
      assert Sound(rs) == if rs[0].Good() then [rs[0]] + Sound(rs[1..]) else Sound(rs[1..]);
    }
  }

  /** A text that spells records stays inside the record buffer: their counts are at least three. */
  lemma TextIsContained(text: seq<byte>, rs: seq<Record>)
    requires Tokens(text, MARK) == RenderAll(rs)
    ensures Contained(text)
  {
    var junk := Fill(MAX_BYTE_COUNT + 1, 0);
    ReadFile(Start(junk), rs);
    OverrunIff(text, junk);
  }

  /** The result of a conversion: refused exactly on a corrupt record, else the overlay. */
  lemma ConversionMeans(text: seq<byte>, junk: seq<byte>, rs: seq<Record>)
    requires |junk| == MAX_BYTE_COUNT + 1 && Tokens(text, MARK) == RenderAll(rs)
    ensures Callbacks(text, junk) == Reports(rs)
    ensures Convert(Callbacks(text, junk)) ==
            var ws := Denote(rs);
            if Corrupt(rs) then Failed else if ws == [] then Empty else ImageOf(ws)
  {
    ReadFile(Start(junk), rs);
    ReportsMean(rs);
  }

  /** Two records that differ in exactly one address, data or checksum byte. */
  predicate Altered(r: Record, r': Record, k: nat) {
    && r.rtype == r'.rtype && r.Count() == r'.Count() && k < r.Count()
    && r'.Counted()[k] != r.Counted()[k]
    && r'.Counted() == r.Counted()[k := r'.Counted()[k]]
  }

  /** One altered byte anywhere in an otherwise good file makes the conversion fail. */
  lemma AlteredFileFails(text: seq<byte>, junk: seq<byte>, rs: seq<Record>, i: nat, r': Record, k: nat)
    requires |junk| == MAX_BYTE_COUNT + 1 && i < |rs|
    requires rs[i].Good() && Altered(rs[i], r', k)
    requires Tokens(text, MARK) == RenderAll(rs[i := r'])
    ensures Convert(Callbacks(text, junk)) == Failed
  {
    hide RenderAll, Tokens, Convert, Callbacks, Sum, AddressBytes;
    var rs' := rs[i := r'];
    SumUpdate(rs[i].Counted(), k, r'.Counted()[k]);
    assert !rs'[i].Good();
    CorruptIff(rs');
    ConversionMeans(text, junk, rs');
  }
}
