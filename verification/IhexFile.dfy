/** Whole Intel HEX files: what their records denote, and that the reader reports exactly that. */
module IhexFile {
  import opened Bytes
  import opened Hex
  import opened Overlay
  import opened Records
  import opened ImageContext
  import opened IhexReader

  /** A record as it stands in the file; its checksum byte may be wrong. */
  datatype RecordFields = RecordFields(rtype: nat, offset: nat, data: seq<byte>, check: byte) {
    predicate Shaped() { rtype < 8 && offset < 0x1_0000 && |data| <= 255 }

    /** An extended address record that is to be applied holds an address. */
    predicate WellFormed() {
      Shaped() && ((rtype == EXTENDED_SEGMENT || rtype == EXTENDED_LINEAR) && Good() ==> |data| >= 2)
    }

    /** The bytes after the mark: count, address, type, data, checksum. */
    function Body(): (body: seq<byte>)
      requires Shaped()
      ensures |body| == 5 + |data|
    {
      [|data|, offset / 256, offset % 256, rtype] + data + [check]
    }

    predicate Good()
      requires Shaped()
    {
      Sum(Body()) % 256 == 0
    }

    predicate Dropped() { rtype == DATA && data == [] }
  }

  type Record = r: RecordFields | r.WellFormed() witness RecordFields(0, 0, [], 0)

  function Render(r: Record): seq<Token>
  {
    [Mark] + Digits(r.Body())
  }

  function RenderAll(rs: seq<Record>): seq<Token>
  {
    if rs == [] then [] else Render(rs[0]) + RenderAll(rs[1..])
  }

  /** The address base set up by the extended address records before a point in the file. */
  datatype Base = Base(upper: nat, segment: nat) {
    function Linear(offset: nat): nat { (upper * 0x1_0000 + offset + segment * 16) % 0x100_0000 }

    function After(r: Record): Base
      requires r.Good()
    {
      if r.rtype == EXTENDED_LINEAR then Base(BigEndian(r.data[0], r.data[1]), segment)
      else if r.rtype == EXTENDED_SEGMENT then Base(upper, BigEndian(r.data[0], r.data[1]))
      else this
    }

    /** The reader ignores an extended address record whose checksum is wrong. */
    function Next(r: Record): Base { if r.Good() then After(r) else this }

    function Reported(r: Record): seq<Event>
    {
      if r.Dropped() then []
      else [Event(r.rtype, Linear(r.offset), r.data, r.rtype == DATA, !r.Good(), false)]
    }
  }

  function Reports(base: Base, rs: seq<Record>): seq<Event>
    decreases |rs|
  {
    if rs == [] then [] else base.Reported(rs[0]) + Reports(base.Next(rs[0]), rs[1..])
  }

  function BaseOf(s: Fields): Base { Base(s.upper, s.segment) }

  // Feeding whole bytes instead of digits.

  function StepByte(s: State, b: byte): State
  {
    Step(Step(s, Digit(b / 16)), Digit(b % 16))
  }

  function Feed(s: State, bytes: seq<byte>): State
    decreases |bytes|
  {
    if bytes == [] then s else Feed(StepByte(s, bytes[0]), bytes[1..])
  }

  lemma {:induction false} FeedDigits(s: State, bytes: seq<byte>, rest: seq<Token>)
    ensures Run(s, Digits(bytes) + rest) == Run(Feed(s, bytes), rest)
    decreases |bytes|
  {
    if bytes == [] {
      assert Digits(bytes) + rest == rest;
    } else {
      var ts := Digits(bytes) + rest;
      var tail := Digits(bytes[1..]) + rest;
      assert ts[1..][1..] == tail;
      FeedDigits(StepByte(s, bytes[0]), bytes[1..], rest);
    }
  }

  lemma {:induction false} FeedAppend(s: State, a: seq<byte>, b: seq<byte>)
    ensures Feed(s, a + b) == Feed(Feed(s, a), b)
    decreases |a|
  {
    if a == [] {
      assert a + b == b;
    } else {
      assert (a + b)[1..] == a[1..] + b;
      FeedAppend(StepByte(s, a[0]), a[1..], b);
    }
  }

  /** What a whole byte does to each header field. */
  lemma HeaderByte(s: State, b: byte)
    requires s.phase.First? && s.length == 0
    ensures var r := StepByte(s, b);
            match s.phase.field
            case Count => r == s.(phase := First(AddressHigh), lineLength := b, data := r.data)
            case AddressHigh => r == s.(phase := First(AddressLow), offset := BigEndian(b, 0), data := r.data)
            case AddressLow => r == s.(phase := First(RecordType), offset := s.offset + b, data := r.data)
            case RecordType =>
              r == if b < 8 then s.(phase := First(Payload), rtype := b, data := r.data)
                   else s.(phase := Waiting, data := r.data)
            case Payload => true
  {
  }

  /** The four header bytes. */
  lemma FeedHeader(s: State, n: byte, high: byte, low: byte, rtype: byte)
    requires s.phase == First(Count) && rtype < 8
    ensures var h := Feed(s, [n, high, low, rtype]);
            && h == s.(phase := First(Payload), lineLength := n, rtype := rtype, data := h.data,
                       offset := BigEndian(high, low))
  {
    hide StepByte;
    var s1 := StepByte(s, n);
    var s2 := StepByte(s1, high);
    var s3 := StepByte(s2, low);
    HeaderByte(s, n);
    HeaderByte(s1, high);
    HeaderByte(s2, low);
    HeaderByte(s3, rtype);
    FeedFour(s, n, high, low, rtype);
  }

  lemma FeedFour(s: State, a: byte, b: byte, c: byte, d: byte)
    ensures Feed(s, [a, b, c, d]) == StepByte(StepByte(StepByte(StepByte(s, a), b), c), d)
  {
    hide StepByte;
    var (s1, bytes: seq<byte>) := (StepByte(s, a), [a, b, c, d]);
    assert bytes[1..] == [b, c, d];
    assert [b, c, d][1..] == [c, d];
    assert [c, d][1..] == [d];
    var s3 := StepByte(StepByte(s1, b), c);
    assert Feed(s3, [d]) == StepByte(s3, d);
    assert Feed(StepByte(s1, b), [c, d]) == Feed(s3, [d]);
    assert Feed(s1, [b, c, d]) == Feed(StepByte(s1, b), [c, d]);
  }

  /** The data bytes land in the buffer one after the other. */
  lemma {:induction false} FeedPayload(s: State, d: seq<byte>)
    requires s.phase == First(Payload) && s.length + |d| <= s.lineLength
    ensures var r := Feed(s, d);
            && r == s.(length := s.length + |d|, data := r.data)
            && r.data[..r.length] == s.data[..s.length] + d
            && r.data[r.length..] == s.data[r.length..]
    decreases |d|
  {
    if d != [] {
      var s' := StepByte(s, d[0]);
      assert s'.data[s'.length..] == s.data[s'.length..];
      assert s' == s.(length := s.length + 1, data := s'.data);
      assert s'.data[..s'.length] == s.data[..s.length] + [d[0]];
      FeedPayload(s', d[1..]);
    }
  }

  /** The checksum byte completes the record. */
  lemma FeedCheck(s: State, check: byte)
    requires s.phase == First(Payload) && s.length == s.lineLength
    ensures var closed := s.(data := s.data[s.length := check]);
            Feed(s, [check]) == End(closed).(phase := Waiting)
  {
    hide End, OrByte;
    EndKeepsPhase(s.(data := s.data[s.length := check]), Second(Payload));
    var half := Step(s, Digit(check / 16));
    assert half.data[s.length := check] == s.data[s.length := check];
    assert Feed(s, [check]) == StepByte(s, check) by { assert [check][1..] == []; }
  }

  /** A mark met by an idle reader. */
  lemma MarkOpens(s: State)
    requires s.phase == Waiting
    ensures Step(s, Mark) == s.(phase := First(Count))
  {
  }

  /** All of a record but its checksum, read from an idle reader. */
  lemma ReadUpToCheck(s: State, r: Record) returns (s': State)
    requires s.phase == Waiting
    ensures s' == s.(phase := First(Payload), rtype := r.rtype, offset := r.offset,
                     lineLength := |r.data|, length := |r.data|, data := s'.data)
    ensures s'.data[..|r.data|] == r.data
    ensures Feed(Step(s, Mark), r.Body()) == Feed(s', [r.check])
  {
    hide StepByte, Step;
    var s0 := Step(s, Mark);
    MarkOpens(s);
    var header: seq<byte> := [|r.data|, r.offset / 256, r.offset % 256, r.rtype];
    var s1 := Feed(s0, header);
    FeedHeader(s0, |r.data|, r.offset / 256, r.offset % 256, r.rtype);
    assert BigEndian(r.offset / 256, r.offset % 256) == r.offset;
    s' := Feed(s1, r.data);
    FeedPayload(s1, r.data);
    FeedAppend(s0, header, r.data);
    FeedAppend(s0, header + r.data, [r.check]);
  }

  /** One record read from an idle reader. */
  lemma ReadRecord(s: State, r: Record, rest: seq<Token>)
    requires s.phase == Waiting
    ensures var s' := Feed(Step(s, Mark), r.Body());
            && Run(s, Render(r) + rest) == Run(s', rest)
            && s'.phase == Waiting
            && s'.events == s.events + BaseOf(s).Reported(r)
            && BaseOf(s') == BaseOf(s).Next(r)
  {
    hide StepByte, Step;
    var ts := Render(r) + rest;
    assert ts[1..] == Digits(r.Body()) + rest;
    FeedDigits(Step(s, Mark), r.Body(), rest);
    var s2 := ReadUpToCheck(s, r);
    FeedCheck(s2, r.check);
    RecordClosed(s2, r, BaseOf(s));
  }

  lemma RecordClosed(s: Fields, r: Record, base: Base)
    requires s.Bounded() && BaseOf(s) == base
    requires s.rtype == r.rtype && s.length == s.lineLength == |r.data| && s.offset == r.offset
    requires s.data[..s.length] == r.data
    ensures var closed := s.(data := s.data[s.length := r.check]);
            && closed.Bounded()
            && End(closed).events == s.events + base.Reported(r)
            && BaseOf(End(closed)) == base.Next(r)
  {
    var closed := s.(data := s.data[s.length := r.check]);
    assert closed.data[..s.length] == r.data;
    BodySum(r);
    assert closed.ChecksumHolds() <==> r.Good();
    assert r.Good() && (r.rtype == EXTENDED_LINEAR || r.rtype == EXTENDED_SEGMENT) ==>
        closed.data[0] == r.data[0] && closed.data[1] == r.data[1];
  }

  lemma BodySum(r: Record)
    ensures Sum(r.Body()) == |r.data| + r.offset / 256 + r.offset % 256 + r.rtype + Sum(r.data) + r.check
  {
    var header: seq<byte> := [|r.data|, r.offset / 256, r.offset % 256, r.rtype];
    SumAppend(header + r.data, [r.check]);
    SumAppend(header, r.data);
    assert header[2..][1..] == header[3..] && header[1..][1..] == header[2..];
    assert Sum(header[3..]) == r.rtype;
    assert Sum(header[2..]) == r.offset % 256 + r.rtype;
    assert Sum(header[1..]) == r.offset / 256 + Sum(header[2..]);
    assert Sum([r.check]) == r.check;
  }

  /** The reader calls back exactly the file's records, in order. */
  lemma {:induction false} ReadFile(s: State, rs: seq<Record>)
    requires s.phase == Waiting
    ensures var r := Run(s, RenderAll(rs));
            && r.phase == Waiting
            && r.events == s.events + Reports(BaseOf(s), rs)
    decreases |rs|
  {
    hide Step, Render, Feed, Fields.Valid, Base.Next, Base.Reported;
    if rs != [] {
      var rest := RenderAll(rs[1..]);
      ReadRecord(s, rs[0], rest);
      ReadFile(Feed(Step(s, Mark), rs[0].Body()), rs[1..]);
    }
  }

  // What a file means.

  /** The (address, data) writes a file denotes. */
  function Denote(base: Base, rs: seq<Record>): seq<Write>
    decreases |rs|
  {
    if rs == [] then [] else
      (if rs[0].rtype == DATA && rs[0].data != [] then [Write(base.Linear(rs[0].offset), rs[0].data)] else [])
      + Denote(base.Next(rs[0]), rs[1..])
  }

  /** A checksum fault in a record that is not dropped. */
  predicate Corrupt(rs: seq<Record>) {
    rs != [] && ((!rs[0].Good() && !rs[0].Dropped()) || Corrupt(rs[1..]))
  }

  lemma {:induction false} CorruptIff(rs: seq<Record>)
    ensures Corrupt(rs) <==> exists i :: 0 <= i < |rs| && !rs[i].Good() && !rs[i].Dropped()
  {
    if rs != [] {
      CorruptIff(rs[1..]);
      if i :| 0 <= i < |rs| && !rs[i].Good() && !rs[i].Dropped() {
        assert i > 0 ==> rs[1..][i - 1] == rs[i];
      }
      if Corrupt(rs[1..]) {
        var i :| 0 <= i < |rs| - 1 && !rs[1..][i].Good() && !rs[1..][i].Dropped();
        assert rs[i + 1] == rs[1..][i];
      }
    }
  }

  /** The callbacks convey a fault exactly when a record is corrupt, and otherwise the denotation. */
  lemma {:induction false} ReportsMean(base: Base, rs: seq<Record>)
    ensures AnyFault(Reports(base, rs)) == Corrupt(rs)
    ensures !Corrupt(rs) ==> DataWrites(Reports(base, rs)) == Denote(base, rs)
    decreases |rs|
  {
    if rs != [] {
      var first := base.Reported(rs[0]);
      EventsAppend(first, Reports(base.Next(rs[0]), rs[1..]));
      ReportsMean(base.Next(rs[0]), rs[1..]);
      if first != [] {
        EventStep([], first[0]);
        assert [] + first == first;
      }
    }
  }

  /** The records whose checksum is good. */
  function Sound(rs: seq<Record>): seq<Record> {
    if rs == [] then [] else (if rs[0].Good() then [rs[0]] else []) + Sound(rs[1..])
  }

  /** A corrupt record is as good as absent: it writes nothing and moves no base. */
  lemma {:induction false} CorruptSkipped(base: Base, rs: seq<Record>)
    ensures DataWrites(Reports(base, rs)) == Denote(base, Sound(rs))
    decreases |rs|
  {
    if rs != [] {
      hide RecordFields.Good;
      var first := base.Reported(rs[0]);
      EventsAppend(first, Reports(base.Next(rs[0]), rs[1..]));
      CorruptSkipped(base.Next(rs[0]), rs[1..]);
      if first != [] {
        EventStep([], first[0]);
        assert [] + first == first;
      }
      assert Sound(rs) == if rs[0].Good() then [rs[0]] + Sound(rs[1..]) else Sound(rs[1..]);
    }
  }

  /**
   * Any text that spells the records, in either letter case and with noise interspersed,
   * is called back as exactly those records.
   */
  lemma TextReports(text: seq<byte>, junk: seq<byte>, rs: seq<Record>)
    requires |junk| == 256 && Tokens(text, MARK) == RenderAll(rs)
    ensures Callbacks(text, junk) == Reports(Base(0, 0), rs)
  {
    ReadFile(Start(junk), rs);
  }

  /** The result of a conversion: refused exactly on a corrupt record, else the overlay. */
  lemma ConversionMeans(text: seq<byte>, junk: seq<byte>, rs: seq<Record>)
    requires |junk| == 256 && Tokens(text, MARK) == RenderAll(rs)
    ensures Convert(Callbacks(text, junk)) ==
            var ws := Denote(Base(0, 0), rs);
            if Corrupt(rs) then Failed else if ws == [] then Empty else ImageOf(ws)
  {
    TextReports(text, junk, rs);
    ReportsMean(Base(0, 0), rs);
  }

  // One altered byte.

  /** A body read as a record, whatever its checksum. */
  function RecordOf(body: seq<byte>): RecordFields
    requires |body| >= 5
  {
    RecordFields(body[3], BigEndian(body[1], body[2]), body[4..|body| - 1], body[|body| - 1])
  }

  /** One altered byte, other than a type byte of 8 or more, gives a record with a wrong checksum. */
  lemma AlteredIsBad(r: Record, k: nat, v: byte)
    requires r.Good() && 1 <= k < |r.Body()| && v != r.Body()[k] && r.Body()[k := v][3] < 8
    ensures var r' := RecordOf(r.Body()[k := v]);
            && r'.Shaped() && r'.Body() == r.Body()[k := v] && |r'.data| == |r.data|
            && r'.WellFormed() && !r'.Good()
  {
    hide Sum;
    var body := r.Body()[k := v];
    var r' := RecordOf(body);
    assert body[0] == |r.data|;
    assert r'.Body() == body;
    SumUpdate(r.Body(), k, v);
    SumBound(r.Body(), k);
    OffByLess(Sum(r.Body()), r.Body()[k], v);
  }

  lemma OffByLess(sum: nat, before: byte, after: byte)
    requires sum % 256 == 0 && before != after && before <= sum
    ensures (sum - before + after) % 256 != 0
  {
  }

  lemma {:induction false} SumBound(s: seq<byte>, k: nat)
    requires k < |s|
    ensures s[k] <= Sum(s)
  {
    if k > 0 { SumBound(s[1..], k - 1); }
  }

  /** Digits outside a record only disturb the buffer. */
  lemma {:induction false} FeedWaiting(s: State, bytes: seq<byte>)
    requires s.phase == Waiting
    ensures var r := Feed(s, bytes); r == s.(data := r.data)
    decreases |bytes|
  {
    hide OrByte;
    if bytes != [] { FeedWaiting(StepByte(s, bytes[0]), bytes[1..]); }
  }

  /** The four header bytes when the type is not one the reader knows. */
  lemma FeedUnknown(s: State, n: byte, high: byte, low: byte, rtype: byte)
    requires s.phase == First(Count) && rtype >= 8
    ensures var h := Feed(s, [n, high, low, rtype]);
            h == s.(phase := Waiting, lineLength := n, data := h.data, offset := BigEndian(high, low))
  {
    hide StepByte;
    var s1 := StepByte(s, n);
    var s2 := StepByte(s1, high);
    var s3 := StepByte(s2, low);
    HeaderByte(s, n);
    HeaderByte(s1, high);
    HeaderByte(s2, low);
    HeaderByte(s3, rtype);
    FeedFour(s, n, high, low, rtype);
  }

  /** A type byte of 8 or more ends the record: nothing is called back. */
  lemma UnknownTypeSkipped(s: State, body: seq<byte>, rest: seq<Token>) returns (s': State)
    requires s.phase == Waiting && |body| >= 5 && body[3] >= 8
    ensures s'.phase == Waiting && s'.events == s.events && BaseOf(s') == BaseOf(s)
    ensures Run(s, [Mark] + Digits(body) + rest) == Run(s', rest)
  {
    hide Step, Feed, Digits;
    var s0 := Step(s, Mark);
    MarkOpens(s);
    var header := [body[0], body[1], body[2], body[3]];
    FeedUnknown(s0, body[0], body[1], body[2], body[3]);
    assert body == header + body[4..];
    FeedAppend(s0, header, body[4..]);
    FeedWaiting(Feed(s0, header), body[4..]);
    s' := Feed(s0, body);
    var ts := [Mark] + Digits(body) + rest;
    assert ts[1..] == Digits(body) + rest;
    FeedDigits(s0, body, rest);
  }

  /** A text that spells the records, with byte k of record i replaced by v. */
  ghost predicate SpellsAltered(text: seq<byte>, rs: seq<Record>, i: nat, k: nat, v: byte)
    requires i < |rs| && k < |rs[i].Body()|
  {
    Tokens(text, MARK) == RenderAll(rs[..i]) + ([Mark] + Digits(rs[i].Body()[k := v]) + RenderAll(rs[i + 1..]))
  }

  lemma {:induction false} RenderAllAppend(a: seq<Record>, b: seq<Record>)
    ensures RenderAll(a + b) == RenderAll(a) + RenderAll(b)
  {
    hide Render;
    if a == [] {
      assert a + b == b;
    } else {
      assert (a + b)[1..] == a[1..] + b;
      RenderAllAppend(a[1..], b);
    }
  }

  /**
   * In a file without a fault, any one byte after a record's count is altered: the conversion fails exactly if
   * the record's type, as it then stands, is below 8 and the record is not an empty data record.
   */
  lemma AlteredNoticedIff(text: seq<byte>, junk: seq<byte>, rs: seq<Record>, i: nat, k: nat, v: byte)
    requires |junk| == 256 && i < |rs| && !Corrupt(rs) && rs[i].Good()
    requires 1 <= k < |rs[i].Body()| && v != rs[i].Body()[k] && SpellsAltered(text, rs, i, k, v)
    ensures var rtype := rs[i].Body()[k := v][3];
            Convert(Callbacks(text, junk)) == Failed <==> rtype < 8 && !(rtype == DATA && rs[i].data == [])
  {
    var body := rs[i].Body()[k := v];
    if body[3] < 8 {
      AlteredKnownType(text, junk, rs, i, k, v);
    } else {
      AlteredUnknownType(text, junk, rs, i, k, v);
    }
  }

  lemma AlteredKnownType(text: seq<byte>, junk: seq<byte>, rs: seq<Record>, i: nat, k: nat, v: byte)
    requires |junk| == 256 && i < |rs| && !Corrupt(rs) && rs[i].Good()
    requires 1 <= k < |rs[i].Body()| && v != rs[i].Body()[k] && SpellsAltered(text, rs, i, k, v)
    requires rs[i].Body()[k := v][3] < 8
    ensures Convert(Callbacks(text, junk)) == Failed <==> !RecordOf(rs[i].Body()[k := v]).Dropped()
  {
    hide Tokens, RenderAll, Callbacks, RecordFields.Body, Sum;
    AlteredIsBad(rs[i], k, v);
    var r': Record := RecordOf(rs[i].Body()[k := v]);
    var rs' := rs[i := r'];
    assert rs' == rs[..i] + ([r'] + rs[i + 1..]);
    RenderAllAppend(rs[..i], [r'] + rs[i + 1..]);
    FirstRendered(r', rs[i + 1..]);
    CorruptIff(rs);
    CorruptIff(rs');
    assert Corrupt(rs') <==> !r'.Dropped() by {
      assert !r'.Good() && rs'[i] == r';
      assert forall j :: 0 <= j < |rs| && j != i ==> rs'[j] == rs[j];
    }
    ConversionMeans(text, junk, rs');
  }

  lemma FirstRendered(r: Record, rs: seq<Record>)
    ensures RenderAll([r] + rs) == [Mark] + Digits(r.Body()) + RenderAll(rs)
  {
    assert ([r] + rs)[1..] == rs;
  }

  lemma AlteredUnknownType(text: seq<byte>, junk: seq<byte>, rs: seq<Record>, i: nat, k: nat, v: byte)
    requires |junk| == 256 && i < |rs| && !Corrupt(rs)
    requires k < |rs[i].Body()| && SpellsAltered(text, rs, i, k, v) && rs[i].Body()[k := v][3] >= 8
    ensures Convert(Callbacks(text, junk)) != Failed
  {
    hide Tokens, RenderAll, Step, Digits, RecordFields.Body, Run, Reports, End, AnyFault, DataWrites, Corrupt;
    var body := rs[i].Body()[k := v];
    var (front, rest) := (RenderAll(rs[..i]), RenderAll(rs[i + 1..]));
    var s := Run(Start(junk), front);
    RunAppend(Start(junk), front, [Mark] + Digits(body) + rest);
    ReadFile(Start(junk), rs[..i]);
    var s' := UnknownTypeSkipped(s, body, rest);
    ReadFile(s', rs[i + 1..]);
    EndsQuietly(Run(s', rest));
    NoFaultIn(Base(0, 0), rs, 0, i);
    NoFaultIn(BaseOf(s'), rs, i + 1, |rs|);
    EventsAppend(Reports(Base(0, 0), rs[..i]), Reports(BaseOf(s'), rs[i + 1..]));
    assert [] + Reports(Base(0, 0), rs[..i]) == Reports(Base(0, 0), rs[..i]);
  }

  /** Part of a file without a fault has none. */
  lemma NoFaultIn(base: Base, rs: seq<Record>, from: nat, to: nat)
    requires !Corrupt(rs) && from <= to <= |rs|
    ensures !AnyFault(Reports(base, rs[from..to])) && rs[0..to] == rs[..to] && rs[from..|rs|] == rs[from..]
  {
    var part := rs[from..to];
    CorruptIff(rs);
    CorruptIff(part);
    forall i | 0 <= i < |part|
      ensures part[i].Good() || part[i].Dropped()
    {
      assert part[i] == rs[from + i];
    }
    ReportsMean(base, part);
  }

  lemma EndsQuietly(s: State)
    requires s.phase == Waiting
    ensures End(s) == s
  {
  }

  /** A data record whose type byte becomes 8 disappears without a fault. */
  lemma UnknownTypeUnnoticed(text: seq<byte>, junk: seq<byte>)
    requires |junk| == 256
    requires Tokens(text, MARK) == [Mark] + Digits([1, 0, 0, 8, 7, 0xF8])
    ensures Convert(Callbacks(text, junk)) == Empty
  {
    var r := RecordFields(DATA, 0, [7], 0xF8);
    assert r.Body() == [1, 0, 0, 0, 7, 0xF8];
    BodySumOfOne();
    var rs: seq<Record> := [r];
    assert rs[..0] == [] && rs[1..] == [];
    assert r.Body()[3 := 8] == [1, 0, 0, 8, 7, 0xF8];
    var s := Start(junk);
    var s' := UnknownTypeSkipped(s, [1, 0, 0, 8, 7, 0xF8], []);
    assert Tokens(text, MARK) == [Mark] + Digits([1, 0, 0, 8, 7, 0xF8]) + [];
    assert Callbacks(text, junk) == [];
  }

  lemma BodySumOfOne()
    ensures Sum([1, 0, 0, 0, 7, 0xF8]) == 256
  {
    var s: seq<byte> := [1, 0, 0, 0, 7, 0xF8];
    assert s[1..] == [0, 0, 0, 7, 0xF8] && s[2..] == [0, 0, 7, 0xF8] && s[3..] == [0, 7, 0xF8];
    assert s[1..][1..] == s[2..] && s[2..][1..] == s[3..];
    assert Sum(s[3..]) == 255 by { assert s[3..][1..] == [7, 0xF8] && [7, 0xF8][1..] == [0xF8]; }
  }

  // An altered count.

  /** The first four bytes leave the buffer alone but for its first cell. */
  lemma HeaderKeepsBuffer(s: State, n: byte, high: byte, low: byte, rtype: byte)
    requires s.phase == First(Count) && rtype < 8
    ensures Feed(s, [n, high, low, rtype]).data[1..] == s.data[1..]
  {
    FeedFour(s, n, high, low, rtype);
    hide OrByte;
    var s1 := StepByte(s, n);
    var s2 := StepByte(s1, high);
    var s3 := StepByte(s2, low);
    CellZero(s, n);
    CellZero(s1, high);
    CellZero(s2, low);
    CellZero(s3, rtype);
  }

  lemma CellZero(s: State, b: byte)
    requires s.phase.First? && s.phase.field != Payload && s.length == 0
    ensures StepByte(s, b).data[1..] == s.data[1..]
  {
  }

  /** The sum the reader forms over a record that it closes after v data bytes. */
  function ClosedSum(r: Record, v: nat, bytes: seq<byte>): nat {
    v + r.offset / 256 + r.offset % 256 + r.rtype + Sum(bytes)
  }

  /** Whether it is noticed that a record's count byte was replaced by v; before is the buffer in front of it. */
  ghost predicate CountNoticed(r: Record, v: byte, before: seq<byte>)
    requires |before| == 256
  {
    var (n, bytes) := (|r.data|, r.data + [r.check]);
    if v <= n then !(v == 0 && r.rtype == DATA) && ClosedSum(r, v, bytes[..v + 1]) % 256 != 0
    else if v == n + 1 then (ClosedSum(r, v, bytes) + before[v]) % 256 != 0
    else true
  }

  /** The record with its altered count, read from an idle reader up to the next mark or the end of the file. */
  lemma CountAlteredRun(s: State, r: Record, v: byte, rest: seq<Record>)
    requires s.phase == Waiting && v != |r.data|
    ensures var all := [Mark] + Digits(r.Body()[0 := v]) + RenderAll(rest);
            exists fault: seq<Event>, base: Base ::
              && End(Run(s, all)).events == s.events + fault + Reports(base, rest)
              && (AnyFault(fault) <==> CountNoticed(r, v, s.data))
  {
    hide Step, StepByte, Digits, End, CountNoticed, ClosedSum, RenderAll, Feed, Reports, AnyFault;
    var (n, bytes) := (|r.data|, r.data + [r.check]);
    var header := [v, r.offset / 256, r.offset % 256, r.rtype];
    var s0 := Step(s, Mark);
    MarkOpens(s);
    var body := r.Body()[0 := v];
    assert body == header + bytes;
    FeedHeader(s0, v, r.offset / 256, r.offset % 256, r.rtype);
    HeaderKeepsBuffer(s0, v, r.offset / 256, r.offset % 256, r.rtype);
    assert BigEndian(r.offset / 256, r.offset % 256) == r.offset;
    var s1 := Feed(s0, header);
    var all := [Mark] + Digits(body) + RenderAll(rest);
    assert all[1..] == Digits(body) + RenderAll(rest);
    FeedDigits(s0, body, RenderAll(rest));
    FeedAppend(s0, header, bytes);
    if v < n {
      CountTooSmall(s, s1, r, v, rest);
    } else {
      CountTooLarge(s, s1, r, v, rest);
    }
  }

  /** Header and data bytes of a record with count v are in; v is below the number of data bytes. */
  lemma CountTooSmall(s: State, s1: State, r: Record, v: byte, rest: seq<Record>)
    requires v < |r.data| && s1.phase == First(Payload) && s1.length == 0 && s1.lineLength == v
    requires s1.rtype == r.rtype && s1.offset == r.offset && s1.events == s.events
    ensures exists fault: seq<Event>, base: Base ::
              && End(Run(Feed(s1, r.data + [r.check]), RenderAll(rest))).events
                 == s.events + fault + Reports(base, rest)
              && (AnyFault(fault) <==> CountNoticed(r, v, s.data))
  {
    hide RenderAll, Run, Feed, Reports, AnyFault, CountNoticed, End;
    var bytes := r.data + [r.check];
    var s2 := Feed(s1, bytes[..v]);
    FeedPayload(s1, bytes[..v]);
    FeedCheck(s2, bytes[v]);
    var closed := s2.(data := s2.data[v := bytes[v]]);
    assert closed.data[..v] == bytes[..v] && closed.data[v] == bytes[v];
    var s3 := End(closed).(phase := Waiting);
    assert bytes == bytes[..v] + ([bytes[v]] + bytes[v + 1..]);
    FeedAppend(s1, bytes[..v], [bytes[v]] + bytes[v + 1..]);
    FeedAppend(s2, [bytes[v]], bytes[v + 1..]);
    FeedWaiting(s3, bytes[v + 1..]);
    var s4 := Feed(s3, bytes[v + 1..]);
    ReadFile(s4, rest);
    EndsQuietly(Run(s4, RenderAll(rest)));
    var fault := if v == 0 && r.rtype == DATA then [] else [closed.Callback()];
    ShortClose(s, closed, r, v);
    assert s4.events == s.events + fault;
    assert End(Run(Feed(s1, bytes), RenderAll(rest))).events == s.events + fault + Reports(BaseOf(s4), rest);
  }

  /** What closing the shortened record calls back. */
  lemma ShortClose(s: State, closed: Fields, r: Record, v: byte)
    requires v < |r.data| && closed.Bounded() && closed.length == closed.lineLength == v
    requires closed.rtype == r.rtype && closed.offset == r.offset && closed.events == s.events
    requires closed.data[..v] == (r.data + [r.check])[..v] && closed.data[v] == (r.data + [r.check])[v]
    ensures var fault := if v == 0 && r.rtype == DATA then [] else [closed.Callback()];
            End(closed).events == s.events + fault && (AnyFault(fault) <==> CountNoticed(r, v, s.data))
  {
    hide Sum, AnyFault;
    var bytes := r.data + [r.check];
    SumAppend(bytes[..v], [bytes[v]]);
    assert bytes[..v + 1] == bytes[..v] + [bytes[v]];
    SumOne(bytes[v]);
    OneEvent(closed.Callback());
    assert s.events + [] == s.events;
  }

  lemma SumOne(b: byte)
    ensures Sum([b]) == b
  {
    assert [b][1..] == [];
  }

  lemma OneEvent(e: Event)
    ensures AnyFault([e]) == e.Faulty() && !AnyFault([])
  {
    EventStep([], e);
    assert [] + [e] == [e];
  }

  /** The same when v is above the number of data bytes: the checksum byte is taken for data. */
  lemma CountTooLarge(s: State, s1: State, r: Record, v: byte, rest: seq<Record>)
    requires v > |r.data| && s1.phase == First(Payload) && s1.length == 0 && s1.lineLength == v
    requires s1.rtype == r.rtype && s1.offset == r.offset && s1.events == s.events && s1.data[1..] == s.data[1..]
    ensures exists fault: seq<Event>, base: Base ::
              && End(Run(Feed(s1, r.data + [r.check]), RenderAll(rest))).events
                 == s.events + fault + Reports(base, rest)
              && (AnyFault(fault) <==> CountNoticed(r, v, s.data))
  {
    hide RenderAll, Run, Feed, Reports, AnyFault, CountNoticed, End;
    var bytes := r.data + [r.check];
    var n := |r.data|;
    var s2 := Feed(s1, bytes);
    FeedPayload(s1, bytes);
    assert s2.data[..n + 1] == bytes;
    if v == n + 1 {
      assert s2.data[v] == s2.data[n + 1..][0] == s1.data[n + 1..][0] == s1.data[v];
      assert s1.data[v] == s1.data[1..][v - 1] == s.data[1..][v - 1];
    }
    LongClose(s, s2, r, v);
    var closed := End(s2).(phase := Waiting);
    ClosedByMark(s2, rest);
    ReadFile(closed, rest);
    EndsQuietly(Run(closed, RenderAll(rest)));
    assert End(Run(s2, RenderAll(rest))).events == s.events + [s2.Callback()] + Reports(BaseOf(closed), rest);
  }

  /** What closing the record with too large a count calls back. */
  lemma LongClose(s: State, s2: Fields, r: Record, v: byte)
    requires v > |r.data| && s2.Bounded() && s2.length == |r.data| + 1 && s2.lineLength == v
    requires s2.rtype == r.rtype && s2.offset == r.offset && s2.events == s.events
    requires s2.data[..s2.length] == r.data + [r.check] && (v == |r.data| + 1 ==> s2.data[v] == s.data[v])
    ensures var fault := [s2.Callback()];
            End(s2).events == s.events + fault && (AnyFault(fault) <==> CountNoticed(r, v, s.data))
  {
    hide Sum, AnyFault;
    OneEvent(s2.Callback());
  }

  /** A record cut short is closed by the next mark, or by the end of the file. */
  lemma ClosedByMark(s: State, rest: seq<Record>)
    requires s.phase == First(Payload) && s.length > 0
    ensures var closed := End(s).(phase := Waiting);
            End(Run(s, RenderAll(rest))).events == End(Run(closed, RenderAll(rest))).events
  {
    var closed := End(s).(phase := Waiting);
    EndsQuietly(closed);
    if rest != [] {
      var ts := RenderAll(rest);
      assert ts[0] == Mark;
      assert Step(s, Mark) == Step(closed, Mark);
    }
  }

  /**
   * The count byte of a record is altered, in a file without a fault. A count that is too large is noticed at the
   * next mark, unless it is too large by one and the stale byte behind the record makes up the sum; one that is too
   * small is noticed unless it drops the record or the shortened record happens to add up.
   */
  lemma CountAlteredIff(text: seq<byte>, junk: seq<byte>, rs: seq<Record>, i: nat, v: byte)
    requires |junk| == 256 && i < |rs| && !Corrupt(rs) && v != |rs[i].data| && SpellsAltered(text, rs, i, 0, v)
    ensures Convert(Callbacks(text, junk)) == Failed
            <==> CountNoticed(rs[i], v, Run(Start(junk), RenderAll(rs[..i])).data)
  {
    hide Tokens, RenderAll, Step, Digits, RecordFields.Body,
      Run, Reports, End, AnyFault, DataWrites, Corrupt, CountNoticed;
    var front := RenderAll(rs[..i]);
    var s := Run(Start(junk), front);
    var altered := [Mark] + Digits(rs[i].Body()[0 := v]) + RenderAll(rs[i + 1..]);
    RunAppend(Start(junk), front, altered);
    assert front + altered == front + ([Mark] + Digits(rs[i].Body()[0 := v]) + RenderAll(rs[i + 1..]));
    ReadFile(Start(junk), rs[..i]);
    CountAlteredRun(s, rs[i], v, rs[i + 1..]);
    var fault: seq<Event>, base: Base :|
      && End(Run(s, altered)).events == s.events + fault + Reports(base, rs[i + 1..])
      && (AnyFault(fault) <==> CountNoticed(rs[i], v, s.data));
    var before := Reports(Base(0, 0), rs[..i]);
    NoFaultIn(Base(0, 0), rs, 0, i);
    NoFaultIn(base, rs, i + 1, |rs|);
    assert Callbacks(text, junk) == before + fault + Reports(base, rs[i + 1..]) by { assert [] + before == before; }
    EventsAppend(before + fault, Reports(base, rs[i + 1..]));
    EventsAppend(before, fault);
  }
}
