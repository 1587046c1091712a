/** S-record files with a record cut off, or with a wrong byte count: exactly when the conversion fails. */
module SrecDamage {
  import opened Bytes
  import opened Hex
  import opened Records
  import opened ImageContext
  import opened SrecReader
  import opened SrecCounts
  import opened SrecFile

  // From a damaged record back to whole ones.

  /** A mark closes what was read so far, whatever digit was expected. */
  lemma MarkResumes(s: State)
    requires s.phase != Overrun
    ensures End(s).(phase := Waiting).Valid()
    ensures Step(s, Mark) == Step(End(s).(phase := Waiting), Mark)
  {
    var idle := End(s).(phase := Waiting);
    assert End(idle) == idle;
  }

  /** Whole records behind a damaged one are read as if nothing had happened, once it is closed. */
  lemma Resumes(s: State, rs: seq<Record>)
    requires s.phase != Overrun && (rs == [] || End(s).length == 0)
    ensures End(Run(s, RenderAll(rs))).events == End(s).events + Reports(rs)
    ensures Run(s, RenderAll(rs)).phase != Overrun
  {
    hide Step, End, Reported;
    MarkResumes(s);
    var idle: State := End(s).(phase := Waiting);
    var ts := RenderAll(rs);
    if rs == [] {
      assert ts == [] && Reports(rs) == [];
    } else {
      assert ts[0] == Mark && Run(s, ts) == Run(idle, ts);
      ReadFile(idle, rs);
      ClosedIsClosed(Run(idle, ts));
    }
  }

  lemma ClosedIsClosed(s: State)
    requires s.phase == Waiting
    ensures End(s).events == s.events
  {
  }

  /** A file with one record replaced by other digits. */
  ghost predicate Replaced(text: seq<byte>, rs: seq<Record>, i: nat, digits: seq<Token>)
    requires i < |rs|
  {
    Tokens(text, MARK) == RenderAll(rs[..i]) + ([Mark, Digit(rs[i].rtype)] + digits) + RenderAll(rs[i + 1..])
  }

  /** The other records add no fault: the file fails exactly if what is called back in the middle is faulty. */
  lemma MiddleDecides(text: seq<byte>, junk: seq<byte>, rs: seq<Record>, i: nat, middle: seq<Token>, j: nat,
                      s: State, fault: seq<Event>)
    requires |junk| == MAX_BYTE_COUNT + 1 && i <= j <= |rs| && !Corrupt(rs)
    requires Tokens(text, MARK) == RenderAll(rs[..i]) + middle + RenderAll(rs[j..])
    requires s == Run(Run(Start(junk), RenderAll(rs[..i])), middle)
    requires s.phase != Overrun && (j == |rs| || End(s).length == 0) && End(s).events == Reports(rs[..i]) + fault
    ensures Convert(Callbacks(text, junk)) == Failed <==> AnyFault(fault)
    ensures Contained(text)
  {
    hide Step, End, AnyFault, DataWrites, Reports, Corrupt;
    var (front, rest) := (RenderAll(rs[..i]), RenderAll(rs[j..]));
    RunAppend(Start(junk), front + middle, rest);
    RunAppend(Start(junk), front, middle);
    Resumes(s, rs[j..]);
    OverrunIff(text, junk);
    NoFaultInPart(rs, 0, i);
    NoFaultInPart(rs, j, |rs|);
    EventsAppend(Reports(rs[..i]) + fault, Reports(rs[j..]));
    EventsAppend(Reports(rs[..i]), fault);
  }

  lemma NoFaultInPart(rs: seq<Record>, lo: nat, hi: nat)
    requires lo <= hi <= |rs| && !Corrupt(rs)
    ensures !AnyFault(Reports(rs[lo..hi]))
    ensures lo == 0 ==> rs[..hi] == rs[lo..hi]
    ensures hi == |rs| ==> rs[lo..] == rs[lo..hi]
  {
    hide Reports, AnyFault;
    CorruptIff(rs);
    CorruptIff(rs[lo..hi]);
    ReportsMean(rs[lo..hi]);
  }

  // What the digits of a damaged record do.

  /** Mark and type digit. */
  lemma Opened(s: State, t: nibble, digits: seq<Token>)
    requires s.phase == Waiting && s.length == 0
    ensures var h := s.(phase := CountFirst, rtype := t);
            h.Valid() && Run(s, [Mark, Digit(t)] + digits) == Run(h, digits)
  {
    var ts := [Mark, Digit(t)] + digits;
    assert ts[1..][1..] == digits;
  }

  /** The count byte. */
  lemma Counted(s: State, c: byte)
    requires s.phase == CountFirst && s.length <= MAX_BYTE_COUNT
    ensures var h := StepByte(s, c);
            && (c <= MAX_BYTE_COUNT ==> h == s.(phase := DataFirst, byteCount := c, data := h.data))
            && (c <= MAX_BYTE_COUNT ==> h.data[..s.length] == s.data[..s.length])
            && (c > MAX_BYTE_COUNT ==> h.phase == Waiting && h.length == 0)
            && (c > MAX_BYTE_COUNT && s.length == 0 ==>
                  exists e :: AddsFault(s, h, e))
  {
    var half := Step(s, Digit(c / 16));
    var s' := half.(data := half.data[half.length := c], byteCount := c);
    assert half.data[half.length] + c % 16 == c;
    if c > MAX_BYTE_COUNT && s.length == 0 { assert AddsFault(s, StepByte(s, c), s'.Callback()); }
  }

  ghost predicate AddsFault(s: Fields, r: Fields, e: Event) { e.Faulty() && r.events == s.events + [e] }

  /** Digits outside a record only disturb the buffer behind the index. */
  lemma {:induction false} Disturbs(s: State, bytes: seq<byte>)
    requires s.phase == Waiting && s.length <= MAX_BYTE_COUNT
    ensures var r := Feed(s, bytes);
            r == s.(data := r.data) && r.data[..s.length] == s.data[..s.length]
    decreases |bytes|
  {
    hide OrByte;
    if bytes != [] {
      var s' := StepByte(s, bytes[0]);
      assert s' == s.(data := s'.data) && s'.data[..s.length] == s.data[..s.length];
      Disturbs(s', bytes[1..]);
    }
  }

  // A wrong byte count.

  /** A count that was too large: fewer bytes than counted are there when the record is closed. */
  lemma TooLarge(s: State, t: nibble, c: byte, bytes: seq<byte>) returns (e: Event)
    requires s.phase == Waiting && s.length == 0 && |bytes| < c
    ensures var r := Run(s, [Mark, Digit(t)] + Digits([c] + bytes));
            r.phase != Overrun && End(r).length == 0 && End(r).events == s.events + [e]
    ensures AnyFault([e])
  {
    hide StepByte, Step, Feed, AnyFault;
    var h := s.(phase := CountFirst, rtype := t);
    Opened(s, t, Digits([c] + bytes));
    BytesRead(h, c, bytes);
    Counted(h, c);
    var counted := StepByte(h, c);
    if c > MAX_BYTE_COUNT {
      Disturbs(counted, bytes);
      ClosedIsClosed(Feed(counted, bytes));
      e :| AddsFault(h, counted, e);
    } else {
      FeedCounted(counted, bytes);
      ShortIsFaulty(s, Feed(counted, bytes));
      e :| AddsFault(s, End(Feed(counted, bytes)), e);
    }
    OneFault(e);
  }

  lemma BytesRead(h: State, c: byte, bytes: seq<byte>)
    ensures Run(h, Digits([c] + bytes)) == Feed(StepByte(h, c), bytes)
  {
    hide Step, Feed, StepByte;
    FeedDigits(h, [c] + bytes, []);
    assert Digits([c] + bytes) + [] == Digits([c] + bytes);
    FeedFirst(h, c, bytes);
  }

  lemma FeedFirst(h: State, c: byte, bytes: seq<byte>)
    ensures Feed(h, [c] + bytes) == Feed(StepByte(h, c), bytes)
    ensures Run(Feed(h, [c] + bytes), []) == Feed(h, [c] + bytes)
  {
    hide StepByte;
    assert ([c] + bytes)[1..] == bytes;
  }

  lemma ShortIsFaulty(s: State, r: State)
    requires r.byteCount > 0 && r.length != r.byteCount && r.events == s.events
    ensures End(r).length == 0 && exists e :: AddsFault(s, End(r), e)
  {
    assert AddsFault(s, End(r), r.Callback());
  }

  /** The sum a record closed after c bytes is judged by. */
  predicate AddsUp(c: byte, bytes: seq<byte>) { (c + Sum(bytes)) % 256 == 255 }

  /** As many bytes as counted close the record. */
  lemma FillsUp(counted: State, bytes: seq<byte>) returns (full: Fields)
    requires counted.phase == DataFirst && bytes != [] && counted.length + |bytes| == counted.byteCount
    ensures full.Bounded() && full.length == full.byteCount == counted.byteCount && full.events == counted.events
    ensures full.data[..full.length] == counted.data[..counted.length] + bytes
    ensures Feed(counted, bytes) == End(full).(phase := Waiting)
  {
    hide StepByte, Feed;
    var n := |bytes| - 1;
    var (front, last) := (bytes[..n], bytes[n]);
    assert bytes == front + [last];
    FeedAppend(counted, front, [last]);
    FeedCounted(counted, front);
    var s2 := Feed(counted, front);
    FeedOne(s2, last);
    FeedLast(s2, last);
    full := s2.(data := s2.data[s2.length := last], length := s2.length + 1);
    assert full.data[..full.length] == s2.data[..s2.length] + [last];
    assert s2.data[..s2.length] + [last] == counted.data[..counted.length] + bytes;
  }

  lemma FeedOne(s: State, b: byte)
    ensures Feed(s, [b]) == StepByte(s, b)
  {
    hide StepByte;
    assert [b][1..] == [];
  }

  /** A record closed at its count: the callback is faulty exactly if the sum is wrong. */
  lemma ClosesAtCount(s: State, counted: State, bytes: seq<byte>, rest: seq<byte>)
    requires counted.phase == DataFirst && counted.events == s.events
    requires bytes != [] && counted.length + |bytes| == counted.byteCount
    ensures var r := Feed(counted, bytes + rest);
            var good := AddsUp(counted.byteCount, counted.data[..counted.length] + bytes);
            && r.phase == Waiting && r.length == 0 && r.byteCount == 0
            && exists e :: Adds(s, r, e, good)
  {
    hide Feed, AddsUp, End;
    FeedAppend(counted, bytes, rest);
    var full := FillsUp(counted, bytes);
    FullIsJudged(s, full);
    var closed := Feed(counted, bytes);
    var good := AddsUp(counted.byteCount, counted.data[..counted.length] + bytes);
    var e :| Adds(s, closed, e, good);
    Disturbs(closed, rest);
    assert Adds(s, Feed(closed, rest), e, good);
  }

  ghost predicate Adds(s: Fields, r: Fields, e: Event, good: bool) {
    r.events == s.events + [e] && (e.Faulty() <==> !good)
  }

  lemma FullIsJudged(s: State, full: Fields)
    requires full.Bounded() && full.length == full.byteCount > 0 && full.events == s.events
    ensures var r := End(full).(phase := Waiting);
            r.length == 0 && exists e :: Adds(s, r, e, AddsUp(full.byteCount, full.data[..full.length]))
  {
    hide Sum;
    assert full.Callback().Faulty() <==> !AddsUp(full.byteCount, full.data[..full.length]);
    assert Adds(s, End(full).(phase := Waiting), full.Callback(), AddsUp(full.byteCount, full.data[..full.length]));
  }

  /** A count that was too small but not 0. */
  lemma TooSmall(s: State, t: nibble, c: byte, bytes: seq<byte>) returns (e: Event)
    requires s.phase == Waiting && s.length == 0 && 0 < c < |bytes| && c <= MAX_BYTE_COUNT
    ensures var r := Run(s, [Mark, Digit(t)] + Digits([c] + bytes));
            r.phase == Waiting && r.length == 0 && r.byteCount == 0 && r.events == s.events + [e]
    ensures AnyFault([e]) <==> !AddsUp(c, bytes[..c])
  {
    hide StepByte, Step, Feed, AddsUp;
    var h := s.(phase := CountFirst, rtype := t);
    Opened(s, t, Digits([c] + bytes));
    BytesRead(h, c, bytes);
    Counted(h, c);
    assert bytes[..c] + bytes[c..] == bytes;
    ClosesAtCount(s, StepByte(h, c), bytes[..c], bytes[c..]);
    assert StepByte(h, c).data[..0] + bytes[..c] == bytes[..c];
    var good := AddsUp(c, bytes[..c]);
    e :| Adds(s, Feed(StepByte(h, c), bytes), e, good);
    OneFault(e);
  }

  /** A count of 0: the record vanishes, and leaves its first byte and the index 1 behind. */
  lemma CountZero(s: State, t: nibble, bytes: seq<byte>)
    requires s.phase == Waiting && s.length == 0 && bytes != []
    ensures var r := Run(s, [Mark, Digit(t)] + Digits([0] + bytes));
            && r.phase == Waiting && r.length == 1 && r.byteCount == 0
            && r.data[0] == bytes[0] && r.events == s.events
  {
    hide StepByte, Step, Feed;
    var h := s.(phase := CountFirst, rtype := t);
    Opened(s, t, Digits([0] + bytes));
    BytesRead(h, 0, bytes);
    Counted(h, 0);
    var counted := StepByte(h, 0);
    assert bytes == [bytes[0]] + bytes[1..];
    FeedFirst(counted, bytes[0], bytes[1..]);
    ZeroByte(counted, bytes[0]);
    var one := StepByte(counted, bytes[0]);
    Disturbs(one, bytes[1..]);
    assert one.data[..1][0] == one.data[0];
    assert Feed(one, bytes[1..]).data[..1][0] == Feed(one, bytes[1..]).data[0];
  }

  lemma ZeroByte(s: State, b: byte)
    requires s.phase == DataFirst && s.length == 0 && s.byteCount == 0
    ensures var r := StepByte(s, b);
            r == s.(phase := Waiting, length := 1, data := r.data) && r.data[0] == b
  {
  }

  /** The record behind such a one is read one byte short, with the byte left behind in front. */
  lemma ReadBehindZero(s: State, r: Record)
    requires s.phase == Waiting && s.length == 1
    ensures var after := Run(s, Render(r));
            var good := AddsUp(r.Count(), [s.data[0]] + r.Counted()[..r.Count() - 1]);
            && after.phase == Waiting && after.length == 0 && after.byteCount == 0
            && exists e :: Adds(s, after, e, good)
  {
    hide StepByte, Step, Feed, AddsUp, RecordFields.Counted, RecordFields.Count, AddressBytes;
    CountedSplit(r);
    var (c, bytes) := (r.Count(), r.Counted());
    var h := s.(phase := CountFirst, rtype := r.rtype);
    OpenedAt(s, r.rtype, Digits([c] + bytes));
    BytesRead(h, c, bytes);
    Counted(h, c);
    var counted := StepByte(h, c);
    assert bytes[..c - 1] + [r.check] == bytes;
    AtLeastThree(r);
    ClosesAtCount(s, counted, bytes[..c - 1], [r.check]);
    assert counted.data[..1] == [s.data[0]] by { assert s.data[..1] == [s.data[0]]; }
  }

  lemma AtLeastThree(r: Record)
    ensures r.Count() >= 3
  {
  }

  lemma OpenedAt(s: State, t: nibble, digits: seq<Token>)
    requires s.phase == Waiting
    ensures var h := s.(phase := CountFirst, rtype := t);
            s.length <= MAX_BYTE_COUNT ==> h.Valid() && Run(s, [Mark, Digit(t)] + digits) == Run(h, digits)
  {
    var ts := [Mark, Digit(t)] + digits;
    assert ts[1..][1..] == digits;
  }

  /** Whether a wrong count is noticed; next holds the record behind, if there is one. */
  predicate CountNoticed(c: byte, bytes: seq<byte>, next: seq<Record>)
    requires bytes != []
  {
    if c > |bytes| then true
    else if c > 0 then (c + Sum(bytes[..c])) % 256 != 255
    else next != [] && bytes[0] != next[0].check
  }

  /**
   * The count byte of a record is altered, in a file without a fault. A count that is too large, beyond 37 or not, is
   * always noticed; one that is too small, unless the shortened record happens to add up; a count of 0, only by the
   * record behind, unless its checksum byte happens to be the damaged record's first address byte.
   */
  lemma CountAlteredIff(text: seq<byte>, junk: seq<byte>, rs: seq<Record>, i: nat, c: byte)
    requires |junk| == 38 && i < |rs| && !Corrupt(rs) && c != rs[i].Count()
    requires Replaced(text, rs, i, Digits([c] + rs[i].Counted()))
    ensures Contained(text)
    ensures Convert(Callbacks(text, junk)) == Failed <==> CountNoticed(c, rs[i].Counted(), rs[i + 1..])
  {
    hide Step, End, AnyFault, Reports, Corrupt, RenderAll, Run, Digits, Convert, Tokens, RecordFields.Counted,
      RecordFields.Count, Contained;
    ReadFile(Start(junk), rs[..i]);
    CountedSplit(rs[i]);
    var (s, bytes) := (Run(Start(junk), RenderAll(rs[..i])), rs[i].Counted());
    var middle := [Mark, Digit(rs[i].rtype)] + Digits([c] + bytes);
    var r := Run(s, middle);
    assert [] + Reports(rs[..i]) == Reports(rs[..i]);
    if c > |bytes| {
      var e := TooLarge(s, rs[i].rtype, c, bytes);
      MiddleDecides(text, junk, rs, i, middle, i + 1, r, [e]);
    } else if c > 0 {
      var e := TooSmall(s, rs[i].rtype, c, bytes);
      IdleEnd(r);
      MiddleDecides(text, junk, rs, i, middle, i + 1, r, [e]);
    } else {
      CountZero(s, rs[i].rtype, bytes);
      CountZeroDecides(text, junk, rs, i, middle, r);
    }
  }

  /** The record behind the vanished one decides. */
  lemma CountZeroDecides(text: seq<byte>, junk: seq<byte>, rs: seq<Record>, i: nat, middle: seq<Token>, r: State)
    requires |junk| == 38 && i < |rs| && !Corrupt(rs)
    requires Tokens(text, MARK) == RenderAll(rs[..i]) + middle + RenderAll(rs[i + 1..])
    requires r == Run(Run(Start(junk), RenderAll(rs[..i])), middle)
    requires r.phase == Waiting && r.length == 1 && r.byteCount == 0 && r.events == Reports(rs[..i])
    requires r.data[0] == rs[i].Counted()[0]
    ensures Contained(text)
    ensures Convert(Callbacks(text, junk)) == Failed <==> CountNoticed(0, rs[i].Counted(), rs[i + 1..])
  {
    hide Step, End, AnyFault, Reports, Corrupt, Run, RecordFields.Counted, RecordFields.Count, Contained, AddsUp,
      Render;
    IdleEnd(r);
    assert r.events == Reports(rs[..i]) + [];
    if i + 1 == |rs| {
      OneFault(Event(0, 0, [], false, false, false));
      MiddleDecides(text, junk, rs, i, middle, i + 1, r, []);
    } else {
      var next := rs[i + 1];
      CountedSplit(next);
      assert RenderAll(rs[i + 1..]) == Render(next) + RenderAll(rs[i + 2..]) by {
        assert rs[i + 1..][1..] == rs[i + 2..];
      }
      ReadBehindZero(r, next);
      RunAppend(Run(Start(junk), RenderAll(rs[..i])), middle, Render(next));
      var after := Run(r, Render(next));
      var front := [r.data[0]] + next.Counted()[..next.Count() - 1];
      var e :| Adds(r, after, e, AddsUp(next.Count(), front));
      IdleEnd(after);
      OneFault(e);
      CorruptIff(rs);
      JudgedByCheck(next, r.data[0]);
      assert RenderAll(rs[..i]) + (middle + Render(next)) + RenderAll(rs[i + 2..]) == Tokens(text, MARK);
      MiddleDecides(text, junk, rs, i, middle + Render(next), i + 2, after, [e]);
    }
  }

  /** A good record read with a foreign byte for its checksum byte adds up exactly if the two are equal. */
  lemma JudgedByCheck(r: Record, b: byte)
    requires r.Good()
    ensures AddsUp(r.Count(), [b] + r.Counted()[..r.Count() - 1]) <==> b == r.check
  {
    hide Sum, RecordFields.Counted, RecordFields.Count;
    CountedSplit(r);
    var body := r.Counted()[..r.Count() - 1];
    SumAppend([b], body);
    SumAppend(body, [r.check]);
    SumOne(b);
    SumOne(r.check);
  }

  lemma SumOne(b: byte)
    ensures Sum([b]) == b
  {
  }

  lemma OneFault(e: Event)
    ensures AnyFault([e]) <==> e.Faulty()
    ensures !AnyFault([])
  {
    EventStep([], e);
    assert [] + [e] == [e];
  }

  lemma IdleEnd(s: State)
    requires s.byteCount == 0
    ensures End(s) == s
  {
  }

  // A record that is cut off.

  /** Some bytes of a record and perhaps one digit more, fewer than its count. */
  lemma CutBytes(counted: State, s: State, bytes: seq<byte>, half: seq<Token>)
    requires counted.phase == DataFirst && counted.length == 0 && |bytes| < counted.byteCount
    requires counted.events == s.events && (half == [] || (|half| == 1 && half[0].Digit?))
    ensures var r := Run(counted, Digits(bytes) + half);
            && r.phase != Overrun && End(r).length == 0
            && exists e :: AddsFault(s, End(r), e)
  {
    hide Feed, End;
    FeedDigits(counted, bytes, half);
    FeedCounted(counted, bytes);
    var fed := Feed(counted, bytes);
    OneMoreDigit(fed, half);
    ShortIsFaulty(s, Run(fed, half));
  }

  lemma OneMoreDigit(s: State, half: seq<Token>)
    requires s.phase == DataFirst && (half == [] || (|half| == 1 && half[0].Digit?))
    ensures var r := Run(s, half);
            r.phase != Overrun && r.length == s.length && r.byteCount == s.byteCount && r.events == s.events
  {
    hide OrByte;
    if half != [] { assert half[1..] == []; }
  }

  /** The digits of the count are not all there: nothing is counted yet. */
  lemma CutCount(s: State, half: seq<Token>)
    requires s.phase == CountFirst && s.length == 0 && |half| <= 1 && forall t <- half :: t.Digit?
    ensures var r := Run(s, half); r.phase != Overrun && r.length == 0 && r.byteCount == 0 && r.events == s.events
  {
    if half != [] { assert half[1..] == []; }
  }

  /**
   * A record of a file without a fault breaks off after k of its digits behind the type, at the next mark or at the
   * end of the file: the conversion fails exactly if its count was still read.
   */
  lemma CutOffIff(text: seq<byte>, junk: seq<byte>, rs: seq<Record>, i: nat, k: nat)
    requires |junk| == 38 && i < |rs| && !Corrupt(rs) && k < 2 * (1 + rs[i].Count())
    requires Replaced(text, rs, i, Digits([rs[i].Count()] + rs[i].Counted())[..k])
    ensures Contained(text)
    ensures Convert(Callbacks(text, junk)) == Failed <==> k >= 2
  {
    hide Step, End, AnyFault, Reports, Corrupt, RenderAll, Run, Digits, AddsFault,
      RecordFields.Counted, RecordFields.Count, Contained;
    ReadFile(Start(junk), rs[..i]);
    CountedSplit(rs[i]);
    var s := Run(Start(junk), RenderAll(rs[..i]));
    var digits := Digits([rs[i].Count()] + rs[i].Counted())[..k];
    var middle := [Mark, Digit(rs[i].rtype)] + digits;
    var r := Run(s, middle);
    if k < 2 {
      CutEarly(s, rs[i], k);
      NothingMore(r, Reports(rs[..i]));
      MiddleDecides(text, junk, rs, i, middle, i + 1, r, []);
    } else {
      var e := CutLate(s, rs[i], k);
      assert [] + Reports(rs[..i]) == Reports(rs[..i]);
      MiddleDecides(text, junk, rs, i, middle, i + 1, r, [e]);
    }
  }

  lemma NothingMore(r: State, events: seq<Event>)
    requires r.byteCount == 0 && r.events == [] + events
    ensures End(r) == r && r.events == events + [] && !AnyFault([])
  {
  }

  lemma CutEarly(s: State, r: Record, k: nat)
    requires s.phase == Waiting && s.length == 0 && k < 2 && |r.Counted()| == r.Count() <= MAX_BYTE_COUNT
    ensures var after := Run(s, [Mark, Digit(r.rtype)] + Digits([r.Count()] + r.Counted())[..k]);
            after.phase != Overrun && after.length == 0 && after.byteCount == 0 && after.events == s.events
  {
    hide Step, RecordFields.Counted, RecordFields.Count;
    var bytes: seq<byte> := [r.Count()] + r.Counted();
    var half := DigitsPrefix(bytes, k);
    assert bytes[..0] == [] && Digits(bytes)[..k] == half;
    Opened(s, r.rtype, half);
    CutCount(s.(phase := CountFirst, rtype := r.rtype), half);
  }

  lemma CutLate(s: State, r: Record, k: nat) returns (e: Event)
    requires s.phase == Waiting && s.length == 0 && |r.Counted()| == r.Count() <= MAX_BYTE_COUNT
    requires 2 <= k < 2 * (1 + r.Count())
    ensures var after := Run(s, [Mark, Digit(r.rtype)] + Digits([r.Count()] + r.Counted())[..k]);
            after.phase != Overrun && End(after).length == 0 && End(after).events == s.events + [e]
    ensures AnyFault([e])
  {
    hide Step, RecordFields.Counted, RecordFields.Count, End;
    var c: byte := r.Count();
    var bytes := [c] + r.Counted();
    var half := DigitsPrefix(bytes, k);
    var front := r.Counted()[..k / 2 - 1];
    assert bytes[..k / 2] == [c] + front;
    Opened(s, r.rtype, Digits([c] + front) + half);
    CutCounted(s.(phase := CountFirst, rtype := r.rtype), s, c, front, half);
    e :| AddsFault(s, End(Run(s, [Mark, Digit(r.rtype)] + Digits(bytes)[..k])), e);
    OneFault(e);
  }

  lemma CutCounted(h: State, s: State, c: byte, front: seq<byte>, half: seq<Token>)
    requires h.phase == CountFirst && h.length == 0 && h.events == s.events && |front| < c <= MAX_BYTE_COUNT
    requires |half| <= 1 && forall t <- half :: t.Digit?
    ensures var r := Run(h, Digits([c] + front) + half);
            && r.phase != Overrun && End(r).length == 0
            && exists e :: AddsFault(s, End(r), e)
  {
    hide StepByte, Step, End;
    HeadThenRest(h, c, front, half);
    Counted(h, c);
    CutBytes(StepByte(h, c), s, front, half);
  }

  lemma HeadThenRest(h: State, c: byte, front: seq<byte>, half: seq<Token>)
    ensures Run(h, Digits([c] + front) + half) == Run(StepByte(h, c), Digits(front) + half)
  {
    hide StepByte, Step;
    FeedDigits(h, [c], Digits(front) + half);
    DigitsAppend([c], front);
    assert Digits([c]) + Digits(front) + half == Digits([c]) + (Digits(front) + half);
    assert Feed(h, [c]) == StepByte(h, c) by { assert [c][1..] == []; }
  }

  // Incomplete records, whatever stands around them.

  /** Callbacks are never taken back. */
  lemma {:induction false} EventsStay(s: State, ts: seq<Token>)
    ensures s.events <= Run(s, ts).events <= End(Run(s, ts)).events
    decreases |ts|
  {
    if ts != [] {
      EventsStay(Step(s, ts[0]), ts[1..]);
    }
  }

  lemma FaultStays(a: seq<Event>, b: seq<Event>)
    requires AnyFault(a) && a <= b
    ensures AnyFault(b)
  {
    assert b == a + b[|a|..];
    EventsAppend(a, b[|a|..]);
  }

  /**
   * A count above 37, or from 1 to 37 with fewer bytes up to the next mark or the end of the file: the conversion
   * fails, whatever records come before and whatever follows.
   */
  lemma IncompleteFails(text: seq<byte>, junk: seq<byte>, before: seq<Record>, t: nibble, c: byte, bytes: seq<byte>,
                        rest: seq<Token>)
    requires |junk| == 38 && (c > 37 || (|bytes| < c && (rest == [] || rest[0] == Mark)))
    requires Tokens(text, MARK) == RenderAll(before) + ([Mark, Digit(t)] + Digits([c] + bytes)) + rest
    ensures Convert(Callbacks(text, junk)) == Failed
  {
    hide Step, End, AnyFault, RenderAll, Run, Digits, Convert;
    var (front, middle) := (RenderAll(before), [Mark, Digit(t)] + Digits([c] + bytes));
    var s := Run(Start(junk), front);
    ReadFile(Start(junk), before);
    RunAppend(Start(junk), front + middle, rest);
    RunAppend(Start(junk), front, middle);
    IncompleteRun(s, t, c, bytes, rest);
    FaultFails(Callbacks(text, junk));
  }

  lemma FaultFails(events: seq<Event>)
    requires AnyFault(events)
    ensures Convert(events) == Failed
  {
  }

  lemma IncompleteRun(s: State, t: nibble, c: byte, bytes: seq<byte>, rest: seq<Token>)
    requires s.phase == Waiting && s.length == 0
    requires c > 37 || (|bytes| < c && (rest == [] || rest[0] == Mark))
    ensures AnyFault(End(Run(Run(s, [Mark, Digit(t)] + Digits([c] + bytes)), rest)).events)
  {
    hide Step, End, AnyFault, Run, Digits;
    var middle := [Mark, Digit(t)] + Digits([c] + bytes);
    var r := Run(s, middle);
    var end := End(Run(r, rest)).events;
    if c > 37 {
      var head := [Mark, Digit(t)] + Digits([c]);
      DigitsAppend([c], bytes);
      assert middle == head + Digits(bytes);
      var e := CountAboveFails(s, t, c);
      RunAppend(s, head, Digits(bytes));
      EventsStay(Run(s, head), Digits(bytes));
      EventsStay(r, rest);
      FaultStays(Run(s, head).events, end);
    } else {
      var e := TooLarge(s, t, c, bytes);
      EventsAppend(s.events, [e]);
      ClosedNext(r, rest);
      FaultStays(End(r).events, end);
    }
  }

  lemma CountAboveFails(s: State, t: nibble, c: byte) returns (e: Event)
    requires s.phase == Waiting && s.length == 0 && c > 37
    ensures AnyFault(Run(s, [Mark, Digit(t)] + Digits([c])).events)
  {
    hide Step, End, StepByte;
    var h := s.(phase := CountFirst, rtype := t);
    Opened(s, t, Digits([c]));
    BytesRead(h, c, []);
    assert [c] + [] == [c];
    Counted(h, c);
    e :| AddsFault(h, StepByte(h, c), e);
    EventStep(s.events, e);
  }

  /** What follows a record that is closed by a mark or the end of the file. */
  lemma ClosedNext(r: State, rest: seq<Token>)
    requires r.phase != Overrun && (rest == [] || rest[0] == Mark)
    ensures End(r).events <= End(Run(r, rest)).events
  {
    if rest != [] {
      assert Run(r, rest) == Run(Step(r, Mark), rest[1..]);
      EventsStay(Step(r, Mark), rest[1..]);
    }
  }
}
