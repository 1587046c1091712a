/** Intel HEX files with a record cut off: exactly when the conversion fails. */
module IhexDamage {
  import opened Bytes
  import opened Hex
  import opened Records
  import opened ImageContext
  import opened IhexReader
  import opened IhexFile

  /** A mark closes what was read so far, whatever digit was expected. */
  lemma MarkResumes(s: State)
    ensures End(s).(phase := Waiting).Valid() && Step(s, Mark) == Step(End(s).(phase := Waiting), Mark)
  {
  }

  /** Whole records behind a damaged one are read as if nothing had happened, once it is closed. */
  lemma Resumes(s: State, rs: seq<Record>) returns (base: Base)
    ensures End(Run(s, RenderAll(rs))).events == End(s).events + Reports(base, rs)
  {
    hide Step, End, Base.Reported;
    MarkResumes(s);
    var idle: State := End(s).(phase := Waiting);
    base := BaseOf(idle);
    var ts := RenderAll(rs);
    if rs == [] {
      assert ts == [] && Reports(base, rs) == [];
    } else {
      assert ts[0] == Mark && Run(s, ts) == Run(idle, ts);
      ReadFile(idle, rs);
      EndsQuietly(Run(idle, ts));
    }
  }

  /** A file with the digits of one record replaced. */
  ghost predicate Replaced(text: seq<byte>, rs: seq<Record>, i: nat, digits: seq<Token>)
    requires i < |rs|
  {
    Tokens(text, MARK) == RenderAll(rs[..i]) + ([Mark] + digits) + RenderAll(rs[i + 1..])
  }

  /** The other records add no fault: the file fails exactly if the damaged record is called back as faulty. */
  lemma DamageDecides(text: seq<byte>, junk: seq<byte>, rs: seq<Record>, i: nat, digits: seq<Token>, s: State,
                      fault: seq<Event>)
    requires |junk| == 256 && i < |rs| && !Corrupt(rs) && Replaced(text, rs, i, digits)
    requires var front := Run(Start(junk), RenderAll(rs[..i]));
             s == Run(front, [Mark] + digits) && End(s).events == front.events + fault
    ensures Convert(Callbacks(text, junk)) == Failed <==> AnyFault(fault)
  {
    hide Step, End, AnyFault, DataWrites, Reports, Corrupt;
    var (front, middle, rest) := (RenderAll(rs[..i]), [Mark] + digits, RenderAll(rs[i + 1..]));
    RunAppend(Start(junk), front + middle, rest);
    RunAppend(Start(junk), front, middle);
    ReadFile(Start(junk), rs[..i]);
    var base := Resumes(s, rs[i + 1..]);
    var before := Reports(Base(0, 0), rs[..i]);
    assert [] + before == before;
    NoFaultIn(Base(0, 0), rs, 0, i);
    NoFaultIn(base, rs, i + 1, |rs|);
    EventsAppend(before + fault, Reports(base, rs[i + 1..]));
    EventsAppend(before, fault);
  }

  // Cut off in the header.

  /** How many digits of the header are in. */
  function Rank(p: Phase): nat {
    match p
    case First(f) => 2 * FieldRank(f)
    case Second(f) => 2 * FieldRank(f) + 1
    case Waiting => 10
  }

  function FieldRank(f: Field): nat {
    match f
    case Count => 0
    case AddressHigh => 1
    case AddressLow => 2
    case RecordType => 3
    case Payload => 4
  }

  lemma {:induction false} HeaderCut(s: State, digits: seq<Token>)
    requires Rank(s.phase) + |digits| < 8 && forall t <- digits :: t.Digit?
    ensures var r := Run(s, digits); Rank(r.phase) < 8 && r.events == s.events
    decreases |digits|
  {
    hide OrByte;
    if digits != [] {
      assert digits[0] in digits;
      assert forall t <- digits[1..] :: t in digits;
      HeaderCut(Step(s, digits[0]), digits[1..]);
    }
  }

  lemma NothingToClose(s: State)
    requires Rank(s.phase) < 8
    ensures End(s).events == s.events
  {
  }

  // Cut off behind the header.

  /** The byte the reader takes for the checksum when all data bytes are in and the checksum byte is not. */
  function TakenForCheck(r: Record, k: nat, before: seq<byte>): byte
    requires |before| == 256
  {
    if k % 2 == 1 then r.check / 16 * 16 else if r.data == [] then r.rtype else before[|r.data|]
  }

  /**
   * Whether it is noticed that a record breaks off after k of its digits: not while its type is unknown, nor in a
   * data record without a byte; else always before its last data byte, and behind it by the sum.
   */
  predicate CutNoticed(r: Record, k: nat, before: seq<byte>)
    requires |before| == 256
  {
    && k >= 8
    && !(r.rtype == 0 && (k < 10 || r.data == []))
    && (k < 8 + 2 * |r.data| || TakenForCheck(r, k, before) != r.check)
  }

  /** Header, some data bytes, and perhaps one digit more. */
  lemma BehindHeader(s: State, r: Record, j: nat, half: seq<Token>) returns (t: State)
    requires s.phase == Waiting && j <= |r.data|
    requires |half| <= 1 && (half != [] ==> half[0] == Digit(NextByte(r, j) / 16))
    ensures t == Run(s, [Mark] + Digits(r.Body()[..4 + j]) + half)
    ensures t.length == j && t.lineLength == |r.data| && t.rtype == r.rtype && t.offset == r.offset
    ensures t.events == s.events && t.data[..j] == r.data[..j]
    ensures j == |r.data| ==>
              t.data[j] == if half != [] then r.check / 16 * 16 else if r.data == [] then r.rtype else s.data[j]
  {
    hide StepByte, Step, Digits;
    var header: seq<byte> := [|r.data|, r.offset / 256, r.offset % 256, r.rtype];
    var s0 := Step(s, Mark);
    MarkOpens(s);
    var all := [Mark] + Digits(r.Body()[..4 + j]) + half;
    assert all[1..] == Digits(r.Body()[..4 + j]) + half;
    assert r.Body()[..4 + j] == header + r.data[..j];
    FeedDigits(s0, header + r.data[..j], half);
    FeedAppend(s0, header, r.data[..j]);
    FeedHeader(s0, |r.data|, r.offset / 256, r.offset % 256, r.rtype);
    assert BigEndian(r.offset / 256, r.offset % 256) == r.offset;
    var s1 := Feed(s0, header);
    HeaderBuffer(s0, |r.data|, r.offset / 256, r.offset % 256, r.rtype);
    FeedPayload(s1, r.data[..j]);
    var s2 := Feed(s1, r.data[..j]);
    t := Run(s2, half);
    if j == |r.data| && j > 0 { CellBehind(s0, s1, s2, j); }
    HalfByte(s2, half);
  }

  function NextByte(r: Record, j: nat): byte
    requires j <= |r.data|
  {
    if j < |r.data| then r.data[j] else r.check
  }

  /** Of the buffer, the header touches the first cell only, and leaves the type there. */
  lemma HeaderBuffer(s: State, n: byte, high: byte, low: byte, rtype: byte)
    requires s.phase == First(Count) && rtype < 8
    ensures var h := Feed(s, [n, high, low, rtype]); h.data[1..] == s.data[1..] && h.data[0] == rtype
  {
    HeaderKeepsBuffer(s, n, high, low, rtype);
    FeedFour(s, n, high, low, rtype);
    hide StepByte;
    var s1 := StepByte(s, n);
    var s2 := StepByte(s1, high);
    HeaderByte(s, n);
    HeaderByte(s1, high);
    HeaderByte(s2, low);
    FirstCell(StepByte(s2, low), rtype);
  }

  lemma FirstCell(s: State, b: byte)
    requires s.phase.First? && s.phase.field != Payload
    ensures StepByte(s, b).data[0] == b
  {
  }

  lemma CellBehind(s0: State, s1: State, s2: State, j: nat)
    requires 0 < j <= 255 && s1.data[1..] == s0.data[1..] && s2.data[j..] == s1.data[j..]
    ensures s2.data[j] == s0.data[j]
  {
    assert s2.data[j..][0] == s1.data[j..][0];
    assert s1.data[1..][j - 1] == s0.data[1..][j - 1];
  }

  lemma HalfByte(s: State, half: seq<Token>)
    requires s.phase == First(Payload) && |half| <= 1 && (half != [] ==> half[0].Digit?)
    ensures Run(s, half) ==
            if half == [] then s
            else s.(phase := Second(Payload), data := s.data[s.length := half[0].value * 16])
  {
    if half != [] { assert half[1..] == []; }
  }

  /** What closing the record calls back. */
  lemma CutClosed(s: State, t: State, r: Record, k: nat) returns (fault: seq<Event>)
    requires 8 <= k < 2 * |r.Body()| && (r.Good() || r.Dropped())
    requires var j := (k - 8) / 2;
             && t.length == j && t.lineLength == |r.data| && t.rtype == r.rtype && t.offset == r.offset
             && t.events == s.events && t.data[..j] == r.data[..j]
             && (j == |r.data| ==> t.data[j] == TakenForCheck(r, k, s.data))
    ensures End(t).events == s.events + fault
    ensures AnyFault(fault) <==> CutNoticed(r, k, s.data)
  {
    hide Sum, AnyFault;
    var j := (k - 8) / 2;
    fault := if j == 0 && r.rtype == DATA then [] else [t.Callback()];
    OneEvent(t.Callback());
    assert s.events + [] == s.events;
    if j == |r.data| && !r.Dropped() {
      BodySum(r);
      assert r.data[..j] == r.data;
      OffByOne(|r.data| + r.rtype + r.offset % 256 + r.offset / 256 + Sum(r.data), t.data[j], r.check);
    }
  }

  /** Two bytes that complete the same sum are equal. */
  lemma OffByOne(sum: nat, a: byte, b: byte)
    requires (sum + b) % 256 == 0
    ensures (sum + a) % 256 == 0 <==> a == b
  {
  }

  /**
   * A record of a file without a fault breaks off after k of its digits, at the next mark or at the end of the file:
   * exactly when the conversion fails.
   */
  lemma CutOffIff(text: seq<byte>, junk: seq<byte>, rs: seq<Record>, i: nat, k: nat)
    requires |junk| == 256 && i < |rs| && !Corrupt(rs) && k < 2 * |rs[i].Body()|
    requires Replaced(text, rs, i, Digits(rs[i].Body())[..k])
    ensures Convert(Callbacks(text, junk)) == Failed
            <==> CutNoticed(rs[i], k, Run(Start(junk), RenderAll(rs[..i])).data)
  {
    hide Step, End, AnyFault, Reports, RenderAll, Run, RecordFields.Body, RecordFields.Good, CutNoticed, Digits;
    var s := Run(Start(junk), RenderAll(rs[..i]));
    ReadFile(Start(junk), rs[..i]);
    CorruptIff(rs);
    var digits := Digits(rs[i].Body())[..k];
    var r := Run(s, [Mark] + digits);
    if k < 8 {
      CutEarly(s, rs[i], k);
      DamageDecides(text, junk, rs, i, digits, r, []);
    } else {
      var fault := CutLate(s, rs[i], k);
      DamageDecides(text, junk, rs, i, digits, r, fault);
    }
  }

  lemma CutEarly(s: State, r: Record, k: nat)
    requires s.phase == Waiting && k < 8
    ensures End(Run(s, [Mark] + Digits(r.Body())[..k])).events == s.events + []
    ensures !AnyFault([]) && !CutNoticed(r, k, s.data)
  {
    hide Step, End, Digits;
    var digits := Digits(r.Body())[..k];
    AllDigits(r.Body());
    assert forall t <- digits :: t in Digits(r.Body());
    MarkOpens(s);
    assert ([Mark] + digits)[1..] == digits;
    HeaderCut(Step(s, Mark), digits);
    NothingToClose(Run(Step(s, Mark), digits));
  }

  lemma {:induction false} AllDigits(bytes: seq<byte>)
    ensures forall t <- Digits(bytes) :: t.Digit?
  {
    if bytes != [] { AllDigits(bytes[1..]); }
  }

  lemma CutLate(s: State, r: Record, k: nat) returns (fault: seq<Event>)
    requires s.phase == Waiting && 8 <= k < 2 * |r.Body()| && (r.Good() || r.Dropped())
    ensures End(Run(s, [Mark] + Digits(r.Body())[..k])).events == s.events + fault
    ensures AnyFault(fault) <==> CutNoticed(r, k, s.data)
  {
    hide Step, End, Digits, AnyFault, CutNoticed, Run, RecordFields.Good;
    var j := (k - 8) / 2;
    var half := DigitsPrefix(r.Body(), k);
    assert k / 2 == 4 + j;
    HalfIs(r.Body(), k, half);
    assert r.Body()[4 + j] == NextByte(r, j);
    assert [Mark] + Digits(r.Body())[..k] == [Mark] + Digits(r.Body()[..4 + j]) + half;
    var t := BehindHeader(s, r, j, half);
    fault := CutClosed(s, t, r, k);
  }

  /** The digit more is the first one of the next byte. */
  lemma {:induction false} HalfIs(bytes: seq<byte>, k: nat, half: seq<Token>)
    requires k < 2 * |bytes| && Digits(bytes)[..k] == Digits(bytes[..k / 2]) + half && |half| == k % 2
    ensures half != [] ==> half[0] == Digit(bytes[k / 2] / 16)
    decreases |bytes|
  {
    if half != [] {
      var n := k / 2;
      assert bytes == bytes[..n] + bytes[n..];
      DigitsAppend(bytes[..n], bytes[n..]);
      assert Digits(bytes)[2 * n] == Digits(bytes[n..])[0];
      assert (Digits(bytes)[..k])[2 * n] == half[0];
    }
  }
}
