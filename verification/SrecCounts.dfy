/** What records of byte count 0 do to the S-record reader: its index is left one too high. */
module SrecCounts {
  import opened Bytes
  import opened Hex
  import opened SrecReader

  // A text, cut at its record marks.

  /** The digits before the first mark. */
  function Leading(ts: seq<Token>): seq<nibble> {
    if ts == [] || ts[0] == Mark then [] else [ts[0].value] + Leading(ts[1..])
  }

  /** The tokens from the first mark on. */
  function FromMark(ts: seq<Token>): (r: seq<Token>)
    ensures r == [] || r[0] == Mark
    ensures |r| <= |ts|
  {
    if ts == [] || ts[0] == Mark then ts else FromMark(ts[1..])
  }

  /** The digits that follow each mark. */
  function Heads(ts: seq<Token>): seq<seq<nibble>>
    requires ts == [] || ts[0] == Mark
    decreases |ts|
  {
    if ts == [] then [] else [Leading(ts[1..])] + Heads(FromMark(ts[1..]))
  }

  function HeadsOf(text: seq<byte>): seq<seq<nibble>> {
    Heads(FromMark(Tokens(text, MARK)))
  }

  /** Type digit, then a byte count of 0. */
  predicate ZeroCount(d: seq<nibble>) { |d| >= 3 && d[1] == 0 && d[2] == 0 }

  /** A zero count with at least one more byte before the next mark. */
  predicate Stuffed(d: seq<nibble>) { ZeroCount(d) && |d| >= 5 }

  /** How far the reader's index is off after the digits of one mark. */
  function Left(left: nat, d: seq<nibble>): nat {
    if |d| >= 3 && !ZeroCount(d) then 0 else if Stuffed(d) then left + 1 else left
  }

  /** No digit of the mark is stored beyond the buffer. */
  predicate Room(left: nat, d: seq<nibble>) {
    && (left > MAX_BYTE_COUNT ==> |d| < 2)
    && (left == MAX_BYTE_COUNT && ZeroCount(d) ==> |d| <= 5)
  }

  predicate AllRoom(left: nat, heads: seq<seq<nibble>>)
    decreases |heads|
  {
    heads != [] ==> Room(left, heads[0]) && AllRoom(Left(left, heads[0]), heads[1..])
  }

  /** The text keeps the reader inside its record buffer. */
  predicate Contained(text: seq<byte>) { AllRoom(0, HeadsOf(text)) }

  // Running the digits of one mark.

  function DigitTokens(d: seq<nibble>): seq<Token> {
    if d == [] then [] else [Digit(d[0])] + DigitTokens(d[1..])
  }

  lemma {:induction false} Cut(ts: seq<Token>)
    ensures ts == DigitTokens(Leading(ts)) + FromMark(ts)
  {
    if ts == [] || ts[0] == Mark {
      assert ts == [] + ts;
    } else {
      Cut(ts[1..]);
      assert DigitTokens(Leading(ts)) == [ts[0]] + DigitTokens(Leading(ts)[1..])
             && Leading(ts)[1..] == Leading(ts[1..]);
      assert ts == [ts[0]] + ts[1..];
    }
  }

  /** A record with a positive count is under way, or done and its index reset. */
  predicate Closing(s: State) {
    || ((s.phase == DataFirst || s.phase == DataSecond) && s.byteCount > 0)
    || (s.phase == Waiting && s.length == 0)
  }

  lemma {:induction false} ClosingRun(s: State, d: seq<nibble>)
    requires Closing(s)
    ensures Closing(Run(s, DigitTokens(d)))
    decreases |d|
  {
    if d != [] {
      hide OrByte;
      assert DigitTokens(d)[1..] == DigitTokens(d[1..]);
      ClosingRun(Step(s, Digit(d[0])), d[1..]);
    }
  }

  lemma {:induction false} WaitingRun(s: State, d: seq<nibble>)
    requires s.phase == Waiting
    ensures var r := Run(s, DigitTokens(d));
            && r.length == s.length && r.byteCount == 0
            && r.phase == if d != [] && s.length > MAX_BYTE_COUNT then Overrun else Waiting
    decreases |d|
  {
    if d != [] {
      assert DigitTokens(d)[1..] == DigitTokens(d[1..]);
      var s' := Step(s, Digit(d[0]));
      if s'.phase == Overrun { OverrunForGood(s', DigitTokens(d[1..])); } else { WaitingRun(s', d[1..]); }
    }
  }

  /** From the count on, when the count is 0. */
  lemma ZeroRun(s: State, d: seq<nibble>)
    requires s.phase == DataFirst && s.byteCount == 0
    ensures var r := Run(s, DigitTokens(d));
            && r.length == (if |d| >= 2 then s.length + 1 else s.length) && r.byteCount == 0
            && (r.phase == Overrun <==> |d| >= 3 && s.length == MAX_BYTE_COUNT)
  {
    hide OrByte;
    var ts := DigitTokens(d);
    if |d| >= 1 { assert ts[1..] == DigitTokens(d[1..]); }
    if |d| >= 2 {
      assert ts[1..][1..] == DigitTokens(d[2..]) by { assert d[1..][1..] == d[2..]; }
      var s' := Step(Step(s, Digit(d[0])), Digit(d[1]));
      assert Run(s, ts) == Run(s', DigitTokens(d[2..]));
      WaitingRun(s', d[2..]);
    } else if |d| == 1 {
      assert Run(s, ts) == Step(s, Digit(d[0])) by { assert DigitTokens(d[1..]) == []; }
    }
  }

  /** A record whose index is below its count stays so until it is closed. */
  predicate Below(s: State) {
    || ((s.phase == DataFirst || s.phase == DataSecond) && s.length < s.byteCount)
    || (s.phase == Waiting && s.length == 0)
  }

  /** Type digit and count. */
  lemma CountRun(s: State, d: seq<nibble>)
    requires s.phase == TypeDigit && |d| >= 3 && s.length <= MAX_BYTE_COUNT
    ensures var s' := Step(Step(Step(s, Digit(d[0])), Digit(d[1])), Digit(d[2]));
            && Run(s, DigitTokens(d)) == Run(s', DigitTokens(d[3..]))
            && (if ZeroCount(d) then s'.phase == DataFirst && s'.byteCount == 0 && s'.length == s.length
                else Closing(s'))
            && (s.length == 0 ==> s'.length == 0 && (ZeroCount(d) || Below(s')))
  {
    hide OrByte;
    var ts := DigitTokens(d);
    assert ts[1..] == DigitTokens(d[1..]);
    assert ts[1..][1..] == DigitTokens(d[2..]) by { assert d[1..][1..] == d[2..]; }
    assert ts[1..][1..][1..] == DigitTokens(d[3..]) by { assert d[2..][1..] == d[3..]; }
    var s2 := Step(Step(s, Digit(d[0])), Digit(d[1]));
    assert Run(s, ts) == Run(s2, ts[1..][1..]);
    assert s2.data[s2.length] == 16 * (d[1] as int);
  }

  /** The digits of one mark: when they leave the buffer, and where they leave the index. */
  lemma HeadRun(s: State, d: seq<nibble>)
    requires s.phase == TypeDigit
    ensures var r := Run(s, DigitTokens(d));
            && (r.phase == Overrun <==> !Room(s.length, d))
            && (Room(s.length, d) ==> Step(r, Mark).phase == TypeDigit && Step(r, Mark).length == Left(s.length, d))
  {
    hide OrByte;
    var ts := DigitTokens(d);
    if |d| <= 2 || s.length > MAX_BYTE_COUNT {
      ShortHeadRun(s, d);
    } else {
      CountRun(s, d);
      var s' := Step(Step(Step(s, Digit(d[0])), Digit(d[1])), Digit(d[2]));
      if ZeroCount(d) { ZeroRun(s', d[3..]); } else { ClosingRun(s', d[3..]); }
    }
  }

  /** Digits that do not reach the count, or have no room for it. */
  lemma ShortHeadRun(s: State, d: seq<nibble>)
    requires s.phase == TypeDigit && (|d| <= 2 || s.length > MAX_BYTE_COUNT)
    ensures var r := Run(s, DigitTokens(d));
            && r.length == s.length && r.byteCount == 0
            && (r.phase == Overrun <==> |d| >= 2 && s.length > MAX_BYTE_COUNT)
  {
    var ts := DigitTokens(d);
    if |d| >= 1 {
      assert ts[1..] == DigitTokens(d[1..]);
      var s1 := Step(s, Digit(d[0]));
      if |d| >= 2 {
        assert ts[1..][1..] == DigitTokens(d[2..]) by { assert d[1..][1..] == d[2..]; }
        var s2 := Step(s1, Digit(d[1]));
        assert Run(s, ts) == Run(s2, ts[1..][1..]);
        if s2.phase == Overrun { OverrunForGood(s2, DigitTokens(d[2..])); } else { assert DigitTokens(d[2..]) == []; }
      } else {
        assert DigitTokens(d[1..]) == [];
      }
    }
  }

  // When a digit is stored beyond the buffer.

  lemma {:induction false} OverrunFrom(s: State, ts: seq<Token>)
    requires s.phase == TypeDigit
    ensures Run(s, ts).phase == Overrun <==> !AllRoom(s.length, [Leading(ts)] + Heads(FromMark(ts)))
    decreases |ts|
  {
    hide Step, Room, Left;
    var (d, rest) := (Leading(ts), FromMark(ts));
    var heads := [d] + Heads(rest);
    assert heads[1..] == Heads(rest);
    Cut(ts);
    RunAppend(s, DigitTokens(d), rest);
    HeadRun(s, d);
    var r := Run(s, DigitTokens(d));
    if r.phase == Overrun {
      OverrunForGood(r, rest);
    } else if rest != [] {
      OverrunFrom(Step(r, Mark), rest[1..]);
      assert Heads(rest) == [Leading(rest[1..])] + Heads(FromMark(rest[1..]));
    }
  }

  /** The reader stays inside its 38-byte buffer exactly if, mark by mark, its index leaves room for the digits. */
  lemma OverrunIff(text: seq<byte>, junk: seq<byte>)
    requires |junk| == MAX_BYTE_COUNT + 1
    ensures Final(text, junk).phase != Overrun <==> Contained(text)
  {
    hide Step;
    var ts := Tokens(text, MARK);
    var (d, rest) := (Leading(ts), FromMark(ts));
    Cut(ts);
    RunAppend(Start(junk), DigitTokens(d), rest);
    WaitingRun(Start(junk), d);
    if rest != [] {
      var r := Run(Start(junk), DigitTokens(d));
      MarkKeepsIndex(r);
      OverrunFrom(Step(r, Mark), rest[1..]);
    }
  }

  lemma MarkKeepsIndex(s: State)
    requires s.phase == Waiting
    ensures var r := Step(s, Mark); r.phase == TypeDigit && r.length == s.length && r.byteCount == 0
  {
  }

  function StuffedCount(heads: seq<seq<nibble>>): nat {
    if heads == [] then 0 else (if Stuffed(heads[0]) then 1 else 0) + StuffedCount(heads[1..])
  }

  /** Fewer than 38 such records in a whole text are too few to leave the buffer. */
  lemma {:induction false} FewAreContained(left: nat, heads: seq<seq<nibble>>)
    requires left + StuffedCount(heads) <= MAX_BYTE_COUNT
    ensures AllRoom(left, heads)
    decreases |heads|
  {
    if heads != [] {
      FewAreContained(Left(left, heads[0]), heads[1..]);
    }
  }

  // When length <= byteCount holds throughout.

  /** In every state of the run the index is at most the count. */
  predicate InStep(s: State, ts: seq<Token>)
    decreases |ts|
  {
    s.length <= s.byteCount && (ts != [] ==> InStep(Step(s, ts[0]), ts[1..]))
  }

  /** The same, over all prefixes of the run. */
  ghost predicate NeverAbove(s: State, ts: seq<Token>) {
    forall k :: 0 <= k <= |ts| ==> Run(s, ts[..k]).length <= Run(s, ts[..k]).byteCount
  }

  lemma {:induction false} InStepIff(s: State, ts: seq<Token>)
    ensures InStep(s, ts) <==> NeverAbove(s, ts)
    decreases |ts|
  {
    hide Step;
    assert Run(s, ts[..0]) == s;
    if ts != [] {
      var s' := Step(s, ts[0]);
      InStepIff(s', ts[1..]);
      forall k | 0 < k <= |ts|
        ensures Run(s, ts[..k]) == Run(s', ts[1..][..k - 1])
      {
        assert ts[..k][1..] == ts[1..][..k - 1];
      }
      if InStep(s, ts) {
        forall k | 0 <= k <= |ts|
          ensures Run(s, ts[..k]).length <= Run(s, ts[..k]).byteCount
        {
          if k > 0 { assert Run(s, ts[..k]) == Run(s', ts[1..][..k - 1]); }
        }
      }
      if NeverAbove(s, ts) {
        forall j | 0 <= j <= |ts| - 1
          ensures Run(s', ts[1..][..j]).length <= Run(s', ts[1..][..j]).byteCount
        {
          assert Run(s, ts[..j + 1]) == Run(s', ts[1..][..j]);
        }
      }
    }
  }

  lemma {:induction false} InStepAppend(s: State, a: seq<Token>, b: seq<Token>)
    ensures InStep(s, a + b) <==> InStep(s, a) && InStep(Run(s, a), b)
    decreases |a|
  {
    hide Step;
    if a == [] {
      assert a + b == b;
    } else {
      assert (a + b)[1..] == a[1..] + b;
      InStepAppend(Step(s, a[0]), a[1..], b);
    }
  }

  lemma {:induction false} BelowRun(s: State, d: seq<nibble>)
    requires Below(s)
    ensures InStep(s, DigitTokens(d)) && Below(Run(s, DigitTokens(d)))
    decreases |d|
  {
    if d != [] {
      hide OrByte;
      assert DigitTokens(d)[1..] == DigitTokens(d[1..]);
      BelowRun(Step(s, Digit(d[0])), d[1..]);
    }
  }

  lemma InStepTwo(s: State, s1: State, s2: State, t: Token, u: Token, rest: seq<Token>)
    requires s1 == Step(s, t) && s2 == Step(s1, u)
    ensures InStep(s, [t, u] + rest) <==> s.length <= s.byteCount && s1.length <= s1.byteCount && InStep(s2, rest)
  {
    hide Step;
    var ts := [t, u] + rest;
    assert ts[1..] == [u] + rest && ts[1..][1..] == rest;
  }

  lemma DigitTokensTwo(d: seq<nibble>)
    requires |d| >= 2
    ensures DigitTokens(d) == [Digit(d[0]), Digit(d[1])] + DigitTokens(d[2..])
  {
    assert d[1..][1..] == d[2..];
  }

  lemma ZeroInStep(s: State, d: seq<nibble>)
    requires s.phase == DataFirst && s.byteCount == s.length == 0
    ensures InStep(s, DigitTokens(d)) <==> |d| < 2
  {
    hide OrByte;
    if |d| >= 2 {
      var s1 := Step(s, Digit(d[0]));
      var s2 := Step(s1, Digit(d[1]));
      assert s2.length == 1 && s2.byteCount == 0;
      DigitTokensTwo(d);
      InStepTwo(s, s1, s2, Digit(d[0]), Digit(d[1]), DigitTokens(d[2..]));
    } else if |d| == 1 {
      assert DigitTokens(d[1..]) == [];
      assert DigitTokens(d)[1..] == [];
    }
  }

  lemma HeadInStep(s: State, d: seq<nibble>)
    requires s.phase == TypeDigit && s.length == 0
    ensures InStep(s, DigitTokens(d)) <==> !Stuffed(d)
  {
    hide OrByte, Step;
    if |d| >= 3 {
      CountRun(s, d);
      var s1 := Step(s, Digit(d[0]));
      var s2 := Step(s1, Digit(d[1]));
      var s3 := Step(s2, Digit(d[2]));
      HeadDigits(s, d[0], d[1]);
      DigitTokensTwo(d);
      InStepTwo(s, s1, s2, Digit(d[0]), Digit(d[1]), DigitTokens(d[2..]));
      assert DigitTokens(d[2..])[0] == Digit(d[2]) && DigitTokens(d[2..])[1..] == DigitTokens(d[3..]) by {
        assert d[2..][1..] == d[3..];
      }
      assert InStep(s2, DigitTokens(d[2..])) <==> InStep(s3, DigitTokens(d[3..]));
      if ZeroCount(d) { ZeroInStep(s3, d[3..]); } else { BelowRun(s3, d[3..]); }
    } else if |d| == 2 {
      HeadDigits(s, d[0], d[1]);
      DigitTokensTwo(d);
      assert DigitTokens(d[2..]) == [];
      InStepTwo(s, Step(s, Digit(d[0])), Step(Step(s, Digit(d[0])), Digit(d[1])), Digit(d[0]), Digit(d[1]), []);
    } else if |d| == 1 {
      HeadDigits(s, d[0], 0);
      assert DigitTokens(d)[1..] == [] by { assert DigitTokens(d[1..]) == []; }
    }
  }

  /** The type digit and the first digit of the count leave index and count alone. */
  lemma HeadDigits(s: State, a: nibble, b: nibble)
    requires s.phase == TypeDigit && s.length == 0
    ensures var s1 := Step(s, Digit(a)); s1.length == s1.byteCount == 0
    ensures var s2 := Step(Step(s, Digit(a)), Digit(b)); s2.length == s2.byteCount == 0
  {
  }

  lemma {:induction false} InStepFrom(s: State, ts: seq<Token>)
    requires s.phase == TypeDigit && s.length == 0
    ensures InStep(s, ts) <==> forall d :: d in [Leading(ts)] + Heads(FromMark(ts)) ==> !Stuffed(d)
    decreases |ts|
  {
    hide Step, Stuffed;
    var (d, rest) := (Leading(ts), FromMark(ts));
    Cut(ts);
    InStepAppend(s, DigitTokens(d), rest);
    HeadInStep(s, d);
    HeadRun(s, d);
    if !Stuffed(d) {
      var r := Run(s, DigitTokens(d));
      UnstuffedLeft(d);
      if rest == [] {
        InStepEnd(s, DigitTokens(d));
      } else {
        InStepEnd(s, DigitTokens(d));
        InStepFrom(Step(r, Mark), rest[1..]);
        assert Heads(rest) == [Leading(rest[1..])] + Heads(FromMark(rest[1..]));
      }
    }
  }

  lemma UnstuffedLeft(d: seq<nibble>)
    requires !Stuffed(d)
    ensures Left(0, d) == 0 && Room(0, d)
  {
  }

  lemma {:induction false} InStepEnd(s: State, ts: seq<Token>)
    requires InStep(s, ts)
    ensures Run(s, ts).length <= Run(s, ts).byteCount
    decreases |ts|
  {
    hide Step;
    if ts != [] { InStepEnd(Step(s, ts[0]), ts[1..]); }
  }

  /**
   * length <= byteCount in every reachable state exactly if no zero count is followed by a byte
   * before the next mark.
   */
  lemma InStepThroughoutIff(text: seq<byte>, junk: seq<byte>)
    requires |junk| == MAX_BYTE_COUNT + 1
    ensures NeverAbove(Start(junk), Tokens(text, MARK)) <==> forall d :: d in HeadsOf(text) ==> !Stuffed(d)
  {
    hide Step, Stuffed, InStep, Run, NeverAbove;
    var ts := Tokens(text, MARK);
    InStepIff(Start(junk), ts);
    InStepWholeIff(Start(junk), ts);
  }

  lemma InStepWholeIff(s: State, ts: seq<Token>)
    requires s.phase == Waiting && s.length == 0
    ensures InStep(s, ts) <==> forall d :: d in Heads(FromMark(ts)) ==> !Stuffed(d)
  {
    hide Step, Stuffed;
    var (d, rest) := (Leading(ts), FromMark(ts));
    Cut(ts);
    InStepAppend(s, DigitTokens(d), rest);
    BelowRun(s, d);
    WaitingRun(s, d);
    var r := Run(s, DigitTokens(d));
    assert r.length <= r.byteCount;
    if rest != [] {
      MarkKeepsIndex(r);
      InStepFrom(Step(r, Mark), rest[1..]);
      assert Heads(rest) == [Leading(rest[1..])] + Heads(FromMark(rest[1..]));
    }
  }
}
