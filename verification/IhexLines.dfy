/** The second Intel HEX decoder: line by line, straight into a packaging sink. */
module IhexLines {
  import opened Bytes
  import opened Hex
  import opened Overlay

  const CR: byte := 13
  const LF: byte := 10
  const COLON: byte := ':' as int

  /** The line buffer holds 255 characters and a terminator. */
  const MAX_LINE := 255

  datatype Taken = Taken(line: seq<byte>, rest: seq<byte>, eof: bool)

  /** One line taken from the unread bytes, given how many characters it holds already. */
  function TakeLine(rest: seq<byte>, held: nat): Taken {
    if held >= MAX_LINE then Taken([], rest, false)
    else if rest == [] then Taken([], [], true)
    else if rest[0] == CR then TakeLine(rest[1..], held)
    else if rest[0] == LF then Taken([], rest[1..], false)
    else
      var t := TakeLine(rest[1..], held + 1);
      t.(line := [rest[0]] + t.line)
  }

  lemma {:induction false} TakeLineShrinks(rest: seq<byte>, held: nat)
    ensures var t := TakeLine(rest, held);
            && |t.rest| + |t.line| <= |rest|
            && held + |t.line| <= (if held > MAX_LINE then held else MAX_LINE)
  {
    if held < MAX_LINE && rest != [] && rest[0] != LF {
      TakeLineShrinks(rest[1..], if rest[0] == CR then held else held + 1);
    }
  }

  /** A line as the string functions see it. */
  function CString(line: seq<byte>): (s: seq<byte>)
    ensures |s| <= |line|
  {
    if line == [] || line[0] == 0 then [] else [line[0]] + CString(line[1..])
  }

  function CharAt(line: seq<byte>, i: nat): byte { if i < |line| then line[i] else 0 }

  /** The byte spelled by two digits, or -1. */
  function HexByte(line: seq<byte>, i: nat): (v: int)
    ensures -1 <= v < 256
  {
    var hi, lo := HexValue(CharAt(line, i)), HexValue(CharAt(line, i + 1));
    if hi < 0 || lo < 0 then -1 else hi * 16 + lo
  }

  /** Every digit pair from position i on is a byte. */
  predicate AllPairs(line: seq<byte>, i: nat)
    decreases |line| - i
  {
    i + 1 < |line| ==> HexByte(line, i) >= 0 && AllPairs(line, i + 2)
  }

  function PairSum(line: seq<byte>, i: nat): nat
    requires AllPairs(line, i)
    decreases |line| - i
  {
    if i + 1 < |line| then HexByte(line, i) + PairSum(line, i + 2) else 0
  }

  function PairBytes(line: seq<byte>, i: nat, n: nat): (bytes: seq<byte>)
    requires forall k :: 0 <= k < n ==> HexByte(line, i + 2 * k) >= 0
    ensures |bytes| == n
  {
    seq<byte>(n, k requires 0 <= k < n => HexByte(line, i + 2 * k))
  }

  lemma {:induction false} AllPairsAt(line: seq<byte>, i: nat, k: nat)
    requires AllPairs(line, i) && i + 2 * k + 1 < |line|
    ensures HexByte(line, i + 2 * k) >= 0
    decreases k
  {
    if k > 0 { AllPairsAt(line, i + 2, k - 1); }
  }

  /** What one line asks for. */
  datatype Action = Reject | Store(addr: nat, data: seq<byte>) | Finish | Rebase(base: nat) | Ignore

  /** The two-byte value of an extended address record, or -1. */
  function Extended(line: seq<byte>): int {
    var msb, lsb := HexByte(line, 9), HexByte(line, 11);
    if msb < 0 || lsb < 0 then -1 else msb * 256 + lsb
  }

  function Decode(line: seq<byte>, base: nat): Action {
    if CharAt(line, 0) != COLON || |line| < 11 then Reject
    else
      var count, high, low, rtype := HexByte(line, 1), HexByte(line, 3), HexByte(line, 5), HexByte(line, 7);
      if count < 0 || high < 0 || low < 0 || rtype < 0 then Reject
      else if |line| < 9 + count * 2 + 2 then Reject
      else if !AllPairs(line, 1) || PairSum(line, 1) % 256 != 0 then Reject
      else if rtype == 0 then
        StoreData(line, count, (base + high * 256 + low) % 0x1_0000_0000)
      else if rtype == 1 then Finish
      else if rtype == 2 then if Extended(line) < 0 then Reject else Rebase(Extended(line) * 16)
      else if rtype == 4 then if Extended(line) < 0 then Reject else Rebase(Extended(line) * 0x1_0000)
      else Ignore
  }

  function StoreData(line: seq<byte>, count: nat, addr: nat): Action
    requires AllPairs(line, 1) && 9 + count * 2 + 2 <= |line|
  {
    assert forall k :: 0 <= k < count ==> HexByte(line, 9 + 2 * k) >= 0 by {
      forall k | 0 <= k < count
        ensures HexByte(line, 9 + 2 * k) >= 0
      {
        AllPairsAt(line, 1, 4 + k);
      }
    }
    Store(addr, PairBytes(line, 9, count))
  }

  /** A sink, with or without state: whether it takes the last of the calls made so far. */
  type Consumer = seq<Write> -> bool

  /** All sink calls made, and whether the decoder reports success. */
  datatype Outcome = Outcome(calls: seq<Write>, ok: bool)

  function Process(rest: seq<byte>, eof: bool, base: nat, made: seq<Write>, sink: Consumer): Outcome
    decreases |rest|, !eof
  {
    var t := TakeLine(rest, 0);
    TakeLineShrinks(rest, 0);
    if eof || t.line == [] then Outcome(made, true)
    else
      var line := CString(t.line);
      if line == [] then Process(t.rest, t.eof, base, made, sink)
      else
        match Decode(line, base)
        case Reject => Outcome(made, false)
        case Finish => Outcome(made, true)
        case Ignore => Process(t.rest, t.eof, base, made, sink)
        case Rebase(b) => Process(t.rest, t.eof, b, made, sink)
        case Store(addr, data) =>
          var calls := made + [Write(addr, data)];
          if sink(calls) then Process(t.rest, t.eof, base, calls, sink) else Outcome(calls, false)
  }

  /** Moving a character from the line still to come to the line held. */
  lemma Held(held: seq<byte>, ch: byte, t: Taken)
    ensures held + t.(line := [ch] + t.line).line == (held + [ch]) + t.line
  {
    assert held + ([ch] + t.line) == held + [ch] + t.line;
  }

  class LineReader {
    const buf: array<byte>
    var len: nat
    var eof: bool
    var input: seq<byte>  // bytes the storage reader has still to deliver

    ghost predicate Valid()
      reads this
    {
      buf.Length == 256 && len <= MAX_LINE
    }

    constructor (input: seq<byte>)
      ensures Valid() && fresh(buf) && this.input == input && !eof
    {
      buf := new byte[256];
      len, eof := 0, false;
      this.input := input;
    }

    method ReadLine() returns (more: bool)
      requires Valid()
      modifies this, buf
      ensures Valid()
      ensures old(eof) ==> !more && input == old(input) && eof
      ensures !old(eof) ==>
                var t := TakeLine(old(input), 0);
                buf[..len] == t.line && input == t.rest && eof == t.eof && more == (t.line != [])
    {
      if eof { return false; }
      ghost var goal := TakeLine(input, 0);
      len := 0;
      while len < MAX_LINE
        invariant Valid() && !eof
        invariant goal == TakeLine(input, len).(line := buf[..len] + TakeLine(input, len).line)
        decreases |input|
      {
        if input == [] {
          eof := true;
          break;
        }
        var ch := input[0];
        input := input[1..];
        if ch == CR { continue; }
        if ch == LF { break; }
        ghost var held := buf[..len];
        Held(held, ch, TakeLine(input, len + 1));
        buf[len] := ch;
        len := len + 1;
        assert buf[..len] == held + [ch];
      }
      assert goal.line == buf[..len];
      buf[len] := 0;
      return len > 0;
    }
  }

  lemma AddMod(total: nat, b: nat)
    ensures (total % 256 + b) % 256 == (total + b) % 256
  {
  }

  /** The checksum loop over all digit pairs of a line. */
  method SumPairs(line: seq<byte>) returns (valid: bool, checksum: byte)
    ensures valid == AllPairs(line, 1)
    ensures valid ==> checksum == PairSum(line, 1) % 256
  {
    checksum := 0;
    ghost var total: nat := 0;
    var i := 1;
    while i + 1 < |line|
      invariant 1 <= i
      invariant AllPairs(line, 1) <==> AllPairs(line, i)
      invariant checksum == total % 256
      invariant AllPairs(line, 1) ==> total + PairSum(line, i) == PairSum(line, 1)
    {
      hide HexByte;
      var b := HexByte(line, i);
      if b < 0 { return false, 0; }
      AddMod(total, b);
      checksum := (checksum + b) % 256;
      total := total + b;
      i := i + 2;
    }
    valid := true;
  }

  /** The data loop of a data record. */
  method ReadData(line: seq<byte>, count: nat) returns (data: seq<byte>)
    requires forall k :: 0 <= k < count ==> HexByte(line, 9 + 2 * k) >= 0
    ensures data == PairBytes(line, 9, count)
  {
    data := [];
    for i := 0 to count
      invariant |data| == i
      invariant forall k :: 0 <= k < i ==> data[k] == HexByte(line, 9 + 2 * k)
    {
      var b: byte := HexByte(line, 9 + 2 * i);
      data := data + [b];
    }
  }

  method DecodeLine(line: seq<byte>, base: nat) returns (a: Action)
    ensures a == Decode(line, base)
  {
    if CharAt(line, 0) != COLON { return Reject; }
    if |line| < 11 { return Reject; }
    var count, high, low, rtype := HexByte(line, 1), HexByte(line, 3), HexByte(line, 5), HexByte(line, 7);
    if count < 0 || high < 0 || low < 0 || rtype < 0 { return Reject; }
    var offset := high * 256 + low;
    if |line| < 9 + count * 2 + 2 { return Reject; }
    var valid, checksum := SumPairs(line);
    if !valid { return Reject; }
    if checksum != 0 { return Reject; }
    if rtype == 0 {
      ghost var expected := StoreData(line, count, (base + offset) % 0x1_0000_0000);
      forall k | 0 <= k < count
        ensures HexByte(line, 9 + 2 * k) >= 0
      {
        AllPairsAt(line, 1, 4 + k);
      }
      var data := ReadData(line, count);
      return Store((base + offset) % 0x1_0000_0000, data);
    } else if rtype == 1 {
      return Finish;
    } else if rtype == 2 || rtype == 4 {
      var msb, lsb := HexByte(line, 9), HexByte(line, 11);
      if msb < 0 || lsb < 0 { return Reject; }
      return Rebase((msb * 256 + lsb) * if rtype == 2 then 16 else 0x1_0000);
    }
    return Ignore;
  }

  method ProcessIhex(lr: LineReader, sink: Consumer) returns (ok: bool, calls: seq<Write>)
    requires lr.Valid()
    modifies lr, lr.buf
    ensures Outcome(calls, ok) == Process(old(lr.input), old(lr.eof), 0, [], sink)
  {
    calls := [];
    ghost var goal := Process(lr.input, lr.eof, 0, [], sink);
    var base := 0;
    var more := true;
    while true
      invariant lr.Valid()
      invariant goal == Process(lr.input, lr.eof, base, calls, sink)
      decreases |lr.input|, !lr.eof
    {
      TakeLineShrinks(lr.input, 0);
      more := lr.ReadLine();
      if !more { break; }
      var line := CString(lr.buf[..lr.len]);
      if line == [] { continue; }
      var action := DecodeLine(line, base);
      match action
      case Reject => return false, calls;
      case Finish => break;
      case Ignore =>
      case Rebase(b) => base := b;
      case Store(addr, data) =>
        calls := calls + [Write(addr, data)];
        if !sink(calls) { return false, calls; }
    }
    return true, calls;
  }

  // What a line means, in terms of the bytes it spells.

  /** Every digit pair behind the first character is a byte; an odd character at the end is not looked at. */
  predicate AllHex(line: seq<byte>) {
    forall k :: 0 <= k < (|line| - 1) / 2 ==> HexByte(line, 1 + 2 * k) >= 0
  }

  function Spelled(line: seq<byte>): seq<byte>
    requires line != [] && AllHex(line)
  {
    PairBytes(line, 1, (|line| - 1) / 2)
  }

  lemma {:induction false} AllPairsIff(line: seq<byte>, j: nat)
    ensures AllPairs(line, 1 + 2 * j) <==> forall k :: j <= k < (|line| - 1) / 2 ==> HexByte(line, 1 + 2 * k) >= 0
    decreases |line| - j
  {
    hide HexByte;
    if 1 + 2 * j + 1 < |line| {
      AllPairsIff(line, j + 1);
      assert 1 + 2 * j + 2 == 1 + 2 * (j + 1);
    }
  }

  lemma {:induction false} PairSumIs(line: seq<byte>, j: nat)
    requires line != [] && AllHex(line) && AllPairs(line, 1 + 2 * j) && j <= (|line| - 1) / 2
    ensures PairSum(line, 1 + 2 * j) == Sum(Spelled(line)[j..])
    decreases |line| - j
  {
    hide HexByte;
    var bytes := Spelled(line);
    if 1 + 2 * j + 1 < |line| {
      assert 1 + 2 * j + 2 == 1 + 2 * (j + 1);
      PairSumIs(line, j + 1);
      assert bytes[j..][1..] == bytes[j + 1..] && bytes[j] == HexByte(line, 1 + 2 * j);
    } else {
      assert bytes[j..] == [];
    }
  }

  /**
   * A line is accepted if it begins with a colon, has 11 characters or more, spells bytes that add up to 0 modulo
   * 256, holds as many as its count asks for, and, for an address record, an address.
   */
  predicate Accepted(line: seq<byte>) {
    && |line| >= 11 && line[0] == 0x3A && AllHex(line)
    && var b := Spelled(line);
    && 11 + 2 * b[0] <= |line| && Sum(b) % 256 == 0
    && (b[3] == 2 || b[3] == 4 ==> |line| >= 13)
  }

  function Word(high: nat, low: nat): nat { 0x100 * high + low }

  /** The action by the bytes of an accepted line: count, offset, type, and what follows. */
  function ActionOf(b: seq<byte>, base: nat): Action
    requires |b| >= 5 && |b| - 5 >= b[0] && (b[3] == 2 || b[3] == 4 ==> |b| >= 6)
  {
    if b[3] == 0 then Store((base + Word(b[1], b[2])) % 0x1_0000_0000, b[4..4 + b[0]])
    else if b[3] == 1 then Finish
    else if b[3] == 2 then Rebase(Word(b[4], b[5]) * 0x10)
    else if b[3] == 4 then Rebase(Word(b[4], b[5]) * 0x1_0000)
    else Ignore
  }

  /** Exactly the accepted lines are acted upon, by the bytes they spell. */
  lemma DecodeIff(line: seq<byte>, base: nat)
    ensures Decode(line, base) != Reject <==> Accepted(line)
    ensures Accepted(line) ==> Decode(line, base) == ActionOf(Spelled(line), base)
  {
    hide HexByte, AllPairs, PairSum, Sum;
    AllPairsIff(line, 0);
    if |line| >= 11 && line[0] == 0x3A && AllHex(line) {
      var b := Spelled(line);
      PairSumIs(line, 0);
      assert b[0..] == b;
      assert HexByte(line, 1) == b[0] && HexByte(line, 3) == b[1];
      assert HexByte(line, 5) == b[2] && HexByte(line, 7) == b[3];
      if |line| >= 13 { assert HexByte(line, 9) == b[4] && HexByte(line, 11) == b[5]; }
      if |line| < 13 { NoPair(line, 11); }
      if b[3] == 0 && 11 + 2 * b[0] <= |line| && Sum(b) % 256 == 0 {
        StoredBytes(line, b[0], (base + Word(b[1], b[2])) % 0x1_0000_0000);
      }
    } else if |line| >= 11 && line[0] == 0x3A {
      assert !AllPairs(line, 1);
    }
  }

  lemma NoPair(line: seq<byte>, i: nat)
    requires |line| <= i + 1
    ensures HexByte(line, i) < 0
  {
  }

  lemma StoredBytes(line: seq<byte>, count: nat, addr: nat)
    requires |line| >= 11 && AllHex(line) && AllPairs(line, 1) && 11 + 2 * count <= |line|
    ensures StoreData(line, count, addr) == Store(addr, Spelled(line)[4..4 + count])
  {
    hide HexByte, AllPairs;
    var b := Spelled(line);
    forall k | 0 <= k < count
      ensures HexByte(line, 9 + 2 * k) == b[4 + k]
    {
      assert 9 + 2 * k == 1 + 2 * (4 + k);
    }
    assert PairBytes(line, 9, count) == b[4..4 + count];
  }

  // Characters that do not count.

  /** A carriage return anywhere in a line that fits changes nothing. */
  lemma {:induction false} CarriageReturnInvisible(front: seq<byte>, rest: seq<byte>, held: nat)
    requires held + |front| < 255 && 10 !in front
    ensures TakeLine(front + [13] + rest, held) == TakeLine(front + rest, held)
  {
    var (with, without) := (front + [13] + rest, front + rest);
    if front == [] {
      assert with[1..] == rest && without == rest;
    } else {
      assert with[1..] == front[1..] + [13] + rest && without[1..] == front[1..] + rest;
      CarriageReturnInvisible(front[1..], rest, if front[0] == CR then held else held + 1);
    }
  }

  /** A line that begins with a zero byte is passed over. */
  lemma ZeroLineIgnored(text: seq<byte>, base: nat, made: seq<Write>, sink: Consumer)
    requires text != [] && text[0] == 0
    ensures var t := TakeLine(text, 0);
            Process(text, false, base, made, sink) == Process(t.rest, t.eof, base, made, sink)
  {
  }

  /** One more line feed behind a text: it ends the last line if nothing else has, or is left over. */
  lemma {:induction false} TakeLineFeed(text: seq<byte>, held: nat)
    ensures var (t, u) := (TakeLine(text, held), TakeLine(text + [10], held));
            && u.line == t.line && !u.eof
            && if t.eof then t.rest == u.rest == [] else u.rest == t.rest + [10]
  {
    if held < MAX_LINE {
      if text == [] {
        assert text + [10] == [10] && [10][1..] == [];
      } else {
        assert (text + [10])[1..] == text[1..] + [10];
        TakeLineFeed(text[1..], if text[0] == CR then held else held + 1);
      }
    }
  }

  /** A file may or may not end with a line feed: its last line is processed all the same. */
  lemma {:induction false} FinalLineFeedOptional(text: seq<byte>, base: nat, made: seq<Write>, sink: Consumer)
    ensures Process(text + [10], false, base, made, sink) == Process(text, false, base, made, sink)
    decreases |text|
  {
    hide Decode, TakeLine;
    var (t, u) := (TakeLine(text, 0), TakeLine(text + [10], 0));
    TakeLineFeed(text, 0);
    TakeLineShrinks(text, 0);
    if t.line != [] {
      var line := CString(t.line);
      var action := if line == [] then Ignore else Decode(line, base);
      var (next, calls) := AfterAction(action, base, made);
      if t.eof {
        NothingLeft(next, calls, sink);
      } else {
        FinalLineFeedOptional(t.rest, next, calls, sink);
      }
    }
  }

  /** Base and calls behind an action. */
  function AfterAction(action: Action, base: nat, made: seq<Write>): (nat, seq<Write>) {
    match action
    case Rebase(b) => (b, made)
    case Store(addr, data) => (base, made + [Write(addr, data)])
    case _ => (base, made)
  }

  lemma NothingLeft(base: nat, made: seq<Write>, sink: Consumer)
    ensures Process([], false, base, made, sink) == Outcome(made, true)
    ensures Process([], true, base, made, sink) == Outcome(made, true)
  {
  }
}
