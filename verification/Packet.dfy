/** The framed packets exchanged over BLE: a sender and a parser fed one byte at a time. */
module Packet {
  import opened Bytes

  const STX_UPPER: byte := 0xFF
  const STX_LOWER: byte := 0xFE
  const ETX: byte := 0x03
  const BUFFER := 200

  datatype Status = StxUpper | StxLower | Len | Data | Crc | Etx

  /** A delivered packet: the buffer up to the announced length. */
  datatype State = State(status: Status, length: nat, body: seq<byte>, crc: byte, delivered: seq<seq<byte>>) {
    predicate Valid() {
      && length < 256
      && (status == Data ==> |body| <= BUFFER && (body == [] || |body| < length))
      && ((status == Crc || status == Etx) ==> |body| <= BUFFER && (|body| == length || (length == 0 && |body| == 1)))
    }
  }

  function XorAll(s: seq<byte>): byte {
    if s == [] then 0 else XorByte(XorAll(s[..|s| - 1]), s[|s| - 1])
  }

  /** A data byte needs room in the receive buffer; announcing too much is not yet an overrun. */
  predicate Fits(s: State, b: byte) { s.status == Data ==> |s.body| < BUFFER }

  function Step(s: State, b: byte): (r: State)
    requires s.Valid() && Fits(s, b)
    ensures r.Valid()
  {
    match s.status
    case StxUpper => if b == STX_UPPER then s.(status := StxLower) else s
    case StxLower => if b == STX_LOWER then s.(status := Len) else s
    case Len => s.(length := b, body := [], crc := 0, status := Data)
    case Data =>
      var s' := s.(body := s.body + [b], crc := XorByte(s.crc, b));
      if |s'.body| >= s.length then s'.(status := Crc) else s'
    case Crc => s.(status := if s.crc == b then Etx else StxUpper)
    case Etx => s.(status := StxUpper,
                   delivered := if b == ETX then s.delivered + [s.body[..s.length]] else s.delivered)
  }

  predicate AllFit(s: State, input: seq<byte>)
    requires s.Valid()
    decreases |input|
  {
    input != [] ==> Fits(s, input[0]) && AllFit(Step(s, input[0]), input[1..])
  }

  function Run(s: State, input: seq<byte>): (r: State)
    requires s.Valid() && AllFit(s, input)
    ensures r.Valid()
    decreases |input|
  {
    if input == [] then s else Run(Step(s, input[0]), input[1..])
  }

  lemma {:induction false} RunAppend(s: State, a: seq<byte>, b: seq<byte>)
    requires s.Valid() && AllFit(s, a) && AllFit(Run(s, a), b)
    ensures AllFit(s, a + b) && Run(s, a + b) == Run(Run(s, a), b)
    decreases |a|
  {
    if a == [] {
      assert a + b == b;
    } else {
      assert (a + b)[1..] == a[1..] + b;
      RunAppend(Step(s, a[0]), a[1..], b);
    }
  }

  // The sender.

  datatype Message = Message(cmd: nat, payload: seq<byte>) {
    predicate Sendable() { cmd < 0x1_0000 && |payload| + 2 <= BUFFER }

    /** What the receiver's buffer holds: the command, high byte first, and the payload. */
    function Body(): (body: seq<byte>)
      requires cmd < 0x1_0000
      ensures |body| == |payload| + 2
    {
      [cmd / 256, cmd % 256] + payload
    }
  }

  /** The bytes of a packet. */
  function Frame(m: Message): seq<byte>
    requires m.Sendable()
  {
    [STX_UPPER, STX_LOWER, |m.payload| + 2] + m.Body() + [XorAll(m.Body()), ETX]
  }

  method Send(cmd: nat, buff: seq<byte>) returns (packet: array<byte>)
    requires Message(cmd, buff).Sendable()
    ensures fresh(packet) && packet[..] == Frame(Message(cmd, buff))
  {
    var size := |buff|;
    packet := new byte[size + 7];
    packet[0] := STX_UPPER;
    packet[1] := STX_LOWER;
    packet[2] := size + 2;
    packet[3] := cmd / 256;
    packet[4] := cmd % 256;
    var crc: byte := cmd / 256;
    crc := XorByte(crc, cmd % 256);
    hide XorAll, XorByte;
    ghost var body := Message(cmd, buff).Body();
    XorFirstTwo(cmd / 256, cmd % 256);
    assert body[..2] == [cmd / 256, cmd % 256];
    var i := 0;
    while i < size
      invariant i <= size
      invariant packet[..5 + i] == [STX_UPPER, STX_LOWER, size + 2] + body[..2 + i]
      invariant crc == XorAll(body[..2 + i])
    {
      packet[5 + i] := buff[i];
      crc := XorByte(crc, buff[i]);
      XorStep(body, 2 + i);
      i := i + 1;
    }
    assert body[..2 + size] == body;
    packet[5 + size] := crc;
    packet[6 + size] := ETX;
  }

  lemma XorStep(s: seq<byte>, k: nat)
    requires k < |s|
    ensures s[..k + 1] == s[..k] + [s[k]] && XorAll(s[..k + 1]) == XorByte(XorAll(s[..k]), s[k])
  {
    assert s[..k + 1][..k] == s[..k];
  }

  lemma XorFirstTwo(a: byte, b: byte)
    ensures XorAll([a, b]) == XorByte(a, b)
  {
    assert [a, b][..1] == [a] && [a][..0] == [];
    XorZeroLeft(a);
    assert XorAll([a]) == a;
  }

  lemma {:induction false} XorZeroLeft(x: nat)
    ensures Xor(0, x) == x
  {
    if x > 0 { XorZeroLeft(x / 2); }
  }

  // The parser.

  class Parser {
    const rBuff: array<byte>
    var status: Status
    var length: nat
    var rCount: nat
    var crc: byte
    var delivered: seq<seq<byte>>  // what the callback has been given

    ghost predicate Valid()
      reads this, rBuff
    {
      && rBuff.Length == BUFFER
      && rCount <= BUFFER
      && View().Valid()
    }

    ghost function View(): State
      requires rBuff.Length == BUFFER && rCount <= BUFFER
      reads this, rBuff
    {
      State(status, length, rBuff[..rCount], crc, delivered)
    }

    constructor ()
      ensures Valid() && fresh(rBuff) && View() == State(StxUpper, 0, [], 0, [])
    {
      rBuff := new byte[BUFFER](_ => 0);
      status, length, rCount, crc := StxUpper, 0, 0, 0;
      delivered := [];
    }

    method ParseByte(rData: byte)
      requires Valid() && Fits(View(), rData)
      modifies this, rBuff
      ensures Valid() && View() == Step(old(View()), rData)
    {
      match status
      case StxUpper =>
        if rData == STX_UPPER { status := StxLower; }
      case StxLower =>
        if rData == STX_LOWER { status := Len; }
      case Len =>
        length := rData;
        ClearBuffer();
        rCount := 0;
        crc := 0;
        status := Data;
      case Data =>
        rBuff[rCount] := rData;
        rCount := rCount + 1;
        crc := XorByte(crc, rData);
        if rCount >= length { status := Crc; }
      case Crc =>
        if crc == rData { status := Etx; } else { status := StxUpper; }
      case Etx =>
        assert rBuff[..rCount][..length] == rBuff[..length];
        if rData == ETX { delivered := delivered + [rBuff[..length]]; }
        status := StxUpper;
    }

    method ClearBuffer()
      modifies rBuff
    {
      forall i | 0 <= i < rBuff.Length { rBuff[i] := 0; }
    }

    /** The bytes of one write, fed one after the other. */
    method ParseBytes(input: seq<byte>)
      requires Valid() && AllFit(View(), input)
      modifies this, rBuff
      ensures Valid() && View() == Run(old(View()), input)
    {
      ghost var goal := Run(View(), input);
      var i := 0;
      while i < |input|
        invariant i <= |input| && Valid()
        invariant AllFit(View(), input[i..]) && Run(View(), input[i..]) == goal
      {
        assert input[i..][1..] == input[i + 1..];
        ParseByte(input[i]);
        i := i + 1;
      }
    }
  }

  // When the receive buffer is overrun.

  /** After k bytes a length above the buffer is announced, and more bytes follow than the buffer holds. */
  ghost predicate Oversized(s: State, input: seq<byte>, k: int)
    requires s.Valid()
  {
    && 0 <= k && k + 201 < |input| && input[k] > 200
    && AllFit(s, input[..k]) && Run(s, input[..k]).status == Len
  }

  /** A packet under way that is too long and goes on to the end of the buffer. */
  predicate Overfull(s: State, input: seq<byte>) {
    s.status == Data && s.length > 200 && |input| > 200 - |s.body|
  }

  /**
   * The buffer is overrun exactly if some packet announces more than 200 bytes and more than 200 follow its
   * length, whatever their values.
   */
  lemma {:induction false} OverrunIff(s: State, input: seq<byte>)
    requires s.Valid()
    ensures !AllFit(s, input) <==> Overfull(s, input) || exists k :: Oversized(s, input, k)
    decreases |input|
  {
    if input == [] { return; }
    if !Fits(s, input[0]) {
      assert Overfull(s, input);
      return;
    }
    var (s', rest) := (Step(s, input[0]), input[1..]);
    OverrunIff(s', rest);
    assert input[..0] == [];
    assert Overfull(s', rest) <==> Overfull(s, input) || Oversized(s, input, 0);
    forall k | 0 < k
      ensures Oversized(s, input, k) <==> Oversized(s', rest, k - 1)
    {
      if k <= |input| { assert input[..k][1..] == rest[..k - 1]; }
    }
    if k :| Oversized(s', rest, k) { assert Oversized(s, input, k + 1); }
  }

  // Round trip.

  /** Between packets the parser waits for a start byte. */
  predicate Idle(s: State) { s.Valid() && (s.status == StxUpper || s.status == StxLower) }

  /** Noise that does not hold a start sequence: no 0xFE after a 0xFF, nor at all once a 0xFF was seen. */
  predicate Quiet(noise: seq<byte>, armed: bool) {
    noise != [] ==>
      && !(armed && noise[0] == STX_LOWER)
      && Quiet(noise[1..], armed || noise[0] == STX_UPPER)
  }

  lemma {:induction false} QuietKeepsIdle(s: State, noise: seq<byte>)
    requires Idle(s) && Quiet(noise, s.status == StxLower)
    ensures AllFit(s, noise) && Idle(Run(s, noise))
    ensures Run(s, noise).delivered == s.delivered
    decreases |noise|
  {
    if noise != [] {
      QuietKeepsIdle(Step(s, noise[0]), noise[1..]);
    }
  }

  /** After k bytes the parser has been taken out of its idle state. */
  ghost predicate Disturbed(s: State, input: seq<byte>, k: int)
    requires s.Valid()
  {
    0 <= k <= |input| && AllFit(s, input[..k]) && Run(s, input[..k]).status == Len
  }

  /** Noise that is not quiet takes the parser out of its idle state. */
  lemma {:induction false} OnlyQuietKeepsIdle(s: State, noise: seq<byte>)
    requires Idle(s) && !Quiet(noise, s.status == StxLower)
    ensures exists k :: Disturbed(s, noise, k)
    decreases |noise|
  {
    var s' := Step(s, noise[0]);
    var (front, rest) := (noise[..1], noise[1..]);
    assert front[1..] == [] && AllFit(s', []) && AllFit(s, front);
    assert Run(s, front) == s';
    if s'.status == Len {
      assert Disturbed(s, noise, 1);
    } else {
      OnlyQuietKeepsIdle(s', rest);
      var k :| Disturbed(s', rest, k);
      assert noise[..k + 1] == front + rest[..k];
      RunAppend(s, front, rest[..k]);
      assert Disturbed(s, noise, k + 1);
    }
  }

  /** The data bytes are collected and summed up. */
  lemma {:induction false} Collect(s: State, d: seq<byte>)
    requires s.Valid() && s.status == Data && d != [] && |s.body| + |d| == s.length <= BUFFER
    requires s.crc == XorAll(s.body)
    ensures AllFit(s, d)
    ensures Run(s, d) == s.(body := s.body + d, crc := XorAll(s.body + d), status := Crc)
    decreases |d|
  {
    var s' := Step(s, d[0]);
    assert (s.body + [d[0]])[..|s.body|] == s.body;
    if |d| == 1 {
      assert d == [d[0]];
    } else {
      Collect(s', d[1..]);
      assert s'.body + d[1..] == s.body + d;
    }
  }

  lemma FrameDelivered(s: State, m: Message)
    requires Idle(s) && m.Sendable()
    ensures AllFit(s, Frame(m))
    ensures var r := Run(s, Frame(m));
            r.status == StxUpper && r.delivered == s.delivered + [m.Body()]
  {
    hide Step, Run, AllFit, XorAll, Message.Body;
    var head: seq<byte> := [STX_UPPER, STX_LOWER, |m.payload| + 2];
    var rest := m.Body() + [XorAll(m.Body()), ETX];
    HeadRead(s, |m.payload| + 2);
    BodyRead(Run(s, head), m.Body());
    RunAppend(s, head, rest);
    assert Frame(m) == head + rest;
  }

  /** Body, checksum and end byte of an announced packet. */
  lemma BodyRead(s: State, body: seq<byte>)
    requires s.Valid() && s.status == Data && body != [] && s.body == [] && s.crc == 0 && s.length == |body| <= BUFFER
    ensures var input := body + [XorAll(body), ETX];
            && AllFit(s, input)
            && Run(s, input).status == StxUpper && Run(s, input).delivered == s.delivered + [body]
            && Run(s, input).Valid()
  {
    assert XorAll([]) == 0;
    hide Step, Run, AllFit, XorAll;
    Collect(s, body);
    assert s.body + body == body;
    var s2 := Run(s, body);
    TailRead(s2, XorAll(body));
    assert body[..|body|] == body;
    RunAppend(s, body, [XorAll(body), ETX]);
  }

  lemma HeadRead(s: State, length: byte)
    requires Idle(s) && length <= BUFFER
    ensures AllFit(s, [STX_UPPER, STX_LOWER, length])
    ensures Run(s, [STX_UPPER, STX_LOWER, length]) == s.(status := Data, length := length, body := [], crc := 0)
  {
    var head: seq<byte> := [STX_UPPER, STX_LOWER, length];
    assert head[1..] == [STX_LOWER, length] && head[1..][1..] == [length] && head[1..][1..][1..] == [];
    var s1 := Step(s, STX_UPPER);
    var s2 := Step(s1, STX_LOWER);
    var s3 := Step(s2, length);
    assert AllFit(s3, []) && AllFit(s2, [length]) && AllFit(s1, [STX_LOWER, length]);
    assert Run(s2, [length]) == s3;
    assert Run(s1, [STX_LOWER, length]) == s3;
  }

  lemma TailRead(s: State, crc: byte)
    requires s.Valid() && s.status == Crc && s.crc == crc
    ensures AllFit(s, [crc, ETX])
    ensures Run(s, [crc, ETX]) == s.(status := StxUpper, delivered := s.delivered + [s.body[..s.length]])
  {
    assert [crc, ETX][1..] == [ETX] && [ETX][1..] == [];
    var s1 := Step(s, crc);
    var s2 := Step(s1, ETX);
    assert AllFit(s2, []) && AllFit(s1, [ETX]);
    assert Run(s1, [ETX]) == Run(s2, []) == s2;
  }

  /** A stream: noise before every packet and after the last. */
  function Stream(noises: seq<seq<byte>>, ms: seq<Message>): seq<byte>
    requires |noises| == |ms| + 1 && forall i :: 0 <= i < |ms| ==> ms[i].Sendable()
  {
    if ms == [] then noises[0] else noises[0] + Frame(ms[0]) + Stream(noises[1..], ms[1..])
  }

  function Bodies(ms: seq<Message>): seq<seq<byte>>
    requires forall i :: 0 <= i < |ms| ==> ms[i].Sendable()
  {
    if ms == [] then [] else
      assert ms[0].Sendable();
      [ms[0].Body()] + Bodies(ms[1..])
  }

  /** Every packet sent is delivered, in order, and nothing else. */
  lemma {:induction false} StreamDelivered(s: State, noises: seq<seq<byte>>, ms: seq<Message>)
    requires Idle(s)
    requires |noises| == |ms| + 1 && forall i :: 0 <= i < |ms| ==> ms[i].Sendable()
    requires Quiet(noises[0], s.status == StxLower) && forall i :: 0 < i < |noises| ==> Quiet(noises[i], false)
    ensures AllFit(s, Stream(noises, ms))
    ensures var r := Run(s, Stream(noises, ms));
            Idle(r) && r.delivered == s.delivered + Bodies(ms)
    decreases |ms|
  {
    hide Step, Run, AllFit, Frame, Message.Body, Quiet, Stream, Bodies;
    StreamParts(noises, ms);
    if ms == [] {
      QuietKeepsIdle(s, noises[0]);
      assert s.delivered + [] == s.delivered;
    } else {
      assert ms[0].Sendable();
      var s2 := AfterFrame(s, noises[0], ms[0]);
      StreamDelivered(s2, noises[1..], ms[1..]);
      RunAppend(s, noises[0] + Frame(ms[0]), Stream(noises[1..], ms[1..]));
    }
  }

  lemma StreamParts(noises: seq<seq<byte>>, ms: seq<Message>)
    requires |noises| == |ms| + 1 && forall i :: 0 <= i < |ms| ==> ms[i].Sendable()
    ensures ms == [] ==> Stream(noises, ms) == noises[0] && Bodies(ms) == []
    ensures ms != [] ==>
              && ms[0].Sendable()
              && Stream(noises, ms) == noises[0] + Frame(ms[0]) + Stream(noises[1..], ms[1..])
              && Bodies(ms) == [ms[0].Body()] + Bodies(ms[1..])
  {
  }

  /** Noise, then a packet. */
  lemma AfterFrame(s: State, noise: seq<byte>, m: Message) returns (r: State)
    requires Idle(s) && Quiet(noise, s.status == StxLower) && m.Sendable()
    ensures AllFit(s, noise + Frame(m)) && r == Run(s, noise + Frame(m))
    ensures r.Valid() && r.status == StxUpper && r.delivered == s.delivered + [m.Body()]
  {
    hide Step, Run, AllFit, Frame, Message.Body, Quiet;
    QuietKeepsIdle(s, noise);
    FrameDelivered(Run(s, noise), m);
    RunAppend(s, noise, Frame(m));
    r := Run(s, noise + Frame(m));
  }

  /** The callback splits a delivered buffer into command and payload; short packets are ignored. */
  function Interpret(body: seq<byte>): seq<Message> {
    if |body| < 2 then [] else
      var high: int := body[0];
      [Message(high * 256 + body[1], body[2..])]
  }

  /** The receiver gets back the command and payload that were sent. */
  lemma InterpretBody(m: Message)
    requires m.Sendable()
    ensures Interpret(m.Body()) == [m]
  {
  }
}
