/** GDB remote packets to a debug probe: two encoders and the response reader. */
module ProbeLink {
  import opened Bytes
  import Hex

  const DOLLAR: byte := '$' as int
  const HASH: byte := '#' as int
  const BRACE: byte := '}' as int

  predicate NeedsEscape(ch: byte) { ch == DOLLAR || ch == HASH || ch == BRACE }

  /** An escaped byte is sent as a brace and the byte with bit 5 flipped. */
  function Escape(ch: byte): seq<byte> {
    if NeedsEscape(ch) then [BRACE, XorByte(ch, 0x20)] else [ch]
  }

  function EscapeAll(data: seq<byte>): seq<byte> {
    if data == [] then [] else EscapeAll(data[..|data| - 1]) + Escape(data[|data| - 1])
  }

  function HexDigit(v: nat): byte
    requires v < 16
  {
    if v < 10 then '0' as int + v else 'a' as int + v - 10
  }

  function CheckDigits(body: seq<byte>): (r: seq<byte>)
    ensures |r| == 2
  {
    [HexDigit(Sum(body) % 256 / 16), HexDigit(Sum(body) % 16)]
  }

  /** The two digits spell the sum of the body modulo 256, high one first. */
  lemma CheckDigitsSpell(body: seq<byte>)
    ensures var d := CheckDigits(body);
            && Hex.HexValue(d[0]) >= 0 && Hex.HexValue(d[1]) >= 0
            && 16 * Hex.HexValue(d[0]) + Hex.HexValue(d[1]) == Sum(body) % 256
  {
    var sum := Sum(body) % 256;
    LowNibble(Sum(body));
    assert sum == 16 * (sum / 16) + sum % 16;
  }

  function Packet(body: seq<byte>): seq<byte> {
    [DOLLAR] + body + [HASH] + CheckDigits(body)
  }

  datatype Status = Ok | InvalidArg | NoMem | Timeout

  /** The body of a binary packet: the prefix as it is, the data escaped. */
  function BinaryBody(prefix: seq<byte>, data: seq<byte>): seq<byte> { prefix + EscapeAll(data) }

  // Encoders.

  lemma LowNibble(sum: nat)
    ensures sum % 256 % 16 == sum % 16
  {
  }

  lemma SumStart(s: seq<byte>)
    ensures s[..0] == [] && Sum(s[..0]) == 0
  {
  }

  /** One more byte in the running checksum. */
  lemma SumStep(s: seq<byte>, i: nat)
    requires i < |s|
    ensures s[..i + 1] == s[..i] + [s[i]]
    ensures (Sum(s[..i]) % 256 + s[i]) % 256 == Sum(s[..i + 1]) % 256
  {
    SumAppend(s[..i], [s[i]]);
    assert s[..i + 1] == s[..i] + [s[i]];
  }

  method PutByte(out: array<byte>, idx: nat, b: byte)
    requires idx < out.Length
    modifies out
    ensures out[..idx + 1] == old(out[..idx]) + [b]
  {
    out[idx] := b;
  }

  /** The text encoder; payload is a string without its terminator. */
  method MakePacket(payload: seq<byte>, out: array<byte>) returns (status: Status, outLen: nat)
    modifies out
    ensures status == if out.Length < 5 then InvalidArg else if out.Length < |payload| + 4 then NoMem else Ok
    ensures status == Ok ==> outLen == |Packet(payload)| <= out.Length && out[..outLen] == Packet(payload)
  {
    hide Sum;
    SumStart(payload);
    outLen := 0;
    if out.Length < 5 { return InvalidArg, 0; }
    if out.Length < |payload| + 4 { return NoMem, 0; }
    var csum: byte := 0;
    out[0] := DOLLAR;
    var i := 0;
    while i < |payload|
      invariant i <= |payload|
      invariant out[..1 + i] == [DOLLAR] + payload[..i]
      invariant csum == Sum(payload[..i]) % 256
    {
      PutByte(out, 1 + i, payload[i]);
      SumStep(payload, i);
      csum := (csum + payload[i]) % 256;
      i := i + 1;
    }
    assert payload[..i] == payload;
    LowNibble(Sum(payload));
    PutTrailer(out, 1 + i, csum);
    outLen := 1 + i + 3;
    return Ok, outLen;
  }

  method PutTrailer(out: array<byte>, idx: nat, csum: byte)
    requires idx + 3 <= out.Length
    modifies out
    ensures out[..idx + 3] == old(out[..idx]) + [HASH, HexDigit(csum / 16), HexDigit(csum % 16)]
  {
    out[idx] := HASH;
    out[idx + 1] := HexDigit(csum / 16);
    out[idx + 2] := HexDigit(csum % 16);
  }

  method MakePacketBinary(prefix: seq<byte>, data: seq<byte>, out: array<byte>) returns (status: Status, outLen: nat)
    modifies out
    ensures status == if out.Length < 8 then InvalidArg
                      else if |Packet(BinaryBody(prefix, data))| >= out.Length then NoMem
                      else Ok
    ensures status == Ok ==> outLen == |Packet(BinaryBody(prefix, data))|
                             && out[..outLen] == Packet(BinaryBody(prefix, data))
  {
    hide Sum, EscapeAll;
    SumStart(prefix);
    if out.Length < 8 { return InvalidArg, 0; }
    var csum: byte := 0;
    out[0] := DOLLAR;
    var idx := 1;
    var i := 0;
    while i < |prefix|
      invariant i <= |prefix| && idx == 1 + i < out.Length
      invariant out[..idx] == [DOLLAR] + prefix[..i]
      invariant csum == Sum(prefix[..i]) % 256
    {
      if idx + 1 >= out.Length { return NoMem, 0; }
      PutByte(out, idx, prefix[i]);
      idx := idx + 1;
      SumStep(prefix, i);
      csum := (csum + prefix[i]) % 256;
      i := i + 1;
    }
    assert prefix[..i] == prefix;
    var fits;
    fits, idx, csum := PutEscaped(prefix, data, out, csum);
    if !fits { return NoMem, 0; }
    if idx + 3 >= out.Length { return NoMem, 0; }
    LowNibble(Sum(BinaryBody(prefix, data)));
    PutTrailer(out, idx, csum);
    return Ok, idx + 3;
  }

  lemma AddMod(a: nat, b: byte, c: byte)
    ensures (a % 256 + b) % 256 == (a + b) % 256
    ensures ((a % 256 + b) % 256 + c) % 256 == (a + b + c) % 256
  {
    AddOne(a, b);
    AddOne(a + b, c);
  }

  lemma AddOne(a: nat, b: byte)
    ensures (a % 256 + b) % 256 == (a + b) % 256
  {
  }

  /** The escaping loop, after the prefix; gives up when an escape would reach the end of out. */
  method PutEscaped(prefix: seq<byte>, data: seq<byte>, out: array<byte>, csum0: byte)
    returns (fits: bool, idx: nat, csum: byte)
    requires 1 + |prefix| < out.Length && out[..1 + |prefix|] == [DOLLAR] + prefix && csum0 == Sum(prefix) % 256
    modifies out
    ensures var body := BinaryBody(prefix, data);
            && (!fits ==> 1 + |body| >= out.Length)
            && (fits ==> idx == 1 + |body| < out.Length && out[..idx] == [DOLLAR] + body && csum == Sum(body) % 256)
  {
    hide EscapeAll, Sum, XorByte;
    EscapeNothing(prefix, data);
    idx, csum := 1 + |prefix|, csum0;
    var i := 0;
    while i < |data|
      invariant i <= |data| && idx < out.Length
      invariant out[..idx] == [DOLLAR] + BinaryBody(prefix, data[..i])
      invariant csum == Sum(BinaryBody(prefix, data[..i])) % 256
    {
      BinaryStep(prefix, data, i);
      EscapeGrows(data, i + 1);
      ghost var total := Sum(BinaryBody(prefix, data[..i]));
      ghost var before := [DOLLAR] + BinaryBody(prefix, data[..i]);
      assert [DOLLAR] + BinaryBody(prefix, data[..i + 1]) == before + Escape(data[i]);
      if NeedsEscape(data[i]) {
        if idx + 2 >= out.Length { return false, idx, csum; }
        PutByte(out, idx, BRACE);
        PutByte(out, idx + 1, XorByte(data[i], 0x20));
        AddMod(total, BRACE, XorByte(data[i], 0x20));
        csum := (csum + BRACE) % 256;
        csum := (csum + XorByte(data[i], 0x20)) % 256;
        idx := idx + 2;
      } else {
        if idx + 1 >= out.Length { return false, idx, csum; }
        PutByte(out, idx, data[i]);
        AddMod(total, data[i], 0);
        csum := (csum + data[i]) % 256;
        idx := idx + 1;
      }
      assert out[..idx] == before + Escape(data[i]);
      assert out[..idx] == [DOLLAR] + BinaryBody(prefix, data[..i + 1]);
      i := i + 1;
    }
    assert data[..i] == data;
    fits := true;
  }

  lemma EscapeNothing(prefix: seq<byte>, data: seq<byte>)
    ensures BinaryBody(prefix, data[..0]) == prefix && EscapeAll([]) == []
  {
  }

  lemma BinaryStep(prefix: seq<byte>, data: seq<byte>, i: nat)
    requires i < |data|
    ensures BinaryBody(prefix, data[..i + 1]) == BinaryBody(prefix, data[..i]) + Escape(data[i])
    ensures Sum(BinaryBody(prefix, data[..i + 1])) == Sum(BinaryBody(prefix, data[..i])) + Sum(Escape(data[i]))
    ensures Sum(Escape(data[i])) == if NeedsEscape(data[i]) then BRACE + XorByte(data[i], 0x20) else data[i]
  {
    assert data[..i + 1][..i] == data[..i];
    SumAppend(BinaryBody(prefix, data[..i]), Escape(data[i]));
    var e := XorByte(data[i], 0x20);
    assert [BRACE, e][1..] == [e];
    assert Sum([e]) == e && Sum([data[i]]) == data[i];
  }

  lemma {:induction false} EscapeGrows(data: seq<byte>, i: nat)
    requires i <= |data|
    ensures |EscapeAll(data[..i])| <= |EscapeAll(data)|
    decreases |data| - i
  {
    if i == |data| {
      assert data[..i] == data;
    } else {
      assert data[..i + 1][..i] == data[..i];
      EscapeGrows(data, i + 1);
    }
  }

  // Decoder.

  /** What one receive call brings: a byte, or nothing within its 50 ms. */
  datatype Arrival = Byte(value: byte) | Nothing

  function Arriving(bytes: seq<byte>): (s: seq<Arrival>)
    ensures |s| == |bytes| && forall i :: 0 <= i < |s| ==> s[i] == Byte(bytes[i])
  {
    seq(|bytes|, i requires 0 <= i < |bytes| => Byte(bytes[i]))
  }

  datatype Response = Response(status: Status, text: seq<byte>)

  function Less(calls: nat, n: nat): nat { if calls < n then 0 else calls - n }

  /** The input behind the start character, and the receive calls left before the deadline. */
  datatype Start = NoStart | Started(rest: seq<Arrival>, calls: nat)

  function FindStart(input: seq<Arrival>, calls: nat): Start
    decreases |input|
  {
    if calls == 0 || input == [] then NoStart
    else if input[0] == Byte(DOLLAR) then Started(input[1..], calls - 1)
    else FindStart(input[1..], calls - 1)
  }

  /** The two checksum digits are taken without looking at the clock; they are not compared. */
  function Trailer(input: seq<Arrival>): Response {
    Response(if |input| >= 2 && input[0].Byte? && input[1].Byte? then Ok else Timeout, [])
  }

  /**
   * The body from here on. calls is the number of receive calls before the deadline, which is looked at in front of
   * each character only; room is what the output buffer still takes; last is the character taken last.
   */
  function ReadBody(input: seq<Arrival>, calls: nat, room: nat, last: byte): Response
    decreases |input|
  {
    if calls == 0 then if last == HASH then Trailer(input) else Response(Timeout, [])
    else if input == [] then Response(Timeout, [])
    else if input[0].Nothing? then ReadBody(input[1..], calls - 1, room, last)
    else if input[0].value == HASH then Trailer(input[1..])
    else if input[0].value == BRACE && (|input| == 1 || input[1].Nothing?) then Response(Timeout, [])
    else
      var n := if input[0].value == BRACE then 2 else 1;
      var ch := if n == 2 then XorByte(input[1].value, 0x20) else input[0].value;
      if room == 0 then Response(NoMem, [])
      else
        var r := ReadBody(input[n..], Less(calls, n), room - 1, ch);
        Response(r.status, [ch] + r.text)
  }

  /** The reader, with the deadline given as the number of receive calls made before it. */
  function ReadResponse(input: seq<Arrival>, calls: nat, outSize: nat): Response {
    if outSize == 0 then Response(InvalidArg, [])
    else
      var start := FindStart(input, calls);
      if start.NoStart? then Response(Timeout, []) else ReadBody(start.rest, start.calls, outSize - 1, DOLLAR)
  }

  /** Where the body goes on, with a character taking n bytes. */
  lemma BodyContinues(input: seq<Arrival>, calls: nat, n: nat, ch: byte, room: nat, last: byte)
    requires 0 < n <= |input| && calls > 0 && input[0].Byte? && input[0].value != HASH
    requires if input[0].value == BRACE then n == 2 && input[1].Byte? && ch == XorByte(input[1].value, 0x20)
             else n == 1 && ch == input[0].value
    ensures ReadBody(input, calls, room, last) ==
            if room == 0 then Response(NoMem, [])
            else var r := ReadBody(input[n..], Less(calls, n), room - 1, ch); Response(r.status, [ch] + r.text)
  {
  }

  /** Where it ends, or waits. */
  lemma BodyEnds(input: seq<Arrival>, calls: nat, room: nat, last: byte)
    ensures calls == 0 ==> ReadBody(input, calls, room, last) ==
                           if last == HASH then Trailer(input) else Response(Timeout, [])
    ensures input == [] ==> ReadBody(input, calls, room, last) == Response(Timeout, [])
    ensures calls > 0 && input != [] && input[0].Nothing?
            ==> ReadBody(input, calls, room, last) == ReadBody(input[1..], calls - 1, room, last)
    ensures calls > 0 && input != [] && input[0] == Byte(HASH)
            ==> ReadBody(input, calls, room, last) == Trailer(input[1..])
    ensures calls > 0 && input != [] && input[0] == Byte(BRACE) && (|input| == 1 || input[1].Nothing?)
            ==> ReadBody(input, calls, room, last) == Response(Timeout, [])
  {
  }

  /** The serial port, read one byte at a time. */
  class Transport {
    var input: seq<Arrival>

    constructor (input: seq<Arrival>)
      ensures this.input == input
    {
      this.input := input;
    }

    /** One receive call; after the input nothing arrives any more. */
    method Receive(before: byte) returns (ok: bool, ch: byte)
      modifies this
      ensures ok <==> old(input) != [] && old(input)[0].Byte?
      ensures ch == if ok then old(input)[0].value else before
      ensures input == if old(input) == [] then [] else old(input)[1..]
    {
      if input == [] { return false, before; }
      var arrival := input[0];
      input := input[1..];
      match arrival
      case Byte(value) => return true, value;
      case Nothing => return false, before;
    }

    /** The first loop: receive until the start character. */
    method Seek(deadline: nat) returns (calls: nat, ch: byte)
      modifies this
      ensures ch == DOLLAR <==> FindStart(old(input), deadline).Started?
      ensures ch == DOLLAR ==> FindStart(old(input), deadline) == Started(input, calls)
    {
      calls, ch := deadline, 0;
      while calls > 0
        invariant ch != DOLLAR && FindStart(input, calls) == FindStart(old(input), deadline)
      {
        var ok;
        ok, ch := Receive(ch);
        calls := calls - 1;
        if ok && ch == DOLLAR { break; }
      }
    }

    /** The whole reader; out is filled in place and terminated. */
    method Read(deadline: nat, out: array<byte>) returns (status: Status, idx: nat)
      modifies this, out
      ensures status == ReadResponse(old(input), deadline, out.Length).status
      ensures status == Ok ==>
                && idx < out.Length && out[idx] == 0
                && out[..idx] == ReadResponse(old(input), deadline, out.Length).text
    {
      hide XorByte, ReadBody, FindStart;
      idx := 0;
      if out.Length == 0 { return InvalidArg, 0; }
      var calls, ch := Seek(deadline);
      if ch != DOLLAR { return Timeout, 0; }
      ghost var goal := ReadBody(input, calls, out.Length - 1, DOLLAR);
      var ok;
      while calls > 0
        invariant idx < out.Length
        invariant var r := ReadBody(input, calls, out.Length - 1 - idx, ch);
                  goal.status == r.status && (goal.status == Ok ==> goal.text == out[..idx] + r.text)
      {
        ghost var (rest, left, room, last) := (input, calls, out.Length - 1 - idx, ch);
        BodyEnds(rest, left, room, last);
        ok, ch := Receive(ch);
        calls := calls - 1;
        if !ok {
          BodyEnds([], calls, room, last);
          continue;
        }
        if ch == HASH { break; }
        if ch == BRACE {
          ok, ch := Receive(ch);
          if !ok { return Timeout, idx; }
          ch := XorByte(ch, 0x20);
          calls := Less(calls, 1);
          assert rest[2..] == input;
          BodyContinues(rest, left, 2, ch, room, last);
        } else {
          BodyContinues(rest, left, 1, ch, room, last);
        }
        if idx + 1 >= out.Length { return NoMem, idx; }
        ghost var (read, r) := (out[..idx], ReadBody(input, calls, room - 1, ch));
        assert read + ([ch] + r.text) == (read + [ch]) + r.text;
        PutByte(out, idx, ch);
        idx := idx + 1;
      }
      BodyEnds(input, calls, out.Length - 1 - idx, ch);
      if ch != HASH { return Timeout, idx; }
      ok, ch := Receive(ch);
      if !ok { return Timeout, idx; }
      ok, ch := Receive(ch);
      if !ok { return Timeout, idx; }
      out[idx] := 0;
      return Ok, idx;
    }
  }

  // Gaps.

  /** The bytes of a stream of arrivals. */
  function Heard(s: seq<Arrival>): seq<byte> {
    if s == [] then [] else (if s[0].Byte? then [s[0].value] else []) + Heard(s[1..])
  }

  /** No gap right behind a brace, nor among the two arrivals behind a '#': the reader does not wait there. */
  predicate Tight(s: seq<Arrival>) {
    forall i :: 0 <= i < |s| ==>
      && (s[i] == Byte(BRACE) || s[i] == Byte(HASH) ==> i + 1 < |s| ==> s[i + 1].Byte?)
      && (s[i] == Byte(HASH) ==> i + 2 < |s| ==> s[i + 2].Byte?)
  }

  lemma TightTail(s: seq<Arrival>, n: nat)
    requires Tight(s) && n <= |s|
    ensures Tight(s[n..])
  {
    forall i | 0 <= i < |s[n..]|
      ensures s[n..][i] == s[n + i]
    {
    }
  }

  /** In time, gaps elsewhere only delay the body. */
  lemma {:induction false} BodyHeard(s: seq<Arrival>, calls: nat, enough: nat, room: nat, last: byte)
    requires Tight(s) && |s| <= calls && |Heard(s)| <= enough
    ensures ReadBody(s, calls, room, last) == ReadBody(Arriving(Heard(s)), enough, room, last)
    decreases |s|
  {
    hide ReadBody, Tight, XorByte;
    BodyEnds(s, calls, room, last);
    BodyEnds(Arriving(Heard(s)), enough, room, last);
    if s != [] {
      TightTail(s, 1);
      var rest := Arriving(Heard(s))[if s[0].Byte? then 1 else 0..];
      assert rest == Arriving(Heard(s[1..]));
      if s[0].Nothing? {
        BodyHeard(s[1..], calls - 1, enough, room, last);
      } else {
        NextHeard(s);
        CharHeard(s, calls, enough, room, last);
      }
    }
  }

  /** What follows a brace or a mark is heard. */
  lemma NextHeard(s: seq<Arrival>)
    requires Tight(s) && s != [] && s[0].Byte?
    ensures s[0].value == BRACE || s[0].value == HASH ==> |s| > 1 ==> s[1].Byte?
    ensures s[0].value == HASH ==> Trailer(s[1..]) == Trailer(Arriving(Heard(s[1..])))
  {
    if s[0].value == HASH && |s| > 1 {
      assert s[1].Byte? && Heard(s[1..]) == [s[1].value] + Heard(s[1..][1..]);
      if |s| > 2 {
        assert s[1..][1..][0] == s[2] && s[2].Byte?;
      }
    }
  }

  lemma CharHeard(s: seq<Arrival>, calls: nat, enough: nat, room: nat, last: byte)
    requires Tight(s) && |s| <= calls && |Heard(s)| <= enough && s != [] && s[0].Byte?
    requires s[0].value == BRACE && |s| > 1 ==> s[1].Byte?
    requires s[0].value == HASH ==> Trailer(s[1..]) == Trailer(Arriving(Heard(s[1..])))
    ensures ReadBody(s, calls, room, last) == ReadBody(Arriving(Heard(s)), enough, room, last)
    decreases |s|, 0
  {
    hide ReadBody, Tight, XorByte, Trailer;
    var heard := Arriving(Heard(s));
    BodyEnds(s, calls, room, last);
    BodyEnds(heard, enough, room, last);
    assert heard[1..] == Arriving(Heard(s[1..]));
    if s[0].value == HASH || (s[0].value == BRACE && |s| == 1) { return; }
    var n := if s[0].value == BRACE then 2 else 1;
    BehindChar(s, n);
    var ch := if n == 2 then XorByte(s[1].value, 0x20) else s[0].value;
    hide Heard, Less;
    BodyContinues(s, calls, n, ch, room, last);
    BodyContinues(heard, enough, n, ch, room, last);
    Plenty(s, calls, enough, n);
    TightTail(s, n);
    if room > 0 { BodyHeard(s[n..], calls - n, enough - n, room - 1, ch); }
  }

  /** One or two bytes heard, and the rest. */
  lemma BehindChar(s: seq<Arrival>, n: nat)
    requires 1 <= n <= 2 && n <= |s| && forall i :: 0 <= i < n ==> s[i].Byte?
    ensures var heard := Arriving(Heard(s));
            |heard| >= n && heard[..n] == s[..n] && heard[n..] == Arriving(Heard(s[n..]))
    ensures |Heard(s)| == n + |Heard(s[n..])|
  {
    HeardFront(s, n);
    hide Heard;
    ArrivingDrop(Heard(s), n);
    assert forall i :: 0 <= i < n ==> s[i] == Byte(s[i].value);
  }

  lemma ArrivingDrop(bytes: seq<byte>, n: nat)
    requires n <= |bytes|
    ensures Arriving(bytes)[n..] == Arriving(bytes[n..])
  {
  }

  lemma HeardFront(s: seq<Arrival>, n: nat)
    requires 1 <= n <= 2 && n <= |s| && forall i :: 0 <= i < n ==> s[i].Byte?
    ensures |Heard(s)| >= n && Heard(s)[n..] == Heard(s[n..]) && forall i :: 0 <= i < n ==> Heard(s)[i] == s[i].value
  {
    HeardOne(s);
    if n == 2 {
      var tail := s[1..];
      assert tail[0] == s[1] && tail[1..] == s[2..];
      HeardOne(tail);
      hide Heard;
      assert Heard(s)[1..] == Heard(tail) && Heard(s)[2..] == Heard(tail)[1..];
    }
  }

  lemma HeardOne(s: seq<Arrival>)
    requires s != [] && s[0].Byte?
    ensures Heard(s) == [s[0].value] + Heard(s[1..])
  {
  }

  lemma Plenty(s: seq<Arrival>, calls: nat, enough: nat, n: nat)
    requires n <= |s| <= calls && |Heard(s)| <= enough && |Heard(s)| == n + |Heard(s[n..])|
    ensures Less(calls, n) == calls - n && Less(enough, n) == enough - n
    ensures |s[n..]| <= calls - n && |Heard(s[n..])| <= enough - n
  {
  }

  lemma {:induction false} StartHeard(s: seq<Arrival>, calls: nat, enough: nat)
    requires Tight(s) && |s| <= calls && |Heard(s)| <= enough
    ensures var (a, b) := (FindStart(s, calls), FindStart(Arriving(Heard(s)), enough));
            && (a.Started? <==> b.Started?)
            && (a.Started? ==> Tight(a.rest) && |a.rest| <= a.calls && |Heard(a.rest)| <= b.calls
                               && b.rest == Arriving(Heard(a.rest)))
    decreases |s|
  {
    hide Tight;
    if s != [] {
      TightTail(s, 1);
      var rest := Arriving(Heard(s))[if s[0].Byte? then 1 else 0..];
      assert rest == Arriving(Heard(s[1..]));
      if s[0] != Byte(DOLLAR) {
        StartHeard(s[1..], calls - 1, if s[0].Byte? then enough - 1 else enough);
      }
    }
  }

  /** In time, a stream with gaps is read as its bytes, unless a gap follows a brace or the mark. */
  lemma GapsOnlyDelay(s: seq<Arrival>, calls: nat, enough: nat, outSize: nat)
    requires Tight(s) && |s| <= calls && |Heard(s)| <= enough
    ensures ReadResponse(s, calls, outSize) == ReadResponse(Arriving(Heard(s)), enough, outSize)
  {
    hide Tight, FindStart, ReadBody;
    StartHeard(s, calls, enough);
    var start := FindStart(s, calls);
    if outSize > 0 && start.Started? {
      BodyHeard(start.rest, start.calls, FindStart(Arriving(Heard(s)), enough).calls, outSize - 1, DOLLAR);
    }
  }

  // Round trips.

  predicate Free(s: seq<byte>, c: byte) { c !in s }

  /** The prefix holds none of the three special characters. */
  predicate Plain(s: seq<byte>) {
    forall i :: 0 <= i < |s| ==> !NeedsEscape(s[i])
  }

  /** Neither '$' nor '#' occurs in an escaped body. */
  lemma {:induction false} NoBareMarks(data: seq<byte>)
    ensures forall i :: 0 <= i < |EscapeAll(data)| ==> EscapeAll(data)[i] != DOLLAR && EscapeAll(data)[i] != HASH
  {
    if data != [] {
      NoBareMarks(data[..|data| - 1]);
      FlippedMarks();
    }
  }

  lemma FlippedMarks()
    ensures XorByte(DOLLAR, 0x20) == 0x04 && XorByte(HASH, 0x20) == 0x03 && XorByte(BRACE, 0x20) == 0x5d
  {
    assert Xor(2, 2) == 0 && Xor(1, 1) == 0;
    assert Xor(9, 8) == 1 by { assert Xor(4, 4) == 0; }
    assert Xor(8, 8) == 0 && Xor(18, 16) == 2;
    assert Xor(31, 8) == 23 && Xor(62, 16) == 46;
    assert Xor(17, 16) == 1;
  }

  function LastOf(s: seq<byte>, otherwise: byte): byte { if s == [] then otherwise else s[|s| - 1] }

  /** Reading plain bytes in front of a body: all of them in time, or none of the text at all. */
  lemma {:induction false} ReadPlain(plain: seq<byte>, rest: seq<Arrival>, calls: nat, room: nat, last: byte)
    requires |plain| <= room && last != HASH
    requires forall i :: 0 <= i < |plain| ==> plain[i] != HASH && plain[i] != BRACE
    ensures |plain| <= calls ==>
              ReadBody(Arriving(plain) + rest, calls, room, last) ==
              var r := ReadBody(rest, calls - |plain|, room - |plain|, LastOf(plain, last));
              Response(r.status, plain + r.text)
    ensures calls < |plain| ==> ReadBody(Arriving(plain) + rest, calls, room, last).status == Timeout
    decreases |plain|
  {
    var input := Arriving(plain) + rest;
    if plain == [] {
      assert input == rest;
    } else {
      assert input[1..] == Arriving(plain[1..]) + rest;
      if calls > 0 {
        ReadPlain(plain[1..], rest, calls - 1, room - 1, plain[0]);
        assert LastOf(plain[1..], plain[0]) == LastOf(plain, last);
      }
    }
  }

  /** Reading an escaped body undoes the escapes, if its last character is begun in time. */
  lemma {:induction false} ReadEscaped(data: seq<byte>, rest: seq<Arrival>, calls: nat, room: nat, last: byte)
    requires |data| <= room
    requires data != [] ==> |EscapeAll(data[..|data| - 1])| < calls
    ensures ReadBody(Arriving(EscapeAll(data)) + rest, calls, room, last) ==
            var r := ReadBody(rest, Less(calls, |EscapeAll(data)|), room - |data|, LastOf(data, last));
            Response(r.status, data + r.text)
    decreases |data|
  {
    hide ReadBody, Escape;
    if data == [] {
      assert Arriving(EscapeAll(data)) + rest == rest;
    } else {
      var n := |data| - 1;
      var (front, ch) := (data[..n], data[n]);
      var tail := Arriving(Escape(ch)) + rest;
      assert Arriving(EscapeAll(data)) + rest == Arriving(EscapeAll(front)) + tail;
      EscapeGrows(front, if n == 0 then 0 else n - 1);
      assert n > 0 ==> front[..n - 1] == front[..|front| - 1];
      ReadEscaped(front, tail, calls, room, last);
      ReadOneEscaped(ch, rest, calls - |EscapeAll(front)|, room - n, LastOf(front, last));
      var r := ReadBody(rest, Less(calls, |EscapeAll(data)|), room - |data|, ch);
      assert front + ([ch] + r.text) == data + r.text;
    }
  }

  lemma ReadOneEscaped(ch: byte, tail: seq<Arrival>, calls: nat, room: nat, last: byte)
    requires room > 0 && calls > 0
    ensures ReadBody(Arriving(Escape(ch)) + tail, calls, room, last) ==
            var r := ReadBody(tail, Less(calls, |Escape(ch)|), room - 1, ch);
            Response(r.status, [ch] + r.text)
  {
    hide ReadBody, XorByte;
    var n := |Escape(ch)|;
    var input := Arriving(Escape(ch)) + tail;
    assert input[n..] == tail;
    XorTwice(ch);
    BodyContinues(input, calls, n, ch, room, last);
  }

  lemma XorTwice(ch: byte)
    ensures XorByte(XorByte(ch, 0x20), 0x20) == ch
  {
    XorInvolution(ch, 0x20);
  }

  lemma {:induction false} SkipNoise(noise: seq<byte>, rest: seq<Arrival>, calls: nat)
    requires Free(noise, DOLLAR) && rest != [] && rest[0] == Byte(DOLLAR)
    ensures FindStart(Arriving(noise) + rest, calls) ==
            if |noise| < calls then Started(rest[1..], calls - |noise| - 1) else NoStart
    decreases |noise|
  {
    var input := Arriving(noise) + rest;
    if noise == [] {
      assert input == rest;
    } else {
      assert input[1..] == Arriving(noise[1..]) + rest;
      if calls > 0 { SkipNoise(noise[1..], rest, calls - 1); }
    }
  }

  /** The deadline passes while the k-th data character is read, with c receive calls left behind the prefix. */
  ghost predicate CutAt(data: seq<byte>, c: int, k: int) {
    0 < k <= |data| && |EscapeAll(data[..k - 1])| < c <= |EscapeAll(data[..k])|
  }

  /** The escaped data with the trailer, read behind the prefix. */
  lemma ReadCut(data: seq<byte>, trailer: seq<Arrival>, c: nat, room: nat, last: byte, k: nat)
    requires |data| <= room && CutAt(data, c, k)
    requires |trailer| >= 3 && forall i :: 0 <= i < 3 ==> trailer[i].Byte?
    ensures ReadBody(Arriving(EscapeAll(data)) + trailer, c, room, last) ==
            Response(if data[k - 1] == HASH then Ok else Timeout, data[..k])
  {
    hide ReadBody, Escape;
    EscapeSplit(data, k);
    var rest := Arriving(EscapeAll(data[k..])) + trailer;
    assert Arriving(EscapeAll(data)) + trailer == Arriving(EscapeAll(data[..k])) + rest;
    assert data[..k][..k - 1] == data[..k - 1];
    ReadEscaped(data[..k], rest, c, room, last);
    BodyEnds(rest, 0, room - k, data[k - 1]);
    assert Less(c, |EscapeAll(data[..k])|) == 0;
    assert data[..k] + [] == data[..k];
  }

  lemma {:induction false} EscapeSplit(data: seq<byte>, k: nat)
    requires k <= |data|
    ensures EscapeAll(data) == EscapeAll(data[..k]) + EscapeAll(data[k..])
    decreases |data|
  {
    hide Escape;
    if k == |data| {
      assert data[..k] == data;
    } else {
      var n := |data| - 1;
      var back := data[k..];
      assert data[..n][..k] == data[..k] && back[..n - k] == data[..n][k..];
      assert EscapeAll(back) == EscapeAll(back[..n - k]) + Escape(data[n]);
      EscapeSplit(data[..n], k);
    }
  }

  lemma {:induction false} SomeCut(data: seq<byte>, c: nat) returns (k: nat)
    requires 0 < c <= |EscapeAll(data)|
    ensures CutAt(data, c, k)
    decreases |data|
  {
    var n := |data| - 1;
    assert data[..|data|] == data;
    if |EscapeAll(data[..n])| < c {
      k := |data|;
    } else {
      k := SomeCut(data[..n], c);
      assert data[..n][..k] == data[..k] && data[..n][..k - 1] == data[..k - 1];
    }
  }

  /**
   * What is read with c receive calls left behind the prefix. In time: prefix and data. Too late: it is taken for
   * complete exactly if the deadline passes while an escaped '#' is read, and the text ends there.
   */
  ghost predicate DeadlineRule(prefix: seq<byte>, data: seq<byte>, c: int, r: Response) {
    && (c > |EscapeAll(data)| ==> r == Response(Ok, prefix + data))
    && (c <= |EscapeAll(data)| ==> (r.status == Ok <==> exists k :: CutAt(data, c, k) && data[k - 1] == HASH))
    && (forall k :: CutAt(data, c, k) && data[k - 1] == HASH ==> r == Response(Ok, prefix + data[..k]))
    && (r.status == Ok || r.status == Timeout)
  }

  lemma NoCharBegun(prefix: seq<byte>, data: seq<byte>, c: int, r: Response)
    requires c <= 0 && r.status == Timeout
    ensures DeadlineRule(prefix, data, c, r)
  {
  }

  lemma WithPrefix(prefix: seq<byte>, data: seq<byte>, c: int, r: Response)
    requires DeadlineRule([], data, c, r)
    ensures DeadlineRule(prefix, data, c, Response(r.status, prefix + r.text))
  {
    hide EscapeAll;
    assert forall s: seq<byte> :: [] + s == s;
    forall k | CutAt(data, c, k) && data[k - 1] == HASH
      ensures r == Response(Ok, data[..k])
    {
      assert r == Response(Ok, [] + data[..k]);
    }
  }

  /**
   * A binary packet behind any noise without a start character and in front of anything, with the deadline after the
   * given number of receive calls and an output buffer with room for a terminator.
   */
  lemma BinaryDeadlineIff(prefix: seq<byte>, data: seq<byte>, noise: seq<byte>, after: seq<byte>,
                          calls: nat, outSize: nat)
    requires Plain(prefix) && Free(noise, DOLLAR) && |prefix| + |data| < outSize
    ensures var stream := Arriving(noise + Packet(BinaryBody(prefix, data)) + after);
            DeadlineRule(prefix, data, calls - (|noise| + 1 + |prefix|), ReadResponse(stream, calls, outSize))
  {
    hide ReadBody, FindStart, EscapeAll, Packet, DeadlineRule, BinaryBody;
    var trailer := PacketTrailer(prefix, data, noise, after);
    var rest := Arriving(EscapeAll(data)) + trailer;
    var packet := [Byte(DOLLAR)] + Arriving(prefix) + Arriving(EscapeAll(data)) + trailer;
    assert packet[1..] == Arriving(prefix) + rest;
    SkipNoise(noise, packet, calls);
    var c := calls - (|noise| + 1 + |prefix|);
    var room := outSize - 1 - |prefix|;
    if |noise| < calls { ReadPlain(prefix, rest, calls - |noise| - 1, outSize - 1, DOLLAR); }
    if c < 0 {
      NoCharBegun(prefix, data, c, ReadResponse(Arriving(noise) + packet, calls, outSize));
    } else {
      BehindPrefix(data, trailer, c, room, LastOf(prefix, DOLLAR));
      WithPrefix(prefix, data, c, ReadBody(rest, c, room, LastOf(prefix, DOLLAR)));
    }
  }

  /** A packet of two bytes, the first escaped, whose deadline passes in between: a success with half the text. */
  lemma CutTextAccepted()
    ensures ReadResponse(Arriving(Packet(BinaryBody([], [HASH, 7]))), 3, 8) == Response(Ok, [HASH])
  {
    hide ReadResponse;
    var data := [HASH, 7];
    BinaryDeadlineIff([], data, [], [], 3, 8);
    assert [] + Packet(BinaryBody([], data)) + [] == Packet(BinaryBody([], data));
    assert data[..0] == [] && data[..1] == [HASH] && [HASH][..0] == [];
    assert EscapeAll([HASH]) == Escape(HASH);
    assert CutAt(data, 2, 1);
    assert [] + data[..1] == [HASH];
  }

  lemma PacketTrailer(prefix: seq<byte>, data: seq<byte>, noise: seq<byte>, after: seq<byte>)
    returns (trailer: seq<Arrival>)
    ensures |trailer| >= 3 && trailer[0] == Byte(HASH) && forall i :: 0 <= i < 3 ==> trailer[i].Byte?
    ensures Arriving(noise + Packet(BinaryBody(prefix, data)) + after) ==
            Arriving(noise) + ([Byte(DOLLAR)] + Arriving(prefix) + Arriving(EscapeAll(data)) + trailer)
  {
    hide EscapeAll;
    var body := BinaryBody(prefix, data);
    var end := [HASH] + CheckDigits(body) + after;
    trailer := Arriving(end);
    hide CheckDigits, Arriving;
    assert noise + Packet(body) + after == noise + ([DOLLAR] + prefix + EscapeAll(data) + end);
    ArrivingParts(noise, [DOLLAR], prefix, EscapeAll(data), end);
    assert Arriving([DOLLAR]) == [Byte(DOLLAR)];
  }

  lemma ArrivingParts(a: seq<byte>, b: seq<byte>, c: seq<byte>, d: seq<byte>, e: seq<byte>)
    ensures Arriving(a + (b + c + d + e)) == Arriving(a) + (Arriving(b) + Arriving(c) + Arriving(d) + Arriving(e))
  {
    hide Arriving;
    ArrivingAppend(a, b + c + d + e);
    ArrivingAppend(b + c + d, e);
    ArrivingAppend(b + c, d);
    ArrivingAppend(b, c);
  }

  lemma ArrivingAppend(a: seq<byte>, b: seq<byte>)
    ensures Arriving(a + b) == Arriving(a) + Arriving(b)
  {
  }

  lemma ReadInTime(data: seq<byte>, trailer: seq<Arrival>, c: nat, room: nat, last: byte)
    requires |data| <= room && c > |EscapeAll(data)|
    requires |trailer| >= 3 && trailer[0] == Byte(HASH) && forall i :: 0 <= i < 3 ==> trailer[i].Byte?
    ensures ReadBody(Arriving(EscapeAll(data)) + trailer, c, room, last) == Response(Ok, data)
  {
    hide ReadBody, EscapeAll;
    if data != [] { EscapeGrows(data, |data| - 1); }
    ReadEscaped(data, trailer, c, room, last);
    BodyEnds(trailer, c - |EscapeAll(data)|, room - |data|, LastOf(data, last));
    assert data + [] == data;
  }

  /** The same behind the prefix. */
  lemma BehindPrefix(data: seq<byte>, trailer: seq<Arrival>, c: nat, room: nat, last: byte)
    requires |data| <= room && last != HASH
    requires |trailer| >= 3 && trailer[0] == Byte(HASH) && forall i :: 0 <= i < 3 ==> trailer[i].Byte?
    ensures DeadlineRule([], data, c, ReadBody(Arriving(EscapeAll(data)) + trailer, c, room, last))
  {
    hide ReadBody, EscapeAll, CutAt;
    var r := ReadBody(Arriving(EscapeAll(data)) + trailer, c, room, last);
    assert [] + data == data;
    forall k | CutAt(data, c, k)
      ensures 0 < k <= |data| && 0 < c <= |EscapeAll(data)| && [] + data[..k] == data[..k]
      ensures r == Response(if data[k - 1] == HASH then Ok else Timeout, data[..k])
    {
      CutIsInside(data, c, k);
      ReadCut(data, trailer, c, room, last, k);
    }
    if c > |EscapeAll(data)| {
      ReadInTime(data, trailer, c, room, last);
    } else if c == 0 {
      BodyEnds(Arriving(EscapeAll(data)) + trailer, 0, room, last);
    } else {
      var k := SomeCut(data, c);
    }
  }

  lemma CutIsInside(data: seq<byte>, c: nat, k: int)
    requires CutAt(data, c, k)
    ensures 0 < k <= |data| && 0 < c <= |EscapeAll(data)|
  {
    EscapeGrows(data, k);
  }

  /** In time, and with gaps anywhere except behind a brace or the mark, a binary packet is read back. */
  lemma BinaryRoundTrip(prefix: seq<byte>, data: seq<byte>, noise: seq<byte>, after: seq<byte>,
                        s: seq<Arrival>, calls: nat, outSize: nat)
    requires Plain(prefix) && Free(noise, DOLLAR) && |prefix| + |data| < outSize
    requires Heard(s) == noise + Packet(BinaryBody(prefix, data)) + after && Tight(s) && |s| <= calls
    ensures ReadResponse(s, calls, outSize) == Response(Ok, prefix + data)
  {
    hide ReadResponse, Tight, EscapeAll, Heard;
    var enough := |Heard(s)|;
    GapsOnlyDelay(s, calls, enough, outSize);
    BinaryDeadlineIff(prefix, data, noise, after, enough, outSize);
  }

  /** A text that does not fit is an error, one that fits is not affected by the room. */
  lemma {:induction false} RoomDecides(input: seq<Arrival>, calls: nat, room: nat, big: nat, last: byte)
    requires room <= big
    ensures var r := ReadBody(input, calls, big, last);
            && (|r.text| > room ==> ReadBody(input, calls, room, last).status == NoMem)
            && (|r.text| <= room && r.status == Ok ==> ReadBody(input, calls, room, last) == r)
    decreases |input|
  {
    hide XorByte, ReadBody;
    BodyEnds(input, calls, big, last);
    BodyEnds(input, calls, room, last);
    if calls == 0 || input == [] { return; }
    if input[0].Nothing? {
      RoomDecides(input[1..], calls - 1, room, big, last);
    } else if input[0].value != HASH {
      var n := if input[0].value == BRACE then 2 else 1;
      if n <= |input| && (n == 1 || input[1].Byte?) {
        var ch := if n == 2 then XorByte(input[1].value, 0x20) else input[0].value;
        BodyContinues(input, calls, n, ch, big, last);
        BodyContinues(input, calls, n, ch, room, last);
        if room > 0 { RoomDecides(input[n..], Less(calls, n), room - 1, big - 1, ch); }
      }
    }
  }

  /** In time, a binary packet is read back, unless the buffer has no room for the text and its terminator. */
  lemma BufferDecides(prefix: seq<byte>, data: seq<byte>, noise: seq<byte>, after: seq<byte>, calls: nat, outSize: nat)
    requires Plain(prefix) && Free(noise, DOLLAR) && calls > |noise| + 1 + |prefix| + |EscapeAll(data)|
    ensures ReadResponse(Arriving(noise + Packet(BinaryBody(prefix, data)) + after), calls, outSize).status ==
            if outSize == 0 then InvalidArg else if outSize <= |prefix| + |data| then NoMem else Ok
  {
    hide ReadBody, FindStart, EscapeAll, Packet, BinaryBody;
    var stream := Arriving(noise + Packet(BinaryBody(prefix, data)) + after);
    var big := |prefix| + |data| + 1 + outSize;
    BinaryDeadlineIff(prefix, data, noise, after, calls, big);
    assert ReadResponse(stream, calls, big) == Response(Ok, prefix + data);
    var start := FindStart(stream, calls);
    if outSize > 0 { RoomDecides(start.rest, start.calls, outSize - 1, big - 1, DOLLAR); }
  }

  /** The packet of the text "OK", byte by byte. */
  lemma SampleText()
    ensures Packet([0x4F, 0x4B]) == [0x24, 0x4F, 0x4B, 0x23, 0x39, 0x61]
  {
    SumTwo(0x4F, 0x4B);
  }

  lemma SumTwo(a: byte, b: byte)
    ensures Sum([a, b]) == a + b
  {
    assert [a, b][1..] == [b] && Sum([b]) == b;
  }

  /** The packet of "X" and an escaped '#', byte by byte. */
  lemma SampleBinary()
    ensures Packet(BinaryBody([0x58], [0x23])) == [0x24, 0x58, 0x7D, 0x03, 0x23, 0x64, 0x38]
  {
    SampleBody();
    hide BinaryBody;
    SumAppend([0x58], [0x7D, 0x03]);
    SumTwo(0x7D, 0x03);
    assert Sum([0x58]) == 0x58;
    hide Sum;
  }

  lemma SampleBody()
    ensures BinaryBody([0x58], [0x23]) == [0x58] + [0x7D, 0x03]
  {
    FlippedMarks();
    hide XorByte;
    assert [0x23][..0] == [] && EscapeAll([0x23]) == [] + Escape(0x23);
  }

  /** The text encoder escapes nothing: a payload comes back exactly if it holds no mark and no brace and is in time. */
  lemma TextRoundTripIff(payload: seq<byte>, calls: nat, outSize: nat)
    requires |payload| < outSize
    ensures ReadResponse(Arriving(Packet(payload)), calls, outSize) == Response(Ok, payload)
            <==> HASH !in payload && BRACE !in payload && |payload| + 1 < calls
  {
    hide ReadBody;
    var trailer := Arriving([HASH] + CheckDigits(payload));
    var packet := Arriving(Packet(payload));
    assert packet[0] == Byte(DOLLAR) && packet[1..] == Arriving(payload) + trailer;
    if calls > 0 {
      if HASH !in payload && BRACE !in payload {
        ReadPlain(payload, trailer, calls - 1, outSize - 1, DOLLAR);
        if |payload| < calls {
          BodyEnds(trailer, calls - 1 - |payload|, outSize - 1 - |payload|, LastOf(payload, DOLLAR));
          assert payload + [] == payload;
        }
      } else {
        TextLosesLength(payload, trailer, calls - 1, outSize - 1, DOLLAR);
      }
    }
  }

  /** Where the first mark or brace is. */
  lemma FirstSpecial(payload: seq<byte>) returns (k: nat)
    requires HASH in payload || BRACE in payload
    ensures k < |payload| && (payload[k] == HASH || payload[k] == BRACE)
    ensures forall i :: 0 <= i < k ==> payload[i] != HASH && payload[i] != BRACE
  {
    k := 0;
    while payload[k] != HASH && payload[k] != BRACE
      invariant k < |payload| && forall i :: 0 <= i < k ==> payload[i] != HASH && payload[i] != BRACE
      decreases |payload| - k
    {
      k := k + 1;
    }
  }

  /** A mark or a brace in the body shortens what is read, changes it, or breaks it off. */
  lemma TextLosesLength(payload: seq<byte>, trailer: seq<Arrival>, calls: nat, room: nat, last: byte)
    requires (HASH in payload || BRACE in payload) && |payload| <= room
    requires |trailer| == 3 && trailer[0] == Byte(HASH) && last != HASH
    ensures var r := ReadBody(Arriving(payload) + trailer, calls, room, last);
            r.status == Ok ==> r.text != payload
  {
    hide ReadBody, Arriving;
    var k := FirstSpecial(payload);
    var (plain, special) := (payload[..k], payload[k..]);
    var input := Arriving(special) + trailer;
    ArrivingCut(payload, k, trailer);
    ReadPlain(plain, input, calls, room, last);
    if k <= calls {
      var before := LastOf(plain, last);
      assert special[0] == payload[k] && input[0] == Byte(special[0]);
      SpecialLosesLength(special, input, calls - k, room - k, before);
      SameFront(payload, k, ReadBody(input, calls - k, room - k, before).text);
    }
  }

  lemma ArrivingCut(payload: seq<byte>, k: nat, trailer: seq<Arrival>)
    requires k <= |payload|
    ensures Arriving(payload) + trailer == Arriving(payload[..k]) + (Arriving(payload[k..]) + trailer)
  {
    assert payload == payload[..k] + payload[k..];
    ArrivingAppend(payload[..k], payload[k..]);
    hide Arriving;
  }

  lemma SameFront(payload: seq<byte>, k: nat, text: seq<byte>)
    requires k <= |payload|
    ensures payload[..k] + text == payload <==> text == payload[k..]
  {
    assert payload == payload[..k] + payload[k..];
    assert (payload[..k] + text)[k..] == text;
  }

  lemma SpecialLosesLength(payload: seq<byte>, input: seq<Arrival>, calls: nat, room: nat, last: byte)
    requires payload != [] && (payload[0] == HASH || payload[0] == BRACE) && last != HASH
    requires |input| == |payload| + 3 && input[0] == Byte(payload[0])
    ensures var r := ReadBody(input, calls, room, last);
            r.status == Ok ==> r.text != payload
  {
    hide XorByte, ReadBody;
    BodyEnds(input, calls, room, last);
    if calls > 0 && payload[0] == BRACE && input[1].Byte? { BraceLosesLength(payload, input, calls, room, last); }
  }

  lemma BraceLosesLength(payload: seq<byte>, input: seq<Arrival>, calls: nat, room: nat, last: byte)
    requires payload != [] && payload[0] == BRACE && calls > 0
    requires |input| == |payload| + 3 && input[0] == Byte(BRACE) && input[1].Byte?
    ensures var r := ReadBody(input, calls, room, last);
            r.status == Ok ==> r.text != payload
  {
    hide XorByte, ReadBody;
    var ch := XorByte(input[1].value, 0x20);
    BodyContinues(input, calls, 2, ch, room, last);
    if room > 0 { TextNoLonger(input[2..], Less(calls, 2), room - 1, ch); }
  }

  /** A successful read takes at least three characters beyond its text, two if the deadline passed before. */
  lemma {:induction false} TextNoLonger(input: seq<Arrival>, calls: nat, room: nat, last: byte)
    ensures var r := ReadBody(input, calls, room, last);
            r.status == Ok ==> |r.text| + (if last == HASH then 2 else 3) <= |input|
    decreases |input|
  {
    hide XorByte;
    if calls == 0 || input == [] { return; }
    if input[0].Nothing? {
      TextNoLonger(input[1..], calls - 1, room, last);
    } else if room > 0 && input[0].value != HASH {
      if input[0].value != BRACE {
        TextNoLonger(input[1..], Less(calls, 1), room - 1, input[0].value);
      } else if |input| > 1 && input[1].Byte? {
        TextNoLonger(input[2..], Less(calls, 2), room - 1, XorByte(input[1].value, 0x20));
      }
    }
  }
}
