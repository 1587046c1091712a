/** Packets hit on the way: which ones are delivered, and what becomes of the packets behind them. */
module PacketDamage {
  import opened Bytes
  import opened Packet

  // When a packet is delivered.

  /** The body behind an announced length; for the length 0 one byte is read all the same. */
  predicate BodyOf(length: byte, body: seq<byte>) {
    length <= 200 && |body| == if length == 0 then 1 else length
  }

  /** The data bytes, for any announced length. */
  lemma CollectBody(s: State, body: seq<byte>)
    requires s.Valid() && s.status == Data && s.body == [] && s.crc == 0 && BodyOf(s.length, body)
    ensures AllFit(s, body)
    ensures Run(s, body) == s.(body := body, crc := XorAll(body), status := Crc)
  {
    assert XorAll([]) == 0;
    if s.length == 0 {
      assert body[1..] == [] && [] + [body[0]] == body && body[..0] == [];
    } else {
      Collect(s, body);
      assert s.body + body == body;
    }
  }

  lemma TwoMore(s: State, c: byte, e: byte)
    requires s.Valid() && s.status == Crc
    ensures AllFit(s, [c, e])
    ensures var r := Run(s, [c, e]);
            && r.delivered == s.delivered + (if c == s.crc && e == 0x03 then [s.body[..s.length]] else [])
            && Idle(r) && (r.status == StxLower <==> c != s.crc && e == 0xFF)
  {
    assert [c, e][1..] == [e] && [e][1..] == [];
    var s1 := Step(s, c);
    var s2 := Step(s1, e);
    assert AllFit(s2, []) && AllFit(s1, [e]);
    assert Run(s1, [e]) == Run(s2, []) == s2;
    assert s.delivered + [] == s.delivered;
  }

  /**
   * After a start sequence, an admissible length and a whole body, the packet is delivered exactly if the next byte
   * is the exclusive-or of the body and the one after it is 0x03; otherwise nothing is. The parser is then between
   * packets again.
   */
  lemma DeliveredIff(s: State, length: byte, body: seq<byte>, c: byte, e: byte)
    requires Idle(s) && BodyOf(length, body)
    ensures var input := [0xFF, 0xFE, length] + body + [c, e];
            && AllFit(s, input)
            && var r := Run(s, input);
            && r.delivered == s.delivered + (if c == XorAll(body) && e == 0x03 then [body[..length]] else [])
            && Idle(r) && (r.status == StxLower <==> c != XorAll(body) && e == 0xFF)
  {
    hide Step, Run, AllFit, XorAll;
    var head: seq<byte> := [0xFF, 0xFE, length];
    HeadRead(s, length);
    CollectBody(Run(s, head), body);
    RunAppend(s, head, body);
    TwoMore(Run(s, head + body), c, e);
    RunAppend(s, head + body, [c, e]);
  }

  // One byte hit.

  lemma XorInjective(x: byte, y: byte, z: byte)
    ensures XorByte(x, z) == XorByte(y, z) <==> x == y
    ensures XorByte(z, x) == XorByte(z, y) <==> x == y
  {
    XorInvolution(x, z);
    XorInvolution(y, z);
    XorSwap(z, x);
    XorSwap(z, y);
  }

  lemma {:induction false} XorSwap(x: nat, y: nat)
    ensures Xor(x, y) == Xor(y, x)
    decreases x + y
  {
    if x != 0 || y != 0 { XorSwap(x / 2, y / 2); }
  }

  /** Altering one byte alters the exclusive-or. */
  lemma {:induction false} XorAltered(s: seq<byte>, k: nat, v: byte)
    requires k < |s| && v != s[k]
    ensures XorAll(s[k := v]) != XorAll(s)
  {
    hide XorByte;
    var n := |s| - 1;
    var t := s[k := v];
    if k == n {
      assert t[..n] == s[..n];
      XorInjective(v, s[k], XorAll(s[..n]));
    } else {
      assert t[..n] == s[..n][k := v];
      XorAltered(s[..n], k, v);
      XorInjective(XorAll(t[..n]), XorAll(s[..n]), s[n]);
    }
  }

  /** A packet as it arrives: intact, or with a byte behind the length altered. */
  datatype Arrival = Intact(m: Message) | Hit(m: Message, at: nat, value: byte) {
    predicate Valid() {
      m.Sendable() && (Hit? ==> 3 <= at < |m.payload| + 7 && value != Frame(m)[at])
    }

    function Bytes(): seq<byte>
      requires Valid()
    {
      if Intact? then Frame(m) else Frame(m)[at := value]
    }
  }

  /** A packet with one byte of its body, its checksum or its end byte altered is not delivered. */
  lemma HitIsDropped(s: State, a: Arrival)
    requires Idle(s) && a.Valid()
    ensures AllFit(s, a.Bytes())
    ensures var r := Run(s, a.Bytes());
            Idle(r) && r.status == StxUpper && r.delivered == s.delivered + if a.Intact? then [a.m.Body()] else []
  {
    hide Step, Run, AllFit, XorAll;
    var (body, n) := (a.m.Body(), |a.m.payload| + 2);
    var frame := Frame(a.m);
    var crc := XorAll(body);
    if a.Intact? {
      DeliveredIff(s, n, body, crc, 0x03);
      assert frame == [0xFF, 0xFE, n] + body + [crc, 0x03] && body[..n] == body;
    } else if a.at < 3 + n {
      var body' := body[a.at - 3 := a.value];
      XorAltered(body, a.at - 3, a.value);
      DeliveredIff(s, n, body', crc, 0x03);
      assert frame[a.at := a.value] == [0xFF, 0xFE, n] + body' + [crc, 0x03];
    } else {
      var (c, e) := (frame[a.at := a.value][3 + n], frame[a.at := a.value][4 + n]);
      DeliveredIff(s, n, body, c, e);
      assert frame[a.at := a.value] == [0xFF, 0xFE, n] + body + [c, e];
    }
  }

  predicate AllValid(arrivals: seq<Arrival>) {
    forall i :: 0 <= i < |arrivals| ==> arrivals[i].Valid()
  }

  /** A stream of arrivals: noise before every packet and after the last. */
  function Stream(noises: seq<seq<byte>>, arrivals: seq<Arrival>): seq<byte>
    requires |noises| == |arrivals| + 1 && AllValid(arrivals)
  {
    if arrivals == [] then noises[0]
    else noises[0] + arrivals[0].Bytes() + Stream(noises[1..], arrivals[1..])
  }

  function Intacts(arrivals: seq<Arrival>): seq<seq<byte>>
    requires AllValid(arrivals)
  {
    if arrivals == [] then [] else
      (if arrivals[0].Intact? then [arrivals[0].m.Body()] else []) + Intacts(arrivals[1..])
  }

  /** Exactly the intact packets of a stream are delivered, in order, whatever became of those between them. */
  lemma {:induction false} IntactDelivered(s: State, noises: seq<seq<byte>>, arrivals: seq<Arrival>)
    requires Idle(s)
    requires |noises| == |arrivals| + 1 && AllValid(arrivals)
    requires Quiet(noises[0], s.status == StxLower) && forall i :: 0 < i < |noises| ==> Quiet(noises[i], false)
    ensures AllFit(s, Stream(noises, arrivals))
    ensures var r := Run(s, Stream(noises, arrivals));
            Idle(r) && r.delivered == s.delivered + Intacts(arrivals)
    decreases |arrivals|
  {
    hide Step, Run, AllFit, Frame, Message.Body, Quiet, Arrival.Bytes, Arrival.Valid, Stream, Intacts;
    ArrivalParts(noises, arrivals);
    if arrivals == [] {
      QuietKeepsIdle(s, noises[0]);
      assert s.delivered + [] == s.delivered;
    } else {
      var s2 := AfterArrival(s, noises[0], arrivals[0]);
      IntactDelivered(s2, noises[1..], arrivals[1..]);
      RunAppend(s, noises[0] + arrivals[0].Bytes(), Stream(noises[1..], arrivals[1..]));
    }
  }

  lemma ArrivalParts(noises: seq<seq<byte>>, arrivals: seq<Arrival>)
    requires |noises| == |arrivals| + 1 && AllValid(arrivals)
    ensures arrivals == [] ==> Stream(noises, arrivals) == noises[0] && Intacts(arrivals) == []
    ensures arrivals != [] ==>
              && arrivals[0].Valid() && AllValid(arrivals[1..])
              && Stream(noises, arrivals) == noises[0] + arrivals[0].Bytes() + Stream(noises[1..], arrivals[1..])
              && Intacts(arrivals) ==
                 (if arrivals[0].Intact? then [arrivals[0].m.Body()] else []) + Intacts(arrivals[1..])
  {
  }

  /** Noise, then an arrival. */
  lemma AfterArrival(s: State, noise: seq<byte>, a: Arrival) returns (r: State)
    requires Idle(s) && Quiet(noise, s.status == StxLower) && a.Valid()
    ensures AllFit(s, noise + a.Bytes()) && r == Run(s, noise + a.Bytes())
    ensures Idle(r) && r.status == StxUpper
    ensures r.delivered == s.delivered + if a.Intact? then [a.m.Body()] else []
  {
    hide Step, Run, AllFit, Frame, Message.Body, Quiet, Arrival.Bytes;
    QuietKeepsIdle(s, noise);
    HitIsDropped(Run(s, noise), a);
    RunAppend(s, noise, a.Bytes());
    r := Run(s, noise + a.Bytes());
  }

  /** A whole packet, byte by byte. */
  lemma SampleFrame()
    ensures Message(0x0102, [7]).Sendable()
    ensures Frame(Message(0x0102, [7])) == [0xFF, 0xFE, 3, 1, 2, 7, 4, 3]
  {
    var body := Message(0x0102, [7]).Body();
    assert body == [1, 2, 7] && body[..2] == [1, 2] && [1, 2][..1] == [1] && [1][..0] == [];
    assert Xor(0, 1) == 1 && Xor(1, 2) == 3 && Xor(3, 7) == 4;
    assert XorAll(body) == 4;
  }
}
