/** The Motorola S-record reader: one character at a time, a callback per record. */
module SrecReader {
  import opened Bytes
  import opened Hex
  import opened Overlay
  import opened Records

  const MARK: byte := 'S' as int

  const MAX_BYTE_COUNT := 37

  /** What the next digit is. In Overrun a digit has been stored beyond the record buffer. */
  datatype Phase = Waiting | TypeDigit | CountFirst | CountSecond | DataFirst | DataSecond | Overrun

  /** Number of address bytes of a record type. */
  function AddressByteCount(rtype: nat): (n: nat)
    ensures 2 <= n <= 4
  {
    2 + if rtype % 2 == 1 || rtype == 0 then (if rtype / 2 % 2 == 1 then 2 else 0) else 1
  }

  predicate IsData(rtype: nat) { 1 <= rtype <= 3 }

  /** Most significant byte first. */
  function BigEndian(bytes: seq<byte>): nat {
    if bytes == [] then 0 else BigEndian(bytes[..|bytes| - 1]) * 256 + bytes[|bytes| - 1]
  }

  datatype Fields = Fields(phase: Phase, rtype: nat, byteCount: nat, length: nat, data: seq<byte>, events: seq<Event>) {
    predicate Bounded() {
      |data| == MAX_BYTE_COUNT + 1 && length <= |data| && byteCount < 256 && rtype < 16
    }

    /**
     * Holds in every reachable state. A record of byte count 0 may leave length above the count, so that
     * length <= byteCount is not part of it.
     */
    predicate Valid() {
      && Bounded()
      && match phase
         case DataFirst => length < |data| && byteCount <= MAX_BYTE_COUNT
         case DataSecond => length < |data| && byteCount <= MAX_BYTE_COUNT && data[length] % 16 == 0
         case CountSecond => length < |data| && byteCount == 0 && data[length] % 16 == 0
         case Overrun => length == |data| && byteCount == 0
         case _ => byteCount == 0
    }

    predicate ChecksumHolds()
      requires Bounded()
    {
      (length + Sum(data[..length]) + 1) % 256 == 0
    }

    /** The bytes between the address and the checksum. */
    function Payload(): seq<byte>
      requires Bounded()
    {
      var a := AddressByteCount(rtype);
      if length > a then data[a..length - 1] else []
    }

    function Callback(): Event
      requires Bounded()
    {
      Event(rtype, BigEndian(data[..AddressByteCount(rtype)]), Payload(),
            IsData(rtype) && Payload() != [], !ChecksumHolds(), length != byteCount)
    }
  }

  type State = s: Fields | s.Valid()
    witness Fields(Waiting, 0, 0, 0, Fill(MAX_BYTE_COUNT + 1, 0), [])

  /** Close the record read so far; before the count is known there is nothing to close. */
  function End(s: Fields): (r: Fields)
    requires s.Bounded()
    ensures r.Bounded() && r.phase == s.phase && r.byteCount == 0
    ensures r.length == if s.byteCount > 0 then 0 else s.length
  {
    if s.byteCount == 0 then s
    else s.(events := s.events + [s.Callback()], rtype := 0, length := 0, byteCount := 0)
  }

  lemma EndKeepsPhase(s: Fields, p: Phase)
    requires s.Bounded()
    ensures End(s.(phase := p)) == End(s).(phase := p)
  {
  }

  /** Every digit but the type digit is stored at data[length]. */
  predicate Stores(s: Fields, t: Token) { t.Digit? && s.phase != TypeDigit }

  function Step(s: State, t: Token): State {
    if s.phase == Overrun then s
    else if Stores(s, t) && s.length == |s.data| then s.(phase := Overrun)
    else
      match t
      case Mark => End(s).(phase := TypeDigit)
      case Digit(n) =>
        match s.phase
        case Waiting => s.(data := s.data[s.length := OrByte(s.data[s.length], n)])
        case TypeDigit => s.(rtype := n, phase := CountFirst)
        case CountFirst => s.(data := s.data[s.length := n * 16], phase := CountSecond)
        case CountSecond =>
          var b: byte := s.data[s.length] + n;
          var s' := s.(data := s.data[s.length := b], byteCount := b);
          if b > MAX_BYTE_COUNT then End(s').(phase := Waiting) else s'.(phase := DataFirst)
        case DataFirst => s.(data := s.data[s.length := n * 16], phase := DataSecond)
        case DataSecond =>
          var s' := s.(data := s.data[s.length := s.data[s.length] + n], length := s.length + 1);
          if s'.length < s.byteCount then s'.(phase := DataFirst) else End(s').(phase := Waiting)
  }

  function Run(s: State, ts: seq<Token>): State
    decreases |ts|
  {
    if ts == [] then s else Run(Step(s, ts[0]), ts[1..])
  }

  lemma {:induction false} RunAppend(s: State, a: seq<Token>, b: seq<Token>)
    ensures Run(s, a + b) == Run(Run(s, a), b)
    decreases |a|
  {
    if a == [] {
      assert a + b == b;
    } else {
      assert (a + b)[1..] == a[1..] + b;
      RunAppend(Step(s, a[0]), a[1..], b);
    }
  }

  lemma {:induction false} OverrunForGood(s: State, ts: seq<Token>)
    requires s.phase == Overrun
    ensures Run(s, ts) == s
    decreases |ts|
  {
    if ts != [] { OverrunForGood(s, ts[1..]); }
  }

  /** Running over characters: noise changes nothing. */
  lemma RunText(s: State, text: seq<byte>)
    requires text != []
    ensures Run(s, Tokens(text, MARK)) ==
            Run(if TokenOf(text[0], MARK) == [] then s else Step(s, TokenOf(text[0], MARK)[0]), Tokens(text[1..], MARK))
  {
    var head := TokenOf(text[0], MARK);
    assert head + Tokens(text[1..], MARK) == Tokens(text, MARK);
    if head == [] {
      assert [] + Tokens(text[1..], MARK) == Tokens(text[1..], MARK);
    } else {
      assert Tokens(text, MARK)[1..] == Tokens(text[1..], MARK);
    }
  }

  function Start(junk: seq<byte>): State
    requires |junk| == MAX_BYTE_COUNT + 1
  {
    Fields(Waiting, 0, 0, 0, junk, [])
  }

  function Final(text: seq<byte>, junk: seq<byte>): State
    requires |junk| == MAX_BYTE_COUNT + 1
  {
    Run(Start(junk), Tokens(text, MARK))
  }

  /** The callbacks of a whole text; the record buffer starts out uninitialised. */
  function Callbacks(text: seq<byte>, junk: seq<byte>): seq<Event>
    requires |junk| == MAX_BYTE_COUNT + 1
  {
    End(Final(text, junk)).events
  }
}
