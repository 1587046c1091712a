/** The Intel HEX reader: one character at a time, a callback per record. */
module IhexReader {
  import opened Bytes
  import opened Hex
  import opened Overlay
  import opened Records
  import opened ImageContext

  const MARK: byte := ':' as int

  const DATA := 0
  const END_OF_FILE := 1
  const EXTENDED_SEGMENT := 2
  const EXTENDED_LINEAR := 4

  datatype Field = Count | AddressHigh | AddressLow | RecordType | Payload

  /** The digit expected next: the first or the second one of a field. */
  datatype Phase = Waiting | First(field: Field) | Second(field: Field)

  /** The reader's fields; the 32-bit address is kept as its upper half and the record's offset. */
  datatype Fields = Fields(phase: Phase, rtype: nat, upper: nat, offset: nat, segment: nat,
                           lineLength: nat, length: nat, data: seq<byte>, events: seq<Event>)
  {
    predicate Bounded() {
      && |data| == 256
      && length <= lineLength <= 255
      && rtype < 8
      && upper < 0x1_0000 && offset < 0x1_0000
      && segment < 0x1_0000
    }

    /** Holds in every reachable state; in particular length <= lineLength <= 255. */
    predicate Valid() {
      && Bounded()
      && (phase.Second? ==> data[length] % 16 == 0)
      && (phase != First(Payload) && phase != Second(Payload) ==> length == 0 && rtype == 0)
      && (phase == First(AddressLow) || phase == Second(AddressLow) ==> offset % 256 == 0)
    }

    function LinearAddress(): nat { (upper * 0x1_0000 + offset + segment * 16) % 0x100_0000 }

    /** All bytes of the record, its checksum byte included, add up to 0 mod 256. */
    predicate ChecksumHolds()
      requires Bounded()
    {
      (length + rtype + offset % 256 + offset / 256 + Sum(data[..length]) + data[length]) % 256 == 0
    }

    function Callback(): Event
      requires Bounded()
    {
      Event(rtype, LinearAddress(), data[..length], rtype == DATA, !ChecksumHolds(), length < lineLength)
    }
  }

  type State = s: Fields | s.Valid()
    witness Fields(Waiting, 0, 0, 0, 0, 0, 0, Fill(256, 0), [])

  function BigEndian(high: byte, low: byte): (v: nat)
    ensures v < 0x1_0000
  {
    var h: int := high;
    h * 256 + low
  }

  /** Close the record read so far: an empty data record is dropped, any other is called back. */
  function End(s: Fields): (r: Fields)
    requires s.Bounded()
    ensures r.Bounded() && r.length == 0 && r.rtype == 0 && r.phase == s.phase
  {
    if s.length == 0 && s.rtype == DATA then s else
      var e := s.Callback();
      var s' := s.(events := s.events + [e], length := 0, rtype := 0);
      if e.Faulty() then s'
      else if s.rtype == EXTENDED_LINEAR then
        s'.(upper := BigEndian(s.data[0], s.data[1]))
      else if s.rtype == EXTENDED_SEGMENT then
        s'.(segment := BigEndian(s.data[0], s.data[1]))
      else s'
  }

  lemma EndKeepsPhase(s: Fields, p: Phase)
    requires s.Bounded()
    ensures End(s.(phase := p)) == End(s).(phase := p)
  {
  }

  function Step(s: State, t: Token): State
  {
    match t
    case Mark => End(s).(phase := First(Count))
    case Digit(n) =>
      match s.phase
      case Waiting => s.(data := s.data[s.length := OrByte(s.data[s.length], n)])
      case First(f) => s.(data := s.data[s.length := n * 16], phase := Second(f))
      case Second(f) =>
        var b: byte := s.data[s.length] + n;
        var s' := s.(data := s.data[s.length := b]);
        match f
        case Count => s'.(lineLength := b, phase := First(AddressHigh))
        case AddressHigh => s'.(offset := BigEndian(b, 0), phase := First(AddressLow))
        case AddressLow => s'.(offset := s.offset + b, phase := First(RecordType))
        case RecordType => if b < 8 then s'.(rtype := b, phase := First(Payload)) else s'.(phase := Waiting)
        case Payload =>
          if s.length < s.lineLength then s'.(length := s.length + 1, phase := First(Payload))
          else End(s').(phase := Waiting)
  }

  function Run(s: State, ts: seq<Token>): State
    decreases |ts|
  {
    if ts == [] then s else Run(Step(s, ts[0]), ts[1..])
  }

  lemma {:induction false} RunAppend(s: State, a: seq<Token>, b: seq<Token>)
    ensures Run(s, a + b) == Run(Run(s, a), b)
    decreases |a|
  {
    if a == [] {
      assert a + b == b;
    } else {
      assert (a + b)[1..] == a[1..] + b;
      RunAppend(Step(s, a[0]), a[1..], b);
    }
  }

  /** Running over characters: noise changes nothing. */
  lemma RunText(s: State, text: seq<byte>)
    requires text != []
    ensures Run(s, Tokens(text, MARK)) ==
            Run(if TokenOf(text[0], MARK) == [] then s else Step(s, TokenOf(text[0], MARK)[0]), Tokens(text[1..], MARK))
  {
    var head := TokenOf(text[0], MARK);
    assert head + Tokens(text[1..], MARK) == Tokens(text, MARK);
    if head == [] {
      assert [] + Tokens(text[1..], MARK) == Tokens(text[1..], MARK);
    } else {
      assert Tokens(text, MARK)[1..] == Tokens(text[1..], MARK);
    }
  }

  function Start(junk: seq<byte>): State
    requires |junk| == 256
  {
    Fields(Waiting, 0, 0, 0, 0, 0, 0, junk, [])
  }

  /** The callbacks of a whole text; the record buffer starts out uninitialised. */
  function Callbacks(text: seq<byte>, junk: seq<byte>): seq<Event>
    requires |junk| == 256
  {
    End(Run(Start(junk), Tokens(text, MARK))).events
  }
}
