/** Segmented transfer over CAN: one first frame, then numbered consecutive frames of seven bytes. */
module CanTransfer {
  import opened Bytes

  const SERVICE: byte := 0x21
  const POSITIVE: byte := 0x61  // SERVICE with the positive response bit 0x40
  const BOARD_ID: nat := 0x1F00007B
  const FIRST_INDEX: byte := 0x21
  const LARGEST := 4094  // the length field has 12 bits and also counts the service id

  type Frame = f: seq<byte> | |f| == 8 witness Fill(8, 0)

  datatype Option<T> = None | Some(value: T)
  datatype Message = Message(id: nat, data: Frame)
  datatype Outcome = Done | Refused | TransmitFailed | Waiting

  // Specification of the sender.

  /** The index byte after x. */
  function NextIndex(x: byte): byte {
    AndBelow(x + 1, 0x2F);
    And(x + 1, 0x2F)
  }

  lemma {:induction false} AndBelow(x: nat, y: nat)
    ensures And(x, y) <= y
    decreases x + y
  {
    if x != 0 && y != 0 { AndBelow(x / 2, y / 2); }
  }

  /** Starting in 0x20..0x2F the low nibble counts modulo 16 and the high one stays. */
  lemma NextIndexCounts(x: byte)
    requires 0x20 <= x < 0x30
    ensures NextIndex(x) == 0x20 + (x + 1) % 16
  {
    hide And;
    var v := x + 1;
    AndStep(v, 0x2F);
    AndStep(v / 2, 0x17);
    AndStep(v / 4, 0xB);
    AndStep(v / 8, 0x5);
    AndTwo(v / 16);
  }

  lemma AndStep(x: nat, y: nat)
    requires x > 0 && y > 0
    ensures And(x, y) == 2 * And(x / 2, y / 2) + if x % 2 == 1 && y % 2 == 1 then 1 else 0
  {
  }

  lemma AndTwo(x: nat)
    requires x == 2 || x == 3
    ensures And(x, 2) == 2
  {
    assert And(1, 1) == 1;
  }

  /** The length counts the service id and is kept in 16 bits. */
  function TotalLength(size: nat): nat {
    (size + 1) % 0x10000
  }

  function FirstFrame(data: seq<byte>, total: nat): Frame
    requires |data| >= 5
  {
    [OrByte(0x10, total / 256 % 16), total % 256, SERVICE] + data[..5]
  }

  function Take(from: nat, total: nat): nat
    requires from <= total
  {
    if total - from >= 7 then 7 else total - from
  }

  function ConsecutiveFrame(data: seq<byte>, from: nat, total: nat, index: byte): Frame
    requires from <= total <= |data|
  {
    var n := Take(from, total);
    [index] + data[from..from + n] + Fill(7 - n, 0)
  }

  function ConsecutiveFrames(data: seq<byte>, from: nat, total: nat, index: byte): seq<Frame>
    requires from >= total || total <= |data|
    decreases total - from
  {
    if from >= total then []
    else [ConsecutiveFrame(data, from, total, index)] +
         ConsecutiveFrames(data, from + Take(from, total), total, NextIndex(index))
  }

  /** Data with the readable slack the sender needs: five bytes, and one past the end. */
  predicate Readable(data: seq<byte>, size: nat) {
    size < 0x10000 && 5 <= |data| && size < |data|
  }

  function Segments(data: seq<byte>, size: nat): seq<Frame>
    requires Readable(data, size)
  {
    var total := TotalLength(size);
    [FirstFrame(data, total)] + ConsecutiveFrames(data, 5, total, FIRST_INDEX)
  }

  // What arrives from the board.

  predicate IsFlowControl(m: Message) {
    m.id == BOARD_ID && m.data[0] / 16 == 3
  }

  /** The messages after the first one the predicate wants, and that one; None if it never comes. */
  function Await(wanted: Message -> bool, inbox: seq<Message>): Option<(Message, seq<Message>)> {
    if inbox == [] then None
    else if wanted(inbox[0]) then Some((inbox[0], inbox[1..]))
    else Await(wanted, inbox[1..])
  }

  predicate FromBoard(m: Message) {
    m.id == BOARD_ID
  }

  predicate IsPositive(m: Message) {
    m.data[0] / 16 == 0 && m.data[1] == POSITIVE
  }

  /** How a transfer of n frames ends, and how many are sent, on a bus that takes `accepts` more frames. */
  function Exchange(n: nat, accepts: nat, inbox: seq<Message>): (Outcome, nat)
    requires n > 0
  {
    if accepts == 0 then (TransmitFailed, 0) else
      match Await(IsFlowControl, inbox)
      case None => (Waiting, 1)
      case Some((_, rest)) =>
        if accepts < n then (TransmitFailed, accepts) else
          match Await(FromBoard, rest)
          case None => (Waiting, n)
          case Some((answer, _)) => (if IsPositive(answer) then Done else Refused, n)
  }

  // What the inbox decides.

  /** Message i is the first from the board at or behind position from. */
  ghost predicate FirstAnswer(inbox: seq<Message>, from: int, i: int) {
    && 0 <= from <= i < |inbox| && inbox[i].id == 0x1F00007B
    && forall k :: from <= k < i ==> inbox[k].id != 0x1F00007B
  }

  /** A flow control frame from the board. */
  predicate Control(m: Message) { m.id == 0x1F00007B && 0x30 <= m.data[0] < 0x40 }

  /** Message i is the first flow control frame. */
  ghost predicate FirstControl(inbox: seq<Message>, i: int) {
    && 0 <= i < |inbox| && Control(inbox[i])
    && forall k :: 0 <= k < i ==> !Control(inbox[k])
  }

  /** Message i is the first flow control frame, and message j the board's first message after it. */
  ghost predicate Answered(inbox: seq<Message>, i: int, j: int) {
    FirstControl(inbox, i) && FirstAnswer(inbox, i + 1, j)
  }

  /** A single frame with the positive response to the service. */
  predicate Positive(m: Message) { m.data[0] < 0x10 && m.data[1] == 0x61 }

  lemma {:induction false} AwaitFinds(wanted: Message -> bool, inbox: seq<Message>) returns (i: nat)
    ensures i <= |inbox| && (forall k :: 0 <= k < i ==> !wanted(inbox[k])) && (i < |inbox| ==> wanted(inbox[i]))
    ensures Await(wanted, inbox) == if i < |inbox| then Some((inbox[i], inbox[i + 1..])) else None
  {
    if inbox == [] || wanted(inbox[0]) {
      i := 0;
    } else {
      var j := AwaitFinds(wanted, inbox[1..]);
      i := j + 1;
    }
  }

  /**
   * How a transfer of n frames ends, by positions in the inbox, and how many frames are sent: done exactly if the bus
   * takes all frames, a flow control frame comes, and the board's next message is the positive response.
   */
  ghost predicate Ends(n: nat, accepts: nat, inbox: seq<Message>, o: Outcome, sent: nat) {
    && (o == Done <==> accepts >= n && exists i, j :: Answered(inbox, i, j) && Positive(inbox[j]))
    && (o == Refused <==> accepts >= n && exists i, j :: Answered(inbox, i, j) && !Positive(inbox[j]))
    && (o == TransmitFailed <==> accepts == 0 || (accepts < n && exists i :: FirstControl(inbox, i)))
    && (o == Waiting <==> accepts > 0 && ((!exists i :: FirstControl(inbox, i))
                                          || (accepts >= n && !exists i, j :: Answered(inbox, i, j))))
    && sent == if accepts == 0 then 0 else if !exists i :: FirstControl(inbox, i) then 1
               else if accepts < n then accepts else n
  }

  lemma ExchangeEnds(n: nat, accepts: nat, inbox: seq<Message>)
    requires n > 0
    ensures var (o, sent) := Exchange(n, accepts, inbox); Ends(n, accepts, inbox, o, sent)
  {
    var i := AwaitFinds(IsFlowControl, inbox);
    var (o, sent) := Exchange(n, accepts, inbox);
    if i < |inbox| {
      assert FirstControl(inbox, i);
      var rest := inbox[i + 1..];
      var j := AwaitFinds(FromBoard, rest);
      assert forall k :: i < k < i + 1 + j ==> inbox[k] == rest[k - i - 1];
      AnswerBehind(inbox, i, i + 1 + j);
    } else {
      assert forall k :: 0 <= k < |inbox| ==> !Control(inbox[k]);
    }
  }

  /** The board's first message behind the flow control frame, if there is one. */
  lemma AnswerBehind(inbox: seq<Message>, i: nat, j: nat)
    requires FirstControl(inbox, i) && i < j <= |inbox|
    requires forall k :: i < k < j ==> inbox[k].id != 0x1F00007B
    requires j < |inbox| ==> inbox[j].id == 0x1F00007B
    ensures j < |inbox| ==> Answered(inbox, i, j)
    ensures forall i', j' :: Answered(inbox, i', j') ==> j < |inbox| && i' == i && j' == j
  {
  }

  // The sender.

  class Bus {
    var sent: seq<Frame>
    var accepts: nat
    var inbox: seq<Message>

    constructor (accepts: nat, inbox: seq<Message>)
      ensures sent == [] && this.accepts == accepts && this.inbox == inbox
    {
      sent, this.accepts, this.inbox := [], accepts, inbox;
    }

    method Transmit(f: Frame) returns (ok: bool)
      modifies this`sent, this`accepts
      ensures ok == (old(accepts) > 0)
      ensures ok ==> sent == old(sent) + [f] && accepts == old(accepts) - 1
      ensures !ok ==> sent == old(sent) && accepts == 0
    {
      ok := accepts > 0;
      if ok {
        accepts := accepts - 1;
        sent := sent + [f];
      }
    }

    /** Drop messages until a wanted one; false when the inbox runs dry first. */
    method Listen(wanted: Message -> bool) returns (found: bool, m: Message)
      modifies this`inbox
      ensures found == Await(wanted, old(inbox)).Some?
      ensures found ==> Await(wanted, old(inbox)) == Some((m, inbox))
    {
      m := Message(0, Fill(8, 0));
      found := false;
      while inbox != [] && !found
        invariant !found ==> Await(wanted, inbox) == Await(wanted, old(inbox))
        invariant found ==> Await(wanted, old(inbox)) == Some((m, inbox))
        decreases |inbox|, !found
      {
        m := inbox[0];
        inbox := inbox[1..];
        found := wanted(m);
      }
    }

    /** The loop of consecutive frames, up to the first the bus refuses. */
    method SendRest(data: seq<byte>, total: nat) returns (ok: bool)
      requires 5 >= total || total <= |data|
      modifies this`sent, this`accepts
      ensures var rest := ConsecutiveFrames(data, 5, total, FIRST_INDEX);
              && ok == (|rest| <= old(accepts))
              && sent == old(sent) + rest[..if ok then |rest| else old(accepts)]
    {
      hide NextIndex, ConsecutiveFrame;
      ghost var rest := ConsecutiveFrames(data, 5, total, FIRST_INDEX);
      var lengthSent := 5;
      var index := FIRST_INDEX;
      ghost var k := 0;
      while lengthSent < total
        invariant k <= |rest| && k <= old(accepts)
        invariant sent == old(sent) + rest[..k] && accepts == old(accepts) - k
        invariant rest[k..] == ConsecutiveFrames(data, lengthSent, total, index)
        decreases total - lengthSent
      {
        var txBuff := ConsecutiveFrame(data, lengthSent, total, index);
        assert rest[k..][0] == txBuff && rest[k..][1..] == rest[k + 1..];
        ok := Transmit(txBuff);
        if !ok { return false; }
        lengthSent := lengthSent + Take(lengthSent, total);
        index := NextIndex(index);
        k := k + 1;
      }
      assert k == |rest|;
      ok := true;
    }

    method SendUserSoftware(data: seq<byte>, size: nat) returns (outcome: Outcome)
      requires Readable(data, size)
      modifies this
      ensures var frames := Segments(data, size);
              var (o, n) := Exchange(|frames|, old(accepts), old(inbox));
              && outcome == o && n <= |frames| && sent == old(sent) + frames[..n]
              && Ends(|frames|, old(accepts), old(inbox), outcome, n)
    {
      hide NextIndex, OrByte, FirstFrame, ConsecutiveFrame, ConsecutiveFrames, Await, Ends;
      var total := TotalLength(size);
      ghost var frames := Segments(data, size);
      ghost var rest := ConsecutiveFrames(data, 5, total, FIRST_INDEX);
      assert frames[..0] == [] && frames[..1] == [FirstFrame(data, total)];
      ExchangeEnds(|frames|, accepts, inbox);
      var ok := Transmit(FirstFrame(data, total));
      if !ok { return TransmitFailed; }
      var found, m := Listen(IsFlowControl);
      if !found { return Waiting; }
      ghost var taken := accepts;
      ok := SendRest(data, total);
      ghost var k := if ok then |rest| else taken;
      assert [FirstFrame(data, total)] + rest[..k] == frames[..k + 1];
      if !ok { return TransmitFailed; }
      found, m := Listen(FromBoard);
      if !found { return Waiting; }
      outcome := if IsPositive(m) then Done else Refused;
    }
  }

  // A receiver: the 12-bit length from the first frame, then frames in sequence until it is reached.

  datatype Receiver = Idle | Collecting(total: nat, got: seq<byte>, next: nibble)
    | Complete(message: seq<byte>) | Broken

  function Collect(total: nat, got: seq<byte>, next: nibble): Receiver {
    if |got| >= total then Complete(got[..total]) else Collecting(total, got, next)
  }

  function LengthField(f: Frame): nat {
    var high: nat := f[0] % 16;
    high * 256 + f[1]
  }

  function Accept(r: Receiver, f: Frame): Receiver {
    match r
    case Idle => if f[0] / 16 == 1 then Collect(LengthField(f), f[2..], 1) else Broken
    case Collecting(total, got, next) =>
      if f[0] / 16 == 2 && f[0] % 16 == next then Collect(total, got + f[1..], (next + 1) % 16) else Broken
    case Complete(_) => r
    case Broken => r
  }

  function Feed(r: Receiver, frames: seq<Frame>): Receiver
    decreases |frames|
  {
    if frames == [] then r else Feed(Accept(r, frames[0]), frames[1..])
  }

  lemma {:induction false} FeedComplete(message: seq<byte>, frames: seq<Frame>)
    ensures Feed(Complete(message), frames) == Complete(message)
    decreases |frames|
  {
    if frames != [] { FeedComplete(message, frames[1..]); }
  }

  /** No message is longer than the length field can say. */
  lemma {:induction false} MessageBound(r: Receiver, frames: seq<Frame>)
    requires r.Idle? || r.Broken? || (r.Collecting? && r.total <= 4095) || (r.Complete? && |r.message| <= 4095)
    ensures var end := Feed(r, frames); end.Complete? ==> |end.message| <= 4095
    decreases |frames|
  {
    if frames != [] { MessageBound(Accept(r, frames[0]), frames[1..]); }
  }

  lemma FirstFrameRead(data: seq<byte>, size: nat)
    requires Readable(data, size) && size <= LARGEST
    ensures Accept(Idle, FirstFrame(data, size + 1)) == Collect(size + 1, [SERVICE] + data[..5], 1)
  {
    hide OrByte;
    var f := FirstFrame(data, size + 1);
    OrOneNibble((size + 1) / 256);
    assert f[2..] == [SERVICE] + data[..5];
  }

  lemma OrOneNibble(x: nibble)
    ensures OrByte(0x10, x) == 0x10 + x
  {
    assert Or(1, 0) == 1;
    assert x / 2 / 2 / 2 / 2 == 0;
    assert Or(8, x / 2) == 8 + x / 2 by {
      assert Or(4, x / 2 / 2) == 4 + x / 2 / 2 by {
        assert Or(2, x / 2 / 2 / 2) == 2 + x / 2 / 2 / 2;
      }
    }
  }

  /** One consecutive frame brings seven more bytes, or completes the message. */
  lemma OneFrame(data: seq<byte>, size: nat, from: nat, index: byte)
    requires size < |data| && 5 <= from <= size && 0x20 <= index < 0x30
    ensures 0x20 <= NextIndex(index) < 0x30
    ensures var f := ConsecutiveFrame(data, from, size + 1, index);
            Accept(Collecting(size + 1, [SERVICE] + data[..from], index % 16), f) ==
            if from + 7 < size then Collecting(size + 1, [SERVICE] + data[..from + 7], NextIndex(index) % 16)
            else Complete([SERVICE] + data[..size])
  {
    hide NextIndex;
    NextIndexCounts(index);
    var total := size + 1;
    var f := ConsecutiveFrame(data, from, total, index);
    var got := [SERVICE] + data[..from] + f[1..];
    if from + 7 <= total {
      assert got == [SERVICE] + data[..from + 7];
    } else {
      assert got == [SERVICE] + data[..total] + Fill(from + 7 - total, 0);
    }
    if from + 7 >= size { assert got[..total] == [SERVICE] + data[..size]; }
  }

  /** From any point of the transfer, the remaining frames complete the message. */
  lemma {:induction false} RestRebuilt(data: seq<byte>, size: nat, from: nat, index: byte)
    requires size < |data| && 5 <= from <= size && 0x20 <= index < 0x30
    ensures Feed(Collecting(size + 1, [SERVICE] + data[..from], index % 16),
                 ConsecutiveFrames(data, from, size + 1, index))
            == Complete([SERVICE] + data[..size])
    decreases size - from
  {
    hide NextIndex, Accept, ConsecutiveFrame;
    var total := size + 1;
    var frames := ConsecutiveFrames(data, from, total, index);
    OneFrame(data, size, from, index);
    assert frames[1..] == ConsecutiveFrames(data, from + Take(from, total), total, NextIndex(index));
    if from + 7 >= size {
      FeedComplete([SERVICE] + data[..size], frames[1..]);
    } else {
      RestRebuilt(data, size, from + 7, NextIndex(index));
    }
  }

  /** The receiver rebuilds the service id and the data exactly when the size fits the length field. */
  lemma RebuiltIff(data: seq<byte>, size: nat)
    requires Readable(data, size)
    ensures Feed(Idle, Segments(data, size)) == Complete([0x21] + data[..size]) <==> size <= 4094
  {
    hide NextIndex, OrByte, Accept, FirstFrame, ConsecutiveFrame, ConsecutiveFrames;
    var frames := Segments(data, size);
    if size <= LARGEST {
      FirstFrameRead(data, size);
      var rest := ConsecutiveFrames(data, 5, size + 1, FIRST_INDEX);
      assert frames[0] == FirstFrame(data, size + 1) && frames[1..] == rest;
      if size >= 6 {
        RestRebuilt(data, size, 5, FIRST_INDEX);
      } else {
        var message := ([SERVICE] + data[..5])[..size + 1];
        assert message == [SERVICE] + data[..size];
        FeedComplete(message, rest);
      }
    } else {
      MessageBound(Idle, frames);
    }
  }

  /** The index bytes run 0x21, 0x22 .. 0x2F, 0x20, 0x21 .. without a gap. */
  lemma {:induction false} IndexesCount(data: seq<byte>, from: nat, total: nat, index: byte, k: nat)
    requires from >= total || total <= |data|
    requires 0x20 <= index < 0x30
    requires k < |ConsecutiveFrames(data, from, total, index)|
    ensures ConsecutiveFrames(data, from, total, index)[k][0] == 0x20 + (index + k) % 16
    decreases k
  {
    hide NextIndex;
    if k > 0 {
      NextIndexCounts(index);
      IndexesCount(data, from + Take(from, total), total, NextIndex(index), k - 1);
    }
  }

  /** Number of consecutive frames: the bytes left, seven to a frame. */
  lemma {:induction false} FrameCount(data: seq<byte>, from: nat, total: nat, index: byte)
    requires from >= total || total <= |data|
    ensures |ConsecutiveFrames(data, from, total, index)| == if from >= total then 0 else (total - from + 6) / 7
    decreases total - from
  {
    hide NextIndex;
    if from < total {
      FrameCount(data, from + Take(from, total), total, NextIndex(index));
    }
  }

  lemma FeedFirst(r: Receiver, frames: seq<Frame>, rest: seq<Frame>, k: nat)
    requires 0 < k <= |frames| && frames == [frames[0]] + rest
    ensures Feed(r, frames[..k]) == Feed(Accept(r, frames[0]), rest[..k - 1])
  {
    hide Accept;
    assert frames[..k][0] == frames[0] && frames[..k][1..] == rest[..k - 1];
  }

  /** Collecting goes on until the received bytes reach the announced length. */
  lemma {:induction false} StillCollecting(data: seq<byte>, size: nat, from: nat, index: byte, k: nat)
    requires size < |data| && 5 <= from <= size && 0x20 <= index < 0x30
    requires k <= |ConsecutiveFrames(data, from, size + 1, index)|
    requires from + 7 * k < size
    ensures Feed(Collecting(size + 1, [SERVICE] + data[..from], index % 16),
                 ConsecutiveFrames(data, from, size + 1, index)[..k]).Collecting?
    decreases k
  {
    hide NextIndex, Accept, ConsecutiveFrame;
    if k > 0 {
      var total := size + 1;
      var frames := ConsecutiveFrames(data, from, total, index);
      var rest := ConsecutiveFrames(data, from + 7, total, NextIndex(index));
      assert frames == [ConsecutiveFrame(data, from, total, index)] + rest;
      hide ConsecutiveFrames;
      OneFrame(data, size, from, index);
      StillCollecting(data, size, from + 7, NextIndex(index), k - 1);
      FeedFirst(Collecting(total, [SERVICE] + data[..from], index % 16), frames, rest, k);
    }
  }

  /** When the bytes left fill whole frames, all frames but the last complete the message. */
  lemma {:induction false} NeededSuffice(data: seq<byte>, size: nat, from: nat, index: byte)
    requires size < |data| && 5 <= from < size && (size - from) % 7 == 0 && 0x20 <= index < 0x30
    ensures var frames := ConsecutiveFrames(data, from, size + 1, index);
            && |frames| > 0
            && Feed(Collecting(size + 1, [SERVICE] + data[..from], index % 16), frames[..|frames| - 1]).Complete?
    decreases size - from
  {
    hide NextIndex, Accept, ConsecutiveFrame;
    var total := size + 1;
    var frames := ConsecutiveFrames(data, from, total, index);
    var rest := ConsecutiveFrames(data, from + 7, total, NextIndex(index));
    FrameCount(data, from + 7, total, NextIndex(index));
    OneFrame(data, size, from, index);
    var most := frames[..|frames| - 1];
    assert most[1..] == rest[..|rest| - 1];
    if from + 7 < size {
      NeededSuffice(data, size, from + 7, NextIndex(index));
    } else {
      FeedComplete([SERVICE] + data[..size], most[1..]);
    }
  }

  /**
   * The sender counts the five bytes of the first frame against a length that includes the service id,
   * so its last frame is one the receiver does not need exactly when size - 5 is a multiple of seven.
   */
  lemma SurplusFrameIff(data: seq<byte>, size: nat)
    requires Readable(data, size) && size <= LARGEST
    ensures var frames := Segments(data, size);
            Feed(Idle, frames[..|frames| - 1]).Complete? <==> (size - 5) % 7 == 0
  {
    hide NextIndex, OrByte, Accept, FirstFrame, ConsecutiveFrame, ConsecutiveFrames;
    var total := size + 1;
    var frames := Segments(data, size);
    var rest := ConsecutiveFrames(data, 5, total, FIRST_INDEX);
    FrameCount(data, 5, total, FIRST_INDEX);
    FirstFrameRead(data, size);
    var most := frames[..|frames| - 1];
    if size < 5 {
      assert most == [];
      return;
    }
    var k := |rest| - 1;
    assert most[0] == FirstFrame(data, total) && most[1..] == rest[..k];
    if size == 5 {
      FeedComplete(([SERVICE] + data[..5])[..total], rest[..k]);
    } else if (size - 5) % 7 != 0 {
      StillCollecting(data, size, 5, FIRST_INDEX, k);
    } else {
      NeededSuffice(data, size, 5, FIRST_INDEX);
    }
  }

  /** The payload of frame k is the data seven bytes further on for each frame, filled up with zeros behind the end. */
  lemma {:induction false} PayloadAt(data: seq<byte>, from: nat, total: nat, index: byte, k: nat, b: nat)
    requires from >= total || total <= |data|
    requires k < |ConsecutiveFrames(data, from, total, index)| && b < 7
    ensures ConsecutiveFrames(data, from, total, index)[k][1 + b]
            == if from + 7 * k + b < total then data[from + 7 * k + b] else 0
    decreases k
  {
    hide NextIndex;
    if k > 0 {
      var next := from + Take(from, total);
      assert next < total ==> next == from + 7;
      PayloadAt(data, next, total, NextIndex(index), k - 1, b);
    }
  }

  /** How many frames a transfer has; its length counts the service id and is kept in 16 bits. */
  function FramesNeeded(size: nat): nat {
    var total := (size + 1) % 0x10000;
    1 + if total <= 5 then 0 else (total + 1) / 7
  }

  /** Byte b of frame k of a transfer. */
  function FrameByte(data: seq<byte>, size: nat, k: nat, b: nat): int
    requires Readable(data, size) && b < 8
  {
    var total := (size + 1) % 0x10000;
    if k == 0 then
      (if b == 0 then 0x10 + total / 256 % 16 else if b == 1 then total % 256 else if b == 2 then 0x21 else data[b - 3])
    else if b == 0 then 0x20 + k % 16
    else if 7 * k + b - 3 < total then data[7 * k + b - 3]
    else 0
  }

  lemma FirstFrameAt(data: seq<byte>, size: nat, b: nat)
    requires Readable(data, size) && b < 8
    ensures FirstFrame(data, TotalLength(size))[b] == FrameByte(data, size, 0, b)
  {
    hide OrByte;
    OrOneNibble(TotalLength(size) / 256 % 16);
  }

  /** Every byte of every frame of a transfer, and how many there are. */
  lemma SegmentsAt(data: seq<byte>, size: nat, k: nat, b: nat)
    requires Readable(data, size) && b < 8
    ensures |Segments(data, size)| == FramesNeeded(size)
    ensures k < |Segments(data, size)| ==> Segments(data, size)[k][b] == FrameByte(data, size, k, b)
  {
    hide NextIndex, OrByte, ConsecutiveFrames, ConsecutiveFrame, FirstFrame;
    var total := TotalLength(size);
    FrameCount(data, 5, total, FIRST_INDEX);
    if k == 0 {
      FirstFrameAt(data, size, b);
    } else if k < |Segments(data, size)| {
      if b == 0 {
        IndexesCount(data, 5, total, FIRST_INDEX, k - 1);
      } else {
        PayloadAt(data, 5, total, FIRST_INDEX, k - 1, b - 1);
      }
    }
  }
}
