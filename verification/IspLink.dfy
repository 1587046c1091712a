/** The serial line to the boot loader: what the target answers, and what may go wrong on the way. */
module IspLink {
  import opened Bytes
  import opened IspTarget
  import Uuencode

  const ZERO: seq<byte> := ['0' as int]
  const OK: seq<byte> := ['O' as int, 'K' as int]
  const RESEND: seq<byte> := ['R' as int, 'E' as int, 'S' as int, 'E' as int, 'N' as int, 'D' as int]
  const REFUSED: seq<byte> := ['9' as int]

  type Channel = seq<byte> -> seq<byte>

  /**
   * One thing the other side does when the host reads a reply: send a stray line, send the line just received
   * back, send nothing until the timeout, act on what was sent while the reply is lost, or act and answer. A data
   * block arrives through a channel.
   */
  datatype Move = Stray(line: seq<byte>) | Echo | Silence | Lost(channel: Channel) | Answer(channel: Channel)

  /** strncmp against a constant. */
  predicate StartsWith(line: seq<byte>, prefix: seq<byte>) {
    prefix <= line
  }

  /** The reply words the host looks for at the front of a line: "0", "OK" and "RESEND". */
  lemma ReplyWords(line: seq<byte>)
    ensures StartsWith(line, ZERO) <==> |line| >= 1 && line[0] == 0x30
    ensures StartsWith(line, OK) <==> |line| >= 2 && line[..2] == [0x4F, 0x4B]
    ensures StartsWith(line, RESEND) <==> |line| >= 6 && line[..6] == [0x52, 0x45, 0x53, 0x45, 0x4E, 0x44]
  {
    if |line| >= 1 { assert line[..1] == [line[0]]; }
  }

  /** What the target checks of an arrived block. */
  predicate Passes(arrived: seq<byte>, sent: seq<byte>) {
    |arrived| == |sent| && Sum(arrived) == Sum(sent)
  }

  /** The check notices every damage this channel does. */
  ghost predicate Detected(channel: Channel) {
    forall s: seq<byte> :: channel(s) == s || !Passes(channel(s), s)
  }

  /** All damage on the way is noticed. */
  ghost predicate Checked(script: seq<Move>) {
    forall i :: 0 <= i < |script| && (script[i].Answer? || script[i].Lost?) ==> Detected(script[i].channel)
  }

  /** Stray lines are not taken for replies. */
  predicate Honest(script: seq<Move>) {
    forall i :: 0 <= i < |script| && script[i].Stray? ==>
      !StartsWith(script[i].line, ZERO) && !StartsWith(script[i].line, OK) && !StartsWith(script[i].line, RESEND)
  }

  /** A number as sprintf writes it. */
  function Decimal(n: nat): (line: seq<byte>)
    ensures line != [] && '0' as int <= line[0] <= '9' as int
  {
    (if n < 10 then [] else Decimal(n / 10)) + ['0' as int + n % 10]
  }

  // What a host can learn and cause, in terms of the script alone.

  datatype Asked = Asked(matched: bool, target: Target, script: seq<Move>)

  /** A command and the reply read for it; without a reply the target may still have carried it out. */
  function Ask(t: Target, script: seq<Move>, c: Command): Asked {
    if script == [] then Asked(false, t, [])
    else
      var reached := script[0].Answer? || script[0].Lost? || script[0].Echo?;
      var done := reached && t.Accepts(c);
      Asked(done && script[0].Answer?, if done then t.Do(c) else t, script[1..])
  }

  datatype Sent = Stored(target: Target, script: seq<Move>)
    | GaveUp(script: seq<Move>)
    | NoReply(target: Target, script: seq<Move>)

  function Arrival(t: Target, arrived: seq<byte>, sent: seq<byte>): Target
    requires t.cursor + |sent| <= |t.ram|
  {
    if Passes(arrived, sent) then t.Store(arrived) else t
  }

  /** A data block, sent again on every RESEND while attempts are left. */
  function SendBlock(t: Target, script: seq<Move>, block: seq<byte>, attempts: nat): Sent
    requires t.cursor + |block| <= |t.ram|
    decreases |script|
  {
    if attempts == 0 then GaveUp(script)
    else if script == [] then NoReply(t, [])
    else
      match script[0]
      case Silence => NoReply(t, script[1..])
      case Lost(channel) => NoReply(Arrival(t, channel(block), block), script[1..])
      case Stray(_) => SendBlock(t, script[1..], block, attempts)
      case Echo => SendBlock(t, script[1..], block, attempts)
      case Answer(channel) =>
        if Passes(channel(block), block) then Stored(t.Store(channel(block)), script[1..])
        else SendBlock(t, script[1..], block, attempts - 1)
  }

  // When a block is given up.

  /** An attempt answered with RESEND. */
  predicate Damaged(m: Move, block: seq<byte>) {
    m.Answer? && !Passes(m.channel(block), block)
  }

  /** The end of the attempts: the block gets through, or no reply comes. */
  predicate Decides(m: Move, block: seq<byte>) {
    m.Silence? || m.Lost? || (m.Answer? && Passes(m.channel(block), block))
  }

  function Damages(moves: seq<Move>, block: seq<byte>): nat {
    if moves == [] then 0 else (if Damaged(moves[0], block) then 1 else 0) + Damages(moves[1..], block)
  }

  /** n damaged attempts before anything decides. */
  ghost predicate Draws(script: seq<Move>, block: seq<byte>, n: nat) {
    exists k :: DrawsBy(script, block, n, k)
  }

  ghost predicate DrawsBy(script: seq<Move>, block: seq<byte>, n: nat, k: int) {
    0 <= k <= |script| && Damages(script[..k], block) == n && forall i :: 0 <= i < k ==> !Decides(script[i], block)
  }

  /** A block is given up exactly if the script holds that many damaged attempts before anything decides. */
  lemma {:induction false} GivenUpIff(t: Target, script: seq<Move>, block: seq<byte>, attempts: nat)
    requires t.cursor + |block| <= |t.ram|
    ensures SendBlock(t, script, block, attempts).GaveUp? <==> Draws(script, block, attempts)
    decreases |script|
  {
    if attempts == 0 {
      assert script[..0] == [];
      assert DrawsBy(script, block, attempts, 0);
    } else if script == [] {
      assert script[..0] == [];
    } else {
      var m, rest := script[0], script[1..];
      var left := if Damaged(m, block) then attempts - 1 else attempts;
      if !Decides(m, block) { GivenUpIff(t, rest, block, left); }
      if k :| DrawsBy(script, block, attempts, k) {
        assert k > 0 by { assert script[..0] == []; }
        assert script[..k][1..] == rest[..k - 1];
        assert DrawsBy(rest, block, left, k - 1);
      }
      if !Decides(m, block) && Draws(rest, block, left) {
        var k :| DrawsBy(rest, block, left, k);
        assert script[..k + 1][1..] == rest[..k];
        assert DrawsBy(script, block, attempts, k + 1);
      }
    }
  }

  /** What a command sent back begins with. */
  function Letter(c: Command): byte {
    match c
    case WriteRam(_, _) => 'W' as int
    case Prepare(_, _, _) => 'P' as int
    case Erase(_, _, _) => 'E' as int
    case Copy(_, _, _) => 'C' as int
  }

  /** The wire as the host drives it. */
  class Wire {
    var target: Target
    var script: seq<Move>
    var received: seq<byte>  // data bytes decoded by the target since the last verdict
    var lines: seq<seq<byte>>  // data lines sent
    var checksum: int        // the checksum to answer, or -1

    constructor (target: Target, script: seq<Move>)
      ensures this.target == target && this.script == script && received == [] && checksum == -1
    {
      this.target := target;
      this.script := script;
      received, lines := [], [];
      checksum := -1;
    }

    /** Send a command and compare its reply with "0". */
    method SendCommand(c: Command) returns (matched: bool)
      requires Honest(script)
      modifies this`target, this`script
      ensures Asked(matched, target, script) == Ask(old(target), old(script), c)
      ensures Honest(script)
    {
      if script == [] { return false; }
      var move := script[0];
      script := script[1..];
      var accepted := target.Accepts(c);
      if accepted && !move.Stray? && !move.Silence? { target := target.Do(c); }
      match move
      case Silence => return false;
      case Lost(_) => return false;
      case Stray(line) => return StartsWith(line, ZERO);
      case Echo =>
        assert [Letter(c)][0] != ZERO[0];
        return StartsWith([Letter(c)], ZERO);
      case Answer(_) =>
        assert REFUSED[0] != ZERO[0];
        return StartsWith(if accepted then ZERO else REFUSED, ZERO);
    }

    /** Send a uuencoded data line; the target decodes it. */
    method SendLine(line: seq<byte>)
      requires Uuencode.Readable(line)
      modifies this`received, this`lines
      ensures received == old(received) + Uuencode.Payload(line) && lines == old(lines) + [line]
    {
      lines := lines + [line];
      received := received + Uuencode.Payload(line);
    }

    /** Send raw data to a target that takes it without a checksum. */
    method SendRaw(bytes: seq<byte>)
      requires target.cursor + |bytes| <= |target.ram|
      modifies this`target
      ensures target == old(target).Store(bytes)
    {
      target := target.Store(bytes);
    }

    method SendChecksum(sum: nat)
      modifies this`checksum
      ensures checksum == sum
    {
      checksum := sum;
    }

    /** Read one reply line, or nothing before the timeout. */
    method ReadString() returns (got: bool, line: seq<byte>)
      requires target.cursor + |received| <= |target.ram|
      requires checksum == Sum(received)
      modifies this
      ensures old(script) == [] ==> !got && script == [] && target == old(target)
      ensures old(script) != [] ==> script == old(script)[1..]
      ensures old(script) != [] ==>
                match old(script)[0]
                case Silence => !got && target == old(target)
                case Lost(channel) => !got && target == Arrival(old(target), channel(old(received)), old(received))
                case Stray(l) => got && line == l && unchanged(`target) && unchanged(`received) && unchanged(`checksum)
                case Echo =>
                  && got && line == Decimal(old(checksum))
                  && unchanged(`target) && unchanged(`received) && unchanged(`checksum)
                case Answer(channel) =>
                  && got && received == []
                  && target == Arrival(old(target), channel(old(received)), old(received))
                  && line == if Passes(channel(old(received)), old(received)) then OK else RESEND
    {
      if script == [] { return false, []; }
      var move := script[0];
      script := script[1..];
      match move
      case Silence => return false, [];
      case Stray(l) => return true, l;
      case Echo => return true, Decimal(checksum);
      case Lost(channel) =>
        line := Verdict(channel(received));
        return false, [];
      case Answer(channel) =>
        line := Verdict(channel(received));
        return true, line;
    }

    /** The target checks what arrived, stores it or drops it, and composes its answer. */
    method Verdict(arrived: seq<byte>) returns (line: seq<byte>)
      requires target.cursor + |received| <= |target.ram|
      requires checksum == Sum(received)
      modifies this`target, this`received, this`checksum
      ensures received == [] && target == Arrival(old(target), arrived, old(received))
      ensures line == if Passes(arrived, old(received)) then OK else RESEND
    {
      if |arrived| == |received| && Sum(arrived) == checksum {
        target := target.Store(arrived);
        line := OK;
      } else {
        line := RESEND;
      }
      received := [];
      checksum := -1;
    }
  }
}
