/** The host's side of flash programming: pushing blocks to RAM, preparing sectors, copying to flash, erasing. */
module IspHost {
  import opened Bytes
  import opened IspTarget
  import opened IspLink
  import Uuencode

  const BLOCK := 512
  const LINE := 45
  const ATTEMPTS := 5

  datatype Part = Part(sectors: seq<Sector>, numBanks: nat, blockSize: nat, ramBase: nat, uuencode: bool) {
    /** What the part table provides: whole words and a RAM buffer on a word boundary. */
    predicate WellFormed() {
      blockSize > 0 && blockSize % 4 == 0 && ramBase % 4 == 0
    }

    /** The bank argument is only sent to parts with more than one bank. */
    function Bank(bank: nat): nat { if numBanks > 1 then bank else 0 }
  }

  function Min(a: nat, b: nat): nat { if a < b then a else b }

  lemma WordsLeft(n: nat)
    requires n % 4 == 0
    ensures (n - Min(n, BLOCK)) % 4 == 0
  {
  }

  // Pushing data to RAM.

  datatype Pushed = Pushed(ok: bool, gaveUp: bool, target: Target, script: seq<Move>)

  /** Push data to RAM block by block; a block that is given up ends the push, which still reports success. */
  function Push(t: Target, script: seq<Move>, uuencode: bool, addr: nat, data: seq<byte>): Pushed
    requires |data| % 4 == 0
    decreases |data|, 1
  {
    if data == [] then Pushed(true, false, t, script)
    else
      var a := Ask(t, script, WriteRam(addr, Min(|data|, BLOCK)));
      if !a.matched then Pushed(false, false, a.target, a.script)
      else Deliver(a.target, a.script, uuencode, addr, data, ATTEMPTS)
  }

  function Deliver(t: Target, script: seq<Move>, uuencode: bool, addr: nat, data: seq<byte>, attempts: nat): Pushed
    requires data != [] && |data| % 4 == 0
    requires t.cursor + Min(|data|, BLOCK) <= |t.ram|
    decreases |data|, 0
  {
    var n := Min(|data|, BLOCK);
    WordsLeft(|data|);
    if !uuencode then Push(t.Store(data[..n]), script, uuencode, addr + n, data[n..])
    else
      match SendBlock(t, script, data[..n], attempts)
      case Stored(t', script') => Push(t', script', uuencode, addr + n, data[n..])
      case GaveUp(script') => Pushed(true, true, t, script')
      case NoReply(t', script') => Pushed(false, false, t', script')
  }

  /** When all damage is noticed, what is stored is the block. */
  lemma {:induction false} SendBlockKeeps(t: Target, script: seq<Move>, block: seq<byte>, attempts: nat)
    requires t.cursor + |block| <= |t.ram| && Checked(script)
    ensures var s := SendBlock(t, script, block, attempts);
            && (s.Stored? ==> s.target == t.Store(block))
            && (s.NoReply? ==> s.target == t || s.target == t.Store(block))
            && |s.script| <= |script| && s.script == script[|script| - |s.script|..] && Checked(s.script)
    decreases |script|
  {
    hide Sum, Splice;
    if attempts > 0 && script != [] {
      var next := if script[0].Answer? then attempts - 1 else attempts;
      SendBlockKeeps(t, script[1..], block, next);
    }
  }

  lemma AskTail(t: Target, script: seq<Move>, c: Command)
    requires Checked(script)
    ensures Checked(Ask(t, script, c).script)
  {
  }

  lemma SpliceTwice(m: seq<byte>, at: nat, x: seq<byte>, y: seq<byte>)
    requires at + |x| + |y| <= |m|
    ensures Splice(Splice(m, at, x), at + |x|, y) == Splice(m, at, x + y)
  {
  }

  lemma SpliceNothing(m: seq<byte>, at: nat)
    requires at <= |m|
    ensures Splice(m, at, []) == m
  {
  }

  /** What a push promises. */
  ghost predicate PushKept(t: Target, p: Pushed, addr: nat, data: seq<byte>) {
    && p.target.flash == t.flash && p.target.prepared == t.prepared && p.target.sectors == t.sectors
    && |p.target.ram| == |t.ram| && Checked(p.script)
    && (p.ok && !p.gaveUp && data != [] ==>
          addr + |data| <= |t.ram| && p.target.ram == Splice(t.ram, addr, data))
  }

  /** One block stored, then the rest. */
  lemma PushKeptStep(t: Target, stored: Target, p: Pushed, addr: nat, block: seq<byte>, rest: seq<byte>)
    requires addr + |block| <= |t.ram| && block != []
    requires PushKept(stored, p, addr + |block|, rest)
    requires stored == t.(ram := Splice(t.ram, addr, block), cursor := addr + |block|, history := stored.history)
    requires rest == [] && p.ok && !p.gaveUp ==> p.target.ram == Splice(t.ram, addr, block)
    ensures PushKept(t, p, addr, block + rest)
  {
    if rest == [] {
      assert block + rest == block;
    } else if p.ok && !p.gaveUp {
      SpliceTwice(t.ram, addr, block, rest);
    }
  }

  /**
   * A push that reports success has put the data in RAM, unless a block drew five RESENDs;
   * flash and the prepared sectors are not touched.
   */
  lemma {:induction false} PushHolds(t: Target, script: seq<Move>, uuencode: bool, addr: nat, data: seq<byte>)
    requires |data| % 4 == 0 && Checked(script)
    ensures PushKept(t, Push(t, script, uuencode, addr, data), addr, data)
    decreases |data|
  {
    hide PushKept, Splice;
    if data == [] {
      KeptTrivially(t, Push(t, script, uuencode, addr, data), addr, data);
      return;
    }
    var n := Min(|data|, BLOCK);
    var (block, rest) := (data[..n], data[n..]);
    assert block + rest == data;
    var a := Ask(t, script, WriteRam(addr, n));
    AskTail(t, script, WriteRam(addr, n));
    var p := Push(t, script, uuencode, addr, data);
    if !a.matched {
      assert p == Pushed(false, false, a.target, a.script);
    } else {
      SendBlockKeeps(a.target, a.script, block, ATTEMPTS);
      assert p == Deliver(a.target, a.script, uuencode, addr, data, ATTEMPTS);
      var stored := a.target.Store(block);
      var sent := if uuencode then SendBlock(a.target, a.script, block, ATTEMPTS) else Stored(stored, a.script);
      if sent.Stored? {
        PushHolds(stored, sent.script, uuencode, addr + n, rest);
        assert p == Push(stored, sent.script, uuencode, addr + n, rest);
        assert stored == t.(ram := Splice(t.ram, addr, block), cursor := addr + |block|, history := stored.history);
        PushKeptStep(t, stored, p, addr, block, rest);
        return;
      }
    }
    KeptTrivially(t, p, addr, data);
  }

  lemma KeptTrivially(t: Target, p: Pushed, addr: nat, data: seq<byte>)
    requires p.target.flash == t.flash && p.target.prepared == t.prepared && p.target.sectors == t.sectors
    requires |p.target.ram| == |t.ram| && Checked(p.script) && (data == [] || !p.ok || p.gaveUp)
    ensures PushKept(t, p, addr, data)
  {
  }

  /** When a push gives a block up, RAM holds only the data before that block, though success is reported. */
  lemma {:induction false} PushGivenUp(t: Target, script: seq<Move>, uuencode: bool, addr: nat, data: seq<byte>)
    returns (done: nat)
    requires |data| % 4 == 0 && Checked(script) && Push(t, script, uuencode, addr, data).gaveUp
    ensures var p := Push(t, script, uuencode, addr, data);
            && p.ok && uuencode && done < |data| && addr + done <= |t.ram|
            && p.target.ram == Splice(t.ram, addr, data[..done])
    decreases |data|
  {
    hide Splice, Push, Deliver, SendBlock, Ask, Checked;
    PushNothing(t, script, uuencode, addr);
    PushAsks(t, script, uuencode, addr, data);
    var n := Min(|data|, BLOCK);
    var (block, rest) := (data[..n], data[n..]);
    AskTail(t, script, WriteRam(addr, n));
    var a := Ask(t, script, WriteRam(addr, n));
    AskPositions(t, script, addr, n);
    DeliverSplits(a.target, a.script, uuencode, addr, data, ATTEMPTS);
    SendBlockKeeps(a.target, a.script, block, ATTEMPTS);
    var stored := a.target.Store(block);
    var sent := if uuencode then SendBlock(a.target, a.script, block, ATTEMPTS) else Stored(stored, a.script);
    if sent.Stored? {
      var later := PushGivenUp(stored, sent.script, uuencode, addr + n, rest);
      SpliceTwice(t.ram, addr, block, rest[..later]);
      assert data[..n + later] == block + rest[..later];
      done := n + later;
    } else {
      SpliceNothing(t.ram, addr);
      assert data[..0] == [];
      done := 0;
    }
  }

  /** A matched write command puts the cursor where the data is to go. */
  lemma AskPositions(t: Target, script: seq<Move>, addr: nat, n: nat)
    ensures var a := Ask(t, script, WriteRam(addr, n));
            a.matched ==> a.target.cursor == addr && a.target.ram == t.ram && addr + n <= |t.ram|
  {
  }

  lemma WordsInBlocks(done: nat)
    requires done % BLOCK == 0
    ensures done % 4 == 0 && (done > 0 ==> done >= BLOCK && (done - BLOCK) % BLOCK == 0 && (done - BLOCK) % 4 == 0)
  {
    var q := done / BLOCK;
    assert done == BLOCK * q == 4 * (128 * q);
    if done > 0 { assert done - BLOCK == BLOCK * (q - 1) == 4 * (128 * (q - 1)); }
  }

  /** After an undisturbed push the next block draws five damaged answers. */
  ghost predicate NextGivesUp(p: Pushed, addr: nat, block: seq<byte>) {
    var a := Ask(p.target, p.script, WriteRam(addr, |block|));
    p.ok && !p.gaveUp && a.matched && Draws(a.script, block, 5)
  }

  lemma NoNext(p: Pushed, addr: nat, block: seq<byte>)
    requires !p.ok || p.gaveUp
    ensures !NextGivesUp(p, addr, block)
  {
  }

  /** The blocks before position `done` get through, and the one there draws five damaged answers. */
  ghost predicate GivesUpAt(t: Target, script: seq<Move>, uuencode: bool, addr: nat, data: seq<byte>, done: nat)
    requires |data| % 4 == 0
  {
    && done < |data| && done % 512 == 0
    && (WordsInBlocks(done);
        NextGivesUp(Push(t, script, uuencode, addr, data[..done]), addr + done,
                    data[done..done + Min(|data| - done, 512)]))
  }

  /** A push gives up exactly if some block, after all before it got through, draws five damaged answers. */
  lemma {:induction false} PushGivesUpIff(t: Target, script: seq<Move>, uuencode: bool, addr: nat, data: seq<byte>)
    requires |data| % 4 == 0
    ensures Push(t, script, uuencode, addr, data).gaveUp
            <==> uuencode && exists done: nat :: GivesUpAt(t, script, uuencode, addr, data, done)
    decreases |data|
  {
    hide Draws, Push, Deliver, SendBlock, Ask, GivesUpAt;
    PushNothing(t, script, uuencode, addr);
    if data == [] {
      NothingGivesUp(t, script, uuencode, addr);
      return;
    }
    PushAsks(t, script, uuencode, addr, data);
    GivesUpFirst(t, script, uuencode, addr, data);
    var n := Min(|data|, BLOCK);
    var (block, rest) := (data[..n], data[n..]);
    var a := Ask(t, script, WriteRam(addr, n));
    if a.matched {
      DeliverSplits(a.target, a.script, uuencode, addr, data, ATTEMPTS);
      var next := addr + n;
      if !uuencode {
        PushGivesUpIff(a.target.Store(block), a.script, uuencode, next, rest);
        return;
      }
      var sent := SendBlock(a.target, a.script, block, ATTEMPTS);
      GivenUpIff(a.target, a.script, block, ATTEMPTS);
      if sent.Stored? {
        PushGivesUpIff(sent.target, sent.script, uuencode, next, rest);
        if done: nat :| GivesUpAt(sent.target, sent.script, uuencode, next, rest, done) {
          GivesUpInside(sent.target, sent.script, uuencode, next, rest, done);
          GivesUpLater(t, script, addr, data, done + n);
        }
      }
    }
    if uuencode {
      if done: nat :| done > 0 && GivesUpAt(t, script, uuencode, addr, data, done) {
        GivesUpInside(t, script, uuencode, addr, data, done);
        GivesUpLater(t, script, addr, data, done);
      }
    }
  }

  lemma NothingGivesUp(t: Target, script: seq<Move>, uuencode: bool, addr: nat)
    ensures forall done: nat :: !GivesUpAt(t, script, uuencode, addr, [], done)
  {
  }

  /** Giving up at the first block. */
  lemma GivesUpFirst(t: Target, script: seq<Move>, uuencode: bool, addr: nat, data: seq<byte>)
    requires data != [] && |data| % 4 == 0
    ensures var n := Min(|data|, BLOCK);
            var a := Ask(t, script, WriteRam(addr, n));
            GivesUpAt(t, script, uuencode, addr, data, 0) <==> a.matched && Draws(a.script, data[..n], ATTEMPTS)
  {
    hide Draws, Push, Ask;
    PushNothing(t, script, uuencode, addr);
    assert data[..0] == [];
  }

  lemma GivesUpInside(t: Target, script: seq<Move>, uuencode: bool, addr: nat, data: seq<byte>, done: nat)
    requires |data| % 4 == 0 && GivesUpAt(t, script, uuencode, addr, data, done)
    ensures done < |data| && done % BLOCK == 0
  {
  }

  /** Giving up at a later block is giving up in the push of the rest. */
  lemma GivesUpLater(t: Target, script: seq<Move>, addr: nat, data: seq<byte>, done: nat)
    requires |data| % 4 == 0 && done > 0
    requires (done < |data| && done % BLOCK == 0) || GivesUpAt(t, script, true, addr, data, done)
    ensures var a := Ask(t, script, WriteRam(addr, BLOCK));
            && BLOCK <= done < |data|
            && (GivesUpAt(t, script, true, addr, data, done) <==>
                  && a.matched
                  && var sent := SendBlock(a.target, a.script, data[..BLOCK], ATTEMPTS);
                     sent.Stored?
                     && GivesUpAt(sent.target, sent.script, true, addr + BLOCK, data[BLOCK..], done - BLOCK))
  {
    hide Draws, Push, Deliver, SendBlock, NextGivesUp, Ask;
    WordsInBlocks(done);
    WordsInBlocks(done - BLOCK);
    FirstBlock(t, script, true, addr, data, done);
    var m := Min(|data| - done, BLOCK);
    Slices(data, BLOCK, done, m);
    var p := Push(t, script, true, addr, data[..done]);
    if !p.ok || p.gaveUp { NoNext(p, addr + done, data[done..done + m]); }
  }

  lemma Slices(data: seq<byte>, n: nat, done: nat, m: nat)
    requires n <= done && done + m <= |data|
    ensures data[n..][..done - n] == data[n..done] && data[n..][done - n..done - n + m] == data[done..done + m]
  {
  }

  /** Delivering is sending the first block, then pushing the rest. */
  lemma DeliverSplits(t: Target, script: seq<Move>, uuencode: bool, addr: nat, data: seq<byte>, attempts: nat)
    requires data != [] && |data| % 4 == 0 && t.cursor + Min(|data|, BLOCK) <= |t.ram|
    ensures var n := Min(|data|, BLOCK);
            var s := if uuencode then SendBlock(t, script, data[..n], attempts) else Stored(t.Store(data[..n]), script);
            Deliver(t, script, uuencode, addr, data, attempts) ==
            match s
            case Stored(t', script') => Push(t', script', uuencode, addr + n, data[n..])
            case GaveUp(script') => Pushed(true, true, t, script')
            case NoReply(t', script') => Pushed(false, false, t', script')
  {
    hide Push, SendBlock;
  }

  /** The first block of a push of whole blocks. */
  lemma FirstBlock(t: Target, script: seq<Move>, uuencode: bool, addr: nat, data: seq<byte>, done: nat)
    requires |data| % 4 == 0 && 0 < done < |data| && done % BLOCK == 0
    ensures BLOCK <= done && |data| > BLOCK && done % 4 == 0 && (done - BLOCK) % 4 == 0
    ensures var a := Ask(t, script, WriteRam(addr, BLOCK));
            && (a.matched ==> a.target.cursor + BLOCK <= |a.target.ram|)
            && Push(t, script, uuencode, addr, data[..done]) ==
               if !a.matched then Pushed(false, false, a.target, a.script)
               else
                 var s := if uuencode then SendBlock(a.target, a.script, data[..BLOCK], ATTEMPTS)
                          else Stored(a.target.Store(data[..BLOCK]), a.script);
                 match s
                 case Stored(t', script') => Push(t', script', uuencode, addr + BLOCK, data[BLOCK..done])
                 case GaveUp(script') => Pushed(true, true, a.target, script')
                 case NoReply(t', script') => Pushed(false, false, t', script')
  {
    hide Push, Deliver, SendBlock, Ask;
    WordsInBlocks(done);
    var front := data[..done];
    assert front[..BLOCK] == data[..BLOCK] && front[BLOCK..] == data[BLOCK..done];
    PushAsks(t, script, uuencode, addr, front);
    var a := Ask(t, script, WriteRam(addr, BLOCK));
    if a.matched { DeliverSplits(a.target, a.script, uuencode, addr, front, ATTEMPTS); }
  }

  // What becomes of one block.

  /** Reply k is the good answer to a block: nothing decides before it, and at most four attempts were damaged. */
  ghost predicate StoredBy(script: seq<Move>, block: seq<byte>, k: int) {
    && 0 <= k < |script| && script[k].Answer? && Passes(script[k].channel(block), block)
    && (forall i :: 0 <= i < k ==> !Decides(script[i], block))
    && Damages(script[..k], block) <= 4
  }

  /** With attempts left, a block is stored exactly if a good answer comes before they are used up. */
  lemma {:induction false} SentBy(t: Target, script: seq<Move>, block: seq<byte>, attempts: nat, k: nat)
    requires t.cursor + |block| <= |t.ram| && k < |script|
    requires script[k].Answer? && Passes(script[k].channel(block), block)
    requires (forall i :: 0 <= i < k ==> !Decides(script[i], block)) && Damages(script[..k], block) < attempts
    ensures SendBlock(t, script, block, attempts) == Stored(t.Store(script[k].channel(block)), script[k + 1..])
    decreases k
  {
    if k > 0 {
      assert script[..k][1..] == script[1..][..k - 1];
      SentBy(t, script[1..], block, if Damaged(script[0], block) then attempts - 1 else attempts, k - 1);
    }
  }

  lemma {:induction false} SentOnlyBy(t: Target, script: seq<Move>, block: seq<byte>, attempts: nat) returns (k: nat)
    requires t.cursor + |block| <= |t.ram| && SendBlock(t, script, block, attempts).Stored?
    ensures k < |script| && script[k].Answer? && Passes(script[k].channel(block), block)
    ensures (forall i :: 0 <= i < k ==> !Decides(script[i], block)) && Damages(script[..k], block) < attempts
    decreases |script|
  {
    if Decides(script[0], block) {
      k := 0;
    } else {
      var left := if Damaged(script[0], block) then attempts - 1 else attempts;
      var j := SentOnlyBy(t, script[1..], block, left);
      k := j + 1;
      assert script[..k][1..] == script[1..][..j];
    }
  }

  /**
   * Once its command is answered, the first block of a push, up to 512 bytes of it, is stored exactly if a good answer
   * comes after at most four damaged attempts, and given up exactly on the fifth; otherwise the push fails.
   */
  lemma FirstBlockOutcome(t: Target, script: seq<Move>, addr: nat, data: seq<byte>)
    requires data != [] && |data| % 4 == 0
    requires Ask(t, script, WriteRam(addr, Min(|data|, 512))).matched
    ensures var n := Min(|data|, 512);
            var block := data[..n];
            var a := Ask(t, script, WriteRam(addr, n));
            var p := Push(t, script, true, addr, data);
            && (Draws(a.script, block, 5) ==> p.ok && p.gaveUp && p.target == a.target)
            && (forall k :: StoredBy(a.script, block, k) ==>
                  p == Push(a.target.Store(a.script[k].channel(block)), a.script[k + 1..], true, addr + n, data[n..]))
            && (!Draws(a.script, block, 5) && (forall k :: !StoredBy(a.script, block, k)) ==> !p.ok)
  {
    hide Push, Deliver, SendBlock, Ask, Draws;
    var n := Min(|data|, 512);
    var block := data[..n];
    var a := Ask(t, script, WriteRam(addr, n));
    PushAsks(t, script, true, addr, data);
    DeliverSplits(a.target, a.script, true, addr, data, ATTEMPTS);
    GivenUpIff(a.target, a.script, block, 5);
    forall k | StoredBy(a.script, block, k)
      ensures SendBlock(a.target, a.script, block, 5)
              == Stored(a.target.Store(a.script[k].channel(block)), a.script[k + 1..])
    {
      SentBy(a.target, a.script, block, 5, k);
    }
    if SendBlock(a.target, a.script, block, 5).Stored? {
      var k := SentOnlyBy(a.target, a.script, block, 5);
      assert StoredBy(a.script, block, k);
    }
  }

  /** No block whatever draws five damaged answers from any point on. */
  ghost predicate NeverFive(script: seq<Move>) {
    forall k, block :: 0 <= k <= |script| ==> !Draws(script[k..], block, 5)
  }

  lemma NeverFiveTail(script: seq<Move>, k: nat)
    requires NeverFive(script) && k <= |script|
    ensures NeverFive(script[k..])
  {
    forall j, block | 0 <= j <= |script| - k
      ensures !Draws(script[k..][j..], block, 5)
    {
      assert script[k..][j..] == script[k + j..];
    }
  }

  lemma {:induction false} SendBlockTail(t: Target, script: seq<Move>, block: seq<byte>, attempts: nat) returns (k: nat)
    requires t.cursor + |block| <= |t.ram|
    ensures k <= |script| && SendBlock(t, script, block, attempts).script == script[k..]
    decreases |script|
  {
    k := 0;
    if attempts > 0 && script != [] {
      k := 1;
      if !Decides(script[0], block) {
        var j := SendBlockTail(t, script[1..], block, if Damaged(script[0], block) then attempts - 1 else attempts);
        k := j + 1;
      }
    }
  }

  lemma AskNeverFive(t: Target, script: seq<Move>, c: Command)
    requires NeverFive(script)
    ensures NeverFive(Ask(t, script, c).script)
  {
    if script != [] { NeverFiveTail(script, 1); }
  }

  /** On such a line no push gives up. */
  lemma {:induction false} PushNeverGivesUp(t: Target, script: seq<Move>, uuencode: bool, addr: nat, data: seq<byte>)
    requires |data| % 4 == 0 && NeverFive(script)
    ensures var p := Push(t, script, uuencode, addr, data); !p.gaveUp && NeverFive(p.script)
    decreases |data|
  {
    hide NeverFive, Push, Deliver, SendBlock;
    PushNothing(t, script, uuencode, addr);
    if data != [] {
      var n := Min(|data|, BLOCK);
      PushAsks(t, script, uuencode, addr, data);
      AskNeverFive(t, script, WriteRam(addr, n));
      var a := Ask(t, script, WriteRam(addr, n));
      if a.matched {
        DeliverSplits(a.target, a.script, uuencode, addr, data, ATTEMPTS);
        var s := if uuencode then SendBlock(a.target, a.script, data[..n], ATTEMPTS)
                 else Stored(a.target.Store(data[..n]), a.script);
        if uuencode {
          var k := SendBlockTail(a.target, a.script, data[..n], ATTEMPTS);
          NeverFiveTail(a.script, k);
          NotGivenUp(a.target, a.script, data[..n]);
        }
        if s.Stored? { PushNeverGivesUp(s.target, s.script, uuencode, addr + n, data[n..]); }
      }
    }
  }

  lemma NotGivenUp(t: Target, script: seq<Move>, block: seq<byte>)
    requires NeverFive(script) && t.cursor + |block| <= |t.ram|
    ensures !SendBlock(t, script, block, ATTEMPTS).GaveUp?
  {
    GivenUpIff(t, script, block, ATTEMPTS);
    assert script[0..] == script;
  }

  // A run in which nothing arrives.

  function Clean(s: seq<byte>): seq<byte> { s }

  function FlipFirst(s: seq<byte>): seq<byte> { if s == [] then s else [(s[0] as int + 1) % 256] + s[1..] }

  lemma FlipIsDetected()
    ensures Detected(FlipFirst) && Detected(Clean)
  {
    forall s: seq<byte>
      ensures FlipFirst(s) == s || !Passes(FlipFirst(s), s)
    {
      if s != [] { assert FlipFirst(s)[1..] == s[1..]; }
    }
  }

  /** Five damaged attempts at the only block, all noticed: success is reported and RAM is as it was. */
  lemma FiveResendsReportSuccess(t: Target, data: seq<byte>) returns (script: seq<Move>)
    requires |data| == 4 <= |t.ram|
    ensures Honest(script) && Checked(script)
    ensures |script| == 6 && forall i :: 1 <= i < 6 ==> Damaged(script[i], data)
    ensures var p := Push(t, script, true, 0, data); p.ok && p.gaveUp && p.script == [] && p.target.ram == t.ram
  {
    hide Push, Deliver, SendBlock;
    FlipIsDetected();
    var m := Answer(FlipFirst);
    script := [Answer(Clean), m, m, m, m, m];
    var attempts := script[1..];
    assert data[..4] == data;
    assert !Passes(FlipFirst(data), data) by { assert FlipFirst(data)[1..] == data[1..]; }
    AllResent(Ask(t, script, WriteRam(0, 4)).target, attempts, data);
    var a := Ask(t, script, WriteRam(0, 4));
    PushAsks(t, script, true, 0, data);
    DeliverSplits(a.target, a.script, true, 0, data, ATTEMPTS);
  }

  /** As many damaged attempts as are allowed. */
  lemma {:induction false} AllResent(t: Target, moves: seq<Move>, block: seq<byte>)
    requires t.cursor + |block| <= |t.ram| && forall i :: 0 <= i < |moves| ==> Damaged(moves[i], block)
    ensures SendBlock(t, moves, block, |moves|) == GaveUp([])
    decreases |moves|
  {
    if moves != [] { AllResent(t, moves[1..], block); }
  }

  /** The checksum loop of the source. */
  method GetCheckSum(data: seq<byte>) returns (cs: nat)
    ensures cs == Sum(data)
  {
    cs := 0;
    for i := 0 to |data|
      invariant cs == Sum(data[..i])
    {
      SumAppend(data[..i], [data[i]]);
      assert data[..i + 1] == data[..i] + [data[i]];
      cs := cs + data[i];
    }
    assert data[..|data|] == data;
  }

  /** The lines of a block: 45 bytes in each but the last. */
  function BlockLines(data: seq<byte>, count: nat): seq<seq<byte>>
    requires count + 2 <= |data|
    decreases count
  {
    if count == 0 then [] else
      var n := Min(count, 45);
      [Uuencode.Line(data, n)] + BlockLines(data[n..], count - n)
  }

  /** A block as uuencoded lines of up to 45 bytes; the encoder may read two bytes beyond the block. */
  method SendLines(wire: Wire, data: seq<byte>, count: nat) returns (cs: nat)
    requires count + 2 <= |data| && wire.received == []
    modifies wire`received, wire`lines
    ensures wire.received == data[..count] && cs == Sum(data[..count])
    ensures wire.lines == old(wire.lines) + BlockLines(data, count)
  {
    hide BlockLines, Uuencode.Line;
    ghost var all := wire.lines + BlockLines(data, count);
    assert data[0..] == data && data[..0] == [];
    var buffer := new byte[64];
    cs := 0;
    var offset := 0;
    while offset < count
      invariant offset <= count
      invariant wire.received == data[..offset] && cs == Sum(data[..offset])
      invariant wire.lines + BlockLines(data[offset..], count - offset) == all
    {
      hide Sum;
      var n := Min(count - offset, LINE);
      var line := data[offset..offset + n];
      var lineSum := GetCheckSum(line);
      BlockLinesStep(data, offset, count - offset);
      ghost var (sent, rest) := (wire.lines, BlockLines(data[offset + n..], count - offset - n));
      assert sent + ([Uuencode.Line(data[offset..], n)] + rest) == sent + [Uuencode.Line(data[offset..], n)] + rest;
      SendLine(wire, data[offset..], n, buffer);
      assert data[offset..][..n] == line;
      assert data[..offset + n] == data[..offset] + line;
      SumAppend(data[..offset], line);
      cs := cs + lineSum;
      offset := offset + n;
    }
    BlockLinesStep(data, offset, 0);
  }

  lemma BlockLinesStep(data: seq<byte>, offset: nat, count: nat)
    requires offset + count + 2 <= |data|
    ensures count == 0 ==> BlockLines(data[offset..], count) == []
    ensures count > 0 ==>
              var n := Min(count, LINE);
              BlockLines(data[offset..], count) ==
              [Uuencode.Line(data[offset..], n)] + BlockLines(data[offset + n..], count - n)
  {
    hide Uuencode.Line;
    if count > 0 { assert data[offset..][Min(count, LINE)..] == data[offset + Min(count, LINE)..]; }
  }

  method SendLine(wire: Wire, data: seq<byte>, n: nat, buffer: array<byte>)
    requires n <= LINE && n + 2 <= |data| && buffer.Length == 64
    modifies wire`received, wire`lines, buffer
    ensures wire.received == old(wire.received) + data[..n]
    ensures wire.lines == old(wire.lines) + [Uuencode.Line(data, n)]
  {
    hide Uuencode.Payload, Uuencode.Line, Uuencode.Readable;
    Uuencode.EncodeLine(data, buffer, n);
    Uuencode.RoundTrip(data, n);
    wire.SendLine(buffer[..1 + 4 * Uuencode.Groups(n)]);
  }

  datatype Verdict = Accepted | Again | Timeout

  /** Pull reply lines until OK, RESEND or a timeout; other lines are ignored. */
  method AwaitVerdict(wire: Wire, ghost block: seq<byte>, ghost attempts: nat) returns (v: Verdict)
    requires Honest(wire.script) && attempts > 0
    requires wire.received == block && wire.checksum == Sum(block) && wire.target.cursor + |block| <= |wire.target.ram|
    modifies wire
    ensures Honest(wire.script)
    ensures v != Timeout ==> wire.received == []
    ensures var s := SendBlock(old(wire.target), old(wire.script), block, attempts);
            match v
            case Accepted => s == Stored(wire.target, wire.script)
            case Again => wire.target == old(wire.target)
                          && s == SendBlock(wire.target, wire.script, block, attempts - 1)
            case Timeout => s == NoReply(wire.target, wire.script)
  {
    while true
      invariant Honest(wire.script) && wire.received == block && wire.checksum == Sum(block)
      invariant wire.target == old(wire.target)
      invariant SendBlock(old(wire.target), old(wire.script), block, attempts)
             == SendBlock(wire.target, wire.script, block, attempts)
      decreases |wire.script|
    {
      ghost var script := wire.script;
      var got, line := wire.ReadString();
      if !got { return Timeout; }
      DistinctReplies();
      if StartsWith(line, OK) { return Accepted; }
      if StartsWith(line, RESEND) { return Again; }
      assert script[0].Stray? || script[0].Echo?;
    }
  }

  lemma DistinctReplies()
    ensures !StartsWith(OK, RESEND) && !StartsWith(RESEND, OK)
    ensures forall n: nat :: !StartsWith(Decimal(n), OK) && !StartsWith(Decimal(n), RESEND)
  {
    assert OK[0] != RESEND[0];
    forall n: nat
      ensures !StartsWith(Decimal(n), OK) && !StartsWith(Decimal(n), RESEND)
    {
      assert Decimal(n)[0] != OK[0] && Decimal(n)[0] != RESEND[0];
    }
  }

  /** A push begins with the command for its first block. */
  lemma PushAsks(t: Target, script: seq<Move>, uuencode: bool, addr: nat, data: seq<byte>)
    requires data != [] && |data| % 4 == 0
    ensures var a := Ask(t, script, WriteRam(addr, Min(|data|, BLOCK)));
            && (a.matched ==> a.target.cursor + Min(|data|, BLOCK) <= |a.target.ram|)
            && Push(t, script, uuencode, addr, data) ==
               if a.matched then Deliver(a.target, a.script, uuencode, addr, data, ATTEMPTS)
               else Pushed(false, false, a.target, a.script)
  {
  }

  lemma PushNothing(t: Target, script: seq<Move>, uuencode: bool, addr: nat)
    ensures Push(t, script, uuencode, addr, []) == Pushed(true, false, t, script)
  {
  }

  /** What is still to come while a block is on its k-th attempt. */
  ghost function Remaining(t: Target, script: seq<Move>, uuencode: bool, addr: nat,
                           data: seq<byte>, resend: nat): Pushed
    requires |data| % 4 == 0
    requires resend < ATTEMPTS ==> data != [] && t.cursor + Min(|data|, BLOCK) <= |t.ram|
  {
    if resend < ATTEMPTS then Deliver(t, script, uuencode, addr, data, resend)
    else Push(t, script, uuencode, addr, data)
  }

  /** One attempt at the first block of the data. */
  method SendOneBlock(wire: Wire, part: Part, ghost addr: nat, data: seq<byte>, length: nat, resend: nat)
    returns (v: Verdict)
    requires 0 < length && length % 4 == 0 && length + 2 <= |data| && 0 < resend
    requires Honest(wire.script) && wire.received == []
    requires wire.target.cursor + Min(length, BLOCK) <= |wire.target.ram|
    modifies wire
    ensures Honest(wire.script) && (v != Timeout ==> wire.received == [])
    ensures v == Again ==> part.uuencode && wire.target == old(wire.target)
    ensures var n := Min(length, BLOCK);
            Deliver(old(wire.target), old(wire.script), part.uuencode, addr, data[..length], resend) ==
            match v
            case Accepted => Push(wire.target, wire.script, part.uuencode, addr + n, data[n..length])
            case Again => Deliver(old(wire.target), wire.script, part.uuencode, addr, data[..length], resend - 1)
            case Timeout => Pushed(false, false, wire.target, wire.script)
  {
    hide Push, Sum, SendBlock, Honest, Uuencode.Line, Splice, Passes;
    var bytesThisBlock := Min(length, BLOCK);
    ghost var block := data[..length][..bytesThisBlock];
    assert block == data[..bytesThisBlock];
    assert data[..length][bytesThisBlock..] == data[bytesThisBlock..length];
    hide BlockLines;
    if part.uuencode {
      var cs := SendLines(wire, data, bytesThisBlock);
      wire.SendChecksum(cs);
      v := AwaitVerdict(wire, block, resend);
    } else {
      wire.SendRaw(data[..bytesThisBlock]);
      v := Accepted;
    }
  }

  /**
   * Write a block of data to RAM. On misaligned arguments nothing is written, yet success is reported;
   * gaveUp tells whether a block drew five RESENDs, which the source also reports as success.
   */
  method WriteToRam(wire: Wire, part: Part, start: nat, data: seq<byte>, length: nat)
    returns (ok: bool, ghost gaveUp: bool)
    requires length + 2 <= |data| && Honest(wire.script) && wire.received == []
    modifies wire
    ensures Honest(wire.script)
    ensures ok ==> wire.received == []
    ensures start % 4 != 0 || length % 4 != 0 ==>
              ok && !gaveUp && wire.target == old(wire.target) && wire.script == old(wire.script)
    ensures start % 4 == 0 && length % 4 == 0 ==>
              Pushed(ok, gaveUp, wire.target, wire.script)
              == Push(old(wire.target), old(wire.script), part.uuencode, start, data[..length])
  {
    hide Push, Deliver, Honest;
    gaveUp := false;
    if start % 4 != 0 || length % 4 != 0 { return true, false; }
    ghost var goal := Push(wire.target, wire.script, part.uuencode, start, data[..length]);
    var addr, pos, fail := start, 0, false;
    var resend: nat := ATTEMPTS;
    assert data[0..length] == data[..length];
    while !fail && pos < length && resend > 0
      invariant pos <= length && (length - pos) % 4 == 0 && resend <= ATTEMPTS
      invariant !part.uuencode ==> resend == ATTEMPTS
      invariant Honest(wire.script) && (!fail ==> wire.received == [])
      invariant !fail && resend < ATTEMPTS
                ==> pos < length && wire.target.cursor + Min(length - pos, BLOCK) <= |wire.target.ram|
      invariant !fail ==> goal == Remaining(wire.target, wire.script, part.uuencode, addr, data[pos..length], resend)
      invariant fail ==> goal == Pushed(false, false, wire.target, wire.script)
      decreases !fail, length - pos, resend
    {
      var bytesThisBlock := Min(length - pos, BLOCK);
      assert data[pos..][..length - pos] == data[pos..length];
      if resend == ATTEMPTS {
        PushAsks(wire.target, wire.script, part.uuencode, addr, data[pos..length]);
        var matched := wire.SendCommand(WriteRam(addr, bytesThisBlock));
        fail := !matched;
      }
      if !fail {
        var v := SendOneBlock(wire, part, addr, data[pos..], length - pos, resend);
        assert data[pos..][bytesThisBlock..length - pos] == data[pos + bytesThisBlock..length];
        if v == Accepted {
          resend := ATTEMPTS;
          addr, pos := addr + bytesThisBlock, pos + bytesThisBlock;
        } else if v == Again {
          resend := resend - 1;
        } else {
          fail := true;
        }
      }
    }
    gaveUp := !fail && resend == 0;
    if gaveUp {
      GivenUp(wire.target, wire.script, part.uuencode, addr, data[pos..length]);
    } else if !fail {
      assert data[pos..length] == [];
      PushNothing(wire.target, wire.script, part.uuencode, addr);
    }
    return !fail, gaveUp;
  }

  lemma GivenUp(t: Target, script: seq<Move>, uuencode: bool, addr: nat, data: seq<byte>)
    requires uuencode && data != [] && |data| % 4 == 0 && t.cursor + Min(|data|, BLOCK) <= |t.ram|
    ensures Deliver(t, script, uuencode, addr, data, 0) == Pushed(true, true, t, script)
  {
  }
}
