/** Erase and write together: what the target's flash holds after an update. */
module IspUpdate {
  import opened Bytes
  import opened IspTarget
  import opened IspLink
  import opened IspHost
  import opened IspFlash
  import opened IspErase

  /** The part table describes the target: its own sectors, grouped by bank; with a single bank, that is bank 0. */
  ghost predicate Describes(part: Part, t: Target) {
    && part.WellFormed()
    && part.sectors == t.sectors
    && Grouped(part.sectors)
    && (part.numBanks >= 2 || forall i :: 0 <= i < |part.sectors| ==> part.sectors[i].bank == 0)
  }

  /** The first i sectors are erased and no address outside all sectors has changed. */
  ghost predicate ErasedUpTo(t: Target, flash: seq<byte>, i: nat)
    requires i <= |t.sectors|
  {
    && |t.flash| == |flash|
    && (forall a: nat, k :: 0 <= k < i && t.sectors[k].Contains(a) && a < |flash| ==> t.flash[a] == 0xff)
    && (forall a: nat :: a < |flash| && !Mapped(t.sectors, a) ==> t.flash[a] == flash[a])
  }

  lemma EraseOneStep(t: Target, script: seq<Move>, part: Part, flash: seq<byte>, i: nat)
    requires Describes(part, t) && i < |t.sectors| && ErasedUpTo(t, flash, i)
    requires AskAll(t, script, EraseOne(part, i)).matched
    ensures var a := AskAll(t, script, EraseOne(part, i));
            Describes(part, a.target) && ErasedUpTo(a.target, flash, i + 1)
  {
    var (n, bank) := (Running(part.sectors, i), part.Bank(part.sectors[i].bank));
    AskTwo(t, script, Prepare(n, n, bank), Erase(n, n, bank));
    RunningIsNumber(part.sectors, i);
    var p := Ask(t, script, Prepare(n, n, bank));
    var e := Ask(p.target, p.script, Erase(n, n, bank));
    forall a: nat | a < |flash|
      ensures t.sectors[i].Contains(a) ==> e.target.flash[a] == 0xff
      ensures e.target.flash[a] == 0xff || e.target.flash[a] == t.flash[a]
      ensures !Mapped(t.sectors, a) ==> e.target.flash[a] == t.flash[a]
    {
      if t.sectors[i].Contains(a) {
        assert InSectors(t.sectors, bank, n, n, a);
      }
      if !Mapped(t.sectors, a) {
        assert !InSectors(t.sectors, bank, n, n, a);
      }
    }
  }

  /** A reported success has erased every mapped byte and touched no other. */
  lemma {:induction false} EraseHolds(t: Target, script: seq<Move>, part: Part, flash: seq<byte>, i: nat)
    requires Describes(part, t) && i <= |t.sectors| && ErasedUpTo(t, flash, i)
    requires AskAll(t, script, EraseList(part, i)).matched
    ensures var a := AskAll(t, script, EraseList(part, i));
            Describes(part, a.target) && ErasedUpTo(a.target, flash, |t.sectors|)
    decreases |t.sectors| - i
  {
    hide AskAll, Describes, ErasedUpTo, EraseOne;
    DescribesSectors(part, t);
    if i < |t.sectors| {
      var one := AskAll(t, script, EraseOne(part, i));
      AskAllAppend(t, script, EraseOne(part, i), EraseList(part, i + 1));
      EraseOneStep(t, script, part, flash, i);
      DescribesSectors(part, one.target);
      EraseHolds(one.target, one.script, part, flash, i + 1);
    } else {
      NothingAsked(t, script);
    }
  }

  lemma DescribesSectors(part: Part, t: Target)
    requires Describes(part, t)
    ensures part.sectors == t.sectors && part.WellFormed()
  {
  }

  /**
   * An update that reports success at every step, with no block given up, leaves the image at its address,
   * 0xff up to a block boundary and in one further block, 0xff in the rest of the sectors,
   * and every byte outside the sectors as it was.
   */
  lemma UpdateHolds(t: Target, script: seq<Move>, part: Part, addr: nat, data: seq<byte>)
    requires Describes(part, t) && addr <= |t.flash| && Checked(script)
    requires AskAll(t, script, EraseList(part, 0)).matched
    requires var a := AskAll(t, script, EraseList(part, 0));
             var w := WriteImage(a.target, a.script, part, addr, data, true);
             w.ok && !w.gaveUp
    ensures var a := AskAll(t, script, EraseList(part, 0));
            var flash := WriteImage(a.target, a.script, part, addr, data, true).target.flash;
            Updated(flash, t, addr, FlashImage(data, part.blockSize, true))
  {
    hide AskAll, WriteImage, Describes, Checked;
    DescribesSectors(part, t);
    StartErase(t);
    EraseHolds(t, script, part, t.flash, 0);
    var a := AskAll(t, script, EraseList(part, 0));
    DescribesSectors(part, a.target);
    var image := FlashImage(data, part.blockSize, true);
    var k := AskAllTail(t, script, EraseList(part, 0));
    CheckedTail(script, k);
    WrittenIsMapped(a.target, a.script, part, addr, data, true);
    forall x: nat | x < |t.flash| && Mapped(t.sectors, x)
      ensures a.target.flash[x] == 0xff
    {
      var k :| 0 <= k < |t.sectors| && t.sectors[k].Contains(x);
    }
    assert Erased(a.target.flash, addr, |image|);
    ImageHolds(a.target, a.script, part, addr, data, true);
  }

  lemma CheckedTail(script: seq<Move>, k: nat)
    requires Checked(script) && k <= |script|
    ensures Checked(script[k..])
  {
  }

  /** The flash after an update: the image at its address, 0xff in the rest of the sectors, nothing else changed. */
  ghost predicate Updated(flash: seq<byte>, t: Target, addr: nat, image: seq<byte>) {
    && |flash| == |t.flash| && addr + |image| <= |flash|
    && forall x: nat :: x < |flash| ==>
         flash[x] == if addr <= x < addr + |image| then image[x - addr]
                     else if Mapped(t.sectors, x) then 0xff else t.flash[x]
  }

  /** Erase everything, then write the whole image from the first sector on; an empty image is refused. */
  method Update(wire: Wire, part: Part, data: seq<byte>) returns (ok: bool, ghost gaveUp: bool)
    requires Describes(part, wire.target) && Honest(wire.script) && Checked(wire.script) && wire.received == []
    requires part.sectors != [] ==> part.sectors[0].base <= |wire.target.flash|
    modifies wire
    ensures ok ==> part.sectors != [] && data != []
    ensures ok && !gaveUp ==>
              Updated(wire.target.flash, old(wire.target), part.sectors[0].base, FlashImage(data, part.blockSize, true))
    ensures NeverFive(old(wire.script)) ==> !gaveUp
  {
    hide AskAll, WriteImage, Describes, EraseList, FlashImage, Honest, Checked, NeverFive;
    DescribesSectors(part, wire.target);
    ghost var (t, script) := (wire.target, wire.script);
    gaveUp := false;
    ok := EraseAll(wire, part);
    if !ok { return false, false; }
    var start := part.sectors[0].base;
    if data == [] { return false, false; }
    ghost var erased := wire.script;
    var k := AskAllTail(t, script, EraseList(part, 0));
    if NeverFive(script) {
      NeverFiveTail(script, k);
      ImageNeverGivesUp(wire.target, erased, part, start, data, true);
    }
    ok, gaveUp := WriteToFlash(wire, part, start, data);
    if ok && !gaveUp { UpdateHolds(t, script, part, start, data); }
  }

  lemma StartErase(t: Target)
    ensures ErasedUpTo(t, t.flash, 0)
  {
  }

  // When an update goes through.

  /** A line without noise on which the target answers everything. */
  ghost predicate Cooperative(script: seq<Move>) {
    forall i :: 0 <= i < |script| ==> script[i].Answer? && forall s: seq<byte> :: script[i].channel(s) == s
  }

  /** Replies read for a push, a block, and a whole image. */
  function PushReplies(count: nat, uuencode: bool): nat {
    if count == 0 then 0 else (if uuencode then 2 else 1) + PushReplies(count - Min(count, BLOCK), uuencode)
  }

  function ImageReplies(count: nat, part: Part, extra: bool): nat
    requires part.WellFormed()
    decreases count, extra
  {
    if count == 0 && !extra then 0
    else PushReplies(part.blockSize, part.uuencode) + 2
         + ImageReplies(count - Min(count, part.blockSize), part, count > 0 && extra)
  }

  /** On a line without noise a block is stored at the first attempt. */
  lemma BlockArrives(t: Target, script: seq<Move>, uuencode: bool, addr: nat, data: seq<byte>)
    requires data != [] && |data| % 4 == 0 && Cooperative(script) && (uuencode ==> script != [])
    requires t.cursor + Min(|data|, BLOCK) <= |t.ram|
    ensures var n := Min(|data|, BLOCK);
            Deliver(t, script, uuencode, addr, data, ATTEMPTS) ==
            Push(t.Store(data[..n]), if uuencode then script[1..] else script, uuencode, addr + n, data[n..])
  {
    hide Push, Splice;
  }

  lemma {:induction false} PushSucceeds(t: Target, script: seq<Move>, uuencode: bool, addr: nat, data: seq<byte>)
    requires |data| % 4 == 0 && addr % 4 == 0 && Cooperative(script)
    requires PushReplies(|data|, uuencode) <= |script|
    ensures var p := Push(t, script, uuencode, addr, data);
            && p.ok == (data == [] || addr + |data| <= |t.ram|)
            && (p.ok ==> !p.gaveUp && p.script == script[PushReplies(|data|, uuencode)..])
    decreases |data|
  {
    hide Splice, Push, Deliver, Cooperative;
    if data == [] {
      PushNothing(t, script, uuencode, addr);
    } else {
      var n := Min(|data|, BLOCK);
      AnswersFirst(script);
      PushAsks(t, script, uuencode, addr, data);
      var a := Ask(t, script, WriteRam(addr, n));
      if a.matched {
        var used := if uuencode then 2 else 1;
        CooperativeTail(script, 1);
        CooperativeTail(script, used);
        BlockArrives(a.target, a.script, uuencode, addr, data);
        assert (if uuencode then a.script[1..] else a.script) == script[used..];
        PushSucceeds(a.target.Store(data[..n]), script[used..], uuencode, addr + n, data[n..]);
        assert script[used..][PushReplies(|data| - n, uuencode)..] == script[PushReplies(|data|, uuencode)..];
      }
    }
  }

  lemma AnswersFirst(script: seq<Move>)
    requires Cooperative(script)
    ensures script != [] ==> script[0].Answer?
  {
  }

  /** A block can be written at an address: its sector is in the first bank and holds the whole block. */
  ghost predicate BlockFits(t: Target, part: Part, addr: nat)
    requires part.WellFormed()
  {
    var sector := SectorAt(part.sectors, addr);
    && part.ramBase + part.blockSize <= |t.ram| && addr + part.blockSize <= |t.flash|
    && addr % 256 == 0 && CopyCount(part.blockSize)
    && 0 <= sector < CountBank(t.sectors, 0)
    && forall a: nat :: addr <= a < addr + part.blockSize ==> InSectors(t.sectors, 0, sector, sector, a)
  }

  lemma BlockSucceedsIff(t: Target, script: seq<Move>, part: Part, addr: nat, block: seq<byte>)
    requires part.WellFormed() && |block| == part.blockSize && Cooperative(script) && t.prepared == {}
    requires PushReplies(part.blockSize, part.uuencode) + 2 <= |script|
    ensures var w := WriteBlock(t, script, part, addr, block);
            && w.ok == BlockFits(t, part, addr)
            && (w.ok ==>
                  && !w.gaveUp && w.script == script[PushReplies(part.blockSize, part.uuencode) + 2..]
                  && w.target.prepared == {} && w.target.sectors == t.sectors
                  && |w.target.ram| == |t.ram| && |w.target.flash| == |t.flash|)
  {
    var r := PushReplies(part.blockSize, part.uuencode);
    PushSucceeds(t, script, part.uuencode, part.ramBase, block);
    PushHolds(t, script, part.uuencode, part.ramBase, block);
    var p := Push(t, script, part.uuencode, part.ramBase, block);
    var sector := SectorAt(part.sectors, addr);
    if p.ok && sector >= 0 {
      assert p.script[0] == script[r] && p.script[1..][0] == script[r + 1];
      assert p.script[1..][1..] == script[r + 2..];
      var prepared := p.target.prepared + set n: nat | sector <= n <= sector :: (part.Bank(0), n);
      assert prepared == {(part.Bank(0), sector)};
      var a := Ask(p.target, p.script, Prepare(sector, sector, part.Bank(0)));
      if a.matched {
        forall x: nat
          ensures a.target.Ready(x) <==> InSectors(t.sectors, part.Bank(0), sector, sector, x)
        {
        }
      }
    }
  }

  /** Every block of the image, the extra one included, can be written where it goes. */
  ghost predicate AllFit(t: Target, part: Part, addr: nat, count: nat, extra: bool)
    requires part.WellFormed()
    decreases count, extra
  {
    || (count == 0 && !extra)
    || (BlockFits(t, part, addr)
        && AllFit(t, part, addr + part.blockSize, count - Min(count, part.blockSize), count > 0 && extra))
  }

  lemma {:induction false} AllFitSameSize(t: Target, u: Target, part: Part, addr: nat, count: nat, extra: bool)
    requires part.WellFormed() && t.sectors == u.sectors && |t.ram| == |u.ram| && |t.flash| == |u.flash|
    ensures AllFit(t, part, addr, count, extra) == AllFit(u, part, addr, count, extra)
    decreases count, extra
  {
    if count != 0 || extra {
      AllFitSameSize(t, u, part, addr + part.blockSize, count - Min(count, part.blockSize), count > 0 && extra);
    }
  }

  /** On a line without noise an image is written exactly when every block, the extra one included, fits. */
  lemma {:induction false} ImageSucceedsIff(t: Target, script: seq<Move>, part: Part, addr: nat,
                                            data: seq<byte>, extra: bool)
    requires part.WellFormed() && Cooperative(script) && t.prepared == {}
    requires ImageReplies(|data|, part, extra) <= |script|
    ensures var w := WriteImage(t, script, part, addr, data, extra);
            w.ok == AllFit(t, part, addr, |data|, extra) && (w.ok ==> !w.gaveUp)
    decreases |data|, extra
  {
    hide WriteBlock, BlockFits, Padded;
    if data != [] || extra {
      var n := Min(|data|, part.blockSize);
      var block := Padded(data[..n], part.blockSize);
      var w := WriteBlock(t, script, part, addr, block);
      BlockSucceedsIff(t, script, part, addr, block);
      if w.ok {
        var (count, extra') := (|data| - n, data != [] && extra);
        AllFitSameSize(t, w.target, part, addr + part.blockSize, count, extra');
        CooperativeTail(script, |script| - |w.script|);
        ImageSucceedsIff(w.target, w.script, part, addr + part.blockSize, data[n..], extra');
      }
    }
  }

  lemma CooperativeTail(script: seq<Move>, k: nat)
    requires Cooperative(script) && k <= |script|
    ensures Cooperative(script[k..])
  {
  }
}
