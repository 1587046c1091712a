/** Erasing the target and writing an image to its flash. */
module IspFlash {
  import opened Bytes
  import opened IspTarget
  import opened IspLink
  import opened IspHost

  // Finding a sector.

  /** The first sector containing an address, or -1. */
  function SectorAt(sectors: seq<Sector>, addr: nat): (i: int)
    ensures -1 <= i < |sectors|
    ensures i >= 0 ==> sectors[i].Contains(addr)
    ensures i < 0 ==> forall k :: 0 <= k < |sectors| ==> !sectors[k].Contains(addr)
    decreases |sectors|
  {
    if sectors == [] then -1
    else
      var front := sectors[..|sectors| - 1];
      var i := SectorAt(front, addr);
      if i >= 0 then i
      else
        assert forall k :: 0 <= k < |front| ==> !front[k].Contains(addr) && front[k] == sectors[k];
        if sectors[|sectors| - 1].Contains(addr) then |sectors| - 1 else -1
  }

  lemma {:induction false} SectorAtIsFirst(sectors: seq<Sector>, addr: nat, i: nat)
    requires i < |sectors| && sectors[i].Contains(addr)
    requires forall k :: 0 <= k < i ==> !sectors[k].Contains(addr)
    ensures SectorAt(sectors, addr) == i
    decreases |sectors|
  {
    var front := sectors[..|sectors| - 1];
    if i < |front| {
      assert front[i] == sectors[i];
      SectorAtIsFirst(front, addr, i);
    }
  }

  method GetSectorAddr(addr: nat, part: Part) returns (i: int)
    ensures i == SectorAt(part.sectors, addr)
  {
    var sectorNum := 0;
    while sectorNum < |part.sectors|
      invariant sectorNum <= |part.sectors|
      invariant forall k :: 0 <= k < sectorNum ==> !part.sectors[k].Contains(addr)
    {
      if part.sectors[sectorNum].base <= addr && part.sectors[sectorNum].base + part.sectors[sectorNum].size > addr {
        SectorAtIsFirst(part.sectors, addr, sectorNum);
        return sectorNum;
      }
      sectorNum := sectorNum + 1;
    }
    return -1;
  }

  // Writing an image.

  datatype Written = Written(ok: bool, gaveUp: bool, target: Target, script: seq<Move>)

  /** The bytes a block of the image puts in flash: short data is padded with 0xff. */
  function Padded(data: seq<byte>, size: nat): (r: seq<byte>)
    requires |data| <= size
    ensures |r| == size
  {
    data + Fill(size - |data|, 0xff)
  }

  /** One block: push it to RAM, prepare its sector in bank 0, copy it to flash. */
  function WriteBlock(t: Target, script: seq<Move>, part: Part, addr: nat, block: seq<byte>): Written
    requires part.WellFormed() && |block| == part.blockSize
  {
    var p := Push(t, script, part.uuencode, part.ramBase, block);
    if !p.ok then Written(false, p.gaveUp, p.target, p.script)
    else
      var sector := SectorAt(part.sectors, addr);
      if sector < 0 then Written(false, p.gaveUp, p.target, p.script)
      else
        var a := Ask(p.target, p.script, Prepare(sector, sector, part.Bank(0)));
        if !a.matched then Written(false, p.gaveUp, a.target, a.script)
        else
          var c := Ask(a.target, a.script, Copy(addr, part.ramBase, part.blockSize));
          Written(c.matched, p.gaveUp, c.target, c.script)
  }

  /** All blocks of the image, then one block of 0xff. */
  function WriteImage(t: Target, script: seq<Move>, part: Part, addr: nat, data: seq<byte>, extra: bool): Written
    requires part.WellFormed()
    decreases |data|, extra
  {
    if data == [] && !extra then Written(true, false, t, script)
    else
      var n := Min(|data|, part.blockSize);
      var w := WriteBlock(t, script, part, addr, Padded(data[..n], part.blockSize));
      if !w.ok then w
      else
        var rest := WriteImage(w.target, w.script, part, addr + part.blockSize, data[n..], data != [] && extra);
        rest.(gaveUp := w.gaveUp || rest.gaveUp)
  }

  /** What the flash is to hold: the image, 0xff up to the block boundary, and the extra block. */
  function FlashImage(data: seq<byte>, size: nat, extra: bool): seq<byte>
    requires size > 0
    decreases |data|, extra
  {
    if data == [] && !extra then []
    else
      var n := Min(|data|, size);
      Padded(data[..n], size) + FlashImage(data[n..], size, data != [] && extra)
  }

  /** Blocks needed for n bytes. */
  function BlockCount(n: nat, size: nat): nat
    requires size > 0
  {
    if n == 0 then 0 else 1 + BlockCount(n - Min(n, size), size)
  }

  /** The image fills whole blocks, and is longer than the data by at least one block and less than two. */
  lemma {:induction false} FlashImageLength(data: seq<byte>, size: nat)
    requires size > 0
    ensures var l := |FlashImage(data, size, true)|;
            && l == (BlockCount(|data|, size) + 1) * size
            && |data| + size <= l < |data| + 2 * size
    decreases |data|
  {
    if data == [] {
      assert FlashImage([], size, false) == [];
    } else {
      var n := Min(|data|, size);
      FlashImageLength(data[n..], size);
      var k := BlockCount(|data| - n, size);
      assert (k + 2) * size == (k + 1) * size + size;
    }
  }

  /** The image is the data followed by 0xff only. */
  lemma {:induction false} FlashImageContents(data: seq<byte>, size: nat)
    requires size > 0
    ensures data <= FlashImage(data, size, true)
    ensures forall i :: |data| <= i < |FlashImage(data, size, true)| ==> FlashImage(data, size, true)[i] == 0xff
    decreases |data|
  {
    hide FlashImage, Padded;
    OneBlockImage(size);
    if |data| < size {
      ShortImage(data, size);
    } else {
      var rest := data[size..];
      FullBlockImage(data, size);
      FlashImageContents(rest, size);
      assert data == data[..size] + rest;
      var image := FlashImage(data, size, true);
      forall i | |data| <= i < |image|
        ensures image[i] == 0xff
      {
        assert image[i] == FlashImage(rest, size, true)[i - size];
      }
    }
  }

  lemma OneBlockImage(size: nat)
    requires size > 0
    ensures FlashImage([], size, true) == Fill(size, 0xff)
  {
    assert FlashImage([], size, false) == [];
    var none: seq<byte> := [];
    assert none[..0] == [] && none[0..] == [];
    assert Padded([], size) == Fill(size, 0xff);
  }

  /** A last block is filled up with 0xff and followed by a block of it. */
  lemma ShortImage(data: seq<byte>, size: nat)
    requires |data| < size
    ensures var image := FlashImage(data, size, true);
            && data <= image && forall i :: |data| <= i < |image| ==> image[i] == 0xff
  {
    if data == [] {
      OneBlockImage(size);
    } else {
      assert data[..|data|] == data && data[|data|..] == [];
      OneBlockImage(size);
      assert FlashImage(data, size, true) == Padded(data, size) + Fill(size, 0xff);
    }
  }

  lemma FullBlockImage(data: seq<byte>, size: nat)
    requires 0 < size <= |data|
    ensures FlashImage(data, size, true) == data[..size] + FlashImage(data[size..], size, true)
  {
    assert Padded(data[..size], size) == data[..size];
  }

  ghost predicate Erased(flash: seq<byte>, from: nat, count: nat) {
    from + count <= |flash| && forall a :: from <= a < from + count ==> flash[a] == 0xff
  }

  /** A block reported written has gone to flash as it is, unless its push was given up. */
  lemma BlockHolds(t: Target, script: seq<Move>, part: Part, addr: nat, block: seq<byte>)
    requires part.WellFormed() && |block| == part.blockSize && Checked(script)
    ensures var w := WriteBlock(t, script, part, addr, block);
            && Checked(w.script)
            && |w.target.flash| == |t.flash| && |w.target.ram| == |t.ram| && w.target.sectors == t.sectors
            && (w.ok ==> addr + |block| <= |t.flash|)
            && (w.ok && !w.gaveUp && Erased(t.flash, addr, |block|) ==>
                  w.target.flash == Splice(t.flash, addr, block))
  {
    hide Push, SectorAt;
    PushHolds(t, script, part.uuencode, part.ramBase, block);
    var p := Push(t, script, part.uuencode, part.ramBase, block);
    var w := WriteBlock(t, script, part, addr, block);
    if w.ok && !w.gaveUp && Erased(t.flash, addr, |block|) {
      assert p.target.ram[part.ramBase..part.ramBase + |block|] == block;
      ProgramErased(t.flash, addr, block);
    }
  }

  /** On a line that never damages a block five times, no block of an image is given up. */
  lemma {:induction false} ImageNeverGivesUp(t: Target, script: seq<Move>, part: Part, addr: nat,
                                             data: seq<byte>, extra: bool)
    requires part.WellFormed() && NeverFive(script)
    ensures !WriteImage(t, script, part, addr, data, extra).gaveUp
    decreases |data|, extra
  {
    hide NeverFive, WriteBlock, Padded;
    if data != [] || extra {
      var n := Min(|data|, part.blockSize);
      var block := Padded(data[..n], part.blockSize);
      BlockNeverGivesUp(t, script, part, addr, block);
      var w := WriteBlock(t, script, part, addr, block);
      ImageNeverGivesUp(w.target, w.script, part, addr + part.blockSize, data[n..], data != [] && extra);
    }
  }

  lemma BlockNeverGivesUp(t: Target, script: seq<Move>, part: Part, addr: nat, block: seq<byte>)
    requires part.WellFormed() && |block| == part.blockSize && NeverFive(script)
    ensures var w := WriteBlock(t, script, part, addr, block); !w.gaveUp && NeverFive(w.script)
  {
    hide NeverFive, Push;
    PushNeverGivesUp(t, script, part.uuencode, part.ramBase, block);
    var p := Push(t, script, part.uuencode, part.ramBase, block);
    var sector := SectorAt(part.sectors, addr);
    if p.ok && sector >= 0 {
      AskNeverFive(p.target, p.script, Prepare(sector, sector, part.Bank(0)));
      var a := Ask(p.target, p.script, Prepare(sector, sector, part.Bank(0)));
      AskNeverFive(a.target, a.script, Copy(addr, part.ramBase, part.blockSize));
    }
  }

  /** Writing the front of an erased range leaves the rest erased. */
  lemma StillErased(flash: seq<byte>, addr: nat, block: seq<byte>, rest: nat)
    requires Erased(flash, addr, |block| + rest)
    ensures Erased(flash, addr, |block|)
    ensures Erased(Splice(flash, addr, block), addr + |block|, rest)
  {
  }

  /**
   * A reported success puts the image, padded and followed by an empty block, at its address
   * and changes no other flash byte, provided no block was given up and the range was erased.
   */
  lemma {:induction false} ImageHolds(t: Target, script: seq<Move>, part: Part, addr: nat, data: seq<byte>, extra: bool)
    requires part.WellFormed() && Checked(script)
    requires var w := WriteImage(t, script, part, addr, data, extra);
             w.ok && !w.gaveUp
    requires Erased(t.flash, addr, |FlashImage(data, part.blockSize, extra)|)
    ensures WriteImage(t, script, part, addr, data, extra).target.flash
            == Splice(t.flash, addr, FlashImage(data, part.blockSize, extra))
    decreases |data|, extra
  {
    hide Splice, WriteBlock, Erased;
    if data == [] && !extra {
      ErasedFits(t.flash, addr, 0);
      SpliceNothing(t.flash, addr);
      return;
    }
    var n := Min(|data|, part.blockSize);
    var block := Padded(data[..n], part.blockSize);
    var w := WriteBlock(t, script, part, addr, block);
    var rest := FlashImage(data[n..], part.blockSize, data != [] && extra);
    assert FlashImage(data, part.blockSize, extra) == block + rest;
    BlockHolds(t, script, part, addr, block);
    StillErased(t.flash, addr, block, |rest|);
    ErasedFits(t.flash, addr, |block| + |rest|);
    ImageHolds(w.target, w.script, part, addr + part.blockSize, data[n..], data != [] && extra);
    SpliceTwice(t.flash, addr, block, rest);
  }

  lemma ErasedFits(flash: seq<byte>, from: nat, count: nat)
    requires Erased(flash, from, count)
    ensures from + count <= |flash|
  {
  }

  /** An outcome, with earlier given-up blocks noted. */
  ghost function Noting(gaveUp: bool, w: Written): Written { w.(gaveUp := gaveUp || w.gaveUp) }

  /** The source's loop over an image, refilling one block buffer. */
  method WriteToFlash(wire: Wire, part: Part, start: nat, data: seq<byte>) returns (ok: bool, ghost gaveUp: bool)
    requires part.WellFormed() && Honest(wire.script) && wire.received == []
    modifies wire
    ensures Written(ok, gaveUp, wire.target, wire.script)
            == WriteImage(old(wire.target), old(wire.script), part, start, data, true)
  {
    hide WriteBlock, Padded, WriteImage;
    gaveUp := false;
    var size := part.blockSize;
    var buffer := new byte[size + 2];  // two readable bytes beyond the block
    var addr, pos, extra, fail := start, 0, true, false;
    ghost var goal := WriteImage(wire.target, wire.script, part, start, data, true);
    assert data[0..] == data;
    while !fail && (pos < |data| || extra)
      invariant pos <= |data| && buffer.Length == size + 2
      invariant Honest(wire.script) && (!fail ==> wire.received == [])
      invariant !extra ==> pos == |data|
      invariant !fail ==> goal == Noting(gaveUp, WriteImage(wire.target, wire.script, part, addr, data[pos..], extra))
      invariant fail ==> goal == Written(false, gaveUp, wire.target, wire.script)
      decreases !fail, |data| - pos, extra
    {
      var bytesToWrite := Min(|data| - pos, size);
      ghost var rest := data[pos..];
      assert rest[bytesToWrite..] == data[pos + bytesToWrite..];
      ImageStep(wire.target, wire.script, part, addr, rest, extra);
      assert (rest != [] && extra) == (pos < |data| && extra);
      if pos < |data| {
        assert rest[..bytesToWrite] == data[pos..pos + bytesToWrite];
        FillBlock(buffer, data[pos..pos + bytesToWrite], size);
      } else {
        assert rest[..bytesToWrite] == [];
        FillBlock(buffer, [], size);
        extra := false;
      }
      ghost var gaveUpNow;
      ghost var (t, script) := (wire.target, wire.script);
      assert buffer[..][..size] == Padded(rest[..bytesToWrite], size);
      ok, gaveUpNow := WriteOneBlock(wire, part, addr, buffer[..]);
      assert Written(ok, gaveUpNow, wire.target, wire.script)
          == WriteBlock(t, script, part, addr, Padded(rest[..bytesToWrite], size));
      gaveUp := gaveUp || gaveUpNow;
      if ok {
        pos := pos + bytesToWrite;
        addr := addr + size;
      } else {
        fail := true;
      }
    }
    if !fail {
      assert data[pos..] == [];
      NothingLeft(wire.target, wire.script, part, addr);
    }
    return !fail, gaveUp;
  }

  lemma NothingLeft(t: Target, script: seq<Move>, part: Part, addr: nat)
    requires part.WellFormed()
    ensures WriteImage(t, script, part, addr, [], false) == Written(true, false, t, script)
  {
  }

  lemma ImageStep(t: Target, script: seq<Move>, part: Part, addr: nat, data: seq<byte>, extra: bool)
    requires part.WellFormed() && (data != [] || extra)
    ensures var n := Min(|data|, part.blockSize);
            var w := WriteBlock(t, script, part, addr, Padded(data[..n], part.blockSize));
            WriteImage(t, script, part, addr, data, extra) ==
            if !w.ok then w else
              var rest := WriteImage(w.target, w.script, part, addr + part.blockSize, data[n..], data != [] && extra);
              rest.(gaveUp := w.gaveUp || rest.gaveUp)
  {
    hide WriteBlock, Padded;
  }

  /** memcpy and memset of one block. */
  method FillBlock(buffer: array<byte>, bytes: seq<byte>, size: nat)
    requires |bytes| <= size <= buffer.Length
    modifies buffer
    ensures buffer[..size] == Padded(bytes, size)
  {
    forall i | 0 <= i < |bytes| { buffer[i] := bytes[i]; }
    forall i | |bytes| <= i < size { buffer[i] := 0xff; }
  }

  method WriteOneBlock(wire: Wire, part: Part, addr: nat, buffer: seq<byte>) returns (ok: bool, ghost gaveUp: bool)
    requires part.WellFormed() && |buffer| == part.blockSize + 2 && Honest(wire.script) && wire.received == []
    modifies wire
    ensures Honest(wire.script) && (ok ==> wire.received == [])
    ensures Written(ok, gaveUp, wire.target, wire.script)
            == WriteBlock(old(wire.target), old(wire.script), part, addr, buffer[..part.blockSize])
  {
    ok, gaveUp := WriteToRam(wire, part, part.ramBase, buffer, part.blockSize);
    if ok {
      var curSector := GetSectorAddr(addr, part);
      ok := curSector >= 0;
      if ok {
        ok := wire.SendCommand(Prepare(curSector, curSector, part.Bank(0)));
        if ok {
          ok := wire.SendCommand(Copy(addr, part.ramBase, part.blockSize));
        }
      }
    }
  }

  /**
   * A block that is given up is copied to flash all the same, and success reported: flash takes what RAM holds, the
   * data before a block of 512 bytes that did not arrive and stale bytes behind it.
   */
  lemma GivenUpIsCopied(t: Target, script: seq<Move>, part: Part, addr: nat, block: seq<byte>) returns (done: nat)
    requires part.WellFormed() && |block| == part.blockSize && Checked(script) && SectorAt(part.sectors, addr) >= 0
    requires Push(t, script, part.uuencode, part.ramBase, block).gaveUp
    requires var p := Push(t, script, part.uuencode, part.ramBase, block);
             var sector := SectorAt(part.sectors, addr);
             var a := Ask(p.target, p.script, Prepare(sector, sector, 0));
             a.matched && Ask(a.target, a.script, Copy(addr, part.ramBase, part.blockSize)).matched
    ensures done < |block| && part.ramBase + done <= |t.ram|
    ensures var w := WriteBlock(t, script, part, addr, block);
            var ram := Splice(t.ram, part.ramBase, block[..done]);
            && w.ok && w.gaveUp
            && part.ramBase + part.blockSize <= |ram| && addr + part.blockSize <= |t.flash|
            && w.target.flash == Program(t.flash, addr, ram[part.ramBase..part.ramBase + part.blockSize])
  {
    hide Push, Program, Splice, Target.Ready;
    done := PushGivenUp(t, script, part.uuencode, part.ramBase, block);
    PushHolds(t, script, part.uuencode, part.ramBase, block);
  }

  // When writing succeeds.

  /** A sector must be mapped where the extra block goes, whatever the target answers. */
  lemma {:induction false} ExtraBlockMapped(t: Target, script: seq<Move>, part: Part, addr: nat, data: seq<byte>)
    requires part.WellFormed() && WriteImage(t, script, part, addr, data, true).ok
    ensures SectorAt(part.sectors, addr + BlockCount(|data|, part.blockSize) * part.blockSize) >= 0
    decreases |data|
  {
    hide WriteBlock, Padded;
    var (n, size) := (Min(|data|, part.blockSize), part.blockSize);
    var w := WriteBlock(t, script, part, addr, Padded(data[..n], size));
    if data == [] {
      BlockSector(t, script, part, addr, Padded([], size));
      assert data[..n] == [];
    } else {
      ExtraBlockMapped(w.target, w.script, part, addr + size, data[n..]);
      NextBlock(addr, size, BlockCount(|data| - n, size));
    }
  }

  lemma NextBlock(addr: nat, size: nat, k: nat)
    ensures addr + size + k * size == addr + (1 + k) * size
  {
  }

  lemma BlockSector(t: Target, script: seq<Move>, part: Part, addr: nat, block: seq<byte>)
    requires part.WellFormed() && |block| == part.blockSize && WriteBlock(t, script, part, addr, block).ok
    ensures SectorAt(part.sectors, addr) >= 0
  {
  }

  /** An image that ends exactly where the mapped sectors end is refused. */
  lemma FullFlashRefused(t: Target, script: seq<Move>, part: Part, addr: nat, data: seq<byte>)
    requires part.WellFormed()
    requires BlockCount(|data|, part.blockSize) * part.blockSize == |data|
    requires forall i :: 0 <= i < |part.sectors| ==> part.sectors[i].base + part.sectors[i].size <= addr + |data|
    ensures !WriteImage(t, script, part, addr, data, true).ok
  {
    if WriteImage(t, script, part, addr, data, true).ok {
      ExtraBlockMapped(t, script, part, addr, data);
    }
  }

  predicate Mapped(sectors: seq<Sector>, a: nat) {
    exists i :: 0 <= i < |sectors| && sectors[i].Contains(a)
  }

  ghost predicate AllMapped(t: Target, from: nat, count: nat) {
    from + count <= |t.flash| && forall a: nat :: from <= a < from + count ==> Mapped(t.sectors, a)
  }

  lemma BlockMapped(t: Target, script: seq<Move>, part: Part, addr: nat, block: seq<byte>)
    requires part.WellFormed() && |block| == part.blockSize && Checked(script)
    requires WriteBlock(t, script, part, addr, block).ok
    ensures AllMapped(t, addr, part.blockSize)
  {
    PushHolds(t, script, part.uuencode, part.ramBase, block);
    var p := Push(t, script, part.uuencode, part.ramBase, block);
    var sector := SectorAt(part.sectors, addr);
    var a := Ask(p.target, p.script, Prepare(sector, sector, part.Bank(0)));
    assert a.target.Writable(addr, part.blockSize);
    forall x: nat | addr <= x < addr + part.blockSize
      ensures Mapped(t.sectors, x)
    {
      assert a.target.Ready(x);
    }
  }

  /** Everything written lies in the target's sectors. */
  lemma {:induction false} WrittenIsMapped(t: Target, script: seq<Move>, part: Part, addr: nat,
                                           data: seq<byte>, extra: bool)
    requires part.WellFormed() && addr <= |t.flash|
    requires Checked(script) && WriteImage(t, script, part, addr, data, extra).ok
    ensures AllMapped(t, addr, |FlashImage(data, part.blockSize, extra)|)
    decreases |data|, extra
  {
    hide WriteBlock;
    if data != [] || extra {
      var n := Min(|data|, part.blockSize);
      var block := Padded(data[..n], part.blockSize);
      var w := WriteBlock(t, script, part, addr, block);
      BlockMapped(t, script, part, addr, block);
      BlockHolds(t, script, part, addr, block);
      WrittenIsMapped(w.target, w.script, part, addr + part.blockSize, data[n..], data != [] && extra);
    }
  }
}
