/** Erasing every sector of the target, numbered within its bank. */
module IspErase {
  import opened IspTarget
  import opened IspLink
  import opened IspHost

  /** The number the loop gives sector i: it starts again at 0 whenever the bank changes. */
  function Running(sectors: seq<Sector>, i: nat): nat
    requires i < |sectors|
  {
    if i == 0 || sectors[i].bank != sectors[i - 1].bank then 0 else Running(sectors, i - 1) + 1
  }

  /** The sectors of each bank are contiguous in the map. */
  ghost predicate Grouped(sectors: seq<Sector>) {
    forall i, j, k :: 0 <= i < j < k < |sectors| && sectors[i].bank == sectors[k].bank
                      ==> sectors[j].bank == sectors[i].bank
  }

  lemma {:induction false} CountBankAppend(a: seq<Sector>, s: Sector, bank: nat)
    ensures CountBank(a + [s], bank) == CountBank(a, bank) + (if s.bank == bank then 1 else 0)
  {
    assert (a + [s])[..|a|] == a;
  }

  /** A bank that occurs has a positive count. */
  lemma {:induction false} CountPositive(sectors: seq<Sector>, bank: nat)
    ensures CountBank(sectors, bank) > 0 <==> exists i :: 0 <= i < |sectors| && sectors[i].bank == bank
  {
    if sectors != [] {
      var n := |sectors| - 1;
      CountPositive(sectors[..n], bank);
      if CountBank(sectors[..n], bank) > 0 {
        var i :| 0 <= i < n && sectors[..n][i].bank == bank;
        assert sectors[i].bank == bank;
      }
      if i :| 0 <= i < |sectors| && sectors[i].bank == bank {
        assert i < n ==> sectors[..n][i].bank == bank;
      }
    }
  }

  /** In a map grouped by bank the running number is the sector's number in its bank. */
  lemma {:induction false} RunningIsNumber(sectors: seq<Sector>, i: nat)
    requires Grouped(sectors) && i < |sectors|
    ensures Running(sectors, i) == Number(sectors, i)
  {
    var bank := sectors[i].bank;
    if i > 0 {
      assert sectors[..i] == sectors[..i - 1] + [sectors[i - 1]];
      CountBankAppend(sectors[..i - 1], sectors[i - 1], bank);
      if sectors[i - 1].bank == bank {
        RunningIsNumber(sectors, i - 1);
      } else {
        CountPositive(sectors[..i], bank);
        assert CountBank(sectors[..i], bank) == 0;
      }
    }
  }

  /** Sector numbers within a bank are all different. */
  lemma {:induction false} NumberGrows(sectors: seq<Sector>, i: nat, j: nat)
    requires i < j < |sectors| && sectors[i].bank == sectors[j].bank
    ensures Number(sectors, i) < Number(sectors, j)
  {
    var bank := sectors[i].bank;
    CountBankAppend(sectors[..i], sectors[i], bank);
    assert sectors[..i] + [sectors[i]] == sectors[..i + 1];
    CountMonotone(sectors, i + 1, j, bank);
  }

  lemma {:induction false} CountMonotone(sectors: seq<Sector>, i: nat, j: nat, bank: nat)
    requires i <= j <= |sectors|
    ensures CountBank(sectors[..i], bank) <= CountBank(sectors[..j], bank)
    decreases j
  {
    if i < j {
      CountMonotone(sectors, i, j - 1, bank);
      CountBankAppend(sectors[..j - 1], sectors[j - 1], bank);
      assert sectors[..j - 1] + [sectors[j - 1]] == sectors[..j];
    }
  }

  /** Where the run of equal banks that contains i begins. */
  lemma {:induction false} FirstOfRun(sectors: seq<Sector>, i: nat) returns (a: nat)
    requires i < |sectors|
    ensures a <= i && Running(sectors, a) == 0
    ensures forall k :: a <= k <= i ==> sectors[k].bank == sectors[i].bank
  {
    if i == 0 || sectors[i].bank != sectors[i - 1].bank {
      a := i;
    } else {
      a := FirstOfRun(sectors, i - 1);
    }
  }

  // The commands.

  /** The two commands for sector i. */
  function EraseOne(part: Part, i: nat): (cs: seq<Command>)
    requires i < |part.sectors|
    ensures |cs| == 2
  {
    var (n, bank) := (Running(part.sectors, i), part.Bank(part.sectors[i].bank));
    [Prepare(n, n, bank), Erase(n, n, bank)]
  }

  /**
   * Sectors that are sent the same bank argument lie together and in one bank of the map; a part with a single
   * bank is sent no bank argument, so its map must not have a second one.
   */
  ghost predicate SentGrouped(part: Part) {
    forall i, j, k :: 0 <= i <= j <= k < |part.sectors|
                      && (part.numBanks < 2 || part.sectors[i].bank == part.sectors[k].bank)
                      ==> part.sectors[j].bank == part.sectors[i].bank
  }

  ghost predicate Repeats(part: Part, i: int, j: int) {
    0 <= i < j < |part.sectors| && EraseOne(part, i) == EraseOne(part, j)
  }

  lemma NoRepeat(part: Part, i: nat, j: nat)
    requires SentGrouped(part) && i < j < |part.sectors|
    ensures EraseOne(part, i) != EraseOne(part, j)
  {
    hide Number;
    var sectors := part.sectors;
    if part.Bank(sectors[i].bank) == part.Bank(sectors[j].bank) {
      assert Grouped(sectors);
      assert sectors[j].bank == sectors[i].bank;
      RunningIsNumber(sectors, i);
      RunningIsNumber(sectors, j);
      NumberGrows(sectors, i, j);
    }
    assert EraseOne(part, i)[0] != EraseOne(part, j)[0];
  }

  /** No two sectors are erased by the same commands exactly when the map is grouped by the banks sent. */
  lemma ErasedOnceIff(part: Part)
    ensures SentGrouped(part) <==> !exists i, j :: Repeats(part, i, j)
  {
    hide EraseOne, SentGrouped;
    if SentGrouped(part) {
      forall i, j | Repeats(part, i, j)
        ensures false
      {
        NoRepeat(part, i, j);
      }
    } else {
      var a, b := SomeRepeat(part);
      assert Repeats(part, a, b);
    }
  }

  lemma SomeRepeat(part: Part) returns (a: nat, b: nat)
    requires !SentGrouped(part)
    ensures a < b < |part.sectors| && EraseOne(part, a) == EraseOne(part, b)
  {
    hide Running, EraseOne;
    var sectors := part.sectors;
    var i, j, k :| && 0 <= i <= j <= k < |sectors| && (part.numBanks < 2 || sectors[i].bank == sectors[k].bank)
                   && sectors[j].bank != sectors[i].bank;
    a := FirstOfRun(sectors, i);
    b := FirstOfRun(sectors, k);
    SameCommands(part, a, b);
  }

  lemma SameCommands(part: Part, i: nat, j: nat)
    requires i < |part.sectors| && j < |part.sectors| && Running(part.sectors, i) == Running(part.sectors, j)
    requires part.Bank(part.sectors[i].bank) == part.Bank(part.sectors[j].bank)
    ensures EraseOne(part, i) == EraseOne(part, j)
  {
    hide Running;
  }

  /** The commands for the sectors from i on, in map order. */
  function EraseList(part: Part, i: nat): seq<Command>
    requires i <= |part.sectors|
    decreases |part.sectors| - i
  {
    if i == |part.sectors| then [] else EraseOne(part, i) + EraseList(part, i + 1)
  }

  /**
   * The commands of a whole erase: two for each sector in map order, with the running number, and with the sector's
   * own bank for parts of two banks or more, bank 0 for others.
   */
  lemma {:induction false} EraseCommands(part: Part, from: nat, i: nat)
    requires from <= i < |part.sectors|
    ensures |EraseList(part, from)| == 2 * (|part.sectors| - from)
    ensures var n := Running(part.sectors, i);
            var bank := if part.numBanks >= 2 then part.sectors[i].bank else 0;
            && EraseList(part, from)[2 * (i - from)] == Prepare(n, n, bank)
            && EraseList(part, from)[2 * (i - from) + 1] == Erase(n, n, bank)
    decreases |part.sectors| - from
  {
    if from < |part.sectors| - 1 { EraseCommands(part, from + 1, if from < i then i else i + 1); }
  }

  /** Commands sent one after the other until one is not matched. */
  function AskAll(t: Target, script: seq<Move>, cs: seq<Command>): Asked
    decreases |cs|
  {
    if cs == [] then Asked(true, t, script)
    else
      var a := Ask(t, script, cs[0]);
      if a.matched then AskAll(a.target, a.script, cs[1..]) else a
  }

  /** The target after the commands it takes, up to the first it refuses, without any line in between. */
  function DoAll(t: Target, cs: seq<Command>): Target
    decreases |cs|
  {
    if cs == [] || !t.Accepts(cs[0]) then t else DoAll(t.Do(cs[0]), cs[1..])
  }

  /** Command n reached the target and was accepted, but no reply to it came. */
  predicate Unanswered(u: Target, script: seq<Move>, cs: seq<Command>, n: nat) {
    n < |cs| && n < |script| && (script[n].Lost? || script[n].Echo?) && u.Accepts(cs[n])
  }

  /**
   * The outcome after n answered commands, n as large as possible: all of them carried out, in order, and one
   * more exactly if it was accepted without an answer.
   */
  ghost predicate DoneAfter(t: Target, script: seq<Move>, cs: seq<Command>, a: Asked, n: nat) {
    && n <= |cs| && n <= |script|
    && (forall i :: 0 <= i < n ==> script[i].Answer?)
    && (a.matched <==> n == |cs|)
    && var u := DoAll(t, cs[..n]);
    && u.history == t.history + cs[..n]
    && !(n < |cs| && n < |script| && script[n].Answer? && u.Accepts(cs[n]))
    && a.target == (if Unanswered(u, script, cs, n) then u.Do(cs[n]) else u)
    && a.target.history == t.history + cs[..if Unanswered(u, script, cs, n) then n + 1 else n]
  }

  /**
   * On success the target has carried out the whole list in order. On failure it has carried out exactly the
   * answered commands, a proper prefix, and the next one exactly if it was accepted and its reply did not come.
   */
  lemma {:induction false} CarriedOut(t: Target, script: seq<Move>, cs: seq<Command>)
    ensures exists n: nat :: DoneAfter(t, script, cs, AskAll(t, script, cs), n)
    decreases |cs|
  {
    var a := AskAll(t, script, cs);
    if cs == [] {
      assert t.history + cs == t.history;
      assert DoneAfter(t, script, cs, a, 0);
    } else {
      var first := Ask(t, script, cs[0]);
      assert a == if first.matched then AskAll(first.target, first.script, cs[1..]) else first;
      hide AskAll;
      if t.Accepts(cs[0]) { DoRecords(t, cs[0]); }
      if first.matched {
        CarriedOut(first.target, first.script, cs[1..]);
        var n: nat :| DoneAfter(first.target, first.script, cs[1..], a, n);
        OneMoreDone(t, script, cs, a, n);
      } else {
        assert t.history + cs[..0] == t.history && cs[..1] == [cs[0]] && DoAll(t, cs[..0]) == t;
        assert DoneAfter(t, script, cs, a, 0);
      }
    }
  }

  lemma DoRecords(t: Target, c: Command)
    requires t.Accepts(c)
    ensures t.Do(c).history == t.history + [c]
  {
    match c {
      case WriteRam(_, _) =>
      case Prepare(_, _, _) =>
      case Erase(_, _, _) =>
      case Copy(_, _, _) =>
    }
  }

  lemma OneMoreDone(t: Target, script: seq<Move>, cs: seq<Command>, a: Asked, n: nat)
    requires cs != [] && Ask(t, script, cs[0]).matched
    requires var first := Ask(t, script, cs[0]); DoneAfter(first.target, first.script, cs[1..], a, n)
    ensures DoneAfter(t, script, cs, a, n + 1)
  {
    hide Target.Accepts, Target.Do;
    DoRecords(t, cs[0]);
    assert cs[..n + 1][0] == cs[0] && cs[..n + 1][1..] == cs[1..][..n];
    FirstThenRest(t.history, cs, n);
    if n < |cs| - 1 { FirstThenRest(t.history, cs, n + 1); }
  }

  lemma FirstThenRest(done: seq<Command>, cs: seq<Command>, n: nat)
    requires n < |cs|
    ensures done + [cs[0]] + cs[1..][..n] == done + cs[..n + 1]
  {
    assert [cs[0]] + cs[1..][..n] == cs[..n + 1];
  }

  lemma AskOne(t: Target, script: seq<Move>, c: Command)
    ensures AskAll(t, script, [c]) == Ask(t, script, c)
  {
    assert [c][0] == c && [c][1..] == [];
    var a := Ask(t, script, c);
    if a.matched { NothingAsked(a.target, a.script); }
  }

  /** The last command can have been carried out although failure is reported. */
  lemma LostReply(t: Target, c: Command, channel: Channel)
    requires t.Accepts(c)
    ensures var a := AskAll(t, [Lost(channel)], [c]); !a.matched && a.target.history == t.history + [c]
  {
    hide AskAll;
    var script := [Lost(channel)];
    var a := Ask(t, script, c);
    assert script[0].Lost? && !a.matched && a.target == t.Do(c);
    AskOne(t, script, c);
    DoRecords(t, c);
  }

  lemma {:induction false} AskAllAppend(t: Target, script: seq<Move>, xs: seq<Command>, ys: seq<Command>)
    ensures AskAll(t, script, xs + ys) ==
            var a := AskAll(t, script, xs);
            if a.matched then AskAll(a.target, a.script, ys) else a
    decreases |xs|
  {
    if xs == [] {
      assert xs + ys == ys;
    } else {
      assert (xs + ys)[1..] == xs[1..] + ys;
      var a := Ask(t, script, xs[0]);
      if a.matched { AskAllAppend(a.target, a.script, xs[1..], ys); }
    }
  }

  /** Commands use up a part of the script from its front. */
  lemma {:induction false} AskAllTail(t: Target, script: seq<Move>, cs: seq<Command>) returns (k: nat)
    ensures k <= |script| && AskAll(t, script, cs).script == script[k..]
    decreases |cs|
  {
    k := 0;
    if cs != [] && script != [] {
      k := 1;
      var a := Ask(t, script, cs[0]);
      if a.matched {
        var j := AskAllTail(a.target, a.script, cs[1..]);
        k := j + 1;
      }
    }
  }

  lemma AskTwo(t: Target, script: seq<Move>, c: Command, d: Command)
    ensures AskAll(t, script, [c, d]) ==
            var a := Ask(t, script, c);
            if a.matched then Ask(a.target, a.script, d) else a
  {
    assert [c, d][1..] == [d] && [d][1..] == [];
    var a := Ask(t, script, c);
    if a.matched {
      var b := Ask(a.target, a.script, d);
      assert AskAll(a.target, a.script, [d]) == b;
    }
  }

  /** Erase a range of sectors of a bank. */
  method EraseSectors(wire: Wire, part: Part, first: nat, last: nat, bank: nat) returns (ok: bool)
    requires Honest(wire.script)
    modifies wire`target, wire`script
    ensures Honest(wire.script)
    ensures first <= last ==>
              var sent := if part.numBanks >= 2 then bank else 0;
              Asked(ok, wire.target, wire.script)
              == AskAll(old(wire.target), old(wire.script), [Prepare(first, last, sent), Erase(first, last, sent)])
    ensures first > last ==> !ok && wire.target == old(wire.target) && wire.script == old(wire.script)
  {
    if first > last { return false; }
    AskTwo(wire.target, wire.script, Prepare(first, last, part.Bank(bank)), Erase(first, last, part.Bank(bank)));
    ok := wire.SendCommand(Prepare(first, last, part.Bank(bank)));
    if ok {
      ok := wire.SendCommand(Erase(first, last, part.Bank(bank)));
    }
  }

  /** Erase all sectors; a part without sectors is refused. */
  method EraseAll(wire: Wire, part: Part) returns (ok: bool)
    requires Honest(wire.script)
    modifies wire`target, wire`script
    ensures Honest(wire.script)
    ensures part.sectors == [] ==> !ok && wire.target == old(wire.target) && wire.script == old(wire.script)
    ensures part.sectors != [] ==>
              Asked(ok, wire.target, wire.script) == AskAll(old(wire.target), old(wire.script), EraseList(part, 0))
  {
    hide AskAll;
    if |part.sectors| == 0 { return false; }
    var startSector, endSector, bank := 0, 0, 0;
    ghost var goal := AskAll(wire.target, wire.script, EraseList(part, 0));
    var i := 0;
    while i < |part.sectors|
      invariant i <= |part.sectors| && startSector == endSector
      invariant i > 0 ==> startSector == Running(part.sectors, i - 1) + 1 && bank == part.sectors[i - 1].bank
      invariant i == 0 ==> startSector == 0
      invariant Honest(wire.script)
      invariant goal == AskAll(wire.target, wire.script, EraseList(part, i))
    {
      if bank != part.sectors[i].bank {
        startSector, endSector := 0, 0;
        bank := part.sectors[i].bank;
      }
      AskAllAppend(wire.target, wire.script, EraseOne(part, i), EraseList(part, i + 1));
      ok := EraseSectors(wire, part, startSector, endSector, part.sectors[i].bank);
      if !ok { return false; }
      startSector, endSector := startSector + 1, endSector + 1;
      i := i + 1;
    }
    NothingAsked(wire.target, wire.script);
    return true;
  }

  lemma NothingAsked(t: Target, script: seq<Move>)
    ensures AskAll(t, script, []) == Asked(true, t, script)
  {
  }

  // The size of the flash.

  /** Bytes in all sectors. */
  function TotalSize(sectors: seq<Sector>): nat {
    if sectors == [] then 0 else TotalSize(sectors[..|sectors| - 1]) + sectors[|sectors| - 1].size
  }

  /** Each sector begins where the one before it ends. */
  ghost predicate Contiguous(sectors: seq<Sector>) {
    forall i :: 0 < i < |sectors| ==> sectors[i].base == sectors[i - 1].base + sectors[i - 1].size
  }

  /** In a contiguous map the summed size is the length of the range the sectors cover, and they cover no more. */
  lemma {:induction false} SizeCovers(sectors: seq<Sector>, a: nat)
    requires sectors != [] && Contiguous(sectors)
    ensures sectors[0].base + TotalSize(sectors) == sectors[|sectors| - 1].base + sectors[|sectors| - 1].size
    ensures (exists i :: 0 <= i < |sectors| && sectors[i].Contains(a))
            <==> sectors[0].base <= a < sectors[0].base + TotalSize(sectors)
  {
    var n := |sectors| - 1;
    var front := sectors[..n];
    if n == 0 {
      assert front == [];
      assert sectors[0].Contains(a) <==> sectors[0].base <= a < sectors[0].base + TotalSize(sectors);
    } else {
      SizeCovers(front, a);
      if i :| 0 <= i < n && front[i].Contains(a) { assert sectors[i].Contains(a); }
      if i :| 0 <= i <= n && sectors[i].Contains(a) { assert i < n ==> front[i].Contains(a); }
      assert sectors[n].Contains(a) <==> sectors[n].base <= a < sectors[0].base + TotalSize(sectors);
    }
  }

  method CalcFlashSize(sectors: seq<Sector>) returns (size: nat)
    ensures size == TotalSize(sectors) % 0x1_0000_0000
  {
    size := 0;
    ghost var total := 0;
    for i := 0 to |sectors|
      invariant total == TotalSize(sectors[..i]) && size == total % 0x1_0000_0000
    {
      assert sectors[..i + 1][..i] == sectors[..i];
      total := total + sectors[i].size;
      size := (size + sectors[i].size) % 0x1_0000_0000;
    }
    assert sectors[..|sectors|] == sectors;
  }
}
