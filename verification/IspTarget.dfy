/**
 * The boot loader on the other end of the serial line: RAM, flash and the sectors prepared for writing.
 * Commands follow the flash ISP chapter of NXP UM10360.
 */
module IspTarget {
  import opened Bytes

  datatype Sector = Sector(bank: nat, base: nat, size: nat) {
    predicate Contains(a: nat) { base <= a < base + size }
  }

  datatype Command =
    | WriteRam(addr: nat, count: nat)
    | Prepare(first: nat, last: nat, bank: nat)
    | Erase(first: nat, last: nat, bank: nat)
    | Copy(dest: nat, src: nat, count: nat)

  /** Byte counts the copy command takes. */
  predicate CopyCount(n: nat) { n == 256 || n == 512 || n == 1024 || n == 4096 }

  /** A sector's number within its bank: how many sectors of that bank come before it. */
  function Number(sectors: seq<Sector>, i: nat): nat
    requires i < |sectors|
  {
    CountBank(sectors[..i], sectors[i].bank)
  }

  function CountBank(sectors: seq<Sector>, bank: nat): nat {
    if sectors == [] then 0
    else CountBank(sectors[..|sectors| - 1], bank) + (if sectors[|sectors| - 1].bank == bank then 1 else 0)
  }

  /** The address lies in a sector of the bank whose number is in the range. */
  predicate InSectors(sectors: seq<Sector>, bank: nat, first: nat, last: nat, a: nat) {
    exists i :: 0 <= i < |sectors| && sectors[i].Contains(a)
                && sectors[i].bank == bank && first <= Number(sectors, i) <= last
  }

  /** Bytes written over part of a memory. */
  function Splice(memory: seq<byte>, at: nat, bytes: seq<byte>): (r: seq<byte>)
    requires at + |bytes| <= |memory|
    ensures |r| == |memory|
    ensures forall a :: 0 <= a < |r| ==> r[a] == if at <= a < at + |bytes| then bytes[a - at] else memory[a]
  {
    memory[..at] + bytes + memory[at + |bytes|..]
  }

  function AndByte(x: byte, y: byte): byte {
    AndBound(x, y);
    And(x, y)
  }

  lemma {:induction false} AndBound(x: nat, y: nat)
    ensures And(x, y) <= x
    decreases x + y
  {
    if x != 0 && y != 0 { AndBound(x / 2, y / 2); }
  }

  lemma ErasedTakes(y: byte)
    ensures AndByte(255, y) == y
  {
    Pow2Eight();
    AndMask(y, 8);
  }

  /** Programming clears bits; only erasing sets them. */
  function Program(flash: seq<byte>, dest: nat, bytes: seq<byte>): (r: seq<byte>)
    requires dest + |bytes| <= |flash|
    ensures |r| == |flash|
  {
    seq<byte>(|flash|, a requires 0 <= a < |flash| =>
      if dest <= a < dest + |bytes| then AndByte(flash[a], bytes[a - dest]) else flash[a])
  }

  datatype Target = Target(sectors: seq<Sector>, ram: seq<byte>, flash: seq<byte>,
                           prepared: set<(nat, nat)>, cursor: nat, history: seq<Command>)
  {
    /** The address lies in a prepared sector. */
    predicate Ready(a: nat) {
      exists i :: 0 <= i < |sectors| && sectors[i].Contains(a) && (sectors[i].bank, Number(sectors, i)) in prepared
    }

    predicate Writable(dest: nat, count: nat) {
      forall a: nat | dest <= a < dest + count :: Ready(a)
    }

    predicate Accepts(c: Command) {
      match c
      case WriteRam(addr, count) => addr % 4 == 0 && count % 4 == 0 && addr + count <= |ram|
      case Prepare(first, last, bank) => first <= last < CountBank(sectors, bank)
      case Erase(first, last, bank) => first <= last && forall n | first <= n <= last :: (bank, n) in prepared
      case Copy(dest, src, count) =>
        && dest % 256 == 0 && src % 4 == 0 && CopyCount(count)
        && src + count <= |ram| && dest + count <= |flash| && Writable(dest, count)
    }

    /** Erasing or copying protects all sectors again. */
    function Do(c: Command): Target
      requires Accepts(c)
    {
      var t := this.(history := history + [c]);
      match c
      case WriteRam(addr, count) => t.(cursor := addr)
      case Prepare(first, last, bank) => t.(prepared := prepared + set n | first <= n <= last :: (bank, n))
      case Erase(first, last, bank) =>
        t.(prepared := {},
           flash := seq<byte>(|flash|, a requires 0 <= a < |flash| =>
             if InSectors(sectors, bank, first, last, a) then 255 else flash[a]))
      case Copy(dest, src, count) => t.(prepared := {}, flash := Program(flash, dest, ram[src..src + count]))
    }

    /** A block of received bytes goes to RAM at the cursor. */
    function Store(block: seq<byte>): Target
      requires cursor + |block| <= |ram|
    {
      this.(ram := Splice(ram, cursor, block), cursor := cursor + |block|)
    }
  }

  /** Programming an erased range leaves exactly the bytes. */
  lemma ProgramErased(flash: seq<byte>, dest: nat, bytes: seq<byte>)
    requires dest + |bytes| <= |flash|
    requires forall a :: dest <= a < dest + |bytes| ==> flash[a] == 255
    ensures Program(flash, dest, bytes) == Splice(flash, dest, bytes)
  {
    forall y: byte
      ensures AndByte(255, y) == y
    {
      ErasedTakes(y);
    }
  }
}
