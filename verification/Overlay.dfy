/** What a list of (address, bytes) records means: each later record painted over the earlier ones. */
module Overlay {
  import opened Bytes

  datatype Write = Write(addr: nat, data: seq<byte>) {
    function End(): nat { addr + |data| }

    predicate Covers(a: nat) { addr <= a < End() }
  }

  ghost predicate NonEmpty(ws: seq<Write>) {
    forall i :: 0 <= i < |ws| ==> ws[i].data != []
  }

  /** The byte at address a: from the last record covering it, or the background. */
  function Cell(ws: seq<Write>, a: nat, background: byte): byte {
    if ws == [] then background
    else
      var w := ws[|ws| - 1];
      if w.Covers(a) then w.data[a - w.addr] else Cell(ws[..|ws| - 1], a, background)
  }

  function Low(ws: seq<Write>): nat
    requires ws != []
  {
    var a := ws[|ws| - 1].addr;
    if |ws| == 1 then a else
      var l := Low(ws[..|ws| - 1]);
      if a < l then a else l
  }

  function High(ws: seq<Write>): nat {
    if ws == [] then 0 else
      var e := ws[|ws| - 1].End();
      var h := High(ws[..|ws| - 1]);
      if e > h then e else h
  }

  /** The bytes of the addresses lo..hi. */
  function Window(ws: seq<Write>, lo: nat, hi: nat, background: byte): (s: seq<byte>)
    requires lo <= hi
    ensures |s| == hi - lo
    ensures forall i :: 0 <= i < hi - lo ==> s[i] == Cell(ws, lo + i, background)
  {
    seq<byte>(hi - lo, i requires 0 <= i < hi - lo => Cell(ws, lo + i, background))
  }

  /** Low is the least start address and High the greatest end. */
  lemma {:induction false} Bounds(ws: seq<Write>)
    requires ws != []
    ensures forall i :: 0 <= i < |ws| ==> Low(ws) <= ws[i].addr && ws[i].End() <= High(ws)
    ensures exists i :: 0 <= i < |ws| && ws[i].addr == Low(ws)
    ensures exists i :: 0 <= i < |ws| && ws[i].End() == High(ws)
    ensures Low(ws) <= High(ws)
  {
    var n := |ws| - 1;
    if n == 0 {
      assert ws[..0] == [];
      assert ws[0].addr == Low(ws) && ws[0].End() == High(ws);
    } else {
      var front := ws[..n];
      Bounds(front);
      assert forall i :: 0 <= i < n ==> ws[i] == front[i];
      var i :| 0 <= i < n && front[i].addr == Low(front);
      var j :| 0 <= j < n && front[j].End() == High(front);
      assert ws[if Low(ws) == ws[n].addr then n else i].addr == Low(ws);
      assert ws[if High(ws) == ws[n].End() then n else j].End() == High(ws);
    }
  }

  /** No record covers the address: it shows the background. */
  lemma {:induction false} CellUncovered(ws: seq<Write>, a: nat, background: byte)
    requires forall i :: 0 <= i < |ws| ==> !ws[i].Covers(a)
    ensures Cell(ws, a, background) == background
  {
    if ws != [] {
      CellUncovered(ws[..|ws| - 1], a, background);
    }
  }

  /** The cell is the byte of record k when k is the last record covering the address. */
  lemma {:induction false} CellLast(ws: seq<Write>, a: nat, background: byte, k: nat)
    requires k < |ws| && ws[k].Covers(a)
    requires forall i :: k < i < |ws| ==> !ws[i].Covers(a)
    ensures Cell(ws, a, background) == ws[k].data[a - ws[k].addr]
  {
    if k < |ws| - 1 {
      var front := ws[..|ws| - 1];
      assert front[k] == ws[k];
      CellLast(front, a, background, k);
    }
  }

  /** Every byte of a window below the lowest or above the highest record is background. */
  lemma CellOutside(ws: seq<Write>, a: nat, background: byte)
    requires ws == [] || a < Low(ws) || High(ws) <= a
    ensures Cell(ws, a, background) == background
  {
    if ws != [] { Bounds(ws); }
    CellUncovered(ws, a, background);
  }

  /** One more record: its effect on the span and on each cell. */
  lemma Append(ws: seq<Write>, w: Write, a: nat, background: byte)
    ensures var after := ws + [w];
            && Low(after) == (if ws == [] || w.addr < Low(ws) then w.addr else Low(ws))
            && High(after) == (if w.End() > High(ws) then w.End() else High(ws))
            && Cell(after, a, background) == if w.Covers(a) then w.data[a - w.addr] else Cell(ws, a, background)
  {
    var after := ws + [w];
    assert after[..|ws|] == ws && after[|ws|] == w;
  }

  /** Moving all records by d moves the cells with them. */
  function Shift(ws: seq<Write>, d: nat): (r: seq<Write>)
    requires forall i :: 0 <= i < |ws| ==> d <= ws[i].addr
    ensures |r| == |ws|
  {
    seq(|ws|, i requires 0 <= i < |ws| => Write(ws[i].addr - d, ws[i].data))
  }

  lemma {:induction false} ShiftCell(ws: seq<Write>, d: nat, a: nat, background: byte)
    requires forall i :: 0 <= i < |ws| ==> d <= ws[i].addr
    ensures Cell(Shift(ws, d), a, background) == Cell(ws, a + d, background)
  {
    if ws != [] {
      var n := |ws| - 1;
      assert Shift(ws, d)[..n] == Shift(ws[..n], d);
      ShiftCell(ws[..n], d, a, background);
    }
  }
}
