/** The sink that lays a firmware image out as a flat file, filling every gap with 0xff. */
module BinSink {
  import opened Bytes
  import opened Overlay

  const WORD := 0x1_0000_0000
  const PAD := 64
  const CHUNK := 1024
  const ERASED: byte := 0xFF

  datatype State = State(file: seq<byte>, offset: nat, max: nat)

  const EMPTY := State([], 0, 0)

  /** One accepted call; the end of the file is counted in 32 bits. */
  function Put(s: State, w: Write): State
    requires s.offset <= w.addr
  {
    var end := w.End() % WORD;
    State(s.file + Fill(w.addr - s.offset, ERASED) + w.data, end, if end > s.max then end else s.max)
  }

  /** Calls in order, up to the first that starts below the end of what was written. */
  function Run(s: State, ws: seq<Write>): (State, bool)
    decreases |ws|
  {
    if ws == [] then (s, true)
    else if ws[0].addr < s.offset then (s, false)
    else Run(Put(s, ws[0]), ws[1..])
  }

  class Sink {
    var file: seq<byte>
    var offset: nat
    var max: nat

    ghost function View(): State
      reads this
    {
      State(file, offset, max)
    }

    constructor ()
      ensures View() == EMPTY
    {
      file, offset, max := [], 0, 0;
    }

    method Accept(addr: nat, data: seq<byte>) returns (ok: bool)
      modifies this
      ensures (View(), ok) == Run(old(View()), [Write(addr, data)])
    {
      if addr < offset { return false; }
      if addr > offset {
        var gap := addr - offset;
        var pad := Fill(PAD, ERASED);
        while gap > 0
          invariant 0 <= gap <= addr - old(offset)
          invariant file == old(file) + Fill(addr - old(offset) - gap, ERASED)
          invariant offset == old(offset) && max == old(max)
        {
          var chunk := if gap > PAD then PAD else gap;
          assert Fill(addr - old(offset) - gap, ERASED) + pad[..chunk]
                 == Fill(addr - old(offset) - gap + chunk, ERASED);
          file := file + pad[..chunk];
          gap := gap - chunk;
        }
        offset := addr;
      }
      assert file == old(file) + Fill(addr - old(offset), ERASED) by {
        assert old(file) + [] == old(file) && Fill(0, ERASED) == [];
      }
      file := file + data;
      offset := (offset + |data|) % WORD;
      if offset > max { max := offset; }
      ghost var w := Write(addr, data);
      assert Run(Put(old(View()), w), [w][1..]) == (Put(old(View()), w), true);
      return true;
    }

    /** A section handed over in pieces; the address counts in 32 bits. */
    method Send(start: nat, whole: seq<byte>) returns (ok: bool)
      modifies this
      ensures (View(), ok) == Run(old(View()), Chunks(start, whole))
    {
      hide Put, Run;
      var addr: nat, data := start, whole;
      RunNothing(View());
      ghost var goal := Run(View(), Chunks(start, whole));
      while data != []
        invariant goal == Run(View(), Chunks(addr, data))
        decreases |data|
      {
        var n := if |data| > CHUNK then CHUNK else |data|;
        ghost var before := View();
        ghost var rest := Chunks((addr + n) % WORD, data[n..]);
        RunAppend(before, [Write(addr, data[..n])], rest);
        ok := Accept(addr, data[..n]);
        if !ok { return false; }
        data := data[n..];
        addr := (addr + n) % WORD;
      }
      RunNothing(View());
      return true;
    }
  }

  lemma RunNothing(s: State)
    ensures Run(s, []) == (s, true)
  {
  }

  lemma {:induction false} RunAppend(s: State, a: seq<Write>, b: seq<Write>)
    ensures Run(s, a + b) == if Run(s, a).1 then Run(Run(s, a).0, b) else Run(s, a)
    decreases |a|
  {
    if a == [] {
      assert a + b == b;
    } else {
      assert (a + b)[1..] == a[1..] + b;
      if a[0].addr >= s.offset { RunAppend(Put(s, a[0]), a[1..], b); }
    }
  }

  function Chunks(addr: nat, data: seq<byte>): seq<Write>
    decreases |data|
  {
    if data == [] then [] else
      var n := if |data| > CHUNK then CHUNK else |data|;
      [Write(addr, data[..n])] + Chunks((addr + n) % WORD, data[n..])
  }

  /** Cutting a section into pieces does not matter: it is taken as a whole or refused as a whole. */
  lemma {:induction false} ChunksAreWhole(s: State, w: Write)
    requires w.data != [] && w.End() < WORD
    ensures Run(s, Chunks(w.addr, w.data)) == Run(s, [w])
    decreases |w.data|
  {
    hide Put, Run, Chunks;
    ChunksSplit(w.addr, w.data);
    RunOne(s, w);
    if |w.data| <= CHUNK {
      assert w.data[..|w.data|] == w.data && w.data[|w.data|..] == [];
      NoChunks((w.addr + |w.data|) % WORD);
      assert [w] + [] == [w];
    } else {
      var first := Write(w.addr, w.data[..CHUNK]);
      var rest := Write(w.addr + CHUNK, w.data[CHUNK..]);
      RunAppend(s, [first], Chunks(rest.addr, rest.data));
      RunOne(s, first);
      if w.addr >= s.offset {
        ChunksAreWhole(Put(s, first), rest);
        RunOne(Put(s, first), rest);
        PutTwice(s, first, rest);
        assert first.data + rest.data == w.data;
      }
    }
  }

  /** The first piece, then the rest. */
  lemma ChunksSplit(addr: nat, data: seq<byte>)
    requires data != []
    ensures var n := if |data| > CHUNK then CHUNK else |data|;
            Chunks(addr, data) == [Write(addr, data[..n])] + Chunks((addr + n) % WORD, data[n..])
  {
  }

  lemma NoChunks(addr: nat)
    ensures Chunks(addr, []) == []
  {
  }

  lemma RunOne(s: State, w: Write)
    ensures Run(s, [w]) == if w.addr < s.offset then (s, false) else (Put(s, w), true)
  {
    hide Put;
    assert [w][1..] == [];
    if w.addr >= s.offset { RunNothing(Put(s, w)); }
  }

  /** Two adjoining writes are one. */
  lemma PutTwice(s: State, a: Write, b: Write)
    requires s.offset <= a.addr && a.End() == b.addr && a.End() < WORD && b.End() < WORD
    ensures Put(s, a).offset == b.addr && Put(Put(s, a), b) == Put(s, Write(a.addr, a.data + b.data))
  {
    var fill := Fill(a.addr - s.offset, ERASED);
    assert Fill(0, ERASED) == [];
    assert s.file + fill + a.data + [] + b.data == s.file + fill + (a.data + b.data);
  }

  /** Every write starts at or after the end of all earlier ones. */
  ghost predicate Ascending(ws: seq<Write>) {
    forall i :: 0 <= i < |ws| ==> High(ws[..i]) <= ws[i].addr
  }

  ghost predicate InRange(ws: seq<Write>) {
    forall i :: 0 <= i < |ws| ==> ws[i].End() < WORD
  }

  /** The file shows the writes over a background of 0xff, from address 0 to their end. */
  ghost predicate Shows(s: State, ws: seq<Write>) {
    s.file == Window(ws, 0, High(ws), 0xFF) && s.offset == s.max == High(ws)
  }

  lemma ShowsOneMore(s: State, ws: seq<Write>, w: Write)
    requires Shows(s, ws) && High(ws) <= w.addr && w.End() < WORD
    ensures Shows(Put(s, w), ws + [w])
  {
    hide Cell, Low;
    var after := ws + [w];
    Append(ws, w, 0, ERASED);
    var t := Put(s, w);
    forall a | 0 <= a < |t.file|
      ensures t.file[a] == Cell(after, a, ERASED)
    {
      PutCell(s, ws, w, a);
    }
    assert t.file == Window(after, 0, w.End(), ERASED);
  }

  /** A byte of the longer file: old, in the gap, or new. */
  lemma PutCell(s: State, ws: seq<Write>, w: Write, a: nat)
    requires Shows(s, ws) && High(ws) <= w.addr && a < |Put(s, w).file|
    ensures Put(s, w).file[a] == Cell(ws + [w], a, ERASED)
  {
    hide Cell, Low, High;
    Append(ws, w, a, ERASED);
    if High(ws) <= a { CellOutside(ws, a, ERASED); }
  }

  lemma AscendingAppend(ws: seq<Write>, w: Write)
    ensures Ascending(ws + [w]) <==> Ascending(ws) && High(ws) <= w.addr
  {
    var after := ws + [w];
    assert forall i :: 0 <= i < |ws| ==> after[..i] == ws[..i] && after[i] == ws[i];
    assert after[..|ws|] == ws && after[|ws|] == w;
  }

  /** The whole run succeeds exactly on ascending writes, and then the file is their overlay. */
  lemma {:induction false} RunIff(ws: seq<Write>)
    requires InRange(ws)
    ensures Run(EMPTY, ws).1 <==> Ascending(ws)
    ensures Run(EMPTY, ws).1 ==> Shows(Run(EMPTY, ws).0, ws)
  {
    if ws != [] {
      hide Shows, Ascending;
      var n := |ws| - 1;
      var front, w := ws[..n], ws[n];
      assert ws == front + [w];
      RunIff(front);
      AscendingAppend(front, w);
      RunAppend(EMPTY, front, [w]);
      assert [w][1..] == [];
      if Run(EMPTY, front).1 {
        RunLast(Run(EMPTY, front).0, front, w);
      }
    } else {
      assert Ascending(ws) && Shows(EMPTY, ws);
    }
  }

  lemma RunLast(s: State, front: seq<Write>, w: Write)
    requires Shows(s, front) && w.End() < WORD
    ensures Run(s, [w]).1 <==> High(front) <= w.addr
    ensures Run(s, [w]).1 ==> Shows(Run(s, [w]).0, front + [w])
  {
    assert [w][1..] == [];
    if High(front) <= w.addr { ShowsOneMore(s, front, w); }
  }
}
