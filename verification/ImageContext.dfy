/**
 * The image a hex file is converted into: a heap buffer that grows at both ends,
 * or a sink that is handed offsets from the first record's address.
 */
module ImageContext {
  import opened Bytes
  import opened Overlay

  type Sink = (nat, seq<byte>) -> bool

  /** How a buffered conversion ends. */
  datatype Converted = Failed | Empty | Image(base: nat, data: seq<byte>)

  function ImageOf(ws: seq<Write>): Converted
    requires ws != []
  {
    Bounds(ws);
    Image(Low(ws), Window(ws, Low(ws), High(ws), 0))
  }

  /** The calls a sink receives: records at or above the base address, relative to it. */
  function SinkCalls(base: nat, ws: seq<Write>): seq<Write> {
    if ws == [] then [] else
      var w := ws[|ws| - 1];
      var calls := SinkCalls(base, ws[..|ws| - 1]);
      if w.addr < base then calls else calls + [Write(w.addr - base, w.data)]
  }

  /** Streaming fails on a record below the base and on a call the sink rejects. */
  predicate SinkFails(base: nat, ws: seq<Write>, sink: Sink) {
    && ws != []
    && var w := ws[|ws| - 1];
       w.addr < base || !sink(w.addr - base, w.data) || SinkFails(base, ws[..|ws| - 1], sink)
  }

  /** Streaming fails exactly if some record lies below the base or is rejected by the sink. */
  lemma {:induction false} SinkFailsIff(base: nat, ws: seq<Write>, sink: Sink)
    ensures SinkFails(base, ws, sink)
            <==> exists i :: 0 <= i < |ws| && (ws[i].addr < base || !sink(ws[i].addr - base, ws[i].data))
  {
    if ws != [] {
      var n := |ws| - 1;
      SinkFailsIff(base, ws[..n], sink);
      if i :| 0 <= i < |ws| && (ws[i].addr < base || !sink(ws[i].addr - base, ws[i].data)) {
        assert i < n ==> ws[..n][i] == ws[i];
      }
      if SinkFails(base, ws[..n], sink) {
        var i :| 0 <= i < n && (ws[..n][i].addr < base || !sink(ws[..n][i].addr - base, ws[..n][i].data));
        assert ws[i] == ws[..n][i];
      }
    }
  }

  /** What one more record does to the sink's calls and verdict. */
  lemma SinkStep(base: nat, ws: seq<Write>, w: Write, sink: Sink)
    ensures SinkCalls(base, ws + [w]) ==
            SinkCalls(base, ws) + (if w.addr < base then [] else [Write(w.addr - base, w.data)])
    ensures SinkFails(base, ws + [w], sink) <==>
            SinkFails(base, ws, sink) || w.addr < base || !sink(w.addr - base, w.data)
  {
    var after := ws + [w];
    assert after[..|ws|] == ws && after[|ws|] == w;
  }

  /** What a sink conversion hands over, and whether it succeeds, for a list of records. */
  function Streamed(ws: seq<Write>): seq<Write> {
    if ws == [] then [] else SinkCalls(ws[0].addr, ws)
  }

  predicate StreamOk(ws: seq<Write>, sink: Sink) {
    ws == [] || !SinkFails(ws[0].addr, ws, sink)
  }

  /** A buffer that starts at address base shows every cell of the records. */
  ghost predicate Shows(buffer: seq<byte>, base: nat, ws: seq<Write>) {
    forall i :: 0 <= i < |buffer| ==> buffer[i] == Cell(ws, base + i, 0)
  }

  /** The buffer is exactly the records' image: their span and every cell in it. */
  ghost predicate Holds(buffer: seq<byte>, base: nat, ws: seq<Write>)
    requires ws != []
  {
    && base == Low(ws)
    && base + |buffer| == High(ws)
    && Shows(buffer, base, ws)
  }

  /** Zeros in front of the lowest record. */
  lemma ShowsFront(buffer: seq<byte>, base: nat, ws: seq<Write>, delta: nat)
    requires Shows(buffer, base, ws) && delta <= base
    requires ws == [] || base <= Low(ws)
    ensures Shows(Fill(delta, 0) + buffer, base - delta, ws)
  {
    forall a: nat | a < base
      ensures Cell(ws, a, 0) == 0
    {
      CellOutside(ws, a, 0);
    }
  }

  /** Zeros behind the highest record. */
  lemma ShowsBack(buffer: seq<byte>, base: nat, ws: seq<Write>, count: nat)
    requires Shows(buffer, base, ws)
    requires ws == [] || High(ws) <= base + |buffer|
    ensures Shows(buffer + Fill(count, 0), base, ws)
  {
    forall a: nat | base + |buffer| <= a
      ensures Cell(ws, a, 0) == 0
    {
      CellOutside(ws, a, 0);
    }
  }

  /** Bytes painted into a buffer already wide enough. */
  function Paint(buffer: seq<byte>, offset: nat, bytes: seq<byte>): (r: seq<byte>)
    requires offset + |bytes| <= |buffer|
    ensures |r| == |buffer|
  {
    buffer[..offset] + bytes + buffer[offset + |bytes|..]
  }

  lemma ShowsPaint(buffer: seq<byte>, base: nat, ws: seq<Write>, w: Write)
    requires Shows(buffer, base, ws)
    requires base <= w.addr && w.End() <= base + |buffer|
    ensures Shows(Paint(buffer, w.addr - base, w.data), base, ws + [w])
  {
    var painted := Paint(buffer, w.addr - base, w.data);
    forall i | 0 <= i < |painted|
      ensures painted[i] == Cell(ws + [w], base + i, 0)
    {
      Append(ws, w, base + i, 0);
    }
  }

  /** The conversion context; data stands for the heap buffer that realloc resizes. */
  class Context {
    var data: seq<byte>
    var baseAddr: nat
    var hasBase: bool
    var hasError: bool
    const useSink: bool
    const sink: Sink
    var calls: seq<Write>

    ghost var writes: seq<Write>  // every record put so far
    ghost var faults: bool        // whether Fault was ever called

    ghost predicate Valid()
      reads this
    {
      && NonEmpty(writes)
      && hasBase == (writes != [])
      && if useSink then
           && data == []
           && (writes != [] ==> baseAddr == writes[0].addr)
           && calls == SinkCalls(baseAddr, writes)
           && hasError == (faults || SinkFails(baseAddr, writes, sink))
         else
           && calls == []
           && hasError == faults
           && if writes == [] then data == [] else data != [] && Holds(data, baseAddr, writes)
    }

    constructor (useSink: bool, sink: Sink)
      ensures Valid() && writes == [] && !faults
      ensures this.useSink == useSink && this.sink == sink
    {
      this.useSink := useSink;
      this.sink := sink;
      data, baseAddr := [], 0;
      hasBase, hasError := false, false;
      calls := [];
      writes, faults := [], false;
    }

    /** Record a checksum or length fault; the flag is never cleared. */
    method Fault()
      requires Valid()
      modifies this`hasError, this`faults
      ensures Valid() && faults && hasError
    {
      hasError := true;
      faults := true;
    }

    /** Grow at the front, zero filled, so that the buffer starts at newBase. */
    method ExpandFront(newBase: nat) returns (ok: bool)
      modifies this`data, this`baseAddr
      ensures ok == (old(data) != [])
      ensures !ok || newBase >= old(baseAddr) ==> unchanged(this)
      ensures ok && newBase < old(baseAddr) ==>
                baseAddr == newBase && data == Fill(old(baseAddr) - newBase, 0) + old(data)
    {
      if data == [] { return false; }
      if newBase >= baseAddr { return true; }
      var delta := baseAddr - newBase;
      data := Fill(delta, 0) + data;
      baseAddr := newBase;
      return true;
    }

    /** Grow at the back, zero filled. */
    method EnsureCapacity(required: nat)
      modifies this`data
      ensures data == old(data) + Fill(if required > |old(data)| then required - |old(data)| else 0, 0)
    {
      if required <= |data| {
        assert data == data + Fill(0, 0);
        return;
      }
      data := data + Fill(required - |data|, 0);
    }

    /** Take one data record that the reader has already checked. */
    method Put(addr: nat, bytes: seq<byte>) returns (ok: bool)
      requires Valid() && bytes != []
      modifies this`data, this`baseAddr, this`hasBase, this`hasError, this`calls, this`writes
      ensures Valid() && writes == old(writes) + [Write(addr, bytes)] && faults == old(faults)
      ensures !useSink ==> ok
    {
      if useSink {
        ok := PutSink(addr, bytes);
      } else {
        PutBuffer(addr, bytes);
        ok := true;
      }
    }

    method PutBuffer(addr: nat, bytes: seq<byte>)
      requires Valid() && !useSink && bytes != []
      modifies this`data, this`baseAddr, this`hasBase, this`writes
      ensures Valid() && writes == old(writes) + [Write(addr, bytes)]
    {
      ghost var w := Write(addr, bytes);
      Append(writes, w, 0, 0);
      var offset := MakeRoom(addr, |bytes|);
      ShowsPaint(data, baseAddr, writes, w);
      data := Paint(data, offset, bytes);
      writes := writes + [w];
    }

    /** Grow the buffer until it spans the old records and the new one. */
    method MakeRoom(addr: nat, count: nat) returns (offset: nat)
      requires Valid() && !useSink
      modifies this`data, this`baseAddr, this`hasBase
      ensures hasBase && Shows(data, baseAddr, writes)
      ensures writes == [] ==> baseAddr == addr && |data| == count
      ensures writes != [] ==>
                && baseAddr == (if addr < old(baseAddr) then addr else old(baseAddr))
                && baseAddr + |data|
                   == (if addr + count > old(baseAddr + |data|) then addr + count else old(baseAddr + |data|))
      ensures offset == addr - baseAddr
    {
      if !hasBase {
        baseAddr := addr;
        hasBase := true;
      } else if addr < baseAddr {
        ShowsFront(data, baseAddr, writes, baseAddr - addr);
        var _ := ExpandFront(addr);
      }
      offset := addr - baseAddr;
      ShowsBack(data, baseAddr, writes, if offset + count > |data| then offset + count - |data| else 0);
      EnsureCapacity(offset + count);
    }

    method PutSink(addr: nat, bytes: seq<byte>) returns (ok: bool)
      requires Valid() && useSink && bytes != []
      modifies this`baseAddr, this`hasBase, this`hasError, this`calls, this`writes
      ensures Valid() && writes == old(writes) + [Write(addr, bytes)]
    {
      ghost var base := if hasBase then baseAddr else addr;
      SinkStep(base, writes, Write(addr, bytes), sink);
      writes := writes + [Write(addr, bytes)];
      if !hasBase {
        baseAddr := addr;
        hasBase := true;
      } else if addr < baseAddr {
        hasError := true;
        return false;
      }
      var offset := addr - baseAddr;
      ok := sink(offset, bytes);
      calls := calls + [Write(offset, bytes)];
      if !ok { hasError := true; }
    }

    /** The verdict at the end of a buffered conversion. */
    method Result() returns (r: Converted)
      requires Valid() && !useSink
      ensures r == if faults then Failed else if writes == [] then Empty else ImageOf(writes)
    {
      if hasError { return Failed; }
      if !hasBase || |data| == 0 { return Empty; }
      Bounds(writes);
      assert data == Window(writes, Low(writes), High(writes), 0);
      return Image(baseAddr, data);
    }
  }
}
