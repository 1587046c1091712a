/** A file or buffer read in pieces; a read of no bytes ends it. */
module ChunkSource {
  import opened Bytes

  /** The text delivered before the first empty read. */
  function TextOf(chunks: seq<seq<byte>>): seq<byte> {
    if chunks == [] || chunks[0] == [] then [] else chunks[0] + TextOf(chunks[1..])
  }

  class Source {
    var chunks: seq<seq<byte>>

    constructor (chunks: seq<seq<byte>>)
      ensures this.chunks == chunks
    {
      this.chunks := chunks;
    }

    method Read() returns (buf: seq<byte>)
      modifies this
      ensures old(chunks) == [] ==> buf == [] && chunks == []
      ensures old(chunks) != [] ==> buf == old(chunks)[0] && chunks == old(chunks)[1..]
    {
      if chunks == [] { return []; }
      buf := chunks[0];
      chunks := chunks[1..];
    }
  }
}
