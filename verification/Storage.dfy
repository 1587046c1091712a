/** Encrypted firmware storage: 16-byte block buffering in the writer and the reader. */
module Storage {
  import opened Bytes

  const BLOCK := 16

  type Cipher = seq<byte> -> seq<byte>

  /** The two block functions of the crypto layer undo each other on 16-byte blocks. */
  ghost predicate Inverse(enc: Cipher, dec: Cipher) {
    forall b: seq<byte> :: |b| == BLOCK ==> |enc(b)| == BLOCK && dec(enc(b)) == b
  }

  ghost predicate KeepsLength(enc: Cipher) {
    forall b: seq<byte> :: |b| == BLOCK ==> |enc(b)| == BLOCK
  }

  type Block = b: seq<byte> | |b| == BLOCK witness Fill(BLOCK, 0)

  /** The file for a list of plaintext blocks. */
  function Encrypt(blocks: seq<Block>, enc: Cipher): seq<byte> {
    if blocks == [] then [] else enc(blocks[0]) + Encrypt(blocks[1..], enc)
  }

  /** A plaintext cut into blocks, the last one filled up with zeros. */
  function Blocks(plain: seq<byte>): seq<Block> {
    if plain == [] then []
    else if |plain| < BLOCK then [plain + Fill(BLOCK - |plain|, 0)]
    else [plain[..BLOCK]] + Blocks(plain[BLOCK..])
  }

  lemma {:induction false} EncryptAppend(blocks: seq<Block>, block: Block, enc: Cipher)
    ensures Encrypt(blocks + [block], enc) == Encrypt(blocks, enc) + enc(block)
  {
    if blocks == [] {
      assert blocks + [block] == [block] && [block][1..] == [];
    } else {
      assert (blocks + [block])[1..] == blocks[1..] + [block];
      EncryptAppend(blocks[1..], block, enc);
    }
  }

  lemma {:induction false} EncryptLength(blocks: seq<Block>, enc: Cipher)
    requires KeepsLength(enc)
    ensures |Encrypt(blocks, enc)| == BLOCK * |blocks|
  {
    if blocks != [] { EncryptLength(blocks[1..], enc); }
  }

  /** Whole blocks followed by a short rest are cut just so. */
  lemma {:induction false} BlocksOf(blocks: seq<Block>, tail: seq<byte>)
    requires |tail| < BLOCK
    ensures Blocks(Flatten(blocks) + tail) == blocks + Blocks(tail)
  {
    if blocks == [] {
      assert Flatten(blocks) + tail == tail;
    } else {
      var plain := Flatten(blocks) + tail;
      assert plain[..BLOCK] == blocks[0] && plain[BLOCK..] == Flatten(blocks[1..]) + tail;
      BlocksOf(blocks[1..], tail);
    }
  }

  /** Decrypting all blocks gives the plaintext and the filling. */
  lemma {:induction false} FlattenBlocks(plain: seq<byte>)
    ensures Flatten(Blocks(plain)) == plain + Fill((16 - |plain| % 16) % 16, 0)
    ensures |Blocks(plain)| == (|plain| + 15) / 16
    decreases |plain|
  {
    if |plain| >= BLOCK {
      FlattenBlocks(plain[BLOCK..]);
      OneBlockLess(|plain|);
      var fill := Fill((16 - |plain| % 16) % 16, 0);
      assert Flatten(Blocks(plain)) == plain[..BLOCK] + (plain[BLOCK..] + fill);
      assert plain == plain[..BLOCK] + plain[BLOCK..];
    } else if plain != [] {
      assert Flatten(Blocks(plain)) == Blocks(plain)[0];
    } else {
      assert Fill(0, 0) == [];
    }
  }

  lemma OneBlockLess(n: nat)
    requires n >= 16
    ensures (n - 16) % 16 == n % 16 && (n - 16 + 15) / 16 + 1 == (n + 15) / 16
  {
  }

  lemma Regroup(start: seq<byte>, data: seq<byte>, offset: nat, n: nat)
    requires offset + n <= |data|
    ensures start + data[..offset] + data[offset..offset + n] == start + data[..offset + n]
  {
    assert data[..offset + n] == data[..offset] + data[offset..offset + n];
  }

  class Writer {
    var file: seq<byte>
    var encryptedWritten: nat
    var buffered: nat
    const buffer: array<byte>
    const enc: Cipher
    const encrypt: bool  // FW_STORAGE_ENABLE_ENCRYPT
    var active: bool
    ghost var blocks: seq<Block>  // the full blocks written so far

    ghost predicate Valid()
      reads this, buffer
    {
      && buffer.Length == BLOCK && buffered < BLOCK && KeepsLength(enc)
      && (encrypt ==> encryptedWritten == |file| && file == Encrypt(blocks, enc))
    }

    /** Everything written so far. */
    ghost function Plain(): seq<byte>
      requires Valid()
      reads this, buffer
    {
      if encrypt then Flatten(blocks) + buffer[..buffered] else file
    }

    constructor (enc: Cipher, encrypt: bool)
      requires KeepsLength(enc)
      ensures Valid() && active && Plain() == [] && fresh(buffer)
      ensures this.enc == enc && this.encrypt == encrypt
    {
      this.enc, this.encrypt := enc, encrypt;
      file, encryptedWritten, buffered, active := [], 0, 0, true;
      buffer := new byte[BLOCK];
      blocks := [];
    }

    /** Write any number of bytes; only a closed writer or an empty write is refused. */
    method Write(data: seq<byte>) returns (ok: bool)
      requires Valid()
      modifies this`file, this`encryptedWritten, this`buffered, this`blocks, buffer
      ensures Valid()
      ensures ok == (active && data != [])
      ensures Plain() == old(Plain()) + (if ok then data else [])
    {
      hide Flatten, Encrypt, KeepsLength;
      if !active || |data| == 0 { return false; }
      if !encrypt {
        file := file + data;
        return true;
      }
      ghost var start := Plain();
      var offset := 0;
      assert start + data[..0] == start;
      while offset < |data|
        invariant offset <= |data| && Valid()
        invariant Plain() == start + data[..offset]
      {
        var toCopy := BLOCK - buffered;
        if toCopy > |data| - offset { toCopy := |data| - offset; }
        var piece := data[offset..offset + toCopy];
        Regroup(start, data, offset, toCopy);
        Append(piece);
        offset := offset + toCopy;
      }
      assert data[..offset] == data;
      return true;
    }

    /** Copy a piece that fits into the buffer and flush the buffer when full. */
    method Append(piece: seq<byte>)
      requires Valid() && encrypt && 0 < |piece| <= BLOCK - buffered
      modifies this`file, this`encryptedWritten, this`buffered, this`blocks, buffer
      ensures Valid() && Plain() == old(Plain()) + piece
    {
      ghost var tail := buffer[..buffered] + piece;
      forall i | 0 <= i < |piece| { buffer[buffered + i] := piece[i]; }
      buffered := buffered + |piece|;
      assert buffer[..buffered] == tail;
      if buffered == BLOCK {
        Flush();
        assert Flatten(old(blocks)) + tail == Flatten(old(blocks)) + old(buffer[..buffered]) + piece;
      }
    }

    method Flush()
      requires buffer.Length == BLOCK == buffered && KeepsLength(enc)
      requires encrypt && encryptedWritten == |file| && file == Encrypt(blocks, enc)
      modifies this`file, this`encryptedWritten, this`buffered, this`blocks
      ensures Valid() && blocks == old(blocks) + [buffer[..]]
      ensures buffered == 0 && Flatten(blocks) == Flatten(old(blocks)) + buffer[..]
    {
      var out := enc(buffer[..]);
      EncryptAppend(blocks, buffer[..], enc);
      FlattenAppend(blocks, [buffer[..]]);
      file := file + out;
      encryptedWritten := encryptedWritten + |out|;
      blocks := blocks + [buffer[..]];
      buffered := 0;
    }

    /** Flush a partial block, filled up with zeros. */
    method Close() returns (ok: bool)
      requires Valid()
      modifies this`file, this`encryptedWritten, this`buffered, this`blocks, this`active, buffer
      ensures ok == old(active) && !active
      ensures ok && encrypt ==> file == Encrypt(Blocks(old(Plain())), enc) && encryptedWritten == |file|
      ensures ok && !encrypt ==> file == old(Plain())
    {
      if !active { return false; }
      if !encrypt {
        active := false;
        return true;
      }
      BlocksOf(blocks, buffer[..buffered]);
      if buffered > 0 {
        ghost var tail := buffer[..buffered];
        forall i | buffered <= i < BLOCK { buffer[i] := 0; }
        assert buffer[..] == tail + Fill(BLOCK - |tail|, 0);
        buffered := BLOCK;
        Flush();
      } else {
        assert blocks + Blocks([]) == blocks;
      }
      active := false;
      return true;
    }
  }

  class Reader {
    var unread: seq<byte>  // what is left of the file
    var remaining: nat
    var buffered: nat
    const buffer: array<byte>
    const dec: Cipher
    var active: bool
    const encrypted: bool

    /** The plaintext still to come, for a file that holds the encryption of whole. */
    ghost predicate Holds(enc: Cipher, rest: seq<byte>, blocks: seq<Block>)
      reads this, buffer
    {
      && buffer.Length == BLOCK && buffered <= BLOCK
      && unread == Encrypt(blocks, enc)
      && remaining == |rest|
      && rest <= buffer[BLOCK - buffered..] + Flatten(blocks)
    }

    constructor (file: seq<byte>, originalSize: nat, encrypted: bool, dec: Cipher)
      ensures active && this.encrypted == encrypted && this.dec == dec && fresh(buffer)
      ensures unread == file && remaining == originalSize && buffered == 0 && buffer.Length == BLOCK
    {
      unread, remaining, buffered, active := file, originalSize, 0, true;
      this.encrypted := encrypted;
      this.dec := dec;
      buffer := new byte[BLOCK];
    }

    /** Read up to outLen bytes; a file that is not encrypted is handed through. */
    method Read(outLen: nat, ghost enc: Cipher, ghost rest: seq<byte>, ghost blocks: seq<Block>)
      returns (out: seq<byte>, ghost rest': seq<byte>, ghost blocks': seq<Block>)
      requires encrypted ==> Inverse(enc, dec) && Holds(enc, rest, blocks)
      modifies this`unread, this`remaining, this`buffered, buffer
      ensures encrypted ==> Holds(enc, rest', blocks')
      ensures !active ==> out == [] && rest' == rest && unread == old(unread)
      ensures active && encrypted ==> |out| == (if outLen < |rest| then outLen else |rest|) && rest == out + rest'
      ensures active && !encrypted ==>
                |out| == (if outLen < |old(unread)| then outLen else |old(unread)|) && old(unread) == out + unread
    {
      hide Encrypt, Flatten, Inverse, Holds;
      out := [];
      rest', blocks' := rest, blocks;
      if encrypted { HoldsCounts(enc, rest, blocks); }
      if !active || outLen == 0 { return; }
      if !encrypted {
        var n := if outLen < |unread| then outLen else |unread|;
        out := unread[..n];
        unread := unread[n..];
        return;
      }
      while |out| < outLen && remaining > 0
        invariant |out| <= outLen && Holds(enc, rest', blocks') && remaining == |rest'|
        invariant rest == out + rest'
        decreases remaining
      {
        var piece;
        piece, blocks' := ReadPiece(outLen - |out|, enc, rest', blocks');
        if |piece| == 0 { break; }
        assert rest' == piece + rest'[|piece|..];
        rest' := rest'[|piece|..];
        out := out + piece;
      }
    }

    /** One turn of the loop: decrypt a block when none is buffered, then hand out what is wanted of it. */
    method ReadPiece(limit: nat, ghost enc: Cipher, ghost rest: seq<byte>, ghost blocks: seq<Block>)
      returns (piece: seq<byte>, ghost blocks': seq<Block>)
      requires Inverse(enc, dec) && Holds(enc, rest, blocks) && remaining > 0 && limit > 0
      modifies this`unread, this`remaining, this`buffered, buffer
      ensures 0 < |piece| <= limit && piece <= rest
      ensures Holds(enc, rest[|piece|..], blocks')
      ensures remaining == |rest| - |piece| && remaining < old(remaining)
    {
      hide Encrypt, Flatten, Inverse, Holds;
      HoldsCounts(enc, rest, blocks);
      blocks' := blocks;
      if buffered == 0 {
        StillThere(enc, rest, blocks);
        if |unread| < BLOCK { return [], blocks; }
        Refill(enc, rest, blocks);
        blocks' := blocks[1..];
      }
      var toCopy := buffered;
      if toCopy > remaining { toCopy := remaining; }
      if toCopy > limit { toCopy := limit; }
      piece := Take(toCopy, enc, rest, blocks');
    }

    /** With nothing buffered and bytes due, a whole block is left in the file. */
    lemma StillThere(enc: Cipher, rest: seq<byte>, blocks: seq<Block>)
      requires Inverse(enc, dec) && Holds(enc, rest, blocks) && buffered == 0 && remaining > 0
      ensures blocks != [] && |unread| >= BLOCK
    {
      assert buffer[BLOCK - 0..] == [];
      EncryptLength(blocks, enc);
    }

    /** A reader opened on a stored file. */
    lemma StartHolds(enc: Cipher, plain: seq<byte>)
      requires buffer.Length == BLOCK && buffered == 0 && unread == Encrypt(Blocks(plain), enc) && remaining == |plain|
      ensures Holds(enc, plain, Blocks(plain))
    {
      hide Encrypt, Blocks, Flatten;
      FlattenBlocks(plain);
      assert buffer[BLOCK - 0..] == [];
      assert [] + Flatten(Blocks(plain)) == Flatten(Blocks(plain));
    }

    /** Holds ties the counter and the buffer to the values. */
    lemma HoldsCounts(enc: Cipher, rest: seq<byte>, blocks: seq<Block>)
      requires Holds(enc, rest, blocks)
      ensures remaining == |rest| && buffered <= BLOCK && buffer.Length == BLOCK
    {
    }

    method Refill(ghost enc: Cipher, ghost rest: seq<byte>, ghost blocks: seq<Block>)
      requires Inverse(enc, dec) && Holds(enc, rest, blocks) && buffered == 0 && blocks != []
      modifies this`unread, this`buffered, buffer
      ensures buffered == BLOCK && Holds(enc, rest, blocks[1..])
    {
      var raw := unread[..BLOCK];
      unread := unread[BLOCK..];
      var clear := dec(raw);
      assert clear == blocks[0];
      forall i | 0 <= i < BLOCK { buffer[i] := clear[i]; }
      buffered := BLOCK;
      assert buffer[BLOCK - buffered..] == blocks[0];
    }

    method Take(count: nat, ghost enc: Cipher, ghost rest: seq<byte>, ghost blocks: seq<Block>)
      returns (piece: seq<byte>)
      requires Holds(enc, rest, blocks) && count <= buffered && count <= remaining
      modifies this`buffered, this`remaining, buffer
      ensures piece == rest[..count] && Holds(enc, rest[count..], blocks)
      ensures remaining == old(remaining) - count
    {
      piece := buffer[BLOCK - buffered..BLOCK - buffered + count];
      buffered := buffered - count;
      remaining := remaining - count;
      ghost var left := buffer[BLOCK - buffered..];
      if buffered == 0 {
        forall i | 0 <= i < BLOCK { buffer[i] := 0; }
      }
      assert buffer[BLOCK - buffered..] == left;
    }
  }

  // Round trip.

  /** The file of n bytes is 16 * ceil(n / 16) bytes long. */
  lemma StoredLength(plain: seq<byte>, enc: Cipher)
    requires KeepsLength(enc)
    ensures |Encrypt(Blocks(plain), enc)| == 16 * ((|plain| + 15) / 16)
  {
    EncryptLength(Blocks(plain), enc);
    FlattenBlocks(plain);
  }

  /** What reads of the given sizes return, one after the other. */
  function Pieces(plain: seq<byte>, sizes: seq<nat>): seq<seq<byte>> {
    if sizes == [] then [] else
      var n := if sizes[0] < |plain| then sizes[0] else |plain|;
      [plain[..n]] + Pieces(plain[n..], sizes[1..])
  }

  lemma PiecesStep(plain: seq<byte>, sizes: seq<nat>)
    ensures sizes == [] ==> Pieces(plain, sizes) == []
    ensures sizes != [] ==>
              var n := if sizes[0] < |plain| then sizes[0] else |plain|;
              Pieces(plain, sizes) == [plain[..n]] + Pieces(plain[n..], sizes[1..])
  {
  }

  /** Reads return the plaintext in order, and nothing once it is used up. */
  lemma {:induction false} PiecesAreThePlaintext(plain: seq<byte>, sizes: seq<nat>)
    ensures Flatten(Pieces(plain, sizes)) <= plain
    ensures SumOf(sizes) >= |plain| ==> Flatten(Pieces(plain, sizes)) == plain
    decreases |sizes|
  {
    if sizes != [] {
      var n := if sizes[0] < |plain| then sizes[0] else |plain|;
      var rest := Flatten(Pieces(plain[n..], sizes[1..]));
      PiecesAreThePlaintext(plain[n..], sizes[1..]);
      assert plain == plain[..n] + plain[n..];
      assert Flatten(Pieces(plain, sizes)) == plain[..n] + rest;
    }
  }

  function SumOf(sizes: seq<nat>): nat {
    if sizes == [] then 0 else sizes[0] + SumOf(sizes[1..])
  }

  lemma FlattenStep(chunks: seq<seq<byte>>, i: nat)
    requires i < |chunks|
    ensures Flatten(chunks[i..]) == chunks[i] + Flatten(chunks[i + 1..])
  {
    assert chunks[i..][1..] == chunks[i + 1..];
  }

  lemma FlattenEnd(chunks: seq<seq<byte>>)
    ensures Flatten(chunks[|chunks|..]) == []
  {
  }

  /** Write data in any cutting. */
  method Store(chunks: seq<seq<byte>>, enc: Cipher, encrypt: bool) returns (file: seq<byte>, size: nat)
    requires KeepsLength(enc)
    ensures size == |Flatten(chunks)|
    ensures file == if encrypt then Encrypt(Blocks(Flatten(chunks)), enc) else Flatten(chunks)
  {
    hide Encrypt, Blocks, Flatten;
    var writer := new Writer(enc, encrypt);
    ghost var all := Flatten(chunks);
    assert chunks[0..] == chunks;
    size := 0;
    for i := 0 to |chunks|
      invariant writer.Valid() && writer.active && fresh(writer) && fresh(writer.buffer)
      invariant writer.enc == enc && writer.encrypt == encrypt
      invariant all == writer.Plain() + Flatten(chunks[i..])
      invariant size == |writer.Plain()|
    {
      FlattenStep(chunks, i);
      var _ := writer.Write(chunks[i]);
      size := size + |chunks[i]|;
    }
    FlattenEnd(chunks);
    assert writer.Plain() == all;
    var _ := writer.Close();
    file := writer.file;
  }

  /** Read a stored file back in any sizes: the original bytes in order, and then nothing. */
  method Load(file: seq<byte>, size: nat, sizes: seq<nat>, dec: Cipher, ghost plain: seq<byte>, ghost enc: Cipher)
    returns (pieces: seq<seq<byte>>)
    requires Inverse(enc, dec) && file == Encrypt(Blocks(plain), enc) && size == |plain|
    ensures pieces == Pieces(plain, sizes)
  {
    hide Encrypt, Blocks, Inverse, Flatten, Reader.Holds, KeepsLength, Pieces;
    var reader := new Reader(file, size, true, dec);
    ghost var (rest, blocks) := (plain, Blocks(plain));
    reader.StartHolds(enc, plain);
    pieces := [];
    for i := 0 to |sizes|
      invariant reader.active && reader.encrypted && reader.dec == dec && fresh(reader) && fresh(reader.buffer)
      invariant reader.Holds(enc, rest, blocks)
      invariant Pieces(plain, sizes) == pieces + Pieces(rest, sizes[i..])
    {
      assert sizes[i..][1..] == sizes[i + 1..];
      PiecesStep(rest, sizes[i..]);
      ghost var before := rest;
      var piece;
      piece, rest, blocks := reader.Read(sizes[i], enc, rest, blocks);
      assert before[..|piece|] == piece && before[|piece|..] == rest;
      pieces := pieces + [piece];
    }
    assert sizes[|sizes|..] == [];
    PiecesStep(rest, []);
  }

  /** A file that is not encrypted, read in any sizes. */
  method LoadPlain(file: seq<byte>, size: nat, sizes: seq<nat>, dec: Cipher) returns (pieces: seq<seq<byte>>)
    ensures pieces == Pieces(file, sizes)
  {
    hide Pieces;
    var reader := new Reader(file, size, false, dec);
    pieces := [];
    for i := 0 to |sizes|
      invariant reader.active && !reader.encrypted && fresh(reader) && fresh(reader.buffer)
      invariant Pieces(file, sizes) == pieces + Pieces(reader.unread, sizes[i..])
    {
      assert sizes[i..][1..] == sizes[i + 1..];
      PiecesStep(reader.unread, sizes[i..]);
      ghost var before := reader.unread;
      var piece, _, _ := reader.Read(sizes[i], dec, [], []);
      assert before[..|piece|] == piece && before[|piece|..] == reader.unread;
      pieces := pieces + [piece];
    }
    assert sizes[|sizes|..] == [];
    PiecesStep(reader.unread, []);
  }
}
