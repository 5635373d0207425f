/** A file's growing block array with its read and write loops
    (smart_read_file and smart_write_file of metadata_manager.c). */
module BlockMap {
  import opened Common
  import opened BlockModel
  import opened Compression
  import opened WriteSteps
  import FlatFile

  /** The fields of file_metadata_t that the model uses. */
  class FileMeta {
    var size: nat
    var blocks: nat
    var versionCount: nat
    var latestVersionId: nat
    var lastVersionTime: int
    var pinned: bool

    constructor ()
      ensures size == blocks == versionCount == latestVersionId == 0 && lastVersionTime == 0 && !pinned
    {
      size, blocks, versionCount, latestVersionId, lastVersionTime, pinned := 0, 0, 0, 0, 0, false;
    }
  }

  class Map {
    const blockSize: nat
    const codec: Codec
    var blocks: seq<DataBlock?>
    ghost var Repr: set<object>

    /** Blocks and their buffers are pairwise distinct objects. */
    ghost predicate Valid()
      reads this, Repr
    {
      && this in Repr
      && blockSize > 0 && Lawful(codec)
      && (forall k | 0 <= k < |blocks| && blocks[k] != null :: BlockOk(blocks[k]))
      && (forall j, k | 0 <= j < k < |blocks| && blocks[j] != null && blocks[k] != null ::
            blocks[j] != blocks[k] && blocks[j].data != blocks[k].data)
    }

    ghost predicate BlockOk(b: DataBlock)
      requires this in Repr
      reads this, Repr
    {
      b in Repr && b.data in Repr && b.size == blockSize && b.Valid(codec)
    }

    /** The plain contents of the file. */
    ghost function Contents(): (c: Content)
      requires Valid()
      reads this, Repr
      ensures |c| == |blocks| && Blocked(c, blockSize)
      ensures forall k | 0 <= k < |c| :: c[k].Some? <==> blocks[k] != null
    {
      seq(|blocks|, k requires 0 <= k < |blocks| && Valid() reads this, Repr =>
        if blocks[k] == null then None else Some(blocks[k].Plain(codec)))
    }

    constructor (blockSize: nat, codec: Codec)
      requires blockSize > 0 && Lawful(codec)
      ensures Valid() && fresh(Repr) && Contents() == []
      ensures this.blockSize == blockSize && this.codec == codec
    {
      this.blockSize := blockSize;
      this.codec := codec;
      blocks := [];
      Repr := {this};
    }

    /** Make room for block k and allocate it if it is missing. */
    method EnsureBlock(k: nat)
      requires Valid()
      modifies this
      ensures Valid() && fresh(Repr - old(Repr)) && old(Repr) <= Repr
      ensures k < |blocks| && blocks[k] != null
      ensures |blocks| == Max(|old(blocks)|, k + 1)
      ensures forall j | 0 <= j < |blocks| && j != k ::
                Contents()[j] == if j < |old(blocks)| then old(Contents())[j] else None
      ensures Present(old(Contents()), k) ==> Contents()[k] == old(Contents())[k]
    {
      ghost var was := Contents();
      if k >= |blocks| {
        blocks := blocks + seq(k + 1 - |blocks|, _ => null);
      }
      if blocks[k] == null {
        var b := new DataBlock(blockSize);
        blocks := blocks[k := b];
        Repr := Repr + {b, b.data};
      }
    }

    /** Changing one block in place changes one block of the contents. */
    twostate lemma OneBlockChanged(k: nat)
      requires old(Valid())
      requires blocks == old(blocks) && k < |blocks| && blocks[k] != null
      requires Repr == old(Repr) + {blocks[k].data}
      requires blocks[k].data == old(blocks[k].data) || fresh(blocks[k].data)
      requires blocks[k].size == blockSize && blocks[k].Valid(codec)
      requires forall j | 0 <= j < |blocks| && j != k && blocks[j] != null ::
                 unchanged(blocks[j]) && unchanged(blocks[j].data)
      ensures Valid()
      ensures Contents() == old(Contents())[k := Some(blocks[k].Plain(codec))]
    {
      forall j | 0 <= j < |blocks| && blocks[j] != null
        ensures BlockOk(blocks[j])
        ensures j != k ==> blocks[j].data == old(blocks[j].data)
        ensures j != k ==> blocks[j].Plain(codec) == old(blocks[j].Plain(codec))
      {
        assert old(BlockOk(blocks[j]));
      }
    }

    /** The body of the write loop once the block exists. */
    method UpdateBlock(k: nat, o: nat, chunk: Bytes, cfg: Config, choice: Algorithm, level: int)
      requires Valid() && cfg !in Repr
      requires o < blockSize && o + |chunk| <= blockSize
      requires k < |blocks| && blocks[k] != null
      modifies Repr, cfg
      ensures Valid() && fresh(Repr - old(Repr)) && old(Repr) <= Repr
      ensures var d := old(Contents())[k].value;
              Contents() == old(Contents())[k := Some(d[..o] + chunk + d[o + |chunk|..])]
    {
      var b := blocks[k];
      assert BlockOk(b);
      ghost var d := b.Plain(codec);
      var n := b.WriteBlock(codec, chunk, o);
      assert b.Plain(codec) == d[..o] + chunk + d[o + |chunk|..];
      b.ProcessOnWrite(codec, cfg, choice, level);
      Repr := Repr + {b.data};
      OneBlockChanged(k);
    }

    method WriteChunk(k: nat, o: nat, chunk: Bytes, cfg: Config, choice: Algorithm, level: int)
      requires Valid() && cfg !in Repr
      requires o < blockSize && o + |chunk| <= blockSize
      modifies Repr, cfg
      ensures Valid() && fresh(Repr - old(Repr)) && old(Repr) <= Repr
      ensures ChunkWritten(old(Contents()), Contents(), blockSize, k, o, chunk)
    {
      EnsureBlock(k);
      UpdateBlock(k, o, chunk, cfg, choice, level);
    }

    /** One iteration of the write loop. */
    method WriteNext(data: Bytes, offset: nat, written: nat, cfg: Config, choice: Algorithm, level: int,
                     ghost was: Content) returns (n: nat)
      requires Valid() && cfg !in Repr && written < |data|
      requires IsWrite(was, Contents(), blockSize, data[..written], offset)
      modifies Repr, cfg
      ensures Valid() && fresh(Repr - old(Repr)) && old(Repr) <= Repr
      ensures 0 < n && written + n <= |data|
      ensures IsWrite(was, Contents(), blockSize, data[..written + n], offset)
    {
      var current := offset + written;
      var blockIndex, blockOffset := current / blockSize, current % blockSize;
      assert blockIndex == BlockOf(blockSize, current) && blockOffset == OffsetIn(blockSize, current);
      n := Min(blockSize - blockOffset, |data| - written);
      ghost var mid := Contents();
      WriteChunk(blockIndex, blockOffset, data[written..written + n], cfg, choice, level);
      ExtendWrite(was, mid, Contents(), blockSize, data, offset, written, n);
    }

    /** smart_write_file: `pick` gives the algorithm and level the adaptive step
        chooses when `written` bytes are done. */
    method SmartWrite(meta: FileMeta, data: Bytes, offset: int, cfg: Config, pick: nat -> (Algorithm, int))
        returns (r: int)
      requires Valid() && cfg !in Repr && meta !in Repr
      modifies Repr, cfg, meta`size, meta`blocks
      ensures Valid() && fresh(Repr - old(Repr)) && old(Repr) <= Repr
      ensures offset < 0 ==> r == EINVAL && Contents() == old(Contents()) && unchanged(meta)
      ensures offset >= 0 ==>
                && r == |data|
                && IsWrite(old(Contents()), Contents(), blockSize, data, offset)
                && meta.size == Max(old(meta.size), offset + |data|)
                && meta.blocks == BlockCount(meta.size)
                && meta.blocks * blockSize >= meta.size
                && (meta.blocks > 0 ==> (meta.blocks - 1) * blockSize < meta.size)
    {
      if offset < 0 {
        return EINVAL;
      }
      var newSize := offset + |data|;
      if newSize > meta.size {
        meta.size := newSize;
      }
      var written := 0;
      ghost var was := Contents();
      EmptyWrite(was, blockSize, offset);
      assert data[..0] == [];
      while written < |data|
        invariant 0 <= written <= |data|
        invariant Valid() && fresh(Repr - old(Repr)) && old(Repr) <= Repr
        invariant meta.size == Max(old(meta.size), newSize)
        invariant IsWrite(was, Contents(), blockSize, data[..written], offset)
      {
        var (choice, level) := pick(written);
        var n := WriteNext(data, offset, written, cfg, choice, level, was);
        written := written + n;
      }
      assert data[..written] == data;
      meta.blocks := BlockCount(meta.size);
      RoundedUp(meta.size, blockSize, meta.blocks);
      r := written;
    }

    function BlockCount(size: nat): nat
      requires blockSize > 0
    {
      (size + blockSize - 1) / blockSize
    }

    /** smart_read_file. Past the block map the loop clears the buffer but does not
        count the bytes, so a read returns the bytes inside the map only. */
    method SmartRead(meta: FileMeta, buf: array<Byte>, len: nat, offset: int) returns (r: int)
      requires Valid() && buf !in Repr && len <= buf.Length
      modifies buf
      ensures offset < 0 ==> r == EINVAL
      ensures offset >= meta.size ==> offset >= 0 ==> r == 0
      ensures 0 <= offset < meta.size ==>
                var n := Min(len, meta.size - offset);
                && r == InsideMap(blockSize, |Contents()|, offset, n)
                && buf[..r] == ReadBytes(Contents(), blockSize, meta.size, offset, r)
                && (r == n <==> n == 0 || BlockOf(blockSize, offset + n - 1) < |Contents()|)
      ensures buf[len..] == old(buf[len..])
    {
      if offset < 0 {
        return EINVAL;
      }
      if offset >= meta.size {
        return 0;
      }
      var n := Min(len, meta.size - offset);
      var done := 0;
      r := 0;
      while done < n
        invariant 0 <= r <= done <= n
        invariant r == InsideMap(blockSize, |blocks|, offset, done)
        invariant buf[..r] == Flat(Contents(), blockSize, offset, r)
        invariant buf[len..] == old(buf[len..])
      {
        var m, got := ReadNext(buf, len, offset, done, n, r);
        r := r + got;
        done := done + m;
      }
      InsideWhole(blockSize, |blocks|, offset, n);
      FlatIsRead(Contents(), blockSize, meta.size, offset, r);
    }

    /** One iteration of the read loop. */
    method ReadNext(buf: array<Byte>, len: nat, offset: nat, done: nat, n: nat, r: nat) returns (m: nat, got: nat)
      requires Valid() && buf !in Repr && r <= done < n <= len <= buf.Length
      requires r == InsideMap(blockSize, |blocks|, offset, done)
      requires buf[..r] == Flat(Contents(), blockSize, offset, r)
      modifies buf
      ensures 0 < m && done + m <= n && r + got <= done + m
      ensures r + got == InsideMap(blockSize, |blocks|, offset, done + m)
      ensures buf[..r + got] == Flat(Contents(), blockSize, offset, r + got)
      ensures buf[len..] == old(buf[len..])
    {
      var current := offset + done;
      var blockIndex, blockOffset := current / blockSize, current % blockSize;
      assert blockIndex == BlockOf(blockSize, current) && blockOffset == OffsetIn(blockSize, current);
      m := Min(blockSize - blockOffset, n - done);
      InsideStep(blockSize, |blocks|, offset, done, m);
      if blockIndex >= |blocks| {
        Clear(buf, r, m);
        got := 0;
      } else {
        got := ReadBlockAt(buf, r, m, blockIndex, blockOffset);
        ExtendRead(Contents(), blockSize, offset, done, m);
        assert buf[..r + m] == buf[..r] + buf[r..r + m];
      }
      assert buf[len..] == buf[r + m..][len - r - m..];
    }

    /** One block's part of a read: the block's bytes, or zeros for a hole. */
    method ReadBlockAt(buf: array<Byte>, at: nat, m: nat, k: nat, o: nat) returns (got: nat)
      requires Valid() && buf !in Repr && at + m <= buf.Length
      requires k < |blocks| && m > 0 && o + m <= blockSize
      modifies buf
      ensures got == m
      ensures buf[at..at + m] == BlockPart(Contents(), k, o, m)
      ensures buf[..at] == old(buf[..at]) && buf[at + m..] == old(buf[at + m..])
    {
      var block := blocks[k];
      if block != null {
        assert BlockOk(block);
        got := block.ReadBlock(codec, buf, at, m, o);
      } else {
        Clear(buf, at, m);
        got := m;
      }
    }
  }

  /** The quotient rounded up is the least number of blocks that hold the size. */
  lemma RoundedUp(size: nat, bs: nat, n: nat)
    requires bs > 0 && n == (size + bs - 1) / bs
    ensures n * bs >= size && (n > 0 ==> (n - 1) * bs < size)
  {
    var p := size + bs - 1;
    Split(bs, p);
    assert BlockOf(bs, p) == n;
    assert n * bs == (n - 1) * bs + bs;
  }

  /** What was written reads back in full, whatever happened to the blocks on the way. */
  method WriteThenRead(file: Map, meta: FileMeta, data: Bytes, offset: nat, cfg: Config,
                       pick: nat -> (Algorithm, int), buf: array<Byte>) returns (w: int, r: int)
    requires file.Valid() && cfg !in file.Repr && meta !in file.Repr
    requires buf !in file.Repr && |data| <= buf.Length
    modifies file.Repr, cfg, meta`size, meta`blocks, buf
    ensures file.Valid() && w == r == |data| && buf[..r] == data
  {
    ghost var before := file.Contents();
    w := file.SmartWrite(meta, data, offset, cfg, pick);
    FlatFile.ReadAfterWrite(before, file.Contents(), file.blockSize, data, offset, meta.size);
    r := file.SmartRead(meta, buf, |data|, offset);
  }

  /** A new file truncated to ten bytes has no blocks: reading it returns nothing. */
  method ReadTruncated(file: Map, meta: FileMeta, buf: array<Byte>) returns (r: int)
    requires file.Valid() && file.Contents() == [] && meta.size == 10
    requires buf !in file.Repr && buf.Length >= 10
    modifies buf
    ensures r == 0
  {
    r := file.SmartRead(meta, buf, 10, 0);
  }

  /** memset to zero. */
  method Clear(buf: array<Byte>, at: nat, m: nat)
    requires at + m <= buf.Length
    modifies buf
    ensures buf[at..at + m] == seq(m, _ => 0)
    ensures buf[..at] == old(buf[..at]) && buf[at + m..] == old(buf[at + m..])
  {
    forall j | at <= j < at + m {
      buf[j] := 0;
    }
  }
}
