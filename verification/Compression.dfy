/** Data blocks and their compression (dedup.c, and read_block / write_block of
    metadata_manager.c). The codecs themselves are abstract. */
module Compression {
  import opened Common

  datatype Algorithm = NoCompression | LZ4 | ZSTD | GZIP

  /** The registered compressors: None stands for a failing call. */
  datatype Codec = Codec(
    compress: (Algorithm, Bytes, int) -> Option<Bytes>,
    decompress: (Algorithm, Bytes) -> Option<Bytes>,
    hasZlib: bool)

  function Compress(c: Codec, a: Algorithm, d: Bytes, level: int): Option<Bytes> {
    c.compress(a, d, level)
  }

  function Decompress(c: Codec, a: Algorithm, z: Bytes): Option<Bytes> {
    c.decompress(a, z)
  }

  /** What the libraries promise: decompression undoes compression, and
      compressed data is never empty. */
  ghost predicate Lawful(c: Codec) {
    forall a, d, level | Compress(c, a, d, level).Some? ::
      var z := Compress(c, a, d, level).value;
      z != [] && Decompress(c, a, z) == Some(d)
  }

  /** The compressed form a configuration gives some plain content: None when
      compression is off, not worth it, or failing. */
  function CompressedForm(c: Codec, enable: bool, algo: Algorithm, level: int, minSize: nat, d: Bytes): Option<Bytes> {
    if !Wanted(c, enable, algo, minSize, d) then None
    else
      var z := Compress(c, algo, d, level);
      if z.Some? && |z.value| < |d| then z else None
  }

  predicate Wanted(c: Codec, enable: bool, algo: Algorithm, minSize: nat, d: Bytes) {
    enable && algo != NoCompression && |d| >= minSize && (algo == GZIP ==> c.hasZlib)
  }

  /** The parts of dedup_config_t that compression reads and changes. */
  class Config {
    var enableCompression: bool
    var algo: Algorithm
    var level: int
    var minSize: nat

    constructor (enable: bool, algo: Algorithm, level: int, minSize: nat)
      ensures enableCompression == enable && this.algo == algo && this.level == level && this.minSize == minSize
    {
      enableCompression, this.algo, this.level, this.minSize := enable, algo, level, minSize;
    }

    /** dedup_set_compression. */
    method SetCompression(algo: Algorithm, level: int)
      modifies this
      ensures this.algo == algo && this.level == level && minSize == old(minSize)
      ensures enableCompression <==> algo != NoCompression
    {
      this.algo := algo;
      this.level := level;
      enableCompression := algo != NoCompression;
    }
  }

  class DataBlock {
    var data: array<Byte>
    var size: nat            // bytes of plain content
    var compressedSize: nat  // 0 when the data is plain
    var compression: Algorithm

    predicate Compressed()
      reads this
    {
      compressedSize > 0 && compression != NoCompression
    }

    ghost predicate Valid(codec: Codec)
      reads this, data
    {
      if Compressed() then
        && compressedSize <= data.Length
        && var p := Decompress(codec, compression, data[..compressedSize]);
        p.Some? && |p.value| == size
      else size <= data.Length
    }

    /** What readers see, whatever the representation. */
    ghost function Plain(codec: Codec): (p: Bytes)
      requires Valid(codec)
      reads this, data
      ensures |p| == size
    {
      if Compressed() then Decompress(codec, compression, data[..compressedSize]).value
      else data[..size]
    }

    /** allocate_block: the new bytes are whatever malloc returned. */
    constructor (size: nat)
      ensures fresh(data) && this.size == size && data.Length == size
      ensures !Compressed()
    {
      data := new Byte[size];
      this.size := size;
      compressedSize := 0;
      compression := NoCompression;
    }

    /** block_decompress: a fresh copy of the plain content. */
    method BlockDecompress(codec: Codec) returns (out: array<Byte>)
      requires Valid(codec)
      ensures fresh(out) && out[..] == Plain(codec)
    {
      if compressedSize == 0 || compression == NoCompression {
        out := new Byte[size](i requires 0 <= i < size <= data.Length reads this, data => data[i]);
      } else {
        var p := Decompress(codec, compression, data[..compressedSize]);
        out := new Byte[size](i requires 0 <= i < |p.value| => p.value[i]);
      }
    }

    /** block_compress: 0 on success, -1 when the codec fails. Either way the plain
        content is unchanged; an already compressed block is left alone, and a
        block is only kept compressed when that makes it smaller. */
    method BlockCompress(codec: Codec, cfg: Config) returns (rc: int)
      requires Lawful(codec) && Valid(codec)
      modifies this
      ensures Valid(codec) && Plain(codec) == old(Plain(codec)) && size == old(size)
      ensures data == old(data) || fresh(data)
      ensures old(Compressed()) ==> rc == 0 && unchanged(this)
      ensures !old(Compressed()) ==>
                var d := old(Plain(codec));
                var z := CompressedForm(codec, cfg.enableCompression, cfg.algo, cfg.level, cfg.minSize, d);
                && (Compressed() <==> z.Some?)
                && (z.Some? ==> compression == cfg.algo && compressedSize == |z.value| < size && data[..] == z.value)
                && rc == (if Wanted(codec, cfg.enableCompression, cfg.algo, cfg.minSize, d)
                             && Compress(codec, cfg.algo, d, cfg.level).None? then -1 else 0)
      ensures !old(Compressed()) ==>
                var d := old(Plain(codec));
                var tried := cfg.enableCompression && cfg.algo != NoCompression && size >= cfg.minSize
                             && (cfg.algo == GZIP ==> codec.hasZlib);
                var z := Compress(codec, cfg.algo, d, cfg.level);
                && (rc == -1 <==> tried && z.None?)
                && (Compressed() <==> tried && z.Some? && |z.value| < size)
      ensures rc == -1 ==> unchanged(this)
    {
      if Compressed() {
        return 0;
      }
      var algo := cfg.algo;
      if !cfg.enableCompression || algo == NoCompression || size < cfg.minSize {
        compressedSize := 0;
        compression := NoCompression;
        return 0;
      }
      if algo == GZIP && !codec.hasZlib {
        compressedSize := 0;
        compression := NoCompression;
        return 0;
      }
      var z := Compress(codec, algo, data[..size], cfg.level);
      if z.None? {
        return -1;
      }
      if |z.value| >= size {
        compressedSize := 0;
        compression := NoCompression;
        return 0;
      }
      data := new Byte[|z.value|](i requires 0 <= i < |z.value| => z.value[i]);
      compressedSize := |z.value|;
      compression := algo;
      assert data[..compressedSize] == z.value;
      return 0;
    }

    /** read_block: copy into buf at `at`; returns the number of bytes copied. */
    method ReadBlock(codec: Codec, buf: array<Byte>, at: nat, len: nat, offset: nat) returns (n: nat)
      requires Valid(codec) && buf != data
      requires at + len <= buf.Length
      modifies buf
      ensures n == if offset >= size then 0 else Min(len, size - offset)
      ensures buf[..at] == old(buf[..at]) && buf[at + n..] == old(buf[at + n..])
      ensures n > 0 ==> buf[at..at + n] == Plain(codec)[offset..offset + n]
    {
      if offset >= size {
        return 0;
      }
      n := Min(len, size - offset);
      var src := data;
      if Compressed() {
        src := BlockDecompress(codec);
      }
      ghost var p := Plain(codec);
      assert forall i | 0 <= i < size :: src[i] == p[i] by {
        assert p == src[..size];
      }
      forall i | 0 <= i < n {
        buf[at + i] := src[offset + i];
      }
      assert buf[at..at + n] == p[offset..offset + n];
      assert Plain(codec) == p;
    }

    /** write_block: decompress first if needed, then copy `chunk` in; returns the
        number of bytes written, or -1 (no space) past the block's end. */
    method WriteBlock(codec: Codec, chunk: Bytes, offset: nat) returns (n: int)
      requires Valid(codec)
      modifies this, data
      ensures Valid(codec) && size == old(size) && (data == old(data) || fresh(data))
      ensures offset >= size ==> n == -1 && unchanged(this) && unchanged(data)
      ensures offset < size ==>
                && n == Min(|chunk|, size - offset)
                && !Compressed()
                && Plain(codec) == old(Plain(codec))[..offset] + chunk[..n] + old(Plain(codec))[offset + n..]
    {
      if offset >= size {
        return -1;
      }
      n := Min(|chunk|, size - offset);
      if Compressed() {
        data := BlockDecompress(codec);
        compressedSize := 0;
        compression := NoCompression;
      }
      label decompressed:
      assert data[..size] == old(Plain(codec));
      forall i | 0 <= i < n {
        data[offset + i] := chunk[i];
      }
      assert data[..size] == old@decompressed(data[..size])[..offset] + chunk[..n]
                             + old@decompressed(data[..size])[offset + n..];
    }

    /** dedup_process_block_on_write with deduplication off. `choice` and `level` are
        what the adaptive step picked from the block's type and the system load; it
        stores them in the configuration. */
    method ProcessOnWrite(codec: Codec, cfg: Config, choice: Algorithm, level: int)
      requires Lawful(codec) && Valid(codec) && !Compressed()
      modifies this, cfg
      ensures Valid(codec) && Plain(codec) == old(Plain(codec)) && size == old(size)
      ensures data == old(data) || fresh(data)
      ensures Compressed() <==>
                CompressedForm(codec, old(cfg.enableCompression), choice, level, cfg.minSize, Plain(codec)).Some?
      ensures var z := Compress(codec, choice, Plain(codec), level);
              Compressed() <==>
                && old(cfg.enableCompression) && choice != NoCompression && size >= cfg.minSize
                && (choice == GZIP ==> codec.hasZlib) && z.Some? && |z.value| < size
      ensures if old(cfg.enableCompression)
              then cfg.algo == choice && cfg.level == level && (cfg.enableCompression <==> choice != NoCompression)
              else unchanged(cfg)
    {
      if cfg.enableCompression {
        cfg.SetCompression(choice, level);
        if choice == NoCompression {
          compressedSize := 0;
          compression := NoCompression;
        } else {
          var _ := BlockCompress(codec, cfg);
        }
      } else {
        compression := NoCompression;
        compressedSize := 0;
      }
    }
  }
}
