/** The plain contents of a file's block map, seen as a value.

    A file is an array of fixed-size blocks with holes; readers see holes and
    everything past a block's bytes as zero. */
module BlockModel {
  import opened Common

  /** Block k of the file: None is a hole, Some(d) a block whose plain bytes are d. */
  type Content = seq<Option<Bytes>>

  predicate Present(c: Content, k: nat) {
    k < |c| && c[k].Some?
  }

  /** Every block that is present has exactly the file system's block size. */
  predicate Blocked(c: Content, bs: nat) {
    forall k | 0 <= k < |c| :: c[k].Some? ==> |c[k].value| == bs
  }

  /** Later contents keep every index and every present block of earlier ones. */
  predicate Extends(older: Content, newer: Content) {
    |older| <= |newer| && forall k | 0 <= k < |older| :: older[k].Some? ==> newer[k].Some?
  }

  function BlockOf(bs: nat, p: nat): nat
    requires bs > 0
  {
    p / bs
  }

  function OffsetIn(bs: nat, p: nat): nat
    requires bs > 0
  {
    p % bs
  }

  /** The byte a reader sees at position p. */
  function ByteAt(c: Content, bs: nat, p: nat): Byte
    requires bs > 0
  {
    var k, o := BlockOf(bs, p), OffsetIn(bs, p);
    if k < |c| && c[k].Some? && o < |c[k].value| then c[k].value[o] else 0
  }

  /** What reading `len` bytes at `off` returns from a file of `size` bytes. */
  function ReadBytes(c: Content, bs: nat, size: nat, off: nat, len: nat): (r: Bytes)
    requires bs > 0
  {
    if off >= size then []
    else seq(Min(len, size - off), j requires 0 <= j => ByteAt(c, bs, off + j))
  }

  /** The number of blocks a file needs so that the range [off, off + len) lies inside. */
  function BlocksFor(bs: nat, off: nat, len: nat): nat
    requires bs > 0
  {
    if len == 0 then 0 else BlockOf(bs, off + len - 1) + 1
  }

  predicate Touched(bs: nat, off: nat, len: nat, k: nat)
    requires bs > 0
  {
    len > 0 && BlockOf(bs, off) <= k <= BlockOf(bs, off + len - 1)
  }

  /** `after` is `before` with `data` written at `off`. The bytes of a block that
      the write had to allocate, outside the range written, are not determined. */
  ghost predicate IsWrite(before: Content, after: Content, bs: nat, data: Bytes, off: nat)
    requires bs > 0
  {
    && |after| == Max(|before|, BlocksFor(bs, off, |data|))
    && Blocked(after, bs)
    && (forall k: nat :: Present(after, k) <==> Present(before, k) || Touched(bs, off, |data|, k))
    && (forall p: nat | off <= p < off + |data| :: ByteAt(after, bs, p) == data[p - off])
    && (forall p: nat | KeptByte(before, bs, data, off, p) :: ByteAt(after, bs, p) == ByteAt(before, bs, p))
  }

  /** A byte the write must not change: outside the range, in a block that was there. */
  predicate KeptByte(before: Content, bs: nat, data: Bytes, off: nat, p: nat)
    requires bs > 0
  {
    Present(before, BlockOf(bs, p)) && !(off <= p < off + |data|)
  }

  /** One iteration of the write loop: `chunk` lands in block k at offset o. */
  predicate ChunkWritten(before: Content, after: Content, bs: nat, k: nat, o: nat, chunk: Bytes)
    requires o + |chunk| <= bs
  {
    && |after| == Max(|before|, k + 1)
    && (forall j | 0 <= j < |after| && j != k :: after[j] == if j < |before| then before[j] else None)
    && after[k].Some? && |after[k].value| == bs
    && after[k].value[o..o + |chunk|] == chunk
    && (Present(before, k) && |before[k].value| == bs ==>
          after[k].value == before[k].value[..o] + chunk + before[k].value[o + |chunk|..])
  }
}
