/** Why writing chunk by chunk is one flat write, and reading chunk by chunk one
    flat read. */
module WriteSteps {
  import opened Common
  import opened BlockModel

  // ------------------------------------------------------- blocks and offsets

  lemma Split(bs: nat, p: nat)
    requires bs > 0
    ensures p == BlockOf(bs, p) * bs + OffsetIn(bs, p) && OffsetIn(bs, p) < bs
  {
  }

  /** Positions in one block are as far apart as their offsets. */
  lemma SameBlock(bs: nat, p: nat, q: nat)
    requires bs > 0 && BlockOf(bs, p) == BlockOf(bs, q)
    ensures p - q == OffsetIn(bs, p) - OffsetIn(bs, q)
  {
  }

  lemma {:induction false} RowsApart(bs: nat, i: nat, j: nat)
    requires i < j
    ensures i * bs + bs <= j * bs
  {
    assert j * bs == i * bs + (j - i) * bs;
    assert (j - i) * bs == bs + (j - i - 1) * bs;
  }

  /** Earlier positions lie in earlier rows. */
  lemma RowOrder(bs: nat, i: nat, r: nat, j: nat, s: nat)
    requires r < bs && s < bs && i * bs + r <= j * bs + s
    ensures i <= j
  {
    if j < i { RowsApart(bs, j, i); }
  }

  lemma QuotientUnique(bs: nat, k: nat, o: nat)
    requires bs > 0 && o < bs
    ensures BlockOf(bs, k * bs + o) == k && OffsetIn(bs, k * bs + o) == o
  {
    var p := k * bs + o;
    var q, r := BlockOf(bs, p), OffsetIn(bs, p);
    Split(bs, p);
    RowOrder(bs, q, r, k, o);
    RowOrder(bs, k, o, q, r);
  }

  lemma WithinBlock(bs: nat, p: nat, d: nat)
    requires bs > 0 && OffsetIn(bs, p) + d < bs
    ensures BlockOf(bs, p + d) == BlockOf(bs, p) && OffsetIn(bs, p + d) == OffsetIn(bs, p) + d
  {
    Split(bs, p);
    QuotientUnique(bs, BlockOf(bs, p), OffsetIn(bs, p) + d);
  }

  /** The position before p lies in p's block, or ends the block before it. */
  lemma BlockBefore(bs: nat, p: nat)
    requires bs > 0 && p > 0
    ensures BlockOf(bs, p - 1) == if OffsetIn(bs, p) > 0 then BlockOf(bs, p) else BlockOf(bs, p) - 1
  {
    Split(bs, p);
    var k := BlockOf(bs, p);
    if OffsetIn(bs, p) > 0 {
      QuotientUnique(bs, k, OffsetIn(bs, p) - 1);
    } else {
      assert k > 0;
      assert (k - 1) * bs + (bs - 1) == p - 1;
      QuotientUnique(bs, k - 1, bs - 1);
    }
  }

  // -------------------------------------------------------------- one iteration

  /** What one iteration does to the byte at p. */
  lemma ByteAfterChunk(b: Content, c: Content, bs: nat, k: nat, o: nat, chunk: Bytes, p: nat)
    requires bs > 0 && o + |chunk| <= bs && Blocked(b, bs)
    requires ChunkWritten(b, c, bs, k, o, chunk)
    ensures BlockOf(bs, p) == k && o <= OffsetIn(bs, p) < o + |chunk| ==>
              ByteAt(c, bs, p) == chunk[OffsetIn(bs, p) - o]
    ensures !(BlockOf(bs, p) == k && o <= OffsetIn(bs, p) < o + |chunk|) && Present(b, BlockOf(bs, p)) ==>
              ByteAt(c, bs, p) == ByteAt(b, bs, p)
  {
  }

  lemma TouchedByChunk(bs: nat, off: nat, n: nat, m: nat, j: nat)
    requires bs > 0 && m > 0 && OffsetIn(bs, off + n) + m <= bs
    ensures Touched(bs, off, n + m, j) <==> Touched(bs, off, n, j) || j == BlockOf(bs, off + n)
    ensures BlocksFor(bs, off, n + m) == BlockOf(bs, off + n) + 1
    ensures BlocksFor(bs, off, n) <= BlockOf(bs, off + n) + 1
  {
    WithinBlock(bs, off + n, m - 1);
    if n > 0 {
      BlockBefore(bs, off + n);
      BlockMonotone(bs, off, off + n - 1);
    }
  }

  lemma BlockMonotone(bs: nat, p: nat, q: nat)
    requires bs > 0 && p <= q
    ensures BlockOf(bs, p) <= BlockOf(bs, q)
  {
    Split(bs, p);
    Split(bs, q);
    RowOrder(bs, BlockOf(bs, p), OffsetIn(bs, p), BlockOf(bs, q), OffsetIn(bs, q));
  }

  predicate ChunkArgs(bs: nat, data: Bytes, off: nat, n: nat, m: nat) {
    bs > 0 && m > 0 && n + m <= |data| && OffsetIn(bs, off + n) + m <= bs
  }

  lemma BytesAfterChunk(a: Content, b: Content, c: Content, bs: nat, data: Bytes, off: nat, n: nat, m: nat, p: nat)
    requires ChunkArgs(bs, data, off, n, m)
    requires IsWrite(a, b, bs, data[..n], off)
    requires ChunkWritten(b, c, bs, BlockOf(bs, off + n), OffsetIn(bs, off + n), data[n..n + m])
    ensures off <= p < off + n + m ==> ByteAt(c, bs, p) == data[p - off]
    ensures KeptByte(a, bs, data[..n + m], off, p) ==> ByteAt(c, bs, p) == ByteAt(a, bs, p)
  {
    var k, o := BlockOf(bs, off + n), OffsetIn(bs, off + n);
    ByteAfterChunk(b, c, bs, k, o, data[n..n + m], p);
    if BlockOf(bs, p) == k {
      SameBlock(bs, p, off + n);
    } else if off + n <= p < off + n + m {
      WithinBlock(bs, off + n, p - off - n);
    }
    if off <= p < off + n {
      assert ByteAt(b, bs, p) == data[..n][p - off];
      BlockMonotone(bs, off, p);
      BlockMonotone(bs, p, off + n - 1);
      assert Touched(bs, off, n, BlockOf(bs, p));
      assert Present(b, BlockOf(bs, p));
    }
    if KeptByte(a, bs, data[..n + m], off, p) {
      assert KeptByte(a, bs, data[..n], off, p);
      assert Present(b, BlockOf(bs, p));
    }
  }

  /** A flat write of n bytes followed by one more chunk is a flat write of n + m. */
  lemma ExtendWrite(a: Content, b: Content, c: Content, bs: nat, data: Bytes, off: nat, n: nat, m: nat)
    requires ChunkArgs(bs, data, off, n, m)
    requires IsWrite(a, b, bs, data[..n], off)
    requires ChunkWritten(b, c, bs, BlockOf(bs, off + n), OffsetIn(bs, off + n), data[n..n + m])
    ensures IsWrite(a, c, bs, data[..n + m], off)
  {
    var k := BlockOf(bs, off + n);
    var d := data[..n + m];
    forall j: nat ensures Present(c, j) <==> Present(a, j) || Touched(bs, off, |d|, j) {
      TouchedByChunk(bs, off, n, m, j);
      assert Present(b, j) <==> Present(a, j) || Touched(bs, off, |data[..n]|, j);
      assert Present(c, j) <==> Present(b, j) || j == k;
    }
    forall p: nat
      ensures off <= p < off + |d| ==> ByteAt(c, bs, p) == d[p - off]
      ensures KeptByte(a, bs, d, off, p) ==> ByteAt(c, bs, p) == ByteAt(a, bs, p)
    {
      BytesAfterChunk(a, b, c, bs, data, off, n, m, p);
    }
    TouchedByChunk(bs, off, n, m, k);
  }

  /** Writing nothing changes nothing. */
  lemma EmptyWrite(a: Content, bs: nat, off: nat)
    requires bs > 0 && Blocked(a, bs)
    ensures IsWrite(a, a, bs, [], off)
  {
  }

  /** The n bytes from position p on. */
  function Flat(c: Content, bs: nat, p: nat, n: nat): (r: Bytes)
    requires bs > 0
    ensures |r| == n
  {
    seq(n, j requires 0 <= j => ByteAt(c, bs, p + j))
  }

  lemma FlatIsRead(c: Content, bs: nat, size: nat, off: nat, n: nat)
    requires bs > 0 && off < size && off + n <= size
    ensures ReadBytes(c, bs, size, off, n) == Flat(c, bs, off, n)
  {
  }

  /** m bytes of block k from offset o on; a hole gives zeros. */
  function BlockPart(c: Content, k: nat, o: nat, m: nat): (r: Bytes)
    requires k < |c| && (c[k].Some? ==> o + m <= |c[k].value|)
    ensures |r| == m
  {
    if c[k].Some? then c[k].value[o..o + m] else seq(m, _ => 0)
  }

  /** Reading one more chunk out of one block extends the flat read. */
  lemma ExtendRead(c: Content, bs: nat, off: nat, n: nat, m: nat)
    requires bs > 0 && OffsetIn(bs, off + n) + m <= bs && Blocked(c, bs)
    requires BlockOf(bs, off + n) < |c|
    ensures Flat(c, bs, off, n + m) ==
            Flat(c, bs, off, n) + BlockPart(c, BlockOf(bs, off + n), OffsetIn(bs, off + n), m)
  {
    var p := off + n;
    var part := BlockPart(c, BlockOf(bs, p), OffsetIn(bs, p), m);
    forall j: nat | j < m ensures ByteAt(c, bs, p + j) == part[j] {
      WithinBlock(bs, p, j);
    }
    var f, g := Flat(c, bs, off, n + m), Flat(c, bs, off, n) + part;
    forall j: nat | j < n + m ensures f[j] == g[j] {
      if j >= n { assert ByteAt(c, bs, p + (j - n)) == part[j - n]; }
    }
  }

  /** How many bytes of the range [off, off + n) lie inside a map of `count` blocks. */
  function InsideMap(bs: nat, count: nat, off: nat, n: nat): nat {
    if off >= count * bs then 0 else Min(n, count * bs - off)
  }

  lemma InsideOrNot(bs: nat, count: nat, p: nat)
    requires bs > 0
    ensures BlockOf(bs, p) < count <==> p < count * bs
  {
    Split(bs, p);
    if BlockOf(bs, p) < count {
      RowsApart(bs, BlockOf(bs, p), count);
    } else {
      RowOrder(bs, count, 0, BlockOf(bs, p), 0) by {
        if count < BlockOf(bs, p) { RowsApart(bs, count, BlockOf(bs, p)); }
      }
    }
  }

  /** The whole range is inside exactly when its last byte's block is. */
  lemma InsideWhole(bs: nat, count: nat, off: nat, n: nat)
    requires bs > 0
    ensures InsideMap(bs, count, off, n) == n <==> n == 0 || BlockOf(bs, off + n - 1) < count
  {
    if n > 0 { InsideOrNot(bs, count, off + n - 1); }
  }

  /** A read is cut short exactly when it asks for bytes past the map's last block. */
  lemma InsideShort(bs: nat, count: nat, off: nat, n: nat)
    ensures InsideMap(bs, count, off, n) < n <==> n > 0 && off + n > count * bs
  {
  }

  /** One more step of a read: a chunk in a block of the map counts whole, a chunk
      past the map not at all. */
  lemma InsideStep(bs: nat, count: nat, off: nat, n: nat, m: nat)
    requires bs > 0 && m > 0 && OffsetIn(bs, off + n) + m <= bs
    ensures BlockOf(bs, off + n) < count ==>
              InsideMap(bs, count, off, n) == n && InsideMap(bs, count, off, n + m) == n + m
    ensures BlockOf(bs, off + n) >= count ==>
              InsideMap(bs, count, off, n + m) == InsideMap(bs, count, off, n)
  {
    WithinBlock(bs, off + n, m - 1);
    InsideOrNot(bs, count, off + n);
    InsideOrNot(bs, count, off + n + m - 1);
  }
}
