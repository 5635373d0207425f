/** A block map as a flat sparse byte file: what a write promises to later reads. */
module FlatFile {
  import opened Common
  import opened BlockModel
  import WriteSteps

  lemma ByteExact(c: Content, bs: nat, p: nat)
    requires bs > 0
    ensures var k, o := p / bs, p % bs;
            ByteAt(c, bs, p) == if k < |c| && c[k].Some? && o < |c[k].value| then c[k].value[o] else 0
  {
  }

  /** These are the bytes from `off` on: each is the one at that place of its block, or
      zero where the block is missing or too short. */
  predicate BytesFrom(r: Bytes, c: Content, bs: nat, off: nat)
    requires bs > 0
  {
    forall j | 0 <= j < |r| ::
      var k, o := (off + j) / bs, (off + j) % bs;
      r[j] == if k < |c| && c[k].Some? && o < |c[k].value| then c[k].value[o] else 0
  }

  /** A read returns as many bytes as asked for, cut to the size, and those bytes. */
  lemma ReadExact(c: Content, bs: nat, size: nat, off: nat, len: nat)
    requires bs > 0
    ensures |ReadBytes(c, bs, size, off, len)| == if off >= size then 0 else Min(len, size - off)
    ensures BytesFrom(ReadBytes(c, bs, size, off, len), c, bs, off)
  {
    var r := ReadBytes(c, bs, size, off, len);
    forall j | 0 <= j < |r|
      ensures var k, o := (off + j) / bs, (off + j) % bs;
              r[j] == if k < |c| && c[k].Some? && o < |c[k].value| then c[k].value[o] else 0
    {
      assert r[j] == ByteAt(c, bs, off + j);
      ByteExact(c, bs, off + j);
    }
  }

  /** The map never shrinks and a present block never becomes a hole. */
  lemma WriteExtends(before: Content, after: Content, bs: nat, data: Bytes, off: nat)
    requires bs > 0 && IsWrite(before, after, bs, data, off)
    ensures Extends(before, after)
  {
    forall k | 0 <= k < |before| ensures before[k].Some? ==> after[k].Some? {
      assert before[k].Some? ==> Present(before, k) && Present(after, k);
    }
  }

  /** What was written reads back. */
  lemma ReadAfterWrite(before: Content, after: Content, bs: nat, data: Bytes, off: nat, size: nat)
    requires bs > 0 && IsWrite(before, after, bs, data, off)
    requires off + |data| <= size
    ensures ReadBytes(after, bs, size, off, |data|) == data
  {
  }

  lemma ReadsAgree(c: Content, d: Content, bs: nat, size: nat, off: nat, len: nat)
    requires bs > 0
    requires forall p: nat | off <= p < off + len :: ByteAt(c, bs, p) == ByteAt(d, bs, p)
    ensures ReadBytes(c, bs, size, off, len) == ReadBytes(d, bs, size, off, len)
  {
  }

  /** A byte outside the written range keeps its value if its block was there, and
      stays zero if the write does not touch its block. */
  lemma ByteElsewhere(before: Content, after: Content, bs: nat, data: Bytes, off: nat, p: nat)
    requires bs > 0 && IsWrite(before, after, bs, data, off)
    requires !(off <= p < off + |data|)
    requires Present(before, BlockOf(bs, p)) || !Touched(bs, off, |data|, BlockOf(bs, p))
    ensures ByteAt(after, bs, p) == ByteAt(before, bs, p)
  {
    if Present(before, BlockOf(bs, p)) {
      assert KeptByte(before, bs, data, off, p);
    } else {
      assert !Present(after, BlockOf(bs, p));
    }
  }

  /** A read that meets neither the written range nor a block the write had to
      allocate returns what it returned before. */
  lemma ReadElsewhere(before: Content, after: Content, bs: nat, data: Bytes, off: nat,
                      size: nat, roff: nat, rlen: nat)
    requires bs > 0 && IsWrite(before, after, bs, data, off)
    requires roff + rlen <= off || off + |data| <= roff
    requires forall p: nat | roff <= p < roff + rlen ::
               Present(before, BlockOf(bs, p)) || !Touched(bs, off, |data|, BlockOf(bs, p))
    ensures ReadBytes(after, bs, size, roff, rlen) == ReadBytes(before, bs, size, roff, rlen)
  {
    forall p: nat | roff <= p < roff + rlen ensures ByteAt(after, bs, p) == ByteAt(before, bs, p) {
      ByteElsewhere(before, after, bs, data, off, p);
    }
    ReadsAgree(after, before, bs, size, roff, rlen);
  }

  /** Holes, and everything past the map, read as zero. */
  lemma HolesReadZero(c: Content, bs: nat, size: nat, off: nat, len: nat)
    requires bs > 0
    requires forall p: nat | off <= p < off + len :: !Present(c, BlockOf(bs, p))
    ensures |ReadBytes(c, bs, size, off, len)| == if off >= size then 0 else Min(len, size - off)
    ensures forall j | 0 <= j < |ReadBytes(c, bs, size, off, len)| :: ReadBytes(c, bs, size, off, len)[j] == 0
    ensures ReadBytes(c, bs, size, off, len) == ReadBytes([], bs, size, off, len)
  {
    forall p: nat | off <= p < off + len ensures ByteAt(c, bs, p) == ByteAt([], bs, p) {
      assert !Present(c, BlockOf(bs, p));
    }
    ReadsAgree(c, [], bs, size, off, len);
  }

  // ------------------------------------------------------------- many writes

  /** A write of these bytes at this place. */
  datatype Extent = Extent(off: nat, data: Bytes)

  predicate Covers(w: Extent, p: nat) {
    w.off <= p < w.off + |w.data|
  }

  /** ms are the contents before, between and after the writes. */
  ghost predicate Writes(ms: seq<Content>, ws: seq<Extent>, bs: nat)
    requires bs > 0
  {
    && |ms| == |ws| + 1
    && forall i {:trigger ws[i]} | 0 <= i < |ws| :: IsWrite(ms[i], ms[i + 1], bs, ws[i].data, ws[i].off)
  }

  predicate TouchedBy(ws: seq<Extent>, bs: nat, k: nat)
    requires bs > 0
  {
    exists i | 0 <= i < |ws| :: Touched(bs, ws[i].off, |ws[i].data|, k)
  }

  /** The last of the writes that covers the byte, or their number if none does. */
  function LastCover(ws: seq<Extent>, p: nat): (i: nat)
    ensures i <= |ws|
    ensures i < |ws| ==> Covers(ws[i], p) && forall j | i < j < |ws| :: !Covers(ws[j], p)
    ensures i == |ws| ==> forall j | 0 <= j < |ws| :: !Covers(ws[j], p)
  {
    if ws == [] then 0
    else if Covers(ws[|ws| - 1], p) then |ws| - 1
    else
      var i := LastCover(ws[..|ws| - 1], p);
      if i == |ws| - 1 then |ws| else i
  }

  /** A covered byte lies in a block the write touches. */
  lemma CoverTouches(w: Extent, bs: nat, p: nat)
    requires bs > 0 && Covers(w, p)
    ensures Touched(bs, w.off, |w.data|, BlockOf(bs, p))
  {
    WriteSteps.BlockMonotone(bs, w.off, p);
    WriteSteps.BlockMonotone(bs, p, w.off + |w.data| - 1);
  }

  /** After any writes a block is there if it was or if some write touched it. */
  lemma {:induction false} PresentAfter(ms: seq<Content>, ws: seq<Extent>, bs: nat, k: nat)
    requires bs > 0 && Writes(ms, ws, bs)
    ensures Present(ms[|ws|], k) <==> Present(ms[0], k) || TouchedBy(ws, bs, k)
    decreases |ws|
  {
    if ws != [] {
      var n := |ws| - 1;
      WritesInit(ms, ws, bs);
      PresentAfter(ms[..n + 1], ws[..n], bs, k);
      TouchedLast(ws, bs, k);
      assert IsWrite(ms[n], ms[n + 1], bs, ws[n].data, ws[n].off);
    }
  }

  lemma WritesInit(ms: seq<Content>, ws: seq<Extent>, bs: nat)
    requires bs > 0 && Writes(ms, ws, bs) && ws != []
    ensures Writes(ms[..|ws|], ws[..|ws| - 1], bs)
    ensures ms[..|ws|][|ws| - 1] == ms[|ws| - 1] && ms[..|ws|][0] == ms[0]
  {
    var init, before := ws[..|ws| - 1], ms[..|ws|];
    forall i {:trigger init[i]} | 0 <= i < |init|
      ensures IsWrite(before[i], before[i + 1], bs, init[i].data, init[i].off)
    {
      assert init[i] == ws[i];
    }
  }

  lemma TouchedLast(ws: seq<Extent>, bs: nat, k: nat)
    requires bs > 0 && ws != []
    ensures var n := |ws| - 1;
            TouchedBy(ws, bs, k) <==> TouchedBy(ws[..n], bs, k) || Touched(bs, ws[n].off, |ws[n].data|, k)
  {
    var n := |ws| - 1;
    if TouchedBy(ws, bs, k) && !Touched(bs, ws[n].off, |ws[n].data|, k) {
      var i :| 0 <= i < |ws| && Touched(bs, ws[i].off, |ws[i].data|, k);
      assert ws[..n][i] == ws[i];
    }
    if TouchedBy(ws[..n], bs, k) {
      var i :| 0 <= i < n && Touched(bs, ws[..n][i].off, |ws[..n][i].data|, k);
      assert ws[..n][i] == ws[i];
    }
  }

  /** After any sequence of writes a byte reads as the last write that covers it has it;
      if none does, it reads as at the start, given that its block was there then or was
      never touched, and so as zero in a block that never was there. */
  lemma {:induction false} LastWriteShows(ms: seq<Content>, ws: seq<Extent>, bs: nat, p: nat)
    requires bs > 0 && Writes(ms, ws, bs)
    ensures var i, k := LastCover(ws, p), BlockOf(bs, p);
            if i < |ws| then ByteAt(ms[|ws|], bs, p) == ws[i].data[p - ws[i].off]
            else if Present(ms[0], k) then ByteAt(ms[|ws|], bs, p) == ByteAt(ms[0], bs, p)
            else !TouchedBy(ws, bs, k) ==> ByteAt(ms[|ws|], bs, p) == 0
    decreases |ws|
  {
    if ws != [] {
      var n, k := |ws| - 1, BlockOf(bs, p);
      WritesInit(ms, ws, bs);
      LastWriteShows(ms[..n + 1], ws[..n], bs, p);
      PresentAfter(ms, ws, bs, k);
      PresentAfter(ms[..n + 1], ws[..n], bs, k);
      assert IsWrite(ms[n], ms[n + 1], bs, ws[n].data, ws[n].off);
      if !Covers(ws[n], p) {
        CoveredPresent(ms[..n + 1], ws[..n], bs, p);
        TouchedLast(ws, bs, k);
        if Present(ms[n], k) { ByteElsewhere(ms[n], ms[n + 1], bs, ws[n].data, ws[n].off, p); }
      }
    }
  }

  lemma CoveredPresent(ms: seq<Content>, ws: seq<Extent>, bs: nat, p: nat)
    requires bs > 0 && Writes(ms, ws, bs)
    ensures LastCover(ws, p) < |ws| ==> Present(ms[|ws|], BlockOf(bs, p))
  {
    var i := LastCover(ws, p);
    if i < |ws| {
      CoverTouches(ws[i], bs, p);
      PresentAfter(ms, ws, bs, BlockOf(bs, p));
    }
  }
}
