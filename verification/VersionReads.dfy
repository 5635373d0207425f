/** Reading, finding and comparing versions (the read-only operations of
    version_manager.c). */
module VersionReads {
  import opened Common
  import opened BlockModel
  import opened VersionModel
  import opened VersionProofs
  import opened VersionChain
  import opened VersionDiff
  import opened WriteSteps
  import FlatFile

  // -------------------------------------------------------------------- reading

  /** m bytes of a block of any length, padded with zeros. */
  function Padded(b: Option<Bytes>, o: nat, m: nat): (r: Bytes)
    ensures |r| == m
  {
    seq(m, j requires 0 <= j => if b.Some? && o + j < |b.value| then b.value[o + j] else 0)
  }

  lemma FlatIsPadded(img: Content, bs: nat, p: nat, m: nat)
    requires bs > 0 && OffsetIn(bs, p) + m <= bs
    ensures Flat(img, bs, p, m) ==
            Padded(if BlockOf(bs, p) < |img| then img[BlockOf(bs, p)] else None, OffsetIn(bs, p), m)
  {
    var b := if BlockOf(bs, p) < |img| then img[BlockOf(bs, p)] else None;
    forall j: nat | j < m ensures Flat(img, bs, p, m)[j] == Padded(b, OffsetIn(bs, p), m)[j] {
      WithinBlock(bs, p, j);
      assert Flat(img, bs, p, m)[j] == ByteAt(img, bs, p + j);
    }
  }

  lemma FlatJoin(img: Content, bs: nat, off: nat, n: nat, m: nat)
    requires bs > 0
    ensures Flat(img, bs, off, n + m) == Flat(img, bs, off, n) + Flat(img, bs, off + n, m)
  {
  }

  /** memcpy from a block. */
  method Copy(buf: array<Byte>, at: nat, n: nat, src: Bytes, o: nat)
    requires at + n <= buf.Length && o + n <= |src|
    modifies buf
    ensures buf[at..at + n] == src[o..o + n]
    ensures buf[..at] == old(buf[..at]) && buf[at + n..] == old(buf[at + n..])
  {
    forall j | at <= j < at + n {
      buf[j] := src[o + (j - at)];
    }
  }

  /** Copy one block's part of the read into the buffer, with zeros where there is no
      block or it is too short. */
  method FillChunk(buf: array<Byte>, at: nat, m: nat, blk: Option<Bytes>, o: nat)
    requires at + m <= buf.Length
    modifies buf
    ensures buf[at..at + m] == Padded(blk, o, m)
    ensures buf[..at] == old(buf[..at]) && buf[at + m..] == old(buf[at + m..])
  {
    if blk.None? || o >= |blk.value| {
      BlockMap.Clear(buf, at, m);
    } else {
      var copyLen := m;
      if o + copyLen > |blk.value| {
        copyLen := |blk.value| - o;
      }
      Copy(buf, at, copyLen, blk.value, o);
      ghost var copied := buf[..];
      BlockMap.Clear(buf, at + copyLen, m - copyLen);
      assert buf[..at + copyLen] == copied[..at + copyLen];
      assert buf[at..at + copyLen] == buf[..at + copyLen][at..];
      assert buf[at..at + m] == buf[at..at + copyLen] + buf[at + copyLen..at + m];
      assert buf[..at] == buf[..at + copyLen][..at];
      assert copied[at + m..] == copied[at + copyLen..][m - copyLen..];
    }
  }

  /** The block a version shows at index k, if any. */
  method LookupBlock(chain: VersionChain.Chain, vn: Node, ghost i: nat, k: nat) returns (blk: Option<Bytes>)
    requires chain.Valid() && i < |chain.nodes| && chain.nodes[i] == vn
    ensures var img := Image(chain.Versions(), i);
            blk == if k < |img| then img[k] else None
  {
    assert chain.Versions()[i] == vn.View();
    blk := None;
    if k < |vn.snapshots| {
      PathFrom(chain.nodes, i);
      ResolveFrom(chain.Versions(), i, k);
      blk := SnapshotGetBlockData(vn, k, chain.nodes[i..]);
    }
  }

  /** One iteration of the read loop of version_manager_read_version_data. */
  method ReadNext(chain: VersionChain.Chain, vn: Node, ghost i: nat, bs: nat, buf: array<Byte>, offset: nat,
                  done: nat, size: nat) returns (m: nat)
    requires chain.Valid() && i < |chain.nodes| && chain.nodes[i] == vn && bs > 0
    requires done < size <= buf.Length
    requires buf[..done] == Flat(Image(chain.Versions(), i), bs, offset, done)
    modifies buf
    ensures 0 < m && done + m <= size
    ensures buf[..done + m] == Flat(Image(chain.Versions(), i), bs, offset, done + m)
    ensures buf[size..] == old(buf[size..])
  {
    ghost var img := Image(chain.Versions(), i);
    var current := offset + done;
    var blockIndex, blockOffset := current / bs, current % bs;
    assert blockIndex == BlockOf(bs, current) && blockOffset == OffsetIn(bs, current);
    m := Min(bs - blockOffset, size - done);
    var blk := LookupBlock(chain, vn, i, blockIndex);
    FlatIsPadded(img, bs, current, m);
    FlatJoin(img, bs, offset, done, m);
    FillChunk(buf, done, m, blk, blockOffset);
    Pieces(buf[..], done, done + m, size);
    Pieces(old(buf[..]), done, done + m, size);
  }

  lemma Pieces<T>(s: seq<T>, a: nat, b: nat, c: nat)
    requires a <= b <= c <= |s|
    ensures s[..b] == s[..a] + s[a..b] && s[c..] == s[b..][c - b..]
  {
  }

  lemma PathFrom(ns: seq<Node>, i: nat)
    requires i < |ns| && ParentPath(ns)
    ensures ParentPath(ns[i..]) && Views(ns[i..]) == Views(ns)[i..]
  {
  }

  lemma ResolveFrom(c: VersionModel.Chain, i: nat, k: nat)
    requires i < |c|
    ensures Resolve(c[i..], 0, k) == Resolve(c, i, k)
  {
    assert c[i..][0..] == c[i..];
    ResolveShift(c[i..], 0, c, i, k);
  }

  /** version_manager_read_version_data: the version's image from `offset` on, cut to
      the size recorded; nothing else of the buffer changes. */
  method ReadVersionData(chain: VersionChain.Chain, vn: Node, ghost i: nat, bs: nat, buf: array<Byte>, len: nat,
                         offset: int) returns (r: nat)
    requires chain.Valid() && i < |chain.nodes| && chain.nodes[i] == vn && bs > 0
    requires len <= buf.Length
    modifies buf
    ensures r == if offset < 0 || offset >= vn.fileSize then 0 else Min(len, vn.fileSize - offset)
    ensures offset >= 0 ==> buf[..r] == ReadVersion(chain.Versions(), i, bs, offset, len)
    ensures r > 0 ==> FlatFile.BytesFrom(buf[..r], Image(chain.Versions(), i), bs, offset)
    ensures buf[r..] == old(buf[r..])
  {
    assert chain.Versions()[i] == vn.View();
    if offset >= 0 {
      FlatFile.ReadExact(Image(chain.Versions(), i), bs, vn.fileSize, offset, len);
    }
    if offset < 0 || offset >= vn.fileSize {
      return 0;
    }
    var size := Min(len, vn.fileSize - offset);
    r := 0;
    while r < size
      invariant 0 <= r <= size
      invariant buf[..r] == Flat(Image(chain.Versions(), i), bs, offset, r)
      invariant buf[size..] == old(buf[size..])
    {
      var m := ReadNext(chain, vn, i, bs, buf, offset, r, size);
      r := r + m;
    }
  }

  // ---------------------------------------------------------------- comparison

  /** version_manager_diff: the counts it prints, or None when a version is missing. */
  method DiffVersions(chain: VersionChain.Chain, v1: nat, v2: nat) returns (d: Option<(nat, nat)>)
    requires chain.Valid() && IdsFall(chain.Versions())
    ensures var c := chain.Versions();
            && (d.None? <==> (forall i | 0 <= i < |c| :: c[i].id != v1) || (forall i | 0 <= i < |c| :: c[i].id != v2))
            && forall i, j | 0 <= i < |c| && 0 <= j < |c| && c[i].id == v1 && c[j].id == v2 ::
                 var n := Max(|c[i].checksums|, |c[j].checksums|);
                 d == Some((|set k: nat | k < n && ChecksumAt(c[i], k) != ChecksumAt(c[j], k)|, n))
  {
    ghost var c := chain.Versions();
    var a: Node?, b: Node? := null, null;
    ghost var ia, ib := 0, 0;
    var vn := chain.head;
    ghost var n := 0;
    while vn != null
      invariant 0 <= n <= |c| && vn == At(chain.nodes, n)
      invariant if a == null then forall i | 0 <= i < n :: c[i].id != v1
                else ia < n && a == chain.nodes[ia] && c[ia].id == v1
      invariant if b == null then forall i | 0 <= i < n :: c[i].id != v2
                else ib < n && b == chain.nodes[ib] && c[ib].id == v2
      decreases |c| - n
    {
      assert c[n] == vn.View();
      if vn.versionId == v1 { a := vn; ia := n; }
      if vn.versionId == v2 { b := vn; ib := n; }
      vn := vn.next;
      n := n + 1;
    }
    if a == null || b == null {
      return None;
    }
    assert c[ia] == a.View() && c[ib] == b.View();
    var maxb := if |a.checksums| > |b.checksums| then |a.checksums| else |b.checksums|;
    var diffcnt := 0;
    var i := 0;
    while i < maxb
      invariant 0 <= i <= maxb
      invariant diffcnt == DiffBelow(c[ia], c[ib], i)
    {
      var ca: Checksum := if i < |a.checksums| then a.checksums[i] else 0;
      var cb: Checksum := if i < |b.checksums| then b.checksums[i] else 0;
      if ca != cb {
        diffcnt := diffcnt + 1;
      }
      i := i + 1;
    }
    DiffCounts(c[ia], c[ib]);
    d := Some((diffcnt, maxb));
  }

  // ------------------------------------------------------------------- finding

  /** Version k is a newest one not later than `limit`, and the newest id among those. */
  predicate BestByTime(c: VersionModel.Chain, k: nat, limit: int) {
    && k < |c| && c[k].created <= limit
    && (forall j | 0 <= j < |c| && c[j].created <= limit :: c[j].created <= c[k].created)
    && (forall j | 0 <= j < k && c[j].created <= limit :: c[j].created < c[k].created)
  }

  /** The selection in version_manager_get_version_meta: by id when one is wanted,
      else the latest version not after `time`; 0 stands for "not given". */
  method SelectVersion(chain: VersionChain.Chain, want: nat, time: int) returns (vn: Node?, ghost k: nat)
    requires chain.Valid() && (want == 0 || time == 0)
    ensures k <= |chain.nodes| && vn == At(chain.nodes, k)
    ensures var c := chain.Versions();
            && (want != 0 ==>
                  if vn != null then c[k].id == want else forall j | 0 <= j < |c| :: c[j].id != want)
            && (want == 0 && time != 0 ==>
                  if vn != null then BestByTime(c, k, time) else forall j | 0 <= j < |c| :: c[j].created > time)
            && (want == 0 && time == 0 ==> vn == null)
  {
    ghost var c := chain.Versions();
    vn := chain.head;
    var best: Node? := null;
    ghost var n, b := 0, 0;
    while vn != null
      invariant 0 <= n <= |c| && vn == At(chain.nodes, n)
      invariant want != 0 ==> best == null && forall j | 0 <= j < n :: c[j].id != want
      invariant time == 0 ==> best == null
      invariant time != 0 ==>
                  if best == null then forall j | 0 <= j < n :: c[j].created > time
                  else
                    && b < n && best == chain.nodes[b] && c[b].created <= time
                    && (forall j | 0 <= j < n && c[j].created <= time :: c[j].created <= c[b].created)
                    && (forall j | 0 <= j < b && c[j].created <= time :: c[j].created < c[b].created)
      decreases |c| - n
    {
      assert c[n] == vn.View();
      if want != 0 && vn.versionId == want {
        break;
      }
      if time != 0 && vn.createTime <= time {
        assert best != null ==> c[b] == best.View();
        if best == null || vn.createTime > best.createTime {
          best := vn;
          b := n;
        }
      }
      vn := vn.next;
      n := n + 1;
    }
    k := n;
    if vn == null && best != null {
      vn := best;
      k := b;
    }
  }
}
