/** The operations of version_manager.c on one file's chain. */
module VersionManager {
  import opened Common
  import opened BlockModel
  import opened VersionModel
  import opened VersionProofs
  import opened VersionAccounting
  import opened VersionChain
  import opened VersionRetention
  import opened VersionDiff
  import opened BlockMap

  // ------------------------------------------------------------------ retention

  /** The version settings of fs_state_t; all are unsigned 32-bit but the size. */
  datatype Settings = Settings(
    maxVersions: nat, retentionCount: nat, expireDays: nat, retentionDays: nat, retentionSizeMb: nat)

  const WORD := 0x1_0000_0000

  /** The policy a retention pass works with. The age in seconds is computed in 32
      bits and wraps. */
  function PolicyOf(s: Settings): Policy {
    Policy(
      if s.maxVersions != 0 then s.maxVersions else s.retentionCount,
      ExpireDays(s) * 24 * 3600 % WORD,
      s.retentionSizeMb * 1024 * 1024)
  }

  /** What the settings mean: a maximum of 0 stands for the retention count, a non-zero
      byte limit is that many times 2^20 bytes, and 0 is no limit. */
  lemma PolicyMeans(s: Settings)
    ensures s.maxVersions > 0 ==> PolicyOf(s).keep == s.maxVersions
    ensures s.maxVersions == 0 ==> PolicyOf(s).keep == s.retentionCount
    ensures PolicyOf(s).limit == s.retentionSizeMb * 0x10_0000
    ensures PolicyOf(s).limit == 0 <==> s.retentionSizeMb == 0
    ensures s.expireDays > 0 ==> ExpireDays(s) == s.expireDays
    ensures s.expireDays == 0 ==> ExpireDays(s) == s.retentionDays
  {
  }

  function ExpireDays(s: Settings): nat {
    if s.expireDays != 0 then s.expireDays else s.retentionDays
  }

  /** The age limit is the one configured exactly up to 49710 days; beyond, versions
      count as expired too early. */
  lemma ExpiryWraps(s: Settings)
    ensures PolicyOf(s).expire == ExpireDays(s) * 86400 <==> ExpireDays(s) <= 49710
    ensures ExpireDays(s) > 49710 ==> PolicyOf(s).expire < ExpireDays(s) * 86400
  {
    var seconds := ExpireDays(s) * 86400;
    assert seconds < WORD <==> ExpireDays(s) <= 49710;
    assert seconds >= WORD ==> seconds % WORD < WORD <= seconds;
  }

  /** With 49711 days configured and one version to keep, a second version a little
      over a day old is removed. */
  lemma YoungVersionRemoved(c: VersionModel.Chain)
    requires |c| == 2 && NoneImportant(c) && c[0].created == 100000 && c[1].created == 0
    ensures var s := Settings(1, 0, 49711, 0, 0);
            var r := RetainFrom(c, 1, PolicyOf(s), 100000);
            && 100000 - c[1].created < ExpireDays(s) * 86400
            && |r| == 1 && r[0].id == c[0].id
  {
    var p := PolicyOf(Settings(1, 0, 49711, 0, 0));
    assert p == Policy(1, 63104, 0);
    RemoveShape(c, 1);
    var r := Remove(c, 1);
    assert !ShouldRemove(r, 0, p, 100000, Total(r));
    assert RetainFrom(r, 0, p, 100000) == RetainFrom(r, -1, p, 100000) == r;
  }

  ghost predicate Sound(chain: VersionChain.Chain)
    reads chain, chain.nodes
  {
    chain.Valid() && Shaped(chain.Versions())
  }

  ghost function Objects(chain: VersionChain.Chain): set<Node>
    reads chain
  {
    set n | n in chain.nodes
  }

  /** A counter that is lowered once per removal, but not below 0. */
  function LeftOf(n: nat, removed: nat): nat {
    if removed <= n then n - removed else 0
  }

  method SumStored(chain: VersionChain.Chain) returns (total: nat)
    requires chain.Valid()
    ensures total == Total(chain.Versions())
  {
    ghost var c := chain.Versions();
    total := 0;
    var cur := chain.head;
    ghost var j := 0;
    while cur != null
      invariant 0 <= j <= |c| && cur == At(chain.nodes, j)
      invariant total + Total(c[j..]) == Total(c)
      decreases |c| - j
    {
      assert c[j..][1..] == c[j + 1..] && c[j] == chain.nodes[j].View();
      total := total + cur.storedBytes;
      cur := cur.next;
      j := j + 1;
    }
  }

  lemma RemovalKeepsShape(c: VersionModel.Chain, k: nat)
    requires Shaped(c) && k < |c|
    ensures Removable(c, k) && Shaped(Remove(c, k))
    ensures |Remove(c, k)| == |c| - 1
    ensures IdAt(Remove(c, k), 0) == if k == 0 then IdAt(c, 1) else c[0].id
    ensures k > 0 ==> c[k].id != c[0].id
  {
    ShapedIsWellFormed(c);
    ShapedIsWellFormed(Remove(c, k));
    SoundIsRemovable(c, k);
    RemoveWellFormed(c, k);
    RemoveShape(c, k);
  }

  /** Remove one version on behalf of retention or deletion. */
  method RemoveVersion(chain: VersionChain.Chain, cur: Node, ghost k: nat, meta: FileMeta?, ghost pool: set<Node>)
      returns (added: nat)
    requires Objects(chain) <= pool && Sound(chain) && k < |chain.nodes| && chain.nodes[k] == cur
    modifies chain, pool, MetaFrame(meta)`versionCount, MetaFrame(meta)`latestVersionId
    ensures Sound(chain) && Objects(chain) <= pool
    ensures |chain.nodes| == |old(chain.nodes)| - 1
    ensures At(chain.nodes, k - 1) == At(old(chain.nodes), k - 1)
    ensures chain.Versions() == Remove(old(chain.Versions()), k)
    ensures Total(chain.Versions()) == Total(old(chain.Versions())) - old(cur.storedBytes) + added
    ensures old(MetaAgrees(meta, chain.Versions())) ==> MetaAgrees(meta, chain.Versions())
    ensures meta != null ==> meta.versionCount == LeftOf(old(meta.versionCount), 1)
  {
    ghost var c := chain.Versions();
    RemovalKeepsShape(c, k);
    assert c[k] == cur.View();
    var _, a := chain.RemoveNode(cur, k, meta);
    added := a;
  }

  lemma RetainFromStep(c: VersionModel.Chain, k: nat, p: Policy, now: int)
    requires k < |c|
    ensures k <= |Remove(c, k)|
    ensures RetainFrom(c, k, p, now) ==
            RetainFrom(if ShouldRemove(c, k, p, now, Total(c)) then Remove(c, k) else c, k - 1, p, now)
  {
  }

  /** The two tests of the retention loop. */
  method RuleRemoves(chain: VersionChain.Chain, cur: Node, ghost k: nat, p: Policy, now: int, total: nat)
      returns (remove: bool)
    requires chain.Valid() && k < |chain.nodes| && chain.nodes[k] == cur
    ensures remove <==> ShouldRemove(chain.Versions(), k, p, now, total)
    ensures remove <==> !cur.isImportant
                        && (|| (|chain.nodes| > p.keep && now - cur.createTime > p.expire)
                            || (p.limit != 0 && total > p.limit && |chain.nodes| > 1))
  {
    assert chain.Versions()[k] == cur.View();
    if cur.isImportant {
      return false;
    }
    remove := false;
    if chain.count > p.keep && now - cur.createTime > p.expire {
      remove := true;
    }
    if !remove && p.limit != 0 && total > p.limit && chain.count > 1 {
      remove := true;
    }
  }

  /** The removing branch: the running total is lowered, but not below 0, and raised
      by what the removal copied. */
  method RemoveCounted(chain: VersionChain.Chain, cur: Node, ghost k: nat, meta: FileMeta?, total: nat,
                       ghost pool: set<Node>) returns (left: nat)
    requires Objects(chain) <= pool && Sound(chain) && k < |chain.nodes| && chain.nodes[k] == cur
    requires total == Total(chain.Versions())
    modifies chain, pool, MetaFrame(meta)`versionCount, MetaFrame(meta)`latestVersionId
    ensures Sound(chain) && Objects(chain) <= pool && |chain.nodes| == |old(chain.nodes)| - 1
    ensures At(chain.nodes, k - 1) == At(old(chain.nodes), k - 1)
    ensures chain.Versions() == Remove(old(chain.Versions()), k)
    ensures left == Total(chain.Versions())
    ensures old(MetaAgrees(meta, chain.Versions())) ==> MetaAgrees(meta, chain.Versions())
    ensures meta != null ==> meta.versionCount == LeftOf(old(meta.versionCount), 1)
  {
    TotalCovers(chain.Versions(), k);
    assert chain.Versions()[k] == cur.View();
    left := if total > cur.storedBytes then total - cur.storedBytes else 0;
    var added := RemoveVersion(chain, cur, k, meta, pool);
    left := left + added;
  }

  /** The file's count after the removals so far, from `counted` and `first` versions on. */
  ghost predicate Lowered(meta: FileMeta?, counted: nat, first: nat, left: nat)
    reads MetaFrame(meta)
  {
    && left <= first
    && (meta != null ==> meta.versionCount == LeftOf(counted, first - left))
  }

  /** One iteration of the retention loop, at version k. */
  method RetainStep(chain: VersionChain.Chain, cur: Node, ghost k: nat, meta: FileMeta?, p: Policy, now: int,
                    total: nat, ghost pool: set<Node>, ghost counted: nat, ghost first: nat)
      returns (prev: Node?, left: nat)
    requires Objects(chain) <= pool && Sound(chain) && k < |chain.nodes| && chain.nodes[k] == cur
    requires total == Total(chain.Versions()) && Lowered(meta, counted, first, |chain.nodes|)
    modifies chain, pool, MetaFrame(meta)`versionCount, MetaFrame(meta)`latestVersionId
    ensures Sound(chain) && left == Total(chain.Versions())
    ensures k <= |chain.nodes| && Objects(chain) <= pool
    ensures RetainFrom(chain.Versions(), k - 1, p, now) == RetainFrom(old(chain.Versions()), k, p, now)
    ensures prev == At(chain.nodes, k - 1)
    ensures old(MetaAgrees(meta, chain.Versions())) ==> MetaAgrees(meta, chain.Versions())
    ensures Lowered(meta, counted, first, |chain.nodes|)
  {
    RetainFromStep(chain.Versions(), k, p, now);
    prev, left := cur.prev, total;
    var remove := RuleRemoves(chain, cur, k, p, now, total);
    if remove {
      left := RemoveCounted(chain, cur, k, meta, total, pool);
    }
  }

  /** version_apply_retention_locked. */
  method ApplyRetention(chain: VersionChain.Chain, meta: FileMeta?, p: Policy, now: int)
    requires Sound(chain)
    modifies chain, Objects(chain), MetaFrame(meta)`versionCount, MetaFrame(meta)`latestVersionId
    ensures Sound(chain) && Objects(chain) <= old(Objects(chain))
    ensures |chain.nodes| <= |old(chain.nodes)|
    ensures chain.Versions() == Retain(old(chain.Versions()), p, now, meta != null && old(meta.pinned))
    ensures chain.Versions() == old(chain.Versions()) <==>
            (meta != null && old(meta.pinned)) || AllWithinLimits(old(chain.Versions()), p, now)
    ensures old(MetaAgrees(meta, chain.Versions())) ==> MetaAgrees(meta, chain.Versions())
    ensures meta != null ==>
              && meta.versionCount == LeftOf(old(meta.versionCount), |old(chain.nodes)| - |chain.nodes|)
  {
    if meta != null && meta.pinned {
      return;
    }
    var total := SumStored(chain);
    RetainLoop(chain, meta, p, now, total, Objects(chain), if meta != null then meta.versionCount else 0);
  }

  /** The loop from the tail to the head. */
  method RetainLoop(chain: VersionChain.Chain, meta: FileMeta?, p: Policy, now: int, total: nat, ghost pool: set<Node>,
                    ghost counted: nat)
    requires Sound(chain) && Objects(chain) <= pool && total == Total(chain.Versions())
    requires Lowered(meta, counted, |chain.nodes|, |chain.nodes|)
    modifies chain, pool, MetaFrame(meta)`versionCount, MetaFrame(meta)`latestVersionId
    ensures Sound(chain) && Objects(chain) <= pool
    ensures chain.Versions() == RetainFrom(old(chain.Versions()), |old(chain.nodes)| - 1, p, now)
    ensures chain.Versions() == old(chain.Versions()) <==> AllWithinLimits(old(chain.Versions()), p, now)
    ensures old(MetaAgrees(meta, chain.Versions())) ==> MetaAgrees(meta, chain.Versions())
    ensures Lowered(meta, counted, |old(chain.nodes)|, |chain.nodes|)
  {
    ghost var first, was := |chain.nodes|, chain.Versions();
    RetainIdle(was, p, now);
    var left := total;
    var cur := chain.tail;
    ghost var k: int := first - 1;
    while cur != null
      invariant -1 <= k < |chain.nodes| && cur == At(chain.nodes, k)
      invariant Sound(chain) && left == Total(chain.Versions())
      invariant Objects(chain) <= pool && Lowered(meta, counted, first, |chain.nodes|)
      invariant RetainFrom(chain.Versions(), k, p, now) == RetainFrom(was, first - 1, p, now)
      invariant old(MetaAgrees(meta, chain.Versions())) ==> MetaAgrees(meta, chain.Versions())
      decreases k
    {
      cur, left := RetainStep(chain, cur, k, meta, p, now, left, pool, counted, first);
      k := k - 1;
    }
  }

  // ------------------------------------------------------------------- deletion

  /** The search loop shared by deletion and marking. */
  method FindVersion(chain: VersionChain.Chain, id: nat) returns (vn: Node?, ghost k: nat)
    requires chain.Valid()
    ensures k <= |chain.nodes| && vn == At(chain.nodes, k)
    ensures vn != null ==> vn.versionId == id
    ensures forall j | 0 <= j < k :: chain.nodes[j].versionId != id
  {
    vn := chain.head;
    k := 0;
    while vn != null
      invariant 0 <= k <= |chain.nodes| && vn == At(chain.nodes, k)
      invariant forall j | 0 <= j < k :: chain.nodes[j].versionId != id
      decreases |chain.nodes| - k
    {
      if vn.versionId == id {
        return;
      }
      vn := vn.next;
      k := k + 1;
    }
  }

  /** version_manager_delete_version on an existing chain. */
  method DeleteVersion(chain: VersionChain.Chain, id: nat, meta: FileMeta?) returns (rc: int, ghost k: nat)
    requires Sound(chain)
    modifies chain, Objects(chain), MetaFrame(meta)`versionCount, MetaFrame(meta)`latestVersionId
    ensures Sound(chain) && Objects(chain) <= old(Objects(chain))
    ensures var c := old(chain.Versions());
            && k <= |c| && (forall j | 0 <= j < k :: c[j].id != id) && (k < |c| ==> c[k].id == id)
            && rc == (if id == 0 then EINVAL else if k == |c| then ENOENT else if c[k].important then EPERM else 0)
            && chain.Versions() == if rc == 0 then Remove(c, k) else c
    ensures old(MetaAgrees(meta, chain.Versions())) ==> MetaAgrees(meta, chain.Versions())
  {
    var cur, at := FindVersion(chain, id);
    k := at;
    assert forall j | 0 <= j < |chain.nodes| :: chain.Versions()[j] == chain.nodes[j].View();
    if id == 0 {
      return EINVAL, k;
    }
    if cur == null {
      return ENOENT, k;
    }
    if cur.isImportant {
      return EPERM, k;
    }
    var _ := RemoveVersion(chain, cur, k, meta, Objects(chain));
    rc := 0;
  }

  // ------------------------------------------------------------------- creation

  /** The plain content of block i of the map, decompressed if need be. */
  method PlainBlock(file: Map, i: nat) returns (d: Option<Bytes>)
    requires file.Valid() && i < |file.blocks|
    ensures d == file.Contents()[i]
  {
    var b := file.blocks[i];
    if b == null {
      return None;
    }
    assert file.BlockOk(b);
    if b.Compressed() {
      var owned := b.BlockDecompress(file.codec);
      d := Some(owned[..]);
    } else {
      d := Some(b.data[..b.size]);
    }
  }

  /** The checksum an index is compared with: the parent's, or 0. */
  method ParentChecksum(parent: Node?, i: nat, ghost c: VersionModel.Chain) returns (prev: Checksum)
    requires if parent == null then c == [] else c != [] && c[0] == parent.View()
    ensures prev == PrevChecksum(c, i)
  {
    prev := if parent != null && i < |parent.checksums| then parent.checksums[i] else 0;
  }

  /** The new version's arrays once the snapshot loop has done the indices below i. */
  ghost function HeldSoFar(c: VersionModel.Chain, sum: ChecksumFn, m: Content, i: nat): Content
    requires i <= |m|
  {
    NewHeld(c, sum, m)[..i] + seq(|m| - i, _ => None)
  }

  ghost function SumsSoFar(sum: ChecksumFn, m: Content, i: nat): seq<Checksum>
    requires i <= |m|
  {
    NewChecksums(sum, m)[..i] + seq(|m| - i, _ => 0)
  }

  ghost function DiffSoFar(c: VersionModel.Chain, sum: ChecksumFn, m: Content, i: nat): seq<nat>
    requires i <= |m|
  {
    HeldIndices(NewHeld(c, sum, m), i)
  }

  ghost function BytesSoFar(c: VersionModel.Chain, sum: ChecksumFn, m: Content, i: nat): nat
    requires i <= |m|
  {
    HeldBytes(NewHeld(c, sum, m)[..i])
  }

  lemma NextSoFar(c: VersionModel.Chain, sum: ChecksumFn, m: Content, i: nat)
    requires i < |m|
    ensures |HeldSoFar(c, sum, m, i)| == |SumsSoFar(sum, m, i)| == |m|
    ensures SumsSoFar(sum, m, i + 1) == SumsSoFar(sum, m, i)[i := ChecksumOf(sum, m[i])]
    ensures if Stores(c, sum, m, i) then
              && HeldSoFar(c, sum, m, i + 1) == HeldSoFar(c, sum, m, i)[i := m[i]]
              && DiffSoFar(c, sum, m, i + 1) == DiffSoFar(c, sum, m, i) + [i]
              && BytesSoFar(c, sum, m, i + 1) == BytesSoFar(c, sum, m, i) + |m[i].value|
            else
              && HeldSoFar(c, sum, m, i + 1) == HeldSoFar(c, sum, m, i)
              && DiffSoFar(c, sum, m, i + 1) == DiffSoFar(c, sum, m, i)
              && BytesSoFar(c, sum, m, i + 1) == BytesSoFar(c, sum, m, i)
  {
    HeldBytesStep(NewHeld(c, sum, m), i);
  }

  /** How far the snapshot loop has come: everything below i is recorded. */
  ghost predicate Recorded(vn: Node, c: VersionModel.Chain, sum: ChecksumFn, m: Content, i: nat)
    requires i <= |m|
    reads vn
  {
    && vn.snapshots == HeldSoFar(c, sum, m, i)
    && vn.checksums == SumsSoFar(sum, m, i)
    && vn.diffBlocks == DiffSoFar(c, sum, m, i)
    && vn.storedBytes == BytesSoFar(c, sum, m, i)
  }

  /** One iteration of the snapshot loop. */
  method RecordBlock(vn: Node, file: Map, i: nat, sum: ChecksumFn, ghost c: VersionModel.Chain)
    requires file.Valid() && i < |file.blocks| && vn !in file.Repr
    requires vn.parent != vn
    requires if vn.parent == null then c == [] else c != [] && c[0] == vn.parent.View()
    requires Recorded(vn, c, sum, file.Contents(), i)
    modifies vn`snapshots, vn`checksums, vn`diffBlocks, vn`storedBytes
    ensures Recorded(vn, c, sum, file.Contents(), i + 1)
  {
    ghost var m := file.Contents();
    NextSoFar(c, sum, m, i);
    var plain := PlainBlock(file, i);
    var prev := ParentChecksum(vn.parent, i, c);
    StoreBlock(vn, i, plain, prev, sum);
    assert Stores(c, sum, m, i) <==> plain.Some? && (Sum(sum, plain.value) != prev || vn.parent == null);
  }

  /** What an iteration does to the node's arrays. */
  method StoreBlock(vn: Node, i: nat, plain: Option<Bytes>, prev: Checksum, sum: ChecksumFn)
    requires i < |vn.snapshots| == |vn.checksums|
    modifies vn`snapshots, vn`checksums, vn`diffBlocks, vn`storedBytes
    ensures vn.checksums == old(vn.checksums)[i := ChecksumOf(sum, plain)]
    ensures if plain.Some? && (Sum(sum, plain.value) != prev || vn.parent == null) then
              && vn.snapshots == old(vn.snapshots)[i := plain]
              && vn.diffBlocks == old(vn.diffBlocks) + [i]
              && vn.storedBytes == old(vn.storedBytes) + |plain.value|
            else
              && vn.snapshots == old(vn.snapshots)
              && vn.diffBlocks == old(vn.diffBlocks)
              && vn.storedBytes == old(vn.storedBytes)
  {
    var cur: Checksum := 0;
    if plain.Some? {
      cur := Sum(sum, plain.value);
      if cur != prev || vn.parent == null {
        vn.snapshots := vn.snapshots[i := plain];
        vn.storedBytes := vn.storedBytes + |plain.value|;
        vn.diffBlocks := vn.diffBlocks + [i];
      }
    }
    vn.checksums := vn.checksums[i := cur];
  }

  lemma RecordedAll(vn: Node, c: VersionModel.Chain, sum: ChecksumFn, m: Content)
    requires Recorded(vn, c, sum, m, |m|)
    ensures vn.snapshots == NewHeld(c, sum, m) && vn.checksums == NewChecksums(sum, m)
    ensures vn.diffBlocks == HeldIndices(NewHeld(c, sum, m), |m|)
    ensures vn.storedBytes == HeldBytes(NewHeld(c, sum, m))
  {
    var held, sums := NewHeld(c, sum, m), NewChecksums(sum, m);
    assert held[..|m|] == held && sums[..|m|] == sums;
  }

  /** The snapshot loop. */
  method FillSnapshot(vn: Node, file: Map, sum: ChecksumFn, ghost c: VersionModel.Chain)
    requires file.Valid() && vn !in file.Repr && vn.parent != vn
    requires if vn.parent == null then c == [] else c != [] && c[0] == vn.parent.View()
    requires Recorded(vn, c, sum, file.Contents(), 0)
    modifies vn`snapshots, vn`checksums, vn`diffBlocks, vn`storedBytes
    ensures Recorded(vn, c, sum, file.Contents(), |file.blocks|)
  {
    var i := 0;
    while i < |file.blocks|
      invariant 0 <= i <= |file.blocks|
      invariant Recorded(vn, c, sum, file.Contents(), i)
    {
      RecordBlock(vn, file, i, sum, c);
      i := i + 1;
    }
    RecordedAll(vn, c, sum, file.Contents());
  }

  /** Build the new version: everything of version_manager_create_version before the
      list insertion. */
  method TakeSnapshot(head: Node?, file: Map, meta: FileMeta, sum: ChecksumFn, now: int, ghost c: VersionModel.Chain)
      returns (vn: Node)
    requires file.Valid()
    requires if head == null then c == [] else c != [] && c[0] == head.View()
    ensures fresh(vn) && vn.parent == head
    ensures vn.View() == NewVersion(c, sum, file.Contents(), meta.size, meta.blocks, now)
    ensures vn.versionId == (if c == [] then 1 else c[0].id + 1) && vn.parentId == (if c == [] then 0 else c[0].id)
    ensures vn.createTime == now && !vn.isImportant && vn.fileSize == meta.size && vn.blocks == meta.blocks
  {
    vn := new Node(if head != null then head.versionId + 1 else 1, head,
                   if head != null then head.versionId else 0,
                   now, meta.size, meta.blocks, |file.blocks|);
    FillSnapshot(vn, file, sum, c);
    RecordedAll(vn, c, sum, file.Contents());
  }

  lemma CreationKeepsShape(c: VersionModel.Chain, sum: ChecksumFn, m: Content, size: nat, blocks: nat, now: int)
    requires Shaped(c) && Covers(m, c) && NonEmptyBlocks(m)
    ensures Shaped(Create(c, sum, m, size, blocks, now))
  {
  }

  /** Record the file in a new version at the head of the chain. */
  method InsertVersion(chain: VersionChain.Chain, file: Map, meta: FileMeta, sum: ChecksumFn, now: int)
      returns (vn: Node)
    requires Sound(chain) && file.Valid() && Covers(file.Contents(), chain.Versions())
    modifies chain, Objects(chain)
    ensures Sound(chain) && fresh(vn) && chain.nodes == [vn] + old(chain.nodes)
    ensures chain.Versions() ==
            Create(old(chain.Versions()), sum, old(file.Contents()), old(meta.size), old(meta.blocks), now)
    ensures vn.versionId == NextId(old(chain.Versions())) && vn.createTime == now
  {
    ghost var c := chain.Versions();
    assert chain.head != null ==> c[0] == chain.head.View();
    vn := TakeSnapshot(chain.head, file, meta, sum, now, c);
    CreationKeepsShape(c, sum, file.Contents(), meta.size, meta.blocks, now);
    chain.Push(vn);
    assert chain.Versions()[0] == vn.View();
  }

  /** Insertion and the retention pass that follows it. */
  method InsertAndRetain(chain: VersionChain.Chain, file: Map, meta: FileMeta, sum: ChecksumFn, p: Policy,
                         now: int, later: int) returns (id: nat)
    requires Sound(chain) && file.Valid() && Covers(file.Contents(), chain.Versions())
    modifies chain, Objects(chain), meta`versionCount, meta`latestVersionId, meta`lastVersionTime
    ensures Sound(chain)
    ensures chain.Versions() ==
            Retain(Create(old(chain.Versions()), sum, old(file.Contents()), old(meta.size), old(meta.blocks), now),
                   p, later, old(meta.pinned))
    ensures |chain.nodes| <= |old(chain.nodes)| + 1 && fresh(Objects(chain) - old(Objects(chain)))
    ensures meta.versionCount == LeftOf(old(meta.versionCount), |old(chain.nodes)| + 1 - |chain.nodes|)
    ensures id == NextId(old(chain.Versions()))
  {
    var vn := InsertVersion(chain, file, meta, sum, now);
    id := vn.versionId;
    ApplyRetention(chain, meta, p, later);
  }

  lemma NotEmptied(c: VersionModel.Chain, p: Policy, later: int, pinned: bool)
    requires c != [] && p.keep >= 1
    ensures Retain(c, p, later, pinned) != []
  {
    RetainNonEmpty(c, |c| - 1, p, later);
  }

  /** version_manager_create_version. The clock is read once for the version (`now`)
      and once more for the retention pass (`later`). */
  method CreateVersion(chain: VersionChain.Chain, file: Map, meta: FileMeta, sum: ChecksumFn, p: Policy,
                       now: int, later: int)
    requires Sound(chain) && file.Valid() && Covers(file.Contents(), chain.Versions())
    modifies chain, Objects(chain), meta`versionCount, meta`latestVersionId, meta`lastVersionTime
    ensures Sound(chain)
    ensures chain.Versions() ==
            Retain(Create(old(chain.Versions()), sum, old(file.Contents()), old(meta.size), old(meta.blocks), now),
                   p, later, old(meta.pinned))
    ensures |chain.nodes| <= |old(chain.nodes)| + 1 && fresh(Objects(chain) - old(Objects(chain)))
    ensures meta.versionCount == LeftOf(old(meta.versionCount), |old(chain.nodes)| + 1 - |chain.nodes|) + 1
    ensures var c := old(chain.Versions());
            meta.latestVersionId == (if c == [] then 1 else c[0].id + 1) && meta.lastVersionTime == now
    ensures p.keep >= 1 && old(meta.versionCount) == |old(chain.nodes)| ==> meta.versionCount == |chain.nodes|
  {
    ghost var d := Create(chain.Versions(), sum, file.Contents(), meta.size, meta.blocks, now);
    if p.keep >= 1 {
      NotEmptied(d, p, later, meta.pinned);
    }
    var id := InsertAndRetain(chain, file, meta, sum, p, now, later);
    NoteVersion(meta, id, now);
  }

  /** The file's counters after a new version. */
  method NoteVersion(meta: FileMeta, id: nat, now: int)
    modifies meta`versionCount, meta`latestVersionId, meta`lastVersionTime
    ensures meta.versionCount == old(meta.versionCount) + 1
    ensures meta.latestVersionId == id && meta.lastVersionTime == now
  {
    meta.versionCount := meta.versionCount + 1;
    meta.latestVersionId := id;
    meta.lastVersionTime := now;
  }

  /** The counting loop of version_manager_maybe_change_snapshot. */
  method CountChanged(head: Node, file: Map, sum: ChecksumFn, ghost c: VersionModel.Chain) returns (changed: nat)
    requires file.Valid() && c != [] && c[0] == head.View()
    ensures changed == ChangedBlocks(c, sum, file.Contents(), |file.blocks|)
  {
    changed := 0;
    var i := 0;
    while i < |file.blocks|
      invariant 0 <= i <= |file.blocks|
      invariant changed == ChangedBlocks(c, sum, file.Contents(), i)
    {
      var plain := PlainBlock(file, i);
      var cur: Checksum := 0;
      if plain.Some? {
        cur := Sum(sum, plain.value);
      }
      var prev: Checksum := if i < |head.checksums| then head.checksums[i] else 0;
      if cur != prev {
        changed := changed + 1;
      }
      i := i + 1;
    }
  }

  /** The decision of version_manager_maybe_change_snapshot. */
  method RuleDecides(chain: VersionChain.Chain, file: Map, sum: ChecksumFn) returns (fires: bool)
    requires chain.Valid() && file.Valid()
    ensures var c, m := chain.Versions(), file.Contents();
            fires <==> c != [] && m != [] && RuleFires(ChangedBlocks(c, sum, m, |m|), |m|)
  {
    var head := chain.head;
    if head == null {
      return false;
    }
    var n := |file.blocks|;
    if n == 0 {
      return false;
    }
    assert chain.Versions()[0] == head.View();
    var changed := CountChanged(head, file, sum, chain.Versions());
    fires := changed as real / n as real > 0.1;
    RuleIsTenth(changed, n);
  }

  /** version_manager_maybe_change_snapshot: a version is created exactly when there
      is history, the map is not empty, and more than a tenth of its blocks changed;
      the count that decided is then the new version's difference count. */
  method MaybeChangeSnapshot(chain: VersionChain.Chain, file: Map, meta: FileMeta, sum: ChecksumFn, p: Policy,
                             now: int, later: int) returns (created: bool)
    requires Sound(chain) && file.Valid() && Covers(file.Contents(), chain.Versions())
    requires Coherent(chain.Versions(), sum)
    modifies chain, Objects(chain), meta`versionCount, meta`latestVersionId, meta`lastVersionTime
    ensures Sound(chain) && fresh(Objects(chain) - old(Objects(chain)))
    ensures var c, m := old(chain.Versions()), old(file.Contents());
            var v := NewVersion(c, sum, m, old(meta.size), old(meta.blocks), now);
            && (created <==> c != [] && m != [] && |v.diff| as real / |m| as real > 0.1)
            && chain.Versions() == if created then Retain([v] + c, p, later, old(meta.pinned)) else c
    ensures !created ==> unchanged(meta)
  {
    ShapedIsWellFormed(chain.Versions());
    RuleCount(chain.Versions(), sum, file.Contents(), meta.size, meta.blocks, now);
    created := RuleDecides(chain, file, sum);
    if created {
      CreateVersion(chain, file, meta, sum, p, now, later);
    }
  }

  // -------------------------------------------------------------------- marking

  /** version_manager_mark_important. */
  method MarkImportant(chain: VersionChain.Chain, id: nat, b: bool) returns (rc: int, ghost k: nat)
    requires chain.Valid()
    modifies Objects(chain)
    ensures chain.Valid() && chain.nodes == old(chain.nodes)
    ensures var c := old(chain.Versions());
            && k <= |c| && (forall j | 0 <= j < k :: c[j].id != id) && (k < |c| ==> c[k].id == id)
            && rc == (if k == |c| then ENOENT else 0)
            && chain.Versions() == (if k < |c| then MarkAt(c, k, b) else c)
            && |chain.Versions()| == |c|
            && (forall j | 0 <= j < |c| :: chain.Versions()[j] == if j == k then c[j].(important := b) else c[j])
  {
    var vn, at := FindVersion(chain, id);
    k := at;
    assert forall j | 0 <= j < |chain.nodes| :: chain.Versions()[j] == chain.nodes[j].View();
    if vn == null {
      return ENOENT, k;
    }
    rc := 0;
    SetImportant(chain, vn, k, b);
  }

  method SetImportant(chain: VersionChain.Chain, vn: Node, ghost k: nat, b: bool)
    requires chain.Valid() && k < |chain.nodes| && chain.nodes[k] == vn
    modifies vn`isImportant
    ensures chain.Valid() && chain.Versions() == MarkAt(old(chain.Versions()), k, b)
  {
    vn.isImportant := b;
    ghost var ns, was := chain.nodes, old(chain.Versions());
    forall j | 0 <= j < |ns| ensures Views(ns)[j] == MarkAt(was, k, b)[j] {
      assert was[j] == old(ns[j].View());
    }
  }
}
