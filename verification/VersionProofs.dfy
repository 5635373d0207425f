/** What deletion and creation keep: the images of all other versions, the
    recorded checksums, and the shape of the chain. */
module VersionProofs {
  import opened Common
  import opened BlockModel
  import opened VersionModel

  // ------------------------------------------------------------ resolving blocks

  /** Nothing resolves past a version's own block count. */
  lemma {:induction false} ResolveBeyond(c: Chain, i: nat, k: nat)
    requires CountsFall(c) && i < |c| && k >= |c[i].held|
    ensures Resolve(c, i, k) == None
    decreases |c| - i
  {
    if i + 1 < |c| {
      ResolveBeyond(c, i + 1, k);
    }
  }

  /** What resolves is non-empty and is held by version i or an older one. */
  lemma {:induction false} ResolveHolder(c: Chain, i: nat, k: nat) returns (j: nat)
    requires NodesOk(c) && CountsFall(c) && i < |c| && Resolve(c, i, k).Some?
    ensures i <= j < |c| && k < |c[j].held| && c[j].held[k] == Resolve(c, i, k)
    ensures Resolve(c, i, k).value != []
    ensures forall m | i <= m < j :: k < |c[m].held| && c[m].held[k].None?
    decreases |c| - i
  {
    if k < |c[i].held| && c[i].held[k].Some? {
      j := i;
    } else {
      j := ResolveHolder(c, i + 1, k);
    }
  }

  /** Resolving skips the versions that do not hold the block. */
  lemma {:induction false} ResolveSkips(c: Chain, i: nat, j: nat, k: nat)
    requires i <= j < |c|
    requires forall m | i <= m < j :: !(k < |c[m].held| && c[m].held[k].Some?)
    ensures Resolve(c, i, k) == Resolve(c, j, k)
    decreases j - i
  {
    if i < j {
      ResolveSkips(c, i + 1, j, k);
    }
  }

  /** Resolving depends only on the versions from the given one on. */
  lemma {:induction false} ResolveShift(c: Chain, i: nat, d: Chain, j: nat, k: nat)
    requires i <= |c| && j <= |d| && c[i..] == d[j..]
    ensures Resolve(c, i, k) == Resolve(d, j, k)
    decreases |c| - i
  {
    assert |c| - i == |d| - j;
    if i < |c| {
      assert c[i] == c[i..][0] == d[j..][0] == d[j];
      assert c[i + 1..] == c[i..][1..] == d[j..][1..] == d[j + 1..];
      ResolveShift(c, i + 1, d, j + 1, k);
    }
  }

  // ------------------------------------------------------------------- deletion

  /** Where version j of c is found after version i is removed. */
  function After(i: nat, j: nat): nat
    requires i != j
  {
    if j < i then j else j - 1
  }

  lemma RemoveShape(c: Chain, i: nat)
    requires i < |c|
    ensures |Remove(c, i)| == |c| - 1
    ensures forall j | 0 <= j < |c| - 1 ::
              Remove(c, i)[j] == if j >= i then c[j + 1] else if j == i - 1 then Absorb(c, i) else c[j]
    ensures Remove(c, i)[i..] == c[i + 1..]
  {
  }

  lemma RemoveKeepsOlder(c: Chain, i: nat, j: nat, k: nat)
    requires i < j <= |c|
    ensures Resolve(Remove(c, i), j - 1, k) == Resolve(c, j, k)
  {
    RemoveShape(c, i);
    assert Remove(c, i)[j - 1..] == Remove(c, i)[i..][j - 1 - i..] == c[i + 1..][j - 1 - i..] == c[j..];
    ResolveShift(Remove(c, i), j - 1, c, j, k);
  }

  /** The child finds in its own copies what it used to find through version i. */
  lemma RemoveKeepsChild(c: Chain, i: nat, k: nat)
    requires CountsFall(c) && 0 < i < |c|
    ensures Resolve(Remove(c, i), i - 1, k) == Resolve(c, i - 1, k)
  {
    RemoveShape(c, i);
    RemoveKeepsOlder(c, i, i + 1, k);
    if k >= |c[i - 1].held| {
      ResolveBeyond(c, i - 1, k);
      ResolveBeyond(c, i, k);
    }
  }

  lemma {:induction false} RemoveKeepsNewer(c: Chain, i: nat, j: nat, k: nat)
    requires CountsFall(c) && j < i < |c|
    ensures Resolve(Remove(c, i), j, k) == Resolve(c, j, k)
    decreases i - j
  {
    if j == i - 1 {
      RemoveKeepsChild(c, i, k);
    } else {
      RemoveKeepsNewer(c, i, j + 1, k);
      RemoveShape(c, i);
      assert Remove(c, i)[j] == c[j];
    }
  }

  /** Every version but the removed one resolves every block as before. */
  lemma RemoveKeepsResolve(c: Chain, i: nat, j: nat, k: nat)
    requires CountsFall(c) && i < |c| && j < |c| && j != i
    ensures Resolve(Remove(c, i), After(i, j), k) == Resolve(c, j, k)
  {
    if j > i {
      RemoveKeepsOlder(c, i, j, k);
    } else {
      RemoveKeepsNewer(c, i, j, k);
    }
  }

  /** What callers can learn about one version. */
  datatype Face = Face(
    id: nat, created: int, important: bool, fileSize: nat, blocks: nat,
    checksums: seq<Checksum>, image: Content)

  function Shown(c: Chain, i: nat): Face
    requires i < |c|
  {
    var v := c[i];
    Face(v.id, v.created, v.important, v.fileSize, v.blocks, v.checksums, Image(c, i))
  }

  /** Version i of c and version j of d are the same to every caller. */
  predicate SameVersion(c: Chain, i: nat, d: Chain, j: nat) {
    i < |c| && j < |d| && Shown(c, i) == Shown(d, j)
  }

  /** Deleting version i leaves every other version's id, size, flags, recorded
      checksums and whole image unchanged. */
  lemma RemoveKeepsOthers(c: Chain, i: nat, j: nat)
    requires CountsFall(c) && i < |c| && j < |c| && j != i
    ensures SameVersion(c, j, Remove(c, i), After(i, j))
  {
    RemoveShape(c, i);
    var r, o := Remove(c, i), After(i, j);
    assert |r[o].held| == |c[j].held|;
    forall k: nat | k < |c[j].held| ensures Image(c, j)[k] == Image(r, o)[k] {
      RemoveKeepsResolve(c, i, j, k);
    }
    assert Image(c, j) == Image(r, o);
  }

  /** The child that took over the inherited blocks is still a sound version. */
  lemma AbsorbOk(c: Chain, i: nat)
    requires NodesOk(c) && CountsFall(c) && 0 < i < |c|
    ensures NodeOk(Absorb(c, i))
  {
    var child, a := c[i - 1], Absorb(c, i);
    assert NodeOk(child);
    forall k | 0 <= k < |a.held| ensures a.held[k].Some? ==> a.held[k].value != [] {
      if child.held[k].None? && Resolve(c, i, k).Some? {
        var _ := ResolveHolder(c, i, k);
      }
    }
  }

  lemma RemoveNodesOk(c: Chain, i: nat)
    requires NodesOk(c) && CountsFall(c) && i < |c|
    ensures NodesOk(Remove(c, i))
  {
    RemoveShape(c, i);
    if i > 0 { AbsorbOk(c, i); }
  }

  lemma RemoveKeepsCounts(c: Chain, i: nat)
    requires CountsFall(c) && i < |c|
    ensures CountsFall(Remove(c, i))
  {
  }

  lemma RemoveKeepsIds(c: Chain, i: nat)
    requires IdsFall(c) && i < |c|
    ensures IdsFall(Remove(c, i))
  {
  }

  lemma RemoveParentsNamed(c: Chain, i: nat)
    requires ParentsNamed(c) && i < |c|
    ensures ParentsNamed(Remove(c, i))
  {
  }

  /** Deletion keeps the chain well formed. */
  lemma RemoveWellFormed(c: Chain, i: nat)
    requires WellFormed(c) && i < |c|
    ensures WellFormed(Remove(c, i))
  {
    RemoveNodesOk(c, i);
    RemoveKeepsIds(c, i);
    RemoveKeepsCounts(c, i);
    RemoveParentsNamed(c, i);
  }

  /** Deletion keeps recorded checksums and resolved blocks in agreement. */
  lemma RemoveCoherent(c: Chain, i: nat, sum: ChecksumFn)
    requires CountsFall(c) && Coherent(c, sum) && i < |c|
    ensures Coherent(Remove(c, i), sum)
  {
    RemoveShape(c, i);
    var r := Remove(c, i);
    forall j, k | 0 <= j < |r| && 0 <= k < |r[j].checksums|
      ensures r[j].checksums[k] == ChecksumOf(sum, Resolve(r, j, k))
    {
      var o := if j < i then j else j + 1;
      assert After(i, o) == j && r[j].checksums == c[o].checksums;
      RemoveKeepsResolve(c, i, o, k);
    }
  }

  // ------------------------------------------------------------------- creation

  /** The live map covers whatever the newest version shows. */
  predicate Covers(m: Content, c: Chain) {
    c != [] ==>
      && |c[0].held| <= |m|
      && forall k: nat | k < |c[0].held| :: Resolve(c, 0, k).Some? ==> m[k].Some?
  }

  predicate NonEmptyBlocks(m: Content) {
    forall k | 0 <= k < |m| :: m[k].Some? ==> m[k].value != []
  }

  /** Block k of the live map changed since the newest version, but its
      checksum did not. */
  predicate Clash(c: Chain, sum: ChecksumFn, m: Content, k: nat) {
    && c != []
    && k < |m| && m[k].Some?
    && Sum(sum, m[k].value) == PrevChecksum(c, k)
    && Resolve(c, 0, k) != m[k]
  }

  ghost predicate SomeClash(c: Chain, sum: ChecksumFn, m: Content) {
    exists k: nat :: Clash(c, sum, m, k)
  }

  lemma CreateResolveOld(c: Chain, v: Version, i: nat, k: nat)
    ensures Resolve([v] + c, i + 1, k) == Resolve(c, i, k)
  {
    if i <= |c| {
      assert ([v] + c)[i + 1..] == c[i..];
      ResolveShift([v] + c, i + 1, c, i, k);
    }
  }

  /** Creation leaves every older version as it was. */
  lemma CreateKeepsOld(c: Chain, v: Version, i: nat)
    requires i < |c|
    ensures SameVersion(c, i, [v] + c, i + 1)
  {
    forall k: nat {
      CreateResolveOld(c, v, i, k);
    }
    assert Image(c, i) == Image([v] + c, i + 1);
  }

  /** Block by block: the new version shows the live block unless the checksum
      failed to notice a change. */
  lemma NewResolve(c: Chain, sum: ChecksumFn, m: Content, size: nat, blocks: nat, now: int, k: nat)
    requires WellFormed(c) && Covers(m, c) && k < |m|
    ensures Resolve(Create(c, sum, m, size, blocks, now), 0, k) ==
            if Clash(c, sum, m, k) then Resolve(c, 0, k) else m[k]
  {
    var v := NewVersion(c, sum, m, size, blocks, now);
    CreateResolveOld(c, v, 0, k);
    if m[k].None? && c != [] && k >= |c[0].held| {
      ResolveBeyond(c, 0, k);
    }
  }

  /** The new version shows exactly the live map if and only if no block of the
      map has the checksum recorded for its index without having the bytes the
      newest version shows there. */
  lemma CreateFaithful(c: Chain, sum: ChecksumFn, m: Content, size: nat, blocks: nat, now: int)
    requires WellFormed(c) && Covers(m, c)
    ensures Image(Create(c, sum, m, size, blocks, now), 0) == m <==> !SomeClash(c, sum, m)
  {
    var d := Create(c, sum, m, size, blocks, now);
    forall k: nat | k < |m| {
      NewResolve(c, sum, m, size, blocks, now, k);
    }
    var img := Image(d, 0);
    if SomeClash(c, sum, m) {
      var k: nat :| Clash(c, sum, m, k);
      assert img[k] == Resolve(c, 0, k) != m[k];
    } else {
      forall k: nat | k < |m| ensures img[k] == m[k] {
        assert !Clash(c, sum, m, k);
      }
      assert img == m;
    }
  }

  lemma NewNodeOk(c: Chain, sum: ChecksumFn, m: Content, size: nat, blocks: nat, now: int)
    requires NodesOk(c) && NonEmptyBlocks(m)
    ensures NodeOk(NewVersion(c, sum, m, size, blocks, now))
  {
  }

  /** Creation keeps the chain well formed, because the map never shrinks. */
  lemma CreateWellFormed(c: Chain, sum: ChecksumFn, m: Content, size: nat, blocks: nat, now: int)
    requires WellFormed(c) && Covers(m, c) && NonEmptyBlocks(m)
    ensures WellFormed(Create(c, sum, m, size, blocks, now))
  {
    var v := NewVersion(c, sum, m, size, blocks, now);
    NewNodeOk(c, sum, m, size, blocks, now);
    PrependWellFormed(c, v);
  }

  lemma PrependWellFormed(c: Chain, v: Version)
    requires WellFormed(c) && NodeOk(v) && v.parentId == IdAt(c, 0)
    requires c != [] ==> v.id > c[0].id && |v.held| >= |c[0].held|
    ensures WellFormed([v] + c)
  {
    var d := [v] + c;
    assert forall i | 0 < i < |d| :: d[i] == c[i - 1];
    assert NodesOk(d);
    assert ParentsNamed(d) by {
      assert forall i | 0 < i < |d| :: IdAt(d, i + 1) == IdAt(c, i);
    }
    forall i, j | 0 <= i < j < |d| ensures d[i].id > d[j].id && |d[i].held| >= |d[j].held| {
      assert j == 1 || (c[0].id > c[j - 1].id && |c[0].held| >= |c[j - 1].held|);
      assert i == 0 || (c[i - 1].id > c[j - 1].id && |c[i - 1].held| >= |c[j - 1].held|);
    }
  }

  /** With no assumption on collisions, the recorded checksums describe what
      resolves, also for the new version. */
  lemma CreateCoherent(c: Chain, sum: ChecksumFn, m: Content, size: nat, blocks: nat, now: int)
    requires WellFormed(c) && Coherent(c, sum) && Covers(m, c)
    ensures Coherent(Create(c, sum, m, size, blocks, now), sum)
  {
    var d := Create(c, sum, m, size, blocks, now);
    forall i, k | 0 <= i < |d| && 0 <= k < |d[i].checksums|
      ensures d[i].checksums[k] == ChecksumOf(sum, Resolve(d, i, k))
    {
      if i == 0 {
        NewResolve(c, sum, m, size, blocks, now, k);
        if Clash(c, sum, m, k) {
          HeadChecksum(c, sum, k);
        }
      } else {
        CreateResolveOld(c, d[0], i - 1, k);
        assert d[i] == c[i - 1];
      }
    }
  }

  /** The checksum compared against at creation is that of the newest version's block. */
  lemma HeadChecksum(c: Chain, sum: ChecksumFn, k: nat)
    requires WellFormed(c) && Coherent(c, sum)
    ensures PrevChecksum(c, k) == ChecksumOf(sum, Resolve(c, 0, k))
  {
    if c != [] && k >= |c[0].held| {
      ResolveBeyond(c, 0, k);
    }
  }

  /** After creation the live map still covers the newest version. */
  lemma CreateCovers(c: Chain, sum: ChecksumFn, m: Content, size: nat, blocks: nat, now: int)
    requires WellFormed(c) && Covers(m, c)
    ensures Covers(m, Create(c, sum, m, size, blocks, now))
  {
    var d := Create(c, sum, m, size, blocks, now);
    forall k: nat | k < |m| ensures Resolve(d, 0, k).Some? ==> m[k].Some? {
      NewResolve(c, sum, m, size, blocks, now, k);
    }
  }

  /** Deleting a version, even the newest, keeps the map covering the chain. */
  lemma RemoveCovers(c: Chain, i: nat, m: Content)
    requires WellFormed(c) && Covers(m, c) && i < |c|
    ensures Covers(m, Remove(c, i))
  {
    RemoveShape(c, i);
    var r := Remove(c, i);
    if r != [] {
      var o := if i == 0 then 1 else 0;
      forall k: nat | k < |r[0].held| ensures Resolve(r, 0, k).Some? ==> m[k].Some? {
        RemoveKeepsResolve(c, i, o, k);
        if i == 0 && Resolve(c, 1, k).Some? {
          assert Resolve(c, 0, k).Some?;
        }
      }
    }
  }

  /** Writes only extend the map, so it goes on covering the chain. */
  lemma ExtendCovers(m: Content, n: Content, c: Chain)
    requires Covers(m, c) && Extends(m, n)
    ensures Covers(n, c)
  {
  }

  // ------------------------------------------------------------ a cheaper shape

  /** WellFormed, link by link from the newest version. The heap classes carry this
      form in their contracts. */
  predicate Shaped(c: Chain) {
    c != [] ==>
      && NodeOk(c[0])
      && c[0].parentId == IdAt(c, 1)
      && (|c| > 1 ==> c[0].id > c[1].id && |c[0].held| >= |c[1].held|)
      && Shaped(c[1..])
  }

  lemma {:induction false} ShapedIsWellFormed(c: Chain)
    ensures Shaped(c) <==> WellFormed(c)
  {
    if c != [] {
      var d := c[1..];
      assert c == [c[0]] + d;
      ShapedIsWellFormed(d);
      if WellFormed(c) {
        TailWellFormed(c);
        assert NodeOk(c[0]) && c[0].parentId == IdAt(c, 1);
      }
      if Shaped(c) {
        assert d != [] ==> d[0] == c[1];
        PrependWellFormed(d, c[0]);
      }
    }
  }

  lemma TailWellFormed(c: Chain)
    requires WellFormed(c) && c != []
    ensures WellFormed(c[1..])
  {
  }
}
