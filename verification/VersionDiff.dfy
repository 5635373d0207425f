/** Comparing versions by recorded checksums, and the rule that snapshots a file
    once more than a tenth of its blocks changed. */
module VersionDiff {
  import opened Common
  import opened BlockModel
  import opened VersionModel
  import opened VersionProofs

  // --------------------------------------------------------- difference of two

  lemma {:induction false} DiffBelowPastEnd(a: Version, b: Version, n: nat)
    requires n >= Max(|a.checksums|, |b.checksums|)
    ensures DiffBelow(a, b, n) == Diff(a, b)
    decreases n
  {
    if n > Max(|a.checksums|, |b.checksums|) {
      DiffBelowPastEnd(a, b, n - 1);
    }
  }

  lemma {:induction false} DiffBelowSymmetric(a: Version, b: Version, n: nat)
    ensures DiffBelow(a, b, n) == DiffBelow(b, a, n)
  {
    if n > 0 { DiffBelowSymmetric(a, b, n - 1); }
  }

  lemma {:induction false} DiffBelowTriangle(a: Version, b: Version, c: Version, n: nat)
    ensures DiffBelow(a, c, n) <= DiffBelow(a, b, n) + DiffBelow(b, c, n)
  {
    if n > 0 { DiffBelowTriangle(a, b, c, n - 1); }
  }

  /** The difference count is zero exactly when all recorded checksums agree. */
  lemma {:induction false} DiffBelowZero(a: Version, b: Version, n: nat)
    ensures DiffBelow(a, b, n) == 0 <==> forall k: nat | k < n :: ChecksumAt(a, k) == ChecksumAt(b, k)
  {
    if n > 0 {
      DiffBelowZero(a, b, n - 1);
      assert (forall k: nat | k < n :: ChecksumAt(a, k) == ChecksumAt(b, k)) ==>
        ChecksumAt(a, n - 1) == ChecksumAt(b, n - 1);
    }
  }

  /** The indices below n where the recorded checksums differ. */
  function Differing(a: Version, b: Version, n: nat): set<nat> {
    set k: nat | k < n && ChecksumAt(a, k) != ChecksumAt(b, k)
  }

  lemma {:induction false} DiffBelowCounts(a: Version, b: Version, n: nat)
    ensures DiffBelow(a, b, n) == |Differing(a, b, n)|
  {
    if n > 0 {
      DiffBelowCounts(a, b, n - 1);
      var fewer := Differing(a, b, n - 1);
      if ChecksumAt(a, n - 1) != ChecksumAt(b, n - 1) {
        assert Differing(a, b, n) == fewer + {n - 1};
      } else {
        assert Differing(a, b, n) == fewer;
      }
    } else {
      assert Differing(a, b, 0) == {};
    }
  }

  /** The difference is the number of indices in either version at which the recorded
      checksums differ, a missing one counting as 0. */
  lemma DiffCounts(a: Version, b: Version)
    ensures Diff(a, b)
         == |set k: nat | k < Max(|a.checksums|, |b.checksums|) && ChecksumAt(a, k) != ChecksumAt(b, k)|
  {
    DiffBelowCounts(a, b, Max(|a.checksums|, |b.checksums|));
  }

  /** The block difference is a pseudo-metric. */
  lemma DiffIsPseudoMetric(a: Version, b: Version, c: Version)
    ensures Diff(a, a) == 0
    ensures Diff(a, b) == Diff(b, a)
    ensures Diff(a, c) <= Diff(a, b) + Diff(b, c)
  {
    var n := Max(|a.checksums|, Max(|b.checksums|, |c.checksums|));
    DiffBelowZero(a, a, |a.checksums|);
    DiffBelowSymmetric(a, b, Max(|a.checksums|, |b.checksums|));
    DiffBelowPastEnd(a, b, n);
    DiffBelowPastEnd(b, c, n);
    DiffBelowPastEnd(a, c, n);
    DiffBelowTriangle(a, b, c, n);
  }

  /** Some version from i up to, not including, j holds block k itself. */
  predicate HeldBetween(c: Chain, i: nat, j: nat, k: nat)
    requires j <= |c|
  {
    exists m | i <= m < j :: Present(c[m].held, k)
  }

  /** The indices below n that some version from i up to, not including, j holds. */
  function HeldIndexSet(c: Chain, i: nat, j: nat, n: nat): set<nat>
    requires j <= |c|
  {
    set k: nat | k < n && HeldBetween(c, i, j, k)
  }

  lemma RecordedChecksum(c: Chain, i: nat, k: nat, sum: ChecksumFn)
    requires NodesOk(c) && CountsFall(c) && Coherent(c, sum) && i < |c|
    ensures ChecksumAt(c[i], k) == ChecksumOf(sum, Resolve(c, i, k))
  {
    assert NodeOk(c[i]);
    if k >= |c[i].held| { ResolveBeyond(c, i, k); }
  }

  lemma UnheldAgree(c: Chain, i: nat, j: nat, k: nat, sum: ChecksumFn)
    requires NodesOk(c) && CountsFall(c) && Coherent(c, sum) && i < j < |c|
    requires !HeldBetween(c, i, j, k)
    ensures ChecksumAt(c[i], k) == ChecksumAt(c[j], k)
  {
    RecordedChecksum(c, i, k, sum);
    RecordedChecksum(c, j, k, sum);
    forall m | i <= m < j ensures !(k < |c[m].held| && c[m].held[k].Some?) {
      assert !Present(c[m].held, k);
    }
    ResolveSkips(c, i, j, k);
  }

  /** Two versions differ in at most the blocks held by some version newer than
      the older one, up to and including the newer one, whatever was deleted. */
  lemma DiffBound(c: Chain, i: nat, j: nat, sum: ChecksumFn)
    requires WellFormed(c) && Coherent(c, sum) && i < j < |c|
    ensures Differing(c[i], c[j], |c[i].held|) <= HeldIndexSet(c, i, j, |c[i].held|)
    ensures Diff(c[i], c[j]) <= |set k: nat | k < |c[i].held| && HeldBetween(c, i, j, k)|
  {
    var n := |c[i].held|;
    forall k | k in Differing(c[i], c[j], n) ensures HeldBetween(c, i, j, k) {
      if !HeldBetween(c, i, j, k) { UnheldAgree(c, i, j, k, sum); }
    }
    assert NodeOk(c[i]) && NodeOk(c[j]);
    DiffBelowCounts(c[i], c[j], n);
    SubsetSize(Differing(c[i], c[j], n), HeldIndexSet(c, i, j, n));
  }

  lemma SubsetSize<T>(a: set<T>, b: set<T>)
    requires a <= b
    ensures |a| <= |b|
  {
    assert b == a + (b - a);
  }

  // ------------------------------------------------------- the one-tenth rule

  /** The rule's test: changed / count > 0.10. */
  predicate RuleFires(changed: nat, count: nat) {
    10 * changed > count
  }

  /** The test is that of the quotient: more than a tenth of the blocks changed. */
  lemma RuleIsTenth(changed: nat, count: nat)
    requires count > 0
    ensures RuleFires(changed, count) <==> changed as real / count as real > 0.1
  {
    var q := changed as real / count as real;
    assert changed as real == q * count as real;
    if q > 0.1 {
      Scaled(q, 0.1, count as real);
    } else {
      Scaled(0.1, q, count as real);
    }
  }

  lemma Scaled(a: real, b: real, n: real)
    requires n > 0.0
    ensures a > b ==> a * n > b * n
    ensures a >= b ==> a * n >= b * n
  {
  }

  lemma {:induction false} HeldIndicesSound(h: Content, n: nat)
    requires n <= |h|
    ensures forall a | 0 <= a < |HeldIndices(h, n)| :: HeldIndices(h, n)[a] < n && h[HeldIndices(h, n)[a]].Some?
  {
    if n > 0 { HeldIndicesSound(h, n - 1); }
  }

  lemma {:induction false} HeldIndicesComplete(h: Content, n: nat, k: nat)
    requires k < n <= |h| && h[k].Some?
    ensures k in HeldIndices(h, n)
  {
    if k < n - 1 { HeldIndicesComplete(h, n - 1, k); }
  }

  lemma {:induction false} HeldIndicesIncrease(h: Content, n: nat)
    requires n <= |h|
    ensures forall a, b | 0 <= a < b < |HeldIndices(h, n)| :: HeldIndices(h, n)[a] < HeldIndices(h, n)[b]
  {
    if n > 0 {
      HeldIndicesIncrease(h, n - 1);
      HeldIndicesSound(h, n - 1);
    }
  }

  /** The recorded difference indices are strictly increasing and are exactly the
      blocks the new version holds. */
  lemma DiffIndicesExact(c: Chain, sum: ChecksumFn, m: Content, size: nat, blocks: nat, now: int)
    ensures var v := NewVersion(c, sum, m, size, blocks, now);
            && (forall a, b | 0 <= a < b < |v.diff| :: v.diff[a] < v.diff[b])
            && (forall k: nat :: k in v.diff <==> Present(v.held, k))
  {
    var v := NewVersion(c, sum, m, size, blocks, now);
    HeldIndicesIncrease(v.held, |v.held|);
    HeldIndicesSound(v.held, |v.held|);
    forall k: nat | Present(v.held, k) ensures k in v.diff {
      HeldIndicesComplete(v.held, |v.held|, k);
    }
  }

  /** A block counts as changed exactly when the new version stores it. */
  lemma ChangedIsStored(c: Chain, sum: ChecksumFn, m: Content, k: nat)
    requires WellFormed(c) && Coherent(c, sum) && Covers(m, c) && c != [] && k < |m|
    ensures ChecksumOf(sum, m[k]) != PrevChecksum(c, k) <==> NewHeld(c, sum, m)[k].Some?
  {
  }

  lemma {:induction false} CountStored(c: Chain, sum: ChecksumFn, m: Content, h: Content, n: nat)
    requires n <= |m| == |h|
    requires forall k | 0 <= k < |m| :: ChecksumOf(sum, m[k]) != PrevChecksum(c, k) <==> h[k].Some?
    ensures ChangedBlocks(c, sum, m, n) == |HeldIndices(h, n)|
  {
    if n > 0 { CountStored(c, sum, m, h, n - 1); }
  }

  /** The indices below n whose checksum differs from the newest version's. */
  function ChangedSet(c: Chain, sum: ChecksumFn, m: Content, n: nat): set<nat>
    requires n <= |m|
  {
    set k: nat | k < n && ChecksumOf(sum, m[k]) != PrevChecksum(c, k)
  }

  /** The rule's count is the number of such indices. */
  lemma {:induction false} ChangedBlocksCount(c: Chain, sum: ChecksumFn, m: Content, n: nat)
    requires n <= |m|
    ensures ChangedBlocks(c, sum, m, n) == |ChangedSet(c, sum, m, n)|
  {
    if n > 0 {
      ChangedBlocksCount(c, sum, m, n - 1);
      var fewer := ChangedSet(c, sum, m, n - 1);
      if ChecksumOf(sum, m[n - 1]) != PrevChecksum(c, n - 1) {
        assert ChangedSet(c, sum, m, n) == fewer + {n - 1};
      } else {
        assert ChangedSet(c, sum, m, n) == fewer;
      }
    } else {
      assert ChangedSet(c, sum, m, 0) == {};
    }
  }

  /** The count the rule computes is the number of blocks the new version stores. */
  lemma RuleCountsDiff(c: Chain, sum: ChecksumFn, m: Content, size: nat, blocks: nat, now: int)
    requires WellFormed(c) && Coherent(c, sum) && Covers(m, c) && c != []
    ensures ChangedBlocks(c, sum, m, |m|) == |NewVersion(c, sum, m, size, blocks, now).diff|
  {
    forall k: nat | k < |m|
      ensures ChecksumOf(sum, m[k]) != PrevChecksum(c, k) <==> NewHeld(c, sum, m)[k].Some?
    {
      ChangedIsStored(c, sum, m, k);
    }
    CountStored(c, sum, m, NewHeld(c, sum, m), |m|);
  }

  /** They are the blocks whose checksum differs from the newest version's. */
  lemma DiffIsChanged(c: Chain, sum: ChecksumFn, m: Content, size: nat, blocks: nat, now: int)
    requires WellFormed(c) && Coherent(c, sum) && Covers(m, c) && c != []
    ensures |NewVersion(c, sum, m, size, blocks, now).diff|
         == |set k: nat | k < |m| && ChecksumOf(sum, m[k]) != PrevChecksum(c, k)|
  {
    RuleCountsDiff(c, sum, m, size, blocks, now);
    ChangedBlocksCount(c, sum, m, |m|);
  }

  /** The rule's test in terms of the version it would create. */
  lemma RuleCount(c: Chain, sum: ChecksumFn, m: Content, size: nat, blocks: nat, now: int)
    requires WellFormed(c) && Coherent(c, sum) && Covers(m, c)
    ensures c != [] && m != [] ==>
              (RuleFires(ChangedBlocks(c, sum, m, |m|), |m|) <==>
               |NewVersion(c, sum, m, size, blocks, now).diff| as real / |m| as real > 0.1)
  {
    if c != [] && m != [] {
      RuleCountsDiff(c, sum, m, size, blocks, now);
      RuleIsTenth(ChangedBlocks(c, sum, m, |m|), |m|);
    }
  }

  lemma {:induction false} NothingChanged(c: Chain, sum: ChecksumFn, m: Content, n: nat)
    requires c != [] && n <= |m| && c[0].checksums == NewChecksums(sum, m)
    ensures ChangedBlocks(c, sum, m, n) == 0
  {
    if n > 0 { NothingChanged(c, sum, m, n - 1); }
  }

  /** Right after a snapshot that is still the newest version, the rule is quiet. */
  lemma RuleQuietAfterCreate(c: Chain, sum: ChecksumFn, m: Content, size: nat, blocks: nat, now: int, d: Chain)
    requires d != [] && Shown(d, 0) == Shown(Create(c, sum, m, size, blocks, now), 0)
    ensures ChangedBlocks(d, sum, m, |m|) == 0
    ensures !RuleFires(ChangedBlocks(d, sum, m, |m|), |m|)
  {
    NothingChanged(d, sum, m, |m|);
  }
}
