/** The retention pass: what it may remove, what it must keep, and where it stops. */
module VersionRetention {
  import opened BlockModel
  import opened VersionModel
  import opened VersionProofs

  // ---------------------------------------------------------- what a pass keeps

  /** A pass keeps every invariant of the chain. */
  lemma {:induction false} RetainKeepsInvariants(c: Chain, i: int, p: Policy, now: int, sum: ChecksumFn, m: Content)
    requires -1 <= i < |c|
    requires WellFormed(c) && Coherent(c, sum) && Covers(m, c)
    ensures var r := RetainFrom(c, i, p, now);
            WellFormed(r) && Coherent(r, sum) && Covers(m, r)
    decreases i + 1
  {
    if i >= 0 {
      if ShouldRemove(c, i, p, now, Total(c)) {
        RemoveWellFormed(c, i);
        RemoveCoherent(c, i, sum);
        RemoveCovers(c, i, m);
        RetainKeepsInvariants(Remove(c, i), i - 1, p, now, sum, m);
      } else {
        RetainKeepsInvariants(c, i - 1, p, now, sum, m);
      }
    }
  }

  /** Every survivor of a pass is one of the versions before it, unchanged to readers. */
  lemma {:induction false} RetainSurvivor(c: Chain, i: int, p: Policy, now: int, j: nat) returns (o: nat)
    requires -1 <= i < |c| && CountsFall(c)
    requires j < |RetainFrom(c, i, p, now)|
    ensures SameVersion(c, o, RetainFrom(c, i, p, now), j)
    decreases i + 1
  {
    if i < 0 {
      o := j;
    } else if ShouldRemove(c, i, p, now, Total(c)) {
      RemoveKeepsCounts(c, i);
      var q := RetainSurvivor(Remove(c, i), i - 1, p, now, j);
      o := if q < i then q else q + 1;
      RemoveKeepsOthers(c, i, o);
    } else {
      o := RetainSurvivor(c, i - 1, p, now, j);
    }
  }

  /** An important version survives every pass, unchanged to readers. */
  lemma {:induction false} RetainKeepsImportant(c: Chain, i: int, p: Policy, now: int, o: nat) returns (j: nat)
    requires -1 <= i < |c| && CountsFall(c)
    requires o < |c| && c[o].important
    ensures SameVersion(c, o, RetainFrom(c, i, p, now), j)
    decreases i + 1
  {
    if i < 0 {
      j := o;
    } else if ShouldRemove(c, i, p, now, Total(c)) {
      RemoveKeepsCounts(c, i);
      RemoveKeepsOthers(c, i, o);
      j := RetainKeepsImportant(Remove(c, i), i - 1, p, now, After(i, o));
    } else {
      j := RetainKeepsImportant(c, i - 1, p, now, o);
    }
  }

  /** A pass that keeps at least one version by policy never empties the chain. */
  lemma {:induction false} RetainNonEmpty(c: Chain, i: int, p: Policy, now: int)
    requires -1 <= i < |c| && c != [] && p.keep >= 1
    ensures RetainFrom(c, i, p, now) != []
    decreases i + 1
  {
    if i >= 0 {
      if ShouldRemove(c, i, p, now, Total(c)) {
        RemoveShape(c, i);
        RetainNonEmpty(Remove(c, i), i - 1, p, now);
      } else {
        RetainNonEmpty(c, i - 1, p, now);
      }
    }
  }

  // ------------------------------------------------------ when a pass does nothing

  lemma {:induction false} RetainShrinks(c: Chain, i: int, p: Policy, now: int)
    requires -1 <= i < |c|
    ensures |RetainFrom(c, i, p, now)| <= |c|
    decreases i + 1
  {
    if i >= 0 {
      if ShouldRemove(c, i, p, now, Total(c)) {
        RemoveShape(c, i);
        RetainShrinks(Remove(c, i), i - 1, p, now);
      } else {
        RetainShrinks(c, i - 1, p, now);
      }
    }
  }

  /** Version j is important, or within both the count or the age and the byte limit. */
  predicate WithinLimits(c: Chain, j: nat, p: Policy, now: int)
    requires j < |c|
  {
    c[j].important
    || (&& (|c| <= p.keep || now - c[j].created <= p.expire)
        && (p.limit == 0 || Total(c) <= p.limit || |c| <= 1))
  }

  predicate AllWithinLimits(c: Chain, p: Policy, now: int) {
    forall j | 0 <= j < |c| :: WithinLimits(c, j, p, now)
  }

  lemma {:induction false} RetainIdleFrom(c: Chain, i: int, p: Policy, now: int)
    requires -1 <= i < |c|
    ensures RetainFrom(c, i, p, now) == c <==> forall j | 0 <= j <= i :: WithinLimits(c, j, p, now)
    decreases i + 1
  {
    if i >= 0 {
      if ShouldRemove(c, i, p, now, Total(c)) {
        RemoveShape(c, i);
        RetainShrinks(Remove(c, i), i - 1, p, now);
        assert !WithinLimits(c, i, p, now);
      } else {
        RetainIdleFrom(c, i - 1, p, now);
      }
    }
  }

  /** A pass leaves the chain as it is exactly when every version not important is
      within both limits. */
  lemma RetainIdle(c: Chain, p: Policy, now: int)
    ensures RetainFrom(c, |c| - 1, p, now) == c <==> AllWithinLimits(c, p, now)
  {
    RetainIdleFrom(c, |c| - 1, p, now);
  }

  /** So nothing goes when the count is kept or nothing is too old, and there is no byte
      limit or the total is within it. */
  lemma RetainKeepsAll(c: Chain, p: Policy, now: int)
    requires |c| <= p.keep || forall j | 0 <= j < |c| :: now - c[j].created <= p.expire
    requires p.limit == 0 || Total(c) <= p.limit
    ensures RetainFrom(c, |c| - 1, p, now) == c
  {
    RetainIdle(c, p, now);
  }

  /** Whatever a pass does, at each step it removes the version it visits exactly when
      that one is not important and over one of the limits as they stand then. */
  lemma RetainVisit(c: Chain, i: nat, p: Policy, now: int)
    requires i < |c|
    ensures var goes := !c[i].important
                        && (|| (|c| > p.keep && now - c[i].created > p.expire)
                            || (p.limit != 0 && Total(c) > p.limit && |c| > 1));
            i <= |Remove(c, i)|
            && RetainFrom(c, i, p, now) == RetainFrom(if goes then Remove(c, i) else c, i - 1, p, now)
  {
  }

  // ------------------------------------------------- without important versions

  predicate NoneImportant(c: Chain) {
    forall i | 0 <= i < |c| :: !c[i].important
  }

  /** Creation times never decrease from old to new. */
  predicate TimesOrdered(c: Chain) {
    forall i, j | 0 <= i < j < |c| :: c[i].created >= c[j].created
  }

  /** The rule would remove the oldest version. */
  predicate OldestGoes(c: Chain, p: Policy, now: int) {
    c != [] && ShouldRemove(c, |c| - 1, p, now, Total(c))
  }

  /** Remove the n oldest versions, one after the other. */
  function Trim(c: Chain, n: nat): Chain
    requires n <= |c|
    ensures |Trim(c, n)| == |c| - n
    decreases n
  {
    if n == 0 then c
    else RemoveShape(c, |c| - 1); Trim(Remove(c, |c| - 1), n - 1)
  }

  /** How often in a row the rule removes the oldest version. */
  function TrimCount(c: Chain, p: Policy, now: int): (n: nat)
    ensures n <= |c|
    decreases |c|
  {
    if OldestGoes(c, p, now) then
      RemoveShape(c, |c| - 1); 1 + TrimCount(Remove(c, |c| - 1), p, now)
    else 0
  }

  /** If the oldest version stays, no newer one is removed. */
  lemma {:induction false} NothingMore(c: Chain, i: int, p: Policy, now: int)
    requires -1 <= i < |c|
    requires NoneImportant(c) && TimesOrdered(c) && !OldestGoes(c, p, now)
    ensures RetainFrom(c, i, p, now) == c
    decreases i + 1
  {
    if i >= 0 {
      assert c[i].created >= c[|c| - 1].created;
      NothingMore(c, i - 1, p, now);
    }
  }

  lemma {:induction false} TrimmedByPass(c: Chain, p: Policy, now: int)
    requires NoneImportant(c) && TimesOrdered(c)
    ensures RetainFrom(c, |c| - 1, p, now) == Trim(c, TrimCount(c, p, now))
    decreases |c|
  {
    if OldestGoes(c, p, now) {
      RemoveShape(c, |c| - 1);
      TrimmedByPass(Remove(c, |c| - 1), p, now);
    } else {
      NothingMore(c, |c| - 1, p, now);
    }
  }

  /** A pass removes exactly the oldest versions, one by one, until the oldest one left
      is neither over the count and too old nor one of several over the byte limit. */
  lemma RetainIsTrim(c: Chain, p: Policy, now: int) returns (n: nat)
    requires NoneImportant(c) && TimesOrdered(c)
    ensures n <= |c| && RetainFrom(c, |c| - 1, p, now) == Trim(c, n)
    ensures forall m: nat | m < n ::
              var d := Trim(c, m);
              || (|d| > p.keep && now - d[|d| - 1].created > p.expire)
              || (p.limit != 0 && Total(d) > p.limit && |d| > 1)
    ensures var d := Trim(c, n);
            d == [] || (&& (|d| <= p.keep || now - d[|d| - 1].created <= p.expire)
                        && (p.limit == 0 || Total(d) <= p.limit || |d| == 1))
  {
    n := TrimCount(c, p, now);
    TrimmedByPass(c, p, now);
    TrimReasons(c, p, now);
    TrimStops(c, p, now);
  }

  lemma TrimStops(c: Chain, p: Policy, now: int)
    requires NoneImportant(c)
    ensures var d := Trim(c, TrimCount(c, p, now));
            d == [] || (&& (|d| <= p.keep || now - d[|d| - 1].created <= p.expire)
                        && (p.limit == 0 || Total(d) <= p.limit || |d| == 1))
  {
    TrimCountLeast(c, p, now);
    TrimKeepsMarks(c, TrimCount(c, p, now));
  }

  lemma {:induction false} TrimKeepsMarks(c: Chain, n: nat)
    requires NoneImportant(c) && n <= |c|
    ensures NoneImportant(Trim(c, n))
    decreases n
  {
    if n > 0 {
      RemoveShape(c, |c| - 1);
      TrimKeepsMarks(Remove(c, |c| - 1), n - 1);
    }
  }

  /** Trimming leaves the newer versions in place, unchanged to readers. */
  lemma {:induction false} TrimKeepsNewer(c: Chain, n: nat, j: nat)
    requires CountsFall(c) && n <= |c| && j < |c| - n
    ensures SameVersion(c, j, Trim(c, n), j)
    decreases n
  {
    if n > 0 {
      RemoveKeepsCounts(c, |c| - 1);
      RemoveKeepsOthers(c, |c| - 1, j);
      RemoveShape(c, |c| - 1);
      TrimKeepsNewer(Remove(c, |c| - 1), n - 1, j);
    }
  }

  /** The pass stops at the first point where the rule spares the oldest version. */
  lemma {:induction false} TrimCountLeast(c: Chain, p: Policy, now: int)
    ensures !OldestGoes(Trim(c, TrimCount(c, p, now)), p, now)
    ensures forall n: nat | n < TrimCount(c, p, now) :: OldestGoes(Trim(c, n), p, now)
    decreases |c|
  {
    if OldestGoes(c, p, now) {
      RemoveShape(c, |c| - 1);
      var d := Remove(c, |c| - 1);
      TrimCountLeast(d, p, now);
      forall n: nat | n < TrimCount(c, p, now) ensures OldestGoes(Trim(c, n), p, now) {
        if n > 0 { assert Trim(c, n) == Trim(d, n - 1); }
      }
    }
  }

  lemma {:induction false} TrimCountSpares(c: Chain, p: Policy, now: int)
    requires c != [] && p.keep >= 1
    ensures TrimCount(c, p, now) < |c|
    decreases |c|
  {
    if OldestGoes(c, p, now) {
      RemoveShape(c, |c| - 1);
      TrimCountSpares(Remove(c, |c| - 1), p, now);
    }
  }

  /** The outcome of a pass over a chain without important versions: a run of the
      oldest versions goes, the newest stays, every survivor reads as before, and
      both limits hold as far as a single version allows. */
  lemma RetainOutcome(c: Chain, p: Policy, now: int) returns (gone: nat)
    requires WellFormed(c) && NoneImportant(c) && TimesOrdered(c)
    requires c != [] && p.keep >= 1
    ensures gone < |c|
    ensures RetainFrom(c, |c| - 1, p, now) == Trim(c, gone)
    ensures forall j | 0 <= j < |c| - gone :: SameVersion(c, j, Trim(c, gone), j)
    ensures var r := Trim(c, gone);
            && (|r| == 1 || p.limit == 0 || Total(r) <= p.limit)
            && (|r| <= p.keep || now - r[|r| - 1].created <= p.expire)
    ensures forall n: nat | n < gone ::
              var d := Trim(c, n);
              || (|d| > p.keep && now - d[|d| - 1].created > p.expire)
              || (p.limit != 0 && Total(d) > p.limit && |d| > 1)
  {
    gone := TrimCount(c, p, now);
    TrimmedByPass(c, p, now);
    TrimReasons(c, p, now);
    TrimCountLeast(c, p, now);
    TrimCountSpares(c, p, now);
    TrimKeepsRest(c, gone);
    SparedOldest(Trim(c, gone), p, now);
  }

  lemma TrimReasons(c: Chain, p: Policy, now: int)
    ensures forall n: nat | n < TrimCount(c, p, now) ::
              var d := Trim(c, n);
              || (|d| > p.keep && now - d[|d| - 1].created > p.expire)
              || (p.limit != 0 && Total(d) > p.limit && |d| > 1)
  {
    TrimCountLeast(c, p, now);
  }

  lemma TrimKeepsRest(c: Chain, n: nat)
    requires CountsFall(c) && NoneImportant(c) && n < |c|
    ensures forall j | 0 <= j < |c| - n :: SameVersion(c, j, Trim(c, n), j)
    ensures NoneImportant(Trim(c, n))
  {
    forall j | 0 <= j < |c| - n ensures SameVersion(c, j, Trim(c, n), j) && !Trim(c, n)[j].important {
      TrimKeepsNewer(c, n, j);
      assert Shown(c, j).important == Shown(Trim(c, n), j).important;
    }
  }

  /** Where the rule spares the oldest version, both limits hold as far as one version
      allows. */
  lemma SparedOldest(r: Chain, p: Policy, now: int)
    requires r != [] && NoneImportant(r) && !OldestGoes(r, p, now)
    ensures |r| == 1 || p.limit == 0 || Total(r) <= p.limit
    ensures |r| <= p.keep || now - r[|r| - 1].created <= p.expire
  {
  }
}
