/** When a snapshot's own retention pass spares the new version, seen from the caller,
    and runs in which the metadata cache goes wrong. */
module VersionCacheRuns {
  import opened Common
  import opened VersionModel
  import opened VersionProofs
  import opened VersionRetention
  import opened VersionCache

  // --------------------------------------------------------- without a byte limit

  /** Without a byte limit, a version that is not yet too old stays. */
  lemma UnlimitedNewestStays(d: Chain, p: Policy, later: int, pinned: bool)
    requires d != [] && p.limit == 0 && later - d[0].created <= p.expire
    ensures NewestStays(d, p, later, pinned)
  {
    BeforeLastHead(d, |d| - 1, p, later);
  }

  /** The version outlives the clock reading of its own retention pass. */
  predicate Unlimited(op: Op) {
    op.Snapshot? ==> op.pinned || (op.policy.limit == 0 && op.later - op.now <= op.policy.expire)
  }

  lemma {:induction false} UnlimitedRun(sum: ChecksumFn, ops: seq<Op>)
    requires forall n | 0 <= n < |ops| :: Unlimited(ops[n])
    ensures Inv(Reached(START, sum, ops))
    decreases |ops|
  {
    if ops != [] {
      var init, op := ops[..|ops| - 1], ops[|ops| - 1];
      var s := Reached(START, sum, init);
      UnlimitedRun(sum, init);
      if op.Snapshot? && !op.pinned {
        var d := Create(ChainOf(s, op.ino), sum, op.file.content, op.file.size, op.file.blocks, op.now);
        UnlimitedNewestStays(d, op.policy, op.later, op.pinned);
      }
      StepKeepsInv(s, sum, op);
    }
  }

  // ------------------------------------------------- without important versions

  lemma {:induction false} TrimKeepsHead(c: Chain, n: nat)
    requires n < |c|
    ensures Trim(c, n)[0].id == c[0].id
    decreases n
  {
    if n > 0 {
      RemoveShape(c, |c| - 1);
      TrimKeepsHead(Remove(c, |c| - 1), n - 1);
    }
  }

  /** Without important versions and with ordered times, keeping at least one version
      keeps the newest, whatever the other limits. */
  lemma QuietNewestStays(d: Chain, p: Policy, later: int, pinned: bool)
    requires d != [] && IdsFall(d) && NoneImportant(d) && TimesOrdered(d) && p.keep >= 1
    ensures NewestStays(d, p, later, pinned)
  {
    if !pinned {
      var n := TrimCount(d, p, later);
      TrimmedByPass(d, p, later);
      TrimCountSpares(d, p, later);
      TrimKeepsHead(d, n);
      NewestSurvives(d, p, later, pinned);
      assert Retain(d, p, later, pinned)[0].id == d[0].id;
    }
  }

  /** No version is important, times are ordered, and none is after t. */
  predicate Calm(c: Chain, t: int) {
    NoneImportant(c) && TimesOrdered(c) && forall i | 0 <= i < |c| :: c[i].created <= t
  }

  lemma RemoveCalm(c: Chain, i: nat, t: int)
    requires Calm(c, t) && i < |c|
    ensures Calm(Remove(c, i), t)
  {
    RemoveShape(c, i);
    var r := Remove(c, i);
    forall j | 0 <= j < |r|
      ensures var o := c[if j < i then j else j + 1]; r[j].created == o.created && r[j].important == o.important
    {
    }
  }

  lemma {:induction false} RetainCalm(c: Chain, i: int, p: Policy, now: int, t: int)
    requires Calm(c, t) && -1 <= i < |c|
    ensures Calm(RetainFrom(c, i, p, now), t)
    decreases i + 1
  {
    if i >= 0 {
      if ShouldRemove(c, i, p, now, Total(c)) {
        RemoveCalm(c, i, t);
        RemoveShape(c, i);
        RetainCalm(Remove(c, i), i - 1, p, now, t);
      } else {
        RetainCalm(c, i - 1, p, now, t);
      }
    }
  }

  lemma CreateCalm(c: Chain, sum: ChecksumFn, f: Live, now: int, t: int)
    requires Calm(c, now) && now <= t
    ensures Calm(Create(c, sum, f.content, f.size, f.blocks, now), t)
  {
    var d := Create(c, sum, f.content, f.size, f.blocks, now);
    assert forall i | 0 < i < |d| :: d[i] == c[i - 1];
  }

  predicate AllCalm(s: State, t: int) {
    forall ino | ino in s.files :: Calm(s.files[ino], t)
  }

  /** A retention pass touches one file's chain. */
  lemma {:induction false} RetainDropOthers(s: State, ino: nat, i: int, p: Policy, now: int)
    requires -1 <= i < |ChainOf(s, ino)|
    ensures forall f | f in RetainDrop(s, ino, i, p, now).files ::
              f == ino || (f in s.files && RetainDrop(s, ino, i, p, now).files[f] == s.files[f])
    decreases i + 1
  {
    if i >= 0 {
      var c := ChainOf(s, ino);
      if ShouldRemove(c, i, p, now, Total(c)) {
        RemoveShape(c, i);
        RetainDropOthers(Drop(s, ino, i), ino, i - 1, p, now);
      } else {
        RetainDropOthers(s, ino, i - 1, p, now);
      }
    }
  }

  lemma RetainedCalm(s: State, ino: nat, p: Policy, now: int, pinned: bool, t: int)
    requires AllCalm(s, t)
    ensures AllCalm(Retained(s, ino, p, now, pinned), t)
  {
    if !pinned {
      var c := ChainOf(s, ino);
      RetainCalm(c, |c| - 1, p, now, t);
      RetainDropChain(s, ino, |c| - 1, p, now);
      RetainDropOthers(s, ino, |c| - 1, p, now);
    }
  }

  /** The operations of a run that marks nothing important, keeps at least one version
      and whose clock does not go back. */
  predicate Quiet(ops: seq<Op>) {
    && (forall n | 0 <= n < |ops| :: !(ops[n].Mark? && ops[n].important))
    && (forall n | 0 <= n < |ops| :: ops[n].Snapshot? ==> ops[n].policy.keep >= 1)
    && (forall m, n | 0 <= m < n < |ops| && ops[m].Snapshot? && ops[n].Snapshot? :: ops[m].now <= ops[n].now)
  }

  lemma StepCalm(s: State, sum: ChecksumFn, op: Op, t: int)
    requires AllCalm(s, t)
    requires !(op.Mark? && op.important)
    requires op.Snapshot? ==> op.now <= t && AllCalm(s, op.now)
    ensures AllCalm(Step(s, sum, op), t)
  {
    match op
    case Snapshot(ino, f, now, later, p, pinned, _) =>
      CreateCalm(ChainOf(s, ino), sum, f, now, t);
      RetainedCalm(Insert(s, sum, ino, f, now), ino, p, later, pinned, t);
    case Delete(ino, i) =>
      if i < |ChainOf(s, ino)| { RemoveCalm(ChainOf(s, ino), i, t); }
    case Mark(ino, i, _) =>
    case Retention(ino, now, p, pinned) => RetainedCalm(s, ino, p, now, pinned, t);
    case Lookup(_, _, _) =>
  }

  lemma QuietPrefix(ops: seq<Op>, n: nat)
    requires Quiet(ops) && n <= |ops|
    ensures Quiet(ops[..n])
  {
    var init := ops[..n];
    assert forall m | 0 <= m < n :: init[m] == ops[m];
  }

  /** After a quiet run every chain is calm, up to any time no snapshot came after. */
  lemma {:induction false} QuietIsCalm(sum: ChecksumFn, ops: seq<Op>, t: int)
    requires Quiet(ops) && forall n | 0 <= n < |ops| && ops[n].Snapshot? :: ops[n].now <= t
    ensures AllCalm(Reached(START, sum, ops), t)
    decreases |ops|
  {
    if ops != [] {
      var k := |ops| - 1;
      var init, op := ops[..k], ops[k];
      QuietPrefix(ops, k);
      QuietIsCalm(sum, init, t);
      if op.Snapshot? {
        forall n | 0 <= n < k && init[n].Snapshot? ensures init[n].now <= op.now {
          assert init[n] == ops[n];
        }
        QuietIsCalm(sum, init, op.now);
      }
      StepCalm(Reached(START, sum, init), sum, op, t);
    }
  }

  /** In a quiet run the cache never points at a freed node. */
  lemma {:induction false} QuietRun(sum: ChecksumFn, ops: seq<Op>)
    requires Quiet(ops)
    ensures Inv(Reached(START, sum, ops))
    decreases |ops|
  {
    if ops != [] {
      var k := |ops| - 1;
      var init, op := ops[..k], ops[k];
      var s := Reached(START, sum, init);
      QuietPrefix(ops, k);
      QuietRun(sum, init);
      if op.Snapshot? {
        assert forall n | 0 <= n < k :: init[n] == ops[n];
        QuietIsCalm(sum, init, op.now);
        QuietSpares(s, sum, op);
      }
      StepKeepsInv(s, sum, op);
    }
  }

  lemma QuietSpares(s: State, sum: ChecksumFn, op: Op)
    requires op.Snapshot? && op.policy.keep >= 1 && NodesInv(s) && AllCalm(s, op.now)
    ensures Spares(s, sum, op)
  {
    var c := ChainOf(s, op.ino);
    var d := Create(c, sum, op.file.content, op.file.size, op.file.blocks, op.now);
    CreateCalm(c, sum, op.file, op.now, op.now);
    assert IdsFall(d) by {
      assert forall i | 0 < i < |d| :: d[i] == c[i - 1];
    }
    QuietNewestStays(d, op.policy, op.later, op.pinned);
  }

  // ------------------------------------------------------------------- witnesses

  function Zeros(n: nat): (d: Bytes)
    ensures |d| == n
  {
    seq(n, _ => 0)
  }

  /** A file of one block that is larger than a limit of one megabyte. */
  const BIG := Live([Some(Zeros(0x20_0000))], 0x20_0000, 1)
  const ONE_MEGABYTE := Policy(10, 86400, 0x10_0000)

  lemma ReachedNext(s: State, sum: ChecksumFn, ops: seq<Op>, op: Op)
    ensures Reached(s, sum, ops + [op]) == Step(Reached(s, sum, ops), sum, op)
  {
    assert (ops + [op])[..|ops|] == ops;
  }

  lemma ReachedTwo(s: State, sum: ChecksumFn, a: Op, b: Op)
    ensures Reached(s, sum, [a, b]) == Step(Step(s, sum, a), sum, b)
  {
    ReachedNext(s, sum, [], a);
    ReachedNext(s, sum, [a], b);
    assert [] + [a] == [a] && [a] + [b] == [a, b];
  }

  // A pinned snapshot, a mark, and then a snapshot under the byte limit.
  const PINNED := Snapshot(1, BIG, 0, 0, ONE_MEGABYTE, true, {})
  const MARKED := Mark(1, 0, true)
  const LIMITED := Snapshot(1, BIG, 1, 1, ONE_MEGABYTE, false, {})

  /** The important old version keeps the limit exceeded, so the new version is removed
      by its own retention pass and the cache points at its freed node. */
  lemma NewestFreed(sum: ChecksumFn)
    ensures var s := Reached(START, sum, [PINNED, MARKED]);
            Inv(s) && !Spares(s, sum, LIMITED) && !Inv(Step(s, sum, LIMITED))
  {
    UnlimitedRun(sum, [PINNED, MARKED]);
    ReachedTwo(START, sum, PINNED, MARKED);
    LimitedFrees(Step(Step(START, sum, PINNED), sum, MARKED), sum);
  }

  lemma LimitedFrees(s: State, sum: ChecksumFn)
    requires Inv(s) && s == Step(Step(START, sum, PINNED), sum, MARKED)
    ensures !Spares(s, sum, LIMITED) && !Inv(Step(s, sum, LIMITED))
  {
    var first := Create([], sum, BIG.content, BIG.size, BIG.blocks, 0);
    BigHeld(sum, first);
    assert ChainOf(Step(START, sum, PINNED), 1) == first;
    OldOneKeepsLimit(ChainOf(s, 1), sum);
    StepKeepsInv(s, sum, LIMITED);
  }

  lemma BigHeld(sum: ChecksumFn, c: Chain)
    requires c == Create([], sum, BIG.content, BIG.size, BIG.blocks, 0)
    ensures |c| == 1 && c[0].storedBytes == 0x20_0000
  {
    var held := NewHeld([], sum, BIG.content);
    assert held == BIG.content && held[..0] == [];
  }

  lemma OldOneKeepsLimit(c: Chain, sum: ChecksumFn)
    requires |c| == 1 && c[0].important && c[0].storedBytes > ONE_MEGABYTE.limit
    ensures var d := Create(c, sum, BIG.content, BIG.size, BIG.blocks, 1);
            !NewestStays(d, ONE_MEGABYTE, 1, false)
  {
    var d := Create(c, sum, BIG.content, BIG.size, BIG.blocks, 1);
    assert d[1] == c[0] && d[1..] == c && c[1..] == [];
    assert Total(c) == c[0].storedBytes && Total(d) == d[0].storedBytes + Total(c);
    assert BeforeLast(d, 1, ONE_MEGABYTE, 1) == BeforeLast(d, 0, ONE_MEGABYTE, 1) == d;
  }

  const EMPTY := Live([], 0, 0)

  function Pinned(ino: nat): Op {
    Snapshot(ino, EMPTY, 0, 0, ONE_MEGABYTE, true, {})
  }

  lemma PinnedStep(s: State, sum: ChecksumFn, ino: nat)
    requires ChainOf(s, ino) == []
    ensures var t := Step(s, sum, Pinned(ino));
            && |ChainOf(t, ino)| == 1 && ChainOf(t, ino)[0].id == 1
            && (forall f | f != ino :: ChainOf(t, f) == ChainOf(s, f))
            && Key(ino, 1) in t.cache && t.cache[Key(ino, 1)].ino == ino
  {
  }

  /** One snapshot each of two files whose inode numbers agree in their low 32 bits:
      looking up the first file's version answers with the second file's. */
  lemma InodesConfused(sum: ChecksumFn)
    ensures var s := Reached(START, sum, [Pinned(1), Pinned(TWO32 + 1)]);
            Inv(s) && !KeysDiffer(s) && |ChainOf(s, 1)| == 1 && !Agrees(s, 1, 0)
  {
    UnlimitedRun(sum, [Pinned(1), Pinned(TWO32 + 1)]);
    ReachedTwo(START, sum, Pinned(1), Pinned(TWO32 + 1));
    TwoInodes(sum);
  }

  lemma TwoInodes(sum: ChecksumFn)
    ensures var t := Step(Step(START, sum, Pinned(1)), sum, Pinned(TWO32 + 1));
            !KeysDiffer(t) && |ChainOf(t, 1)| == 1 && !Agrees(t, 1, 0)
  {
    PinnedStep(START, sum, 1);
    SecondAnswers(Step(START, sum, Pinned(1)), sum, 1, TWO32 + 1);
  }

  lemma SecondAnswers(s: State, sum: ChecksumFn, f: nat, g: nat)
    requires f != g && f % TWO32 == g % TWO32
    requires |ChainOf(s, f)| == 1 && ChainOf(s, f)[0].id == 1 && ChainOf(s, g) == []
    ensures var t := Step(s, sum, Pinned(g));
            !KeysDiffer(t) && |ChainOf(t, f)| == 1 && !Agrees(t, f, 0)
  {
    PinnedStep(s, sum, g);
    KeyDistinguishes(f, 1, g, 1);
    AnsweredBy(Step(s, sum, Pinned(g)), f, g);
  }

  /** A cached entry of another file with the same key. */
  lemma AnsweredBy(s: State, f: nat, g: nat)
    requires f != g && |ChainOf(s, f)| == |ChainOf(s, g)| == 1 && KeyAt(s, f, 0) == KeyAt(s, g, 0)
    requires KeyAt(s, g, 0) in s.cache && s.cache[KeyAt(s, g, 0)].ino == g
    ensures !KeysDiffer(s) && !Agrees(s, f, 0)
  {
    assert KeyAt(s, f, 0) in s.cache;
  }
}
