/** Whole histories of one versioned file: any mix of writes, size changes,
    snapshots, deletions, marks and retention passes. */
module VersionedRun {
  import opened Common
  import opened BlockModel
  import opened VersionModel
  import opened VersionProofs
  import opened VersionRetention
  import opened VersionDiff
  import opened VersionAccounting
  import FlatFile

  /** What the file was when a version was created, and whether a checksum then
      hid a changed block. */
  datatype Origin = Origin(live: Content, size: nat, clash: bool)

  datatype State = State(
    file: Content,
    size: nat,
    blocks: nat,
    chain: Chain,
    origins: map<nat, Origin>,   // by id of the live versions
    seen: set<Bytes>)            // every block some snapshot has looked at

  datatype Op =
    | Write(data: Bytes, off: nat)
    | Resize(size: nat, blocks: nat)
    | Snapshot(now: int, later: int, policy: Policy, pinned: bool)
    | ChangeRule(now: int, later: int, policy: Policy, pinned: bool)
    | Delete(id: nat)
    | Mark(id: nat, important: bool)
    | Retention(now: int, policy: Policy, pinned: bool)

  const START := State([], 0, 0, [], map[], {})

  // -------------------------------------------------------------------- steps

  /** Index of the version with this id, or the chain's length. */
  function IndexOf(c: Chain, id: nat): (i: nat)
    ensures i <= |c|
    ensures i < |c| ==> c[i].id == id
    ensures i == |c| ==> forall j | 0 <= j < |c| :: c[j].id != id
  {
    if c == [] then 0 else if c[0].id == id then 0 else 1 + IndexOf(c[1..], id)
  }

  function Ids(c: Chain): set<nat> {
    set i | 0 <= i < |c| :: c[i].id
  }

  function Keep(origins: map<nat, Origin>, c: Chain): map<nat, Origin> {
    map id | id in origins && id in Ids(c) :: origins[id]
  }

  function BlocksIn(m: Content): set<Bytes> {
    set k | 0 <= k < |m| && m[k].Some? :: m[k].value
  }

  ghost function WithNewOrigin(s: State, sum: ChecksumFn): map<nat, Origin> {
    s.origins[NextId(s.chain) := Origin(s.file, s.size, SomeClash(s.chain, sum, s.file))]
  }

  /** A snapshot and the retention pass that follows it under the same lock. */
  ghost function AfterSnapshot(s: State, sum: ChecksumFn, now: int, later: int, p: Policy, pinned: bool): State {
    var d := Create(s.chain, sum, s.file, s.size, s.blocks, now);
    var r := Retain(d, p, later, pinned);
    s.(chain := r, origins := Keep(WithNewOrigin(s, sum), r), seen := s.seen + BlocksIn(s.file))
  }

  function AfterDelete(s: State, id: nat): State {
    var i := IndexOf(s.chain, id);
    if id == 0 || i == |s.chain| || s.chain[i].important then s
    else
      var r := Remove(s.chain, i);
      s.(chain := r, origins := Keep(s.origins, r))
  }

  ghost predicate Step(s: State, op: Op, t: State, sum: ChecksumFn, bs: nat)
    requires bs > 0
  {
    match op
    case Write(data, off) =>
      var size := Max(s.size, off + |data|);
      && IsWrite(s.file, t.file, bs, data, off)
      && t == s.(file := t.file, size := size, blocks := (size + bs - 1) / bs)
    case Resize(size, blocks) => t == s.(size := size, blocks := blocks)
    case Snapshot(now, later, p, pinned) => t == AfterSnapshot(s, sum, now, later, p, pinned)
    case ChangeRule(now, later, p, pinned) =>
      t == if s.chain != [] && s.file != [] && RuleFires(ChangedBlocks(s.chain, sum, s.file, |s.file|), |s.file|)
           then AfterSnapshot(s, sum, now, later, p, pinned) else s
    case Delete(id) => t == AfterDelete(s, id)
    case Mark(id, b) =>
      var i := IndexOf(s.chain, id);
      t == if i < |s.chain| then s.(chain := MarkAt(s.chain, i, b)) else s
    case Retention(now, p, pinned) =>
      var r := Retain(s.chain, p, now, pinned);
      t == s.(chain := r, origins := Keep(s.origins, r))
  }

  ghost predicate Run(ss: seq<State>, ops: seq<Op>, sum: ChecksumFn, bs: nat)
    requires bs > 0
  {
    && |ss| == |ops| + 1
    && ss[0] == START
    && forall t {:trigger ops[t]} | 0 <= t < |ops| :: Step(ss[t], ops[t], ss[t + 1], sum, bs)
  }

  // --------------------------------------------------------------- invariants

  predicate ChainInv(s: State, sum: ChecksumFn) {
    WellFormed(s.chain) && Coherent(s.chain, sum) && Covers(s.file, s.chain)
  }

  /** The version shows what its origin says, and exactly when nothing clashed. */
  predicate Tells(f: Face, o: Origin) {
    && f.fileSize == o.size
    && |f.image| == |o.live|
    && (o.clash <==> f.image != o.live)
  }

  predicate OriginsInv(c: Chain, origins: map<nat, Origin>) {
    forall i | 0 <= i < |c| :: c[i].id in origins && Tells(Shown(c, i), origins[c[i].id])
  }

  ghost predicate HeldSeen(c: Chain, seen: set<Bytes>) {
    forall i, k: nat | 0 <= i < |c| && Present(c[i].held, k) :: c[i].held[k].value in seen
  }

  /** No two of these blocks share a checksum, and none has checksum 0. */
  ghost predicate Distinguishes(sum: ChecksumFn, seen: set<Bytes>) {
    && (forall a, b | a in seen && b in seen :: Sum(sum, a) == Sum(sum, b) ==> a == b)
    && (forall a | a in seen :: Sum(sum, a) != 0)
  }

  ghost predicate NoClash(s: State, sum: ChecksumFn) {
    Distinguishes(sum, s.seen) ==> forall id | id in s.origins :: !s.origins[id].clash
  }

  ghost predicate Inv(s: State, sum: ChecksumFn, bs: nat) {
    && ChainInv(s, sum)
    && Blocked(s.file, bs)
    && OriginsInv(s.chain, s.origins)
    && HeldSeen(s.chain, s.seen)
    && NoClash(s, sum)
  }

  // ------------------------------------------------------- the parts of a step

  ghost predicate CameFrom(c: Chain, d: Chain, j: nat) {
    exists i: nat :: SameVersion(c, i, d, j)
  }

  /** Origins follow the versions: whoever survives keeps its own. */
  lemma OriginsFollow(c: Chain, origins: map<nat, Origin>, d: Chain)
    requires OriginsInv(c, origins)
    requires forall j: nat | j < |d| :: CameFrom(c, d, j)
    ensures OriginsInv(d, Keep(origins, d))
  {
    forall j | 0 <= j < |d|
      ensures d[j].id in Keep(origins, d) && Tells(Shown(d, j), Keep(origins, d)[d[j].id])
    {
      assert CameFrom(c, d, j);
      var i: nat :| SameVersion(c, i, d, j);
      assert Shown(c, i).id == c[i].id && Shown(d, j).id == d[j].id;
      assert d[j].id in Ids(d);
    }
  }

  lemma OriginsAfterRemove(c: Chain, origins: map<nat, Origin>, i: nat)
    requires CountsFall(c) && OriginsInv(c, origins) && i < |c|
    ensures OriginsInv(Remove(c, i), Keep(origins, Remove(c, i)))
  {
    var d := Remove(c, i);
    RemoveShape(c, i);
    forall j: nat | j < |d| ensures CameFrom(c, d, j) {
      var o := if j < i then j else j + 1;
      RemoveKeepsOthers(c, i, o);
      assert SameVersion(c, o, d, j);
    }
    OriginsFollow(c, origins, d);
  }

  lemma OriginsAfterRetain(c: Chain, origins: map<nat, Origin>, p: Policy, now: int, pinned: bool)
    requires CountsFall(c) && OriginsInv(c, origins)
    ensures OriginsInv(Retain(c, p, now, pinned), Keep(origins, Retain(c, p, now, pinned)))
  {
    var d := Retain(c, p, now, pinned);
    forall j: nat | j < |d| ensures CameFrom(c, d, j) {
      if pinned {
        assert SameVersion(c, j, d, j);
      } else {
        var o := RetainSurvivor(c, |c| - 1, p, now, j);
      }
    }
    OriginsFollow(c, origins, d);
  }

  lemma NewIdFresh(c: Chain, j: nat)
    requires IdsFall(c) && j < |c|
    ensures c[j].id != NextId(c)
  {
  }

  lemma OriginsAfterCreate(s: State, sum: ChecksumFn, now: int)
    requires WellFormed(s.chain) && Covers(s.file, s.chain) && OriginsInv(s.chain, s.origins)
    ensures OriginsInv(Create(s.chain, sum, s.file, s.size, s.blocks, now), WithNewOrigin(s, sum))
  {
    var d := Create(s.chain, sum, s.file, s.size, s.blocks, now);
    CreateFaithful(s.chain, sum, s.file, s.size, s.blocks, now);
    assert d[0].id == NextId(s.chain);
    forall j: nat | j < |d|
      ensures d[j].id in WithNewOrigin(s, sum) && Tells(Shown(d, j), WithNewOrigin(s, sum)[d[j].id])
    {
      if j > 0 {
        assert d[j] == s.chain[j - 1];
        NewIdFresh(s.chain, j - 1);
        CreateKeepsOld(s.chain, d[0], j - 1);
      }
    }
  }

  lemma SeenAfterRemove(c: Chain, i: nat, seen: set<Bytes>)
    requires NodesOk(c) && CountsFall(c) && i < |c| && HeldSeen(c, seen)
    ensures HeldSeen(Remove(c, i), seen)
  {
    RemoveShape(c, i);
    var d := Remove(c, i);
    forall j, k: nat | 0 <= j < |d| && Present(d[j].held, k) ensures d[j].held[k].value in seen {
      if j == i - 1 && c[j].held[k].None? {
        var h := ResolveHolder(c, i, k);
        assert Present(c[h].held, k);
      } else {
        assert Present(c[if j < i then j else j + 1].held, k);
      }
    }
  }

  lemma {:induction false} SeenAfterRetain(c: Chain, i: int, p: Policy, now: int, seen: set<Bytes>)
    requires -1 <= i < |c| && NodesOk(c) && CountsFall(c) && HeldSeen(c, seen)
    ensures HeldSeen(RetainFrom(c, i, p, now), seen)
    decreases i + 1
  {
    if i >= 0 {
      if ShouldRemove(c, i, p, now, Total(c)) {
        RemoveNodesOk(c, i);
        RemoveKeepsCounts(c, i);
        SeenAfterRemove(c, i, seen);
        SeenAfterRetain(Remove(c, i), i - 1, p, now, seen);
      } else {
        SeenAfterRetain(c, i - 1, p, now, seen);
      }
    }
  }

  /** If checksums tell all blocks seen so far apart, creation misses no change. */
  lemma SeenNoClash(s: State, sum: ChecksumFn)
    requires ChainInv(s, sum) && HeldSeen(s.chain, s.seen)
    requires Distinguishes(sum, s.seen + BlocksIn(s.file))
    ensures !SomeClash(s.chain, sum, s.file)
  {
    var c := s.chain;
    if SomeClash(c, sum, s.file) {
      var k: nat :| Clash(c, sum, s.file, k);
      HeadChecksum(c, sum, k);
      assert s.file[k].value in BlocksIn(s.file);
      if Resolve(c, 0, k).Some? {
        var h := ResolveHolder(c, 0, k);
        assert Present(c[h].held, k);
      }
      assert false;
    }
  }

  lemma SnapshotKeepsChain(s: State, sum: ChecksumFn, now: int, later: int, p: Policy, pinned: bool)
    requires ChainInv(s, sum) && NonEmptyBlocks(s.file)
    ensures ChainInv(AfterSnapshot(s, sum, now, later, p, pinned), sum)
  {
    var d := Create(s.chain, sum, s.file, s.size, s.blocks, now);
    CreateWellFormed(s.chain, sum, s.file, s.size, s.blocks, now);
    CreateCoherent(s.chain, sum, s.file, s.size, s.blocks, now);
    CreateCovers(s.chain, sum, s.file, s.size, s.blocks, now);
    if !pinned { RetainKeepsInvariants(d, |d| - 1, p, later, sum, s.file); }
  }

  lemma SnapshotKeepsSeen(s: State, sum: ChecksumFn, now: int, later: int, p: Policy, pinned: bool)
    requires ChainInv(s, sum) && NonEmptyBlocks(s.file) && HeldSeen(s.chain, s.seen) && NoClash(s, sum)
    ensures var t := AfterSnapshot(s, sum, now, later, p, pinned);
            HeldSeen(t.chain, t.seen) && NoClash(t, sum)
  {
    var t := AfterSnapshot(s, sum, now, later, p, pinned);
    var d := Create(s.chain, sum, s.file, s.size, s.blocks, now);
    CreateWellFormed(s.chain, sum, s.file, s.size, s.blocks, now);
    SeenAfterCreate(s, sum, now);
    if !pinned { SeenAfterRetain(d, |d| - 1, p, later, t.seen); }
    if Distinguishes(sum, t.seen) { SeenNoClash(s, sum); }
  }

  lemma SnapshotKeepsInv(s: State, sum: ChecksumFn, bs: nat, now: int, later: int, p: Policy, pinned: bool)
    requires bs > 0 && Inv(s, sum, bs)
    ensures Inv(AfterSnapshot(s, sum, now, later, p, pinned), sum, bs)
  {
    var d := Create(s.chain, sum, s.file, s.size, s.blocks, now);
    SnapshotKeepsChain(s, sum, now, later, p, pinned);
    SnapshotKeepsSeen(s, sum, now, later, p, pinned);
    CreateWellFormed(s.chain, sum, s.file, s.size, s.blocks, now);
    OriginsAfterCreate(s, sum, now);
    OriginsAfterRetain(d, WithNewOrigin(s, sum), p, later, pinned);
  }

  lemma SeenAfterCreate(s: State, sum: ChecksumFn, now: int)
    requires HeldSeen(s.chain, s.seen)
    ensures HeldSeen(Create(s.chain, sum, s.file, s.size, s.blocks, now), s.seen + BlocksIn(s.file))
  {
  }

  lemma {:induction false} MarkKeepsResolve(c: Chain, i: nat, b: bool, j: nat, k: nat)
    requires i < |c|
    ensures Resolve(MarkAt(c, i, b), j, k) == Resolve(c, j, k)
    decreases |c| - j
  {
    if j < |c| { MarkKeepsResolve(c, i, b, j + 1, k); }
  }

  lemma MarkKeepsFace(c: Chain, i: nat, b: bool, j: nat)
    requires i < |c| && j < |c|
    ensures Shown(MarkAt(c, i, b), j) == Shown(c, j).(important := MarkAt(c, i, b)[j].important)
  {
    forall k: nat { MarkKeepsResolve(c, i, b, j, k); }
    assert Image(MarkAt(c, i, b), j) == Image(c, j);
  }

  lemma MarkNodesOk(c: Chain, i: nat, b: bool)
    requires NodesOk(c) && i < |c|
    ensures NodesOk(MarkAt(c, i, b))
  {
  }

  lemma MarkParentsNamed(c: Chain, i: nat, b: bool)
    requires ParentsNamed(c) && i < |c|
    ensures ParentsNamed(MarkAt(c, i, b))
  {
  }

  lemma MarkKeepsOrder(c: Chain, i: nat, b: bool)
    requires IdsFall(c) && CountsFall(c) && i < |c|
    ensures IdsFall(MarkAt(c, i, b)) && CountsFall(MarkAt(c, i, b))
  {
  }

  lemma MarkCoherent(c: Chain, i: nat, b: bool, sum: ChecksumFn)
    requires Coherent(c, sum) && i < |c|
    ensures Coherent(MarkAt(c, i, b), sum)
  {
    var d := MarkAt(c, i, b);
    forall j, k | 0 <= j < |d| && 0 <= k < |d[j].checksums|
      ensures d[j].checksums[k] == ChecksumOf(sum, Resolve(d, j, k))
    {
      MarkKeepsResolve(c, i, b, j, k);
      assert d[j].checksums == c[j].checksums;
    }
  }

  lemma MarkKeepsInv(s: State, sum: ChecksumFn, bs: nat, i: nat, b: bool)
    requires Inv(s, sum, bs) && i < |s.chain|
    ensures Inv(s.(chain := MarkAt(s.chain, i, b)), sum, bs)
  {
    var c, d := s.chain, MarkAt(s.chain, i, b);
    MarkNodesOk(c, i, b);
    MarkKeepsOrder(c, i, b);
    MarkParentsNamed(c, i, b);
    MarkCoherent(c, i, b, sum);
    forall k: nat { MarkKeepsResolve(c, i, b, 0, k); }
    forall j: nat | j < |d| ensures d[j].id in s.origins && Tells(Shown(d, j), s.origins[d[j].id]) {
      MarkKeepsFace(c, i, b, j);
    }
    forall j, k: nat | 0 <= j < |d| && Present(d[j].held, k) ensures d[j].held[k].value in s.seen {
      assert Present(c[j].held, k);
    }
  }

  /** Every step keeps the invariant. */
  lemma StepKeepsInv(s: State, op: Op, t: State, sum: ChecksumFn, bs: nat)
    requires bs > 0 && Inv(s, sum, bs) && Step(s, op, t, sum, bs)
    ensures Inv(t, sum, bs)
  {
    match op
    case Write(data, off) =>
      FlatFile.WriteExtends(s.file, t.file, bs, data, off);
      ExtendCovers(s.file, t.file, s.chain);
    case Resize(_, _) =>
    case Snapshot(now, later, p, pinned) => SnapshotKeepsInv(s, sum, bs, now, later, p, pinned);
    case ChangeRule(now, later, p, pinned) => SnapshotKeepsInv(s, sum, bs, now, later, p, pinned);
    case Delete(id) =>
      var i := IndexOf(s.chain, id);
      if t != s {
        RemoveWellFormed(s.chain, i);
        RemoveCoherent(s.chain, i, sum);
        RemoveCovers(s.chain, i, s.file);
        OriginsAfterRemove(s.chain, s.origins, i);
        SeenAfterRemove(s.chain, i, s.seen);
      }
    case Mark(id, b) =>
      var i := IndexOf(s.chain, id);
      if i < |s.chain| { MarkKeepsInv(s, sum, bs, i, b); }
    case Retention(now, p, pinned) =>
      OriginsAfterRetain(s.chain, s.origins, p, now, pinned);
      if !pinned {
        RetainKeepsInvariants(s.chain, |s.chain| - 1, p, now, sum, s.file);
        SeenAfterRetain(s.chain, |s.chain| - 1, p, now, s.seen);
      }
  }

  lemma {:induction false} RunKeepsInv(ss: seq<State>, ops: seq<Op>, sum: ChecksumFn, bs: nat, t: nat)
    requires bs > 0 && Run(ss, ops, sum, bs) && t < |ss|
    ensures Inv(ss[t], sum, bs)
  {
    if t > 0 {
      RunKeepsInv(ss, ops, sum, bs, t - 1);
      StepOfRun(ss, ops, sum, bs, t);
      StepKeepsInv(ss[t - 1], ops[t - 1], ss[t], sum, bs);
    } else {
      StartInv(sum, bs);
    }
  }

  lemma StepOfRun(ss: seq<State>, ops: seq<Op>, sum: ChecksumFn, bs: nat, t: nat)
    requires bs > 0 && Run(ss, ops, sum, bs) && 0 < t < |ss|
    ensures Step(ss[t - 1], ops[t - 1], ss[t], sum, bs)
  {
    var u := t - 1;
    assert Step(ss[u], ops[u], ss[u + 1], sum, bs);
  }

  lemma StartInv(sum: ChecksumFn, bs: nat)
    ensures Inv(START, sum, bs)
  {
  }

  // ------------------------------------------------------- what the versions store

  predicate SeenSized(s: State, bs: nat) {
    forall d | d in s.seen :: |d| == bs
  }

  lemma StepSeenSized(s: State, op: Op, t: State, sum: ChecksumFn, bs: nat)
    requires bs > 0 && Blocked(s.file, bs) && SeenSized(s, bs) && Step(s, op, t, sum, bs)
    ensures SeenSized(t, bs)
  {
  }

  lemma {:induction false} RunSeenSized(ss: seq<State>, ops: seq<Op>, sum: ChecksumFn, bs: nat, t: nat)
    requires bs > 0 && Run(ss, ops, sum, bs) && t < |ss|
    ensures SeenSized(ss[t], bs)
  {
    if t > 0 {
      RunSeenSized(ss, ops, sum, bs, t - 1);
      RunKeepsInv(ss, ops, sum, bs, t - 1);
      StepSeenSized(ss[t - 1], ops[t - 1], ss[t], sum, bs);
    }
  }

  /** In every state of every run, each version's byte count is the number of blocks it
      holds itself times the block size. */
  lemma RunStored(ss: seq<State>, ops: seq<Op>, sum: ChecksumFn, bs: nat, t: nat, i: nat)
    requires bs > 0 && Run(ss, ops, sum, bs) && t < |ss| && i < |ss[t].chain|
    ensures var v := ss[t].chain[i];
            v.storedBytes == |set k: nat | k < |v.held| && v.held[k].Some?| * bs
  {
    var v := ss[t].chain[i];
    RunKeepsInv(ss, ops, sum, bs, t);
    RunSeenSized(ss, ops, sum, bs, t);
    assert NodeOk(v);
    forall k | 0 <= k < |v.held| && v.held[k].Some? ensures |v.held[k].value| == bs {
      assert Present(v.held, k);
    }
    HeldBytesCount(v.held, bs);
  }

  // ------------------------------------------------------------- the theorems

  /** After every run, every surviving version shows exactly the map it was created
      from, if and only if no checksum hid a change at its creation; if checksums
      tell all blocks of the run's snapshots apart, none ever did. Reads then return
      the bytes of that map, cut to the size recorded. */
  lemma SurvivorsReadBack(ss: seq<State>, ops: seq<Op>, sum: ChecksumFn, bs: nat, t: nat, i: nat, off: nat, len: nat)
    requires bs > 0 && Run(ss, ops, sum, bs) && t < |ss| && i < |ss[t].chain|
    ensures ss[t].chain[i].id in ss[t].origins
    ensures var c, o := ss[t].chain, ss[t].origins[ss[t].chain[i].id];
            && (Image(c, i) == o.live <==> !o.clash)
            && (Distinguishes(sum, ss[t].seen) ==> !o.clash)
    ensures var c, o := ss[t].chain, ss[t].origins[ss[t].chain[i].id];
            var r := ReadVersion(c, i, bs, off, len);
            && |r| == (if off >= o.size then 0 else Min(len, o.size - off))
            && (!o.clash ==> FlatFile.BytesFrom(r, o.live, bs, off))
  {
    RunKeepsInv(ss, ops, sum, bs, t);
    var c := ss[t].chain;
    assert Tells(Shown(c, i), ss[t].origins[c[i].id]);
    FlatFile.ReadExact(Image(c, i), bs, c[i].fileSize, off, len);
  }

  predicate IsSnapshotOp(op: Op) {
    op.Snapshot? || op.ChangeRule?
  }

  /** The step created a version with this id that survived its own retention pass. */
  predicate Creates(s: State, op: Op, t: State, id: nat) {
    IsSnapshotOp(op) && id == NextId(s.chain) && id in t.origins && t != s
  }

  /** The origin on record is the file as the last snapshot that created the id found
      it, and the version has been there ever since. */
  lemma {:induction false} OriginFromHistory(ss: seq<State>, ops: seq<Op>, sum: ChecksumFn, bs: nat, t: nat, id: nat)
      returns (b: nat)
    requires bs > 0 && Run(ss, ops, sum, bs) && t < |ss| && id in ss[t].origins
    ensures b < t && Creates(ss[b], ops[b], ss[b + 1], id)
    ensures forall u | b < u < t :: Kept(ss, ops, u, id)
    ensures ss[t].origins[id] == Origin(ss[b].file, ss[b].size, SomeClash(ss[b].chain, sum, ss[b].file))
  {
    assert t > 0;
    OriginStep(ss[t - 1], ops[t - 1], ss[t], sum, bs, id);
    b := t - 1;
    if !Creates(ss[t - 1], ops[t - 1], ss[t], id) {
      b := OriginFromHistory(ss, ops, sum, bs, t - 1, id);
      forall u | b < u < t ensures Kept(ss, ops, u, id) {
        assert u < t - 1 ==> Kept(ss, ops, u, id);
      }
    }
  }

  /** The version with this id is there at time u, and step u does not create it anew. */
  predicate Kept(ss: seq<State>, ops: seq<Op>, u: nat, id: nat)
    requires u < |ops| < |ss|
  {
    id in ss[u].origins && !Creates(ss[u], ops[u], ss[u + 1], id)
  }

  /** One step either creates the id with its origin, or leaves the origin alone. */
  lemma OriginStep(s: State, op: Op, t: State, sum: ChecksumFn, bs: nat, id: nat)
    requires bs > 0 && Step(s, op, t, sum, bs) && id in t.origins
    ensures Creates(s, op, t, id) ==> t.origins[id] == Origin(s.file, s.size, SomeClash(s.chain, sum, s.file))
    ensures !Creates(s, op, t, id) ==> id in s.origins && t.origins[id] == s.origins[id]
  {
  }

  /** Version j of d is version i of c, up to the important mark. */
  predicate SameImage(c: Chain, i: nat, d: Chain, j: nat) {
    i < |c| && j < |d| && Shown(d, j) == Shown(c, i).(important := d[j].important)
  }

  lemma DeleteKeepsImages(s: State, id: nat, j: nat) returns (i: nat)
    requires CountsFall(s.chain) && j < |AfterDelete(s, id).chain|
    ensures SameImage(s.chain, i, AfterDelete(s, id).chain, j)
  {
    var c, x := s.chain, IndexOf(s.chain, id);
    i := j;
    if AfterDelete(s, id) != s {
      RemoveShape(c, x);
      i := if j < x then j else j + 1;
      RemoveKeepsOthers(c, x, i);
    }
  }

  lemma RetentionKeepsImages(c: Chain, p: Policy, now: int, pinned: bool, j: nat) returns (i: nat)
    requires CountsFall(c) && j < |Retain(c, p, now, pinned)|
    ensures SameVersion(c, i, Retain(c, p, now, pinned), j)
  {
    i := j;
    if !pinned { i := RetainSurvivor(c, |c| - 1, p, now, j); }
  }

  lemma SnapshotKeepsImages(s: State, sum: ChecksumFn, now: int, later: int, p: Policy, pinned: bool, j: nat)
      returns (i: nat)
    requires ChainInv(s, sum) && NonEmptyBlocks(s.file)
    requires j < |AfterSnapshot(s, sum, now, later, p, pinned).chain|
    ensures var r := AfterSnapshot(s, sum, now, later, p, pinned).chain;
            r[j].id == NextId(s.chain) || SameVersion(s.chain, i, r, j)
  {
    var d := Create(s.chain, sum, s.file, s.size, s.blocks, now);
    CreateWellFormed(s.chain, sum, s.file, s.size, s.blocks, now);
    var o := RetentionKeepsImages(d, p, later, pinned, j);
    i := BehindHead(s.chain, d[0], o, Retain(d, p, later, pinned), j);
  }

  lemma {:induction false} BehindHead(c: Chain, v: Version, o: nat, r: Chain, j: nat) returns (i: nat)
    requires CountsFall([v] + c) && SameVersion([v] + c, o, r, j)
    ensures r[j].id == v.id || SameVersion(c, i, r, j)
  {
    i := if o == 0 then 0 else o - 1;
    if o > 0 { CreateKeepsOld(c, v, i); }
  }

  /** Whatever checksums do, no step changes what an existing version shows: every
      version after the step was there before it with the same size, checksums and
      image, or is the snapshot the step took. */
  lemma StepKeepsImages(s: State, op: Op, t: State, sum: ChecksumFn, bs: nat, j: nat) returns (i: nat)
    requires bs > 0 && Inv(s, sum, bs) && Step(s, op, t, sum, bs) && j < |t.chain|
    ensures (IsSnapshotOp(op) && t.chain[j].id == NextId(s.chain)) || SameImage(s.chain, i, t.chain, j)
  {
    i := j;
    match op
    case Write(_, _) =>
    case Resize(_, _) =>
    case Snapshot(now, later, p, pinned) => i := SnapshotKeepsImages(s, sum, now, later, p, pinned, j);
    case ChangeRule(now, later, p, pinned) =>
      if t != s { i := SnapshotKeepsImages(s, sum, now, later, p, pinned, j); }
    case Delete(id) => i := DeleteKeepsImages(s, id, j);
    case Mark(id, b) =>
      if IndexOf(s.chain, id) < |s.chain| { MarkKeepsFace(s.chain, IndexOf(s.chain, id), b, j); }
    case Retention(now, p, pinned) => i := RetentionKeepsImages(s.chain, p, now, pinned, j);
  }

  /** The rule's step takes a snapshot exactly when there is history, the file has
      blocks, and more than a tenth of them would be stored by it. Otherwise nothing
      changes. */
  lemma RuleStep(s: State, rule: Op, t: State, sum: ChecksumFn, bs: nat)
    requires bs > 0 && Inv(s, sum, bs) && rule.ChangeRule? && Step(s, rule, t, sum, bs)
    ensures var c, m := s.chain, s.file;
            var v := NewVersion(c, sum, m, s.size, s.blocks, rule.now);
            if c != [] && m != [] && |v.diff| as real / |m| as real > 0.1 then
              t.chain == Retain([v] + c, rule.policy, rule.later, rule.pinned)
            else t == s
  {
    RuleCount(s.chain, sum, s.file, s.size, s.blocks, rule.now);
  }

  lemma NewestShown(s: State, now: int, later: int, p: Policy, pinned: bool, sum: ChecksumFn)
    requires ChainInv(s, sum) && NonEmptyBlocks(s.file)
    requires var r := AfterSnapshot(s, sum, now, later, p, pinned).chain; r != [] && r[0].id == NextId(s.chain)
    ensures var d := Create(s.chain, sum, s.file, s.size, s.blocks, now);
            Shown(AfterSnapshot(s, sum, now, later, p, pinned).chain, 0) == Shown(d, 0)
  {
    var d := Create(s.chain, sum, s.file, s.size, s.blocks, now);
    CreateWellFormed(s.chain, sum, s.file, s.size, s.blocks, now);
    var _ := RetentionKeepsImages(d, p, later, pinned, 0);
  }

  /** While the version that a snapshot or the rule created is the newest one, the
      one-tenth rule does nothing, under every policy and clock. */
  lemma RuleQuietAfterSnapshot(s: State, snap: Op, t: State, rule: Op, u: State, sum: ChecksumFn, bs: nat)
    requires bs > 0 && Inv(s, sum, bs) && IsSnapshotOp(snap) && Step(s, snap, t, sum, bs)
    requires t.chain != [] && t.chain[0].id == NextId(s.chain)
    requires rule.ChangeRule? && Step(t, rule, u, sum, bs)
    ensures u == t
  {
    assert t == AfterSnapshot(s, sum, snap.now, snap.later, snap.policy, snap.pinned);
    NewestShown(s, snap.now, snap.later, snap.policy, snap.pinned, sum);
    RuleQuietAfterCreate(s.chain, sum, s.file, s.size, s.blocks, snap.now, t.chain);
  }
}
