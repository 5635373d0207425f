/** One file with its block array, its metadata and its version chain: the code's own
    operations, each proved to be a step of a run as VersionedRun.dfy understands it. */
module VersionedFile {
  import opened Common
  import opened VersionModel
  import opened VersionProofs
  import opened VersionChain
  import opened VersionManager
  import opened VersionedRun
  import opened BlockMap
  import opened Compression
  import opened VersionDiff
  import VersionReads

  class File {
    const blocks: BlockMap.Map
    const chain: VersionChain.Chain
    const meta: FileMeta
    const sum: ChecksumFn

    /** The parts are sound and share no object. */
    ghost predicate Valid()
      reads this, blocks, blocks.Repr, chain, chain.nodes
    {
      && blocks.Valid() && Sound(chain)
      && meta !in blocks.Repr && chain !in blocks.Repr && this !in blocks.Repr
      && (forall n | n in Objects(chain) :: n !in blocks.Repr)
    }

    /** The objects hold this state of the file. */
    ghost predicate Holds(s: State)
      requires Valid()
      reads this, blocks, blocks.Repr, chain, chain.nodes, meta
    {
      && s.file == blocks.Contents() && s.size == meta.size && s.blocks == meta.blocks
      && s.chain == chain.Versions()
    }

    constructor (blockSize: nat, codec: Codec, sum: ChecksumFn)
      requires blockSize > 0 && Lawful(codec)
      ensures Valid() && Holds(START)
      ensures fresh(blocks.Repr) && fresh(chain) && fresh(meta) && blocks.blockSize == blockSize && this.sum == sum
    {
      this.sum := sum;
      blocks := new BlockMap.Map(blockSize, codec);
      chain := new VersionChain.Chain();
      meta := new FileMeta();
    }

    method Write(data: Bytes, off: nat, cfg: Config, pick: nat -> (Algorithm, int), ghost s: State)
        returns (r: int, ghost t: State)
      requires Valid() && Holds(s) && cfg !in blocks.Repr
      modifies blocks.Repr, cfg, meta`size, meta`blocks
      ensures Valid() && Holds(t) && r == |data|
      ensures Step(s, Op.Write(data, off), t, sum, blocks.blockSize)
      ensures fresh(blocks.Repr - old(blocks.Repr))
    {
      r := blocks.SmartWrite(meta, data, off, cfg, pick);
      t := s.(file := blocks.Contents(), size := meta.size, blocks := meta.blocks);
    }

    /** Truncation: only the recorded size and block count change. */
    method Resize(size: nat, count: nat, ghost s: State) returns (ghost t: State)
      requires Valid() && Holds(s)
      modifies meta`size, meta`blocks
      ensures Valid() && Holds(t) && Step(s, Op.Resize(size, count), t, sum, blocks.blockSize)
    {
      meta.size, meta.blocks := size, count;
      t := s.(size := size, blocks := count);
    }

    method Snapshot(p: Policy, now: int, later: int, ghost s: State) returns (ghost t: State)
      requires Valid() && Holds(s) && Covers(s.file, s.chain)
      modifies chain, Objects(chain), meta`versionCount, meta`latestVersionId, meta`lastVersionTime
      ensures Valid() && Holds(t) && Step(s, Op.Snapshot(now, later, p, meta.pinned), t, sum, blocks.blockSize)
      ensures fresh(Objects(chain) - old(Objects(chain)))
    {
      CreateVersion(chain, blocks, meta, sum, p, now, later);
      t := AfterSnapshot(s, sum, now, later, p, meta.pinned);
    }

    method ChangeRule(p: Policy, now: int, later: int, ghost s: State) returns (ghost t: State)
      requires Valid() && Holds(s) && Covers(s.file, s.chain) && Coherent(s.chain, sum)
      modifies chain, Objects(chain), meta`versionCount, meta`latestVersionId, meta`lastVersionTime
      ensures Valid() && Holds(t) && Step(s, Op.ChangeRule(now, later, p, meta.pinned), t, sum, blocks.blockSize)
      ensures fresh(Objects(chain) - old(Objects(chain)))
    {
      var created := RuleFrom(p, now, later);
      t := RuleStepOf(s, p, now, later, meta.pinned, created, chain.Versions(), sum, blocks.blockSize);
    }

    method RuleFrom(p: Policy, now: int, later: int) returns (created: bool)
      requires Valid() && Covers(blocks.Contents(), chain.Versions()) && Coherent(chain.Versions(), sum)
      modifies chain, Objects(chain), meta`versionCount, meta`latestVersionId, meta`lastVersionTime
      ensures Sound(chain) && fresh(Objects(chain) - old(Objects(chain)))
      ensures var c, m := old(chain.Versions()), old(blocks.Contents());
              var v := NewVersion(c, sum, m, meta.size, meta.blocks, now);
              && (created <==> c != [] && m != [] && |v.diff| as real / |m| as real > 0.1)
              && chain.Versions() == if created then Retain([v] + c, p, later, meta.pinned) else c
    {
      created := MaybeChangeSnapshot(chain, blocks, meta, sum, p, now, later);
    }

    method Delete(id: nat, ghost s: State) returns (rc: int, ghost t: State)
      requires Valid() && Holds(s)
      modifies chain, Objects(chain), meta`versionCount, meta`latestVersionId
      ensures Valid() && Holds(t) && Step(s, Op.Delete(id), t, sum, blocks.blockSize)
      ensures Objects(chain) <= old(Objects(chain))
    {
      ghost var k;
      rc, k := DeleteFrom(id);
      t := DeleteStep(s, id, k, chain.Versions(), sum, blocks.blockSize);
    }

    method DeleteFrom(id: nat) returns (rc: int, ghost k: nat)
      requires Valid()
      modifies chain, Objects(chain), meta`versionCount, meta`latestVersionId
      ensures Valid() && Objects(chain) <= old(Objects(chain)) && blocks.Contents() == old(blocks.Contents())
      ensures var c := old(chain.Versions());
              && k <= |c| && (forall j | 0 <= j < k :: c[j].id != id) && (k < |c| ==> c[k].id == id)
              && chain.Versions() == if id == 0 || k == |c| || c[k].important then c else Remove(c, k)
    {
      rc, k := DeleteVersion(chain, id, meta);
    }

    method Mark(id: nat, b: bool, ghost s: State) returns (rc: int, ghost t: State)
      requires Valid() && Holds(s)
      modifies Objects(chain)
      ensures Valid() && Holds(t) && Step(s, Op.Mark(id, b), t, sum, blocks.blockSize)
      ensures Objects(chain) == old(Objects(chain))
    {
      ghost var k;
      rc, k := MarkFrom(id, b);
      FoundAt(s.chain, id, k);
      t := if k < |s.chain| then s.(chain := MarkAt(s.chain, k, b)) else s;
    }

    method MarkFrom(id: nat, b: bool) returns (rc: int, ghost k: nat)
      requires Valid()
      modifies Objects(chain)
      ensures Valid() && Objects(chain) == old(Objects(chain)) && blocks.Contents() == old(blocks.Contents())
      ensures var c := old(chain.Versions());
              && k <= |c| && (forall j | 0 <= j < k :: c[j].id != id) && (k < |c| ==> c[k].id == id)
              && chain.Versions() == if k < |c| then MarkAt(c, k, b) else c
    {
      ghost var c := chain.Versions();
      rc, k := MarkImportant(chain, id, b);
      MarkShaped(c, k, b);
    }

    method Retention(p: Policy, now: int, ghost s: State) returns (ghost t: State)
      requires Valid() && Holds(s)
      modifies chain, Objects(chain), meta`versionCount, meta`latestVersionId
      ensures Valid() && Holds(t) && Step(s, Op.Retention(now, p, meta.pinned), t, sum, blocks.blockSize)
      ensures Objects(chain) <= old(Objects(chain))
    {
      RetainChain(p, now);
      ghost var r := Retain(s.chain, p, now, meta.pinned);
      t := s.(chain := r, origins := Keep(s.origins, r));
    }

    method RetainChain(p: Policy, now: int)
      requires Valid()
      modifies chain, Objects(chain), meta`versionCount, meta`latestVersionId
      ensures Sound(chain) && Objects(chain) <= old(Objects(chain))
      ensures chain.Versions() == Retain(old(chain.Versions()), p, now, meta.pinned)
    {
      ApplyRetention(chain, meta, p, now);
    }

    /** Reading any version of a file with any history: unless a checksum hid a change
        when the version was made, the buffer gets the bytes the file had then. */
    method ReadBack(vn: Node, ghost i: nat, buf: array<Byte>, len: nat, off: nat, ghost s: State) returns (r: nat)
      requires Valid() && Holds(s) && OriginsInv(s.chain, s.origins) && NoClash(s, sum)
      requires i < |chain.nodes| && chain.nodes[i] == vn && len <= buf.Length
      modifies buf
      ensures vn.versionId in s.origins
      ensures var o := s.origins[vn.versionId];
              && r == (if off >= o.size then 0 else Min(len, o.size - off))
              && (Distinguishes(sum, s.seen) ==> !o.clash)
              && (!o.clash && r > 0 ==> FlatFile.BytesFrom(buf[..r], o.live, blocks.blockSize, off))
    {
      assert chain.Versions()[i] == vn.View();
      assert Tells(Shown(s.chain, i), s.origins[vn.versionId]);
      r := VersionReads.ReadVersionData(chain, vn, i, blocks.blockSize, buf, len, off);
    }
  }

  /** A deletion as a step, from where the version was found and what was left. */
  lemma DeleteStep(s: State, id: nat, k: nat, d: VersionModel.Chain, sum: ChecksumFn, bs: nat) returns (t: State)
    requires bs > 0 && k <= |s.chain|
    requires (forall j | 0 <= j < k :: s.chain[j].id != id) && (k < |s.chain| ==> s.chain[k].id == id)
    requires d == if id == 0 || k == |s.chain| || s.chain[k].important then s.chain else Remove(s.chain, k)
    ensures Step(s, Op.Delete(id), t, sum, bs)
    ensures t.file == s.file && t.size == s.size && t.blocks == s.blocks && t.chain == d
  {
    FoundAt(s.chain, id, k);
    t := AfterDelete(s, id);
  }

  /** A check of the rule as a step, from what it decided and what was left. */
  lemma RuleStepOf(s: State, p: Policy, now: int, later: int, pinned: bool, created: bool, d: VersionModel.Chain,
                   sum: ChecksumFn, bs: nat) returns (t: State)
    requires bs > 0 && Shaped(s.chain) && Covers(s.file, s.chain) && Coherent(s.chain, sum)
    requires var c, m := s.chain, s.file;
             var v := NewVersion(c, sum, m, s.size, s.blocks, now);
             && (created <==> c != [] && m != [] && |v.diff| as real / |m| as real > 0.1)
             && d == if created then Retain([v] + c, p, later, pinned) else c
    ensures Step(s, Op.ChangeRule(now, later, p, pinned), t, sum, bs)
    ensures t.file == s.file && t.size == s.size && t.blocks == s.blocks && t.chain == d
  {
    ShapedIsWellFormed(s.chain);
    RuleCount(s.chain, sum, s.file, s.size, s.blocks, now);
    t := if created then AfterSnapshot(s, sum, now, later, p, pinned) else s;
  }

  // --------------------------------------------------------------- any sequence

  datatype Command =
    | WriteAt(data: Bytes, off: nat, pick: nat -> (Algorithm, int))
    | Truncate(size: nat, count: nat)
    | TakeVersion(policy: Policy, now: int, later: int)
    | ApplyRule(policy: Policy, now: int, later: int)
    | DeleteId(id: nat)
    | MarkId(id: nat, important: bool)
    | RetainNow(policy: Policy, now: int)
    | Pin(on: bool)

  /** The step a command stands for; pinning decides how later ones go. */
  function OpOf(cmd: Command, pinned: bool): Op
    requires !cmd.Pin?
  {
    match cmd
    case WriteAt(data, off, _) => Op.Write(data, off)
    case Truncate(size, count) => Op.Resize(size, count)
    case TakeVersion(p, now, later) => Op.Snapshot(now, later, p, pinned)
    case ApplyRule(p, now, later) => Op.ChangeRule(now, later, p, pinned)
    case DeleteId(id) => Op.Delete(id)
    case MarkId(id, b) => Op.Mark(id, b)
    case RetainNow(p, now) => Op.Retention(now, p, pinned)
  }

  /** The steps of a sequence of commands, each with the pin set last before it. */
  function OpsOf(cmds: seq<Command>, pinned: bool): seq<Op> {
    if cmds == [] then []
    else if cmds[0].Pin? then OpsOf(cmds[1..], cmds[0].on)
    else [OpOf(cmds[0], pinned)] + OpsOf(cmds[1..], pinned)
  }

  /** One command on the objects is that step. */
  method Do(f: File, cmd: Command, cfg: Config, ghost s: State) returns (ghost t: State)
    requires f.Valid() && f.Holds(s) && cfg !in f.blocks.Repr && !cmd.Pin?
    requires Covers(s.file, s.chain) && Coherent(s.chain, f.sum)
    modifies f.blocks.Repr, cfg, f.chain, Objects(f.chain)
    modifies f.meta`size, f.meta`blocks, f.meta`versionCount, f.meta`latestVersionId, f.meta`lastVersionTime
    ensures f.Valid() && f.Holds(t) && cfg !in f.blocks.Repr
    ensures Step(s, OpOf(cmd, f.meta.pinned), t, f.sum, f.blocks.blockSize)
    ensures fresh(f.blocks.Repr - old(f.blocks.Repr)) && fresh(Objects(f.chain) - old(Objects(f.chain)))
  {
    var rc;
    match cmd
    case WriteAt(data, off, pick) => rc, t := f.Write(data, off, cfg, pick, s);
    case Truncate(size, count) => t := f.Resize(size, count, s);
    case TakeVersion(p, now, later) => t := f.Snapshot(p, now, later, s);
    case ApplyRule(p, now, later) => t := f.ChangeRule(p, now, later, s);
    case DeleteId(id) => rc, t := f.Delete(id, s);
    case MarkId(id, b) => rc, t := f.Mark(id, b, s);
    case RetainNow(p, now) => t := f.Retention(p, now, s);
  }

  lemma RunExtend(ss: seq<State>, ops: seq<Op>, op: Op, t: State, sum: ChecksumFn, bs: nat)
      returns (ss': seq<State>, ops': seq<Op>)
    requires bs > 0 && Run(ss, ops, sum, bs) && Step(ss[|ops|], op, t, sum, bs)
    ensures Run(ss', ops', sum, bs) && ops' == ops + [op] && ss'[|ops'|] == t
  {
    ss', ops' := ss + [t], ops + [op];
    forall n {:trigger ops'[n]} | 0 <= n < |ops'| ensures Step(ss'[n], ops'[n], ss'[n + 1], sum, bs) {
      if n < |ops| {
        assert ops'[n] == ops[n];
      }
    }
  }

  lemma RunCovers(ss: seq<State>, ops: seq<Op>, sum: ChecksumFn, bs: nat, s: State)
    requires bs > 0 && Run(ss, ops, sum, bs) && s == ss[|ops|]
    ensures Covers(s.file, s.chain) && Coherent(s.chain, sum)
  {
    RunKeepsInv(ss, ops, sum, bs, |ops|);
  }

  /** Any sequence of commands on a new file is a run, so everything proved of runs
      holds of the objects. */
  method Perform(f: File, cmds: seq<Command>, cfg: Config) returns (ghost ss: seq<State>, ghost ops: seq<Op>)
    requires f.Valid() && f.Holds(START) && cfg !in f.blocks.Repr
    modifies f.blocks.Repr, cfg, f.chain, Objects(f.chain)
    modifies f.meta
    ensures f.Valid() && ops == OpsOf(cmds, old(f.meta.pinned))
    ensures Run(ss, ops, f.sum, f.blocks.blockSize) && f.Holds(ss[|ops|])
  {
    ss, ops := [START], [];
    var n := 0;
    assert cmds[0..] == cmds;
    while n < |cmds|
      invariant 0 <= n <= |cmds|
      invariant ops + OpsOf(cmds[n..], f.meta.pinned) == OpsOf(cmds, old(f.meta.pinned))
      invariant Run(ss, ops, f.sum, f.blocks.blockSize)
      invariant f.Valid() && f.Holds(ss[|ops|]) && cfg !in f.blocks.Repr
      invariant fresh(f.blocks.Repr - old(f.blocks.Repr)) && fresh(Objects(f.chain) - old(Objects(f.chain)))
    {
      OpsNext(ops, cmds, n, f.meta.pinned);
      ss, ops := Obey(f, cmds[n], cfg, ss, ops);
      n := n + 1;
    }
  }

  /** One more command, a step of the run or a change of the pin. */
  method Obey(f: File, cmd: Command, cfg: Config, ghost ss: seq<State>, ghost ops: seq<Op>)
      returns (ghost ss': seq<State>, ghost ops': seq<Op>)
    requires f.Valid() && cfg !in f.blocks.Repr
    requires Run(ss, ops, f.sum, f.blocks.blockSize) && f.Holds(ss[|ops|])
    modifies f.blocks.Repr, cfg, f.chain, Objects(f.chain)
    modifies f.meta
    ensures f.Valid() && cfg !in f.blocks.Repr
    ensures ops' == if cmd.Pin? then ops else ops + [OpOf(cmd, old(f.meta.pinned))]
    ensures f.meta.pinned == if cmd.Pin? then cmd.on else old(f.meta.pinned)
    ensures Run(ss', ops', f.sum, f.blocks.blockSize) && f.Holds(ss'[|ops'|])
    ensures fresh(f.blocks.Repr - old(f.blocks.Repr)) && fresh(Objects(f.chain) - old(Objects(f.chain)))
  {
    if cmd.Pin? {
      f.meta.pinned := cmd.on;
      ss', ops' := ss, ops;
    } else {
      ss', ops' := DoNext(f, cmd, cfg, ss, ops);
    }
  }

  lemma OpsNext(ops: seq<Op>, cmds: seq<Command>, n: nat, pinned: bool)
    requires n < |cmds|
    ensures ops + OpsOf(cmds[n..], pinned)
         == if cmds[n].Pin? then ops + OpsOf(cmds[n + 1..], cmds[n].on)
            else ops + [OpOf(cmds[n], pinned)] + OpsOf(cmds[n + 1..], pinned)
  {
    assert cmds[n..][1..] == cmds[n + 1..];
  }

  /** One more command of a run. */
  method DoNext(f: File, cmd: Command, cfg: Config, ghost ss: seq<State>, ghost ops: seq<Op>)
      returns (ghost ss': seq<State>, ghost ops': seq<Op>)
    requires f.Valid() && cfg !in f.blocks.Repr && !cmd.Pin?
    requires Run(ss, ops, f.sum, f.blocks.blockSize) && f.Holds(ss[|ops|])
    modifies f.blocks.Repr, cfg, f.chain, Objects(f.chain)
    modifies f.meta`size, f.meta`blocks, f.meta`versionCount, f.meta`latestVersionId, f.meta`lastVersionTime
    ensures f.Valid() && cfg !in f.blocks.Repr && ops' == ops + [OpOf(cmd, f.meta.pinned)]
    ensures Run(ss', ops', f.sum, f.blocks.blockSize) && f.Holds(ss'[|ops'|])
    ensures fresh(f.blocks.Repr - old(f.blocks.Repr)) && fresh(Objects(f.chain) - old(Objects(f.chain)))
  {
    ghost var s, op := ss[|ops|], OpOf(cmd, f.meta.pinned);
    RunCovers(ss, ops, f.sum, f.blocks.blockSize, s);
    ghost var t := Do(f, cmd, cfg, s);
    ss', ops' := RunExtend(ss, ops, op, t, f.sum, f.blocks.blockSize);
  }

  lemma MarkShaped(c: VersionModel.Chain, k: nat, b: bool)
    requires Shaped(c)
    ensures k < |c| ==> Shaped(MarkAt(c, k, b))
  {
    if k < |c| {
      ShapedIsWellFormed(c);
      ShapedIsWellFormed(MarkAt(c, k, b));
      MarkNodesOk(c, k, b);
      MarkKeepsOrder(c, k, b);
      MarkParentsNamed(c, k, b);
    }
  }

  lemma {:induction false} FoundAt(c: VersionModel.Chain, id: nat, k: nat)
    requires k <= |c| && (forall j | 0 <= j < k :: c[j].id != id) && (k < |c| ==> c[k].id == id)
    ensures IndexOf(c, id) == k
  {
    if k > 0 {
      forall j | 0 <= j < k - 1 ensures c[1..][j].id != id {
        assert c[1..][j] == c[j + 1];
      }
      FoundAt(c[1..], id, k - 1);
    }
  }
}
