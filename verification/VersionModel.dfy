/** A file's version chain as a value: index 0 is the newest version, and the
    parent of a version is the one right after it.

    The heap classes in VersionChain.dfy are proved against these functions. */
module VersionModel {
  import opened Common
  import opened BlockModel

  type Checksum = bv32
  type ChecksumFn = Bytes -> Checksum

  /** Names the application, so that its value does not depend on a heap. */
  function Sum(sum: ChecksumFn, d: Bytes): Checksum {
    sum(d)
  }

  datatype Version = Version(
    id: nat,
    parentId: nat,
    created: int,
    important: bool,
    fileSize: nat,
    blocks: nat,
    checksums: seq<Checksum>,
    held: Content,        // the blocks this version stores itself
    diff: seq<nat>,       // indices of the blocks stored at creation
    storedBytes: nat)

  type Chain = seq<Version>

  /** Bytes of the blocks a version holds itself. */
  function HeldBytes(h: Content): nat {
    if h == [] then 0
    else HeldBytes(h[..|h| - 1]) + if h[|h| - 1].Some? then |h[|h| - 1].value| else 0
  }

  function Total(c: Chain): nat {
    if c == [] then 0 else c[0].storedBytes + Total(c[1..])
  }

  /** Block k as seen from version i: the version's own copy, or the nearest
      ancestor's. */
  function Resolve(c: Chain, i: nat, k: nat): Option<Bytes>
    decreases |c| - i
  {
    if i >= |c| then None
    else if k < |c[i].held| && c[i].held[k].Some? then c[i].held[k]
    else Resolve(c, i + 1, k)
  }

  /** Everything version i shows. */
  function Image(c: Chain, i: nat): Content
    requires i < |c|
  {
    seq(|c[i].held|, k requires 0 <= k => Resolve(c, i, k))
  }

  function ReadVersion(c: Chain, i: nat, bs: nat, off: nat, len: nat): Bytes
    requires i < |c| && bs > 0
  {
    ReadBytes(Image(c, i), bs, c[i].fileSize, off, len)
  }

  // ---------------------------------------------------------------- invariants

  predicate NodeOk(v: Version) {
    && v.id >= 1
    && |v.checksums| == |v.held|
    && (forall k | 0 <= k < |v.held| :: v.held[k].Some? ==> v.held[k].value != [])
    && v.storedBytes == HeldBytes(v.held)
  }

  predicate NodesOk(c: Chain) {
    forall i | 0 <= i < |c| :: NodeOk(c[i])
  }

  /** Ids strictly decrease towards the tail. */
  predicate IdsFall(c: Chain) {
    forall i, j | 0 <= i < j < |c| :: c[i].id > c[j].id
  }

  /** Block counts never shrink from old to new. */
  predicate CountsFall(c: Chain) {
    forall i, j | 0 <= i < j < |c| :: |c[i].held| >= |c[j].held|
  }

  /** Parent ids name the next version. */
  predicate ParentsNamed(c: Chain) {
    forall i | 0 <= i < |c| :: c[i].parentId == IdAt(c, i + 1)
  }

  /** The shape every chain keeps. */
  predicate WellFormed(c: Chain) {
    NodesOk(c) && IdsFall(c) && CountsFall(c) && ParentsNamed(c)
  }

  function IdAt(c: Chain, i: nat): nat {
    if i < |c| then c[i].id else 0
  }

  /** The recorded checksum of every block is the checksum of what it resolves
      to, and 0 where nothing resolves. */
  predicate Coherent(c: Chain, sum: ChecksumFn) {
    forall i, k | 0 <= i < |c| && 0 <= k < |c[i].checksums| ::
      c[i].checksums[k] == ChecksumOf(sum, Resolve(c, i, k))
  }

  function ChecksumOf(sum: ChecksumFn, b: Option<Bytes>): Checksum {
    match b
    case None => 0
    case Some(d) => Sum(sum, d)
  }

  // ------------------------------------------------------------------- removal

  /** The child's blocks after it copies what it inherited through version i. */
  function Filled(c: Chain, i: nat, held: Content): Content {
    seq(|held|, k requires 0 <= k < |held| => if held[k].Some? then held[k] else Resolve(c, i, k))
  }

  function Absorb(c: Chain, i: nat): Version
    requires 0 < i < |c|
  {
    var child := c[i - 1];
    var filled := Filled(c, i, child.held);
    child.(held := filled, storedBytes := HeldBytes(filled), parentId := IdAt(c, i + 1))
  }

  /** Delete version i: its child, if any, takes over the inherited blocks and
      its parent. */
  function Remove(c: Chain, i: nat): Chain
    requires i < |c|
  {
    if i == 0 then c[1..] else c[..i - 1] + [Absorb(c, i)] + c[i + 1..]
  }

  /** Set or clear the important mark of version i. */
  function MarkAt(c: Chain, i: nat, b: bool): Chain
    requires i < |c|
  {
    c[i := c[i].(important := b)]
  }

  // ------------------------------------------------------------------ creation

  /** Ids are given out one above the newest version's. */
  function NextId(c: Chain): nat {
    if c == [] then 1 else c[0].id + 1
  }

  function PrevChecksum(c: Chain, k: nat): Checksum {
    if c != [] && k < |c[0].checksums| then c[0].checksums[k] else 0
  }

  /** Whether the new version stores block k itself. */
  predicate Stores(c: Chain, sum: ChecksumFn, m: Content, k: nat)
    requires k < |m|
  {
    m[k].Some? && (c == [] || Sum(sum, m[k].value) != PrevChecksum(c, k))
  }

  function NewHeld(c: Chain, sum: ChecksumFn, m: Content): Content {
    seq(|m|, k requires 0 <= k < |m| => if Stores(c, sum, m, k) then m[k] else None)
  }

  function NewChecksums(sum: ChecksumFn, m: Content): seq<Checksum> {
    seq(|m|, k requires 0 <= k < |m| => ChecksumOf(sum, m[k]))
  }

  /** Indices below n that hold a block, in increasing order. */
  function HeldIndices(h: Content, n: nat): seq<nat>
    requires n <= |h|
  {
    if n == 0 then []
    else HeldIndices(h, n - 1) + if h[n - 1].Some? then [n - 1] else []
  }

  function NewVersion(c: Chain, sum: ChecksumFn, m: Content, size: nat, blocks: nat, now: int): Version {
    var held := NewHeld(c, sum, m);
    Version(
      NextId(c),
      IdAt(c, 0),
      now, false, size, blocks,
      NewChecksums(sum, m),
      held,
      HeldIndices(held, |held|),
      HeldBytes(held))
  }

  function Create(c: Chain, sum: ChecksumFn, m: Content, size: nat, blocks: nat, now: int): Chain {
    [NewVersion(c, sum, m, size, blocks, now)] + c
  }

  /** The number of blocks of m whose checksum differs from the newest version's. */
  function ChangedBlocks(c: Chain, sum: ChecksumFn, m: Content, n: nat): nat
    requires n <= |m|
  {
    if n == 0 then 0
    else ChangedBlocks(c, sum, m, n - 1) +
         if ChecksumOf(sum, m[n - 1]) != PrevChecksum(c, n - 1) then 1 else 0
  }

  // ----------------------------------------------------------------- retention

  /** keep: versions always kept; expire: age in seconds; limit: bytes, 0 for none. */
  datatype Policy = Policy(keep: nat, expire: nat, limit: nat)

  /** The removal rule for version i when `total` bytes are stored. */
  predicate ShouldRemove(c: Chain, i: nat, p: Policy, now: int, total: nat)
    requires i < |c|
  {
    && !c[i].important
    && (|| (|c| > p.keep && now - c[i].created > p.expire)
        || (p.limit != 0 && total > p.limit && |c| > 1))
  }

  /** Visit versions i, i-1, ..., 0 (oldest to newest) and remove those the rule names. */
  function RetainFrom(c: Chain, i: int, p: Policy, now: int): Chain
    requires -1 <= i < |c|
    decreases i + 1
  {
    if i < 0 then c
    else if ShouldRemove(c, i, p, now, Total(c)) then RetainFrom(Remove(c, i), i - 1, p, now)
    else RetainFrom(c, i - 1, p, now)
  }

  function Retain(c: Chain, p: Policy, now: int, pinned: bool): Chain {
    if pinned then c else RetainFrom(c, |c| - 1, p, now)
  }

  // ---------------------------------------------------------------- comparison

  function ChecksumAt(v: Version, k: nat): Checksum {
    if k < |v.checksums| then v.checksums[k] else 0
  }

  /** Number of block indices below n where the two versions' checksums differ. */
  function DiffBelow(a: Version, b: Version, n: nat): nat {
    if n == 0 then 0
    else DiffBelow(a, b, n - 1) + if ChecksumAt(a, n - 1) != ChecksumAt(b, n - 1) then 1 else 0
  }

  function Diff(a: Version, b: Version): nat {
    DiffBelow(a, b, Max(|a.checksums|, |b.checksums|))
  }
}
