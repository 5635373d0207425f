/** The linked version chain of one file (version_manager.c), proved against the
    functions of VersionModel.dfy. */
module VersionChain {
  import opened Common
  import opened BlockModel
  import opened VersionModel
  import opened VersionProofs
  import opened VersionAccounting
  import opened BlockMap

  class Node {
    var versionId: nat
    var parentId: nat
    var parent: Node?
    var createTime: int
    var isImportant: bool
    var fileSize: nat
    var blocks: nat
    var checksums: seq<Checksum>
    var snapshots: Content        // has_data, data and size of each entry
    var diffBlocks: seq<nat>
    var storedBytes: nat
    var next: Node?
    var prev: Node?

    constructor (versionId: nat, parent: Node?, parentId: nat, createTime: int, fileSize: nat, blocks: nat,
                 blockCount: nat)
      ensures View() == Version(versionId, parentId, createTime, false, fileSize, blocks,
                                seq(blockCount, _ => 0), seq(blockCount, _ => None), [], 0)
      ensures this.parent == parent && next == null && prev == null
    {
      this.versionId, this.parentId, this.parent := versionId, parentId, parent;
      this.createTime, isImportant := createTime, false;
      this.fileSize, this.blocks := fileSize, blocks;
      checksums := seq(blockCount, _ => 0);
      snapshots := seq(blockCount, _ => None);
      diffBlocks, storedBytes := [], 0;
      next, prev := null, null;
    }

    ghost function View(): Version
      reads this
    {
      Version(versionId, parentId, createTime, isImportant, fileSize, blocks,
              checksums, snapshots, diffBlocks, storedBytes)
    }
  }

  // ---------------------------------------------------------- sequences of nodes

  ghost function Views(ns: seq<Node>): (c: VersionModel.Chain)
    reads ns
    ensures |c| == |ns|
  {
    seq(|ns|, i requires 0 <= i < |ns| reads ns => ns[i].View())
  }

  ghost function At(ns: seq<Node>, i: int): Node? {
    if 0 <= i < |ns| then ns[i] else null
  }

  ghost predicate Distinct(ns: seq<Node>) {
    forall i, j | 0 <= i < j < |ns| :: ns[i] != ns[j]
  }

  /** Each node's parent pointer names the next node of the sequence. */
  ghost predicate ParentPath(ns: seq<Node>)
    reads ns
  {
    forall i {:trigger ns[i].parent} | 0 <= i < |ns| :: ns[i].parent == At(ns, i + 1)
  }

  /** next and prev are inverse and follow the sequence. */
  ghost predicate Linked(ns: seq<Node>)
    reads ns
  {
    && (forall i {:trigger ns[i].next} | 0 <= i < |ns| :: ns[i].next == At(ns, i + 1))
    && (forall i {:trigger ns[i].prev} | 0 <= i < |ns| :: ns[i].prev == At(ns, i - 1))
  }

  ghost function Without(ns: seq<Node>, i: nat): seq<Node>
    requires i < |ns|
  {
    ns[..i] + ns[i + 1..]
  }

  /** snapshot_get_block_data: walk the parent pointers to the nearest copy. */
  method SnapshotGetBlockData(vn: Node, k: nat, ghost path: seq<Node>) returns (d: Option<Bytes>)
    requires path != [] && path[0] == vn && ParentPath(path)
    ensures d == Resolve(Views(path), 0, k)
  {
    var cur: Node? := vn;
    ghost var j := 0;
    while cur != null
      invariant 0 <= j <= |path| && cur == At(path, j)
      invariant Resolve(Views(path), 0, k) == Resolve(Views(path), j, k)
      decreases |path| - j
    {
      if k < |cur.snapshots| && cur.snapshots[k].Some? {
        return cur.snapshots[k];
      }
      cur := cur.parent;
      j := j + 1;
    }
    d := None;
  }

  /** Nothing resolves to an empty block, so the size test in the copy loop only
      skips blocks that do not resolve. */
  ghost predicate NoEmptyBlocks(c: VersionModel.Chain) {
    forall k: nat :: Resolve(c, 0, k) != Some([])
  }

  /** Bytes the child of version i gains when version i is removed. */
  ghost function Growth(c: VersionModel.Chain, i: nat): int
    requires i < |c|
  {
    if i > 0 then Absorb(c, i).storedBytes - c[i - 1].storedBytes else 0
  }

  /** What removing version i needs to know of the chain. */
  ghost predicate Removable(c: VersionModel.Chain, i: nat) {
    && i < |c|
    && NoEmptyBlocks(c[i..])
    && (i > 0 ==> c[i - 1].storedBytes == HeldBytes(c[i - 1].held))
  }

  lemma SoundIsRemovable(c: VersionModel.Chain, i: nat)
    requires NodesOk(c) && CountsFall(c) && i < |c|
    ensures Removable(c, i)
  {
    var d := c[i..];
    forall k: nat ensures Resolve(d, 0, k) != Some([]) {
      assert d[0..] == d;
      ResolveShift(d, 0, c, i, k);
      if Resolve(c, i, k).Some? {
        var _ := ResolveHolder(c, i, k);
      }
    }
    if i > 0 { assert NodeOk(c[i - 1]); }
  }

  /** One iteration of the copy loop. */
  method MaterialiseBlock(iter: Node, del: Node, i: nat, ghost path: seq<Node>) returns (added: nat)
    requires path != [] && path[0] == del && ParentPath(path) && iter !in path
    requires NoEmptyBlocks(Views(path)) && i < |iter.snapshots|
    modifies iter`snapshots, iter`storedBytes
    ensures iter.snapshots == old(iter.snapshots)[i :=
              if old(iter.snapshots)[i].Some? then old(iter.snapshots)[i] else Resolve(Views(path), 0, i)]
    ensures iter.storedBytes == old(iter.storedBytes) + added
    ensures HeldBytes(iter.snapshots) == HeldBytes(old(iter.snapshots)) + added
    ensures ParentPath(path) && Views(path) == old(Views(path))
  {
    added := 0;
    if iter.snapshots[i].None? {
      var d := SnapshotGetBlockData(del, i, path);
      if d.Some? && |d.value| > 0 {
        HeldBytesFill(iter.snapshots, i, d.value);
        iter.snapshots := iter.snapshots[i := d];
        iter.storedBytes := iter.storedBytes + |d.value|;
        added := |d.value|;
      } else {
        assert d != Some([]);
      }
    }
    assert added == 0 ==> iter.snapshots == old(iter.snapshots);
  }

  lemma CopyStep<T>(goal: seq<T>, was: seq<T>, i: nat)
    requires i < |goal| == |was|
    ensures (goal[..i] + was[i..])[i := goal[i]] == goal[..i + 1] + was[i + 1..]
    ensures (goal[..i] + was[i..])[i] == was[i]
  {
  }

  /** The inner loop of version_remove_node_locked: give `iter` its own copy of
      every block it inherited through `del`. */
  method Materialise(iter: Node, del: Node, ghost path: seq<Node>) returns (added: nat)
    requires path != [] && path[0] == del && ParentPath(path) && iter !in path
    requires NoEmptyBlocks(Views(path))
    modifies iter`snapshots, iter`storedBytes
    ensures iter.snapshots == Filled(Views(path), 0, old(iter.snapshots))
    ensures iter.storedBytes == old(iter.storedBytes) + added
    ensures HeldBytes(iter.snapshots) == HeldBytes(old(iter.snapshots)) + added
  {
    ghost var was := iter.snapshots;
    ghost var goal := Filled(Views(path), 0, was);
    added := 0;
    var i := 0;
    while i < |iter.snapshots|
      invariant 0 <= i <= |was|
      invariant ParentPath(path) && Views(path) == old(Views(path))
      invariant iter.snapshots == goal[..i] + was[i..]
      invariant iter.storedBytes == old(iter.storedBytes) + added
      invariant HeldBytes(iter.snapshots) == HeldBytes(was) + added
    {
      CopyStep(goal, was, i);
      var a := MaterialiseBlock(iter, del, i, path);
      added := added + a;
      i := i + 1;
    }
  }

  /** What a version becomes when it inherits from `path` no longer. */
  ghost function Adopted(v: Version, path: VersionModel.Chain): Version {
    var filled := Filled(path, 0, v.held);
    v.(held := filled, storedBytes := HeldBytes(filled), parentId := IdAt(path, 1))
  }

  /** Repair one child of `del`: copy what it inherited, then redirect its parent. */
  method Adopt(child: Node, del: Node, ghost path: seq<Node>) returns (added: nat)
    requires path != [] && path[0] == del && ParentPath(path) && child !in path
    requires NoEmptyBlocks(Views(path))
    requires child.storedBytes == HeldBytes(child.snapshots)
    modifies child
    ensures child.View() == Adopted(old(child.View()), old(Views(path)))
    ensures child.parent == At(path, 1)
    ensures child.next == old(child.next) && child.prev == old(child.prev)
    ensures child.storedBytes == old(child.storedBytes) + added
  {
    added := Materialise(child, del, path);
    child.parent := del.parent;
    child.parentId := if del.parent != null then del.parent.versionId else 0;
  }

  lemma AdoptedIsAbsorb(c: VersionModel.Chain, i: nat)
    requires 0 < i < |c|
    ensures Adopted(c[i - 1], c[i..]) == Absorb(c, i)
  {
    forall k: nat ensures Resolve(c[i..], 0, k) == Resolve(c, i, k) {
      assert c[i..][0..] == c[i..];
      ResolveShift(c[i..], 0, c, i, k);
    }
    assert Filled(c[i..], 0, c[i - 1].held) == Filled(c, i, c[i - 1].held);
    assert IdAt(c[i..], 1) == IdAt(c, i + 1);
  }

  class Chain {
    var head: Node?
    var tail: Node?
    var count: nat
    ghost var nodes: seq<Node>

    ghost predicate Valid()
      reads this, nodes
    {
      && count == |nodes|
      && head == At(nodes, 0) && tail == At(nodes, |nodes| - 1)
      && Distinct(nodes) && Linked(nodes) && ParentPath(nodes)
    }

    ghost function Versions(): VersionModel.Chain
      reads this, nodes
    {
      Views(nodes)
    }

    constructor ()
      ensures Valid() && Versions() == []
    {
      head, tail, count, nodes := null, null, 0, [];
    }

    /** Make the neighbours of `del` point past it. */
    method Splice(del: Node, ghost i: nat)
      requires Valid() && i < |nodes| && nodes[i] == del
      modifies this`head, this`tail, nodes`next, nodes`prev
      ensures LinkedAround(nodes, i)
      ensures head == if i == 0 then At(nodes, 1) else At(nodes, 0)
      ensures tail == if i == |nodes| - 1 then At(nodes, i - 1) else At(nodes, |nodes| - 1)
      ensures forall n | n in nodes :: n.View() == old(n.View())
    {
      var prev, next := del.prev, del.next;
      assert prev == At(nodes, i - 1) && next == At(nodes, i + 1);
      if prev != null {
        prev.next := next;
      } else {
        head := next;
      }
      if next != null {
        next.prev := prev;
      } else {
        tail := prev;
      }
    }

    /** Take `del` out of the doubly linked list. */
    method Unlink(del: Node, ghost i: nat)
      requires Valid() && i < |nodes| && nodes[i] == del
      modifies this`head, this`tail, this`nodes, nodes`next, nodes`prev
      ensures nodes == Without(old(nodes), i)
      ensures head == At(nodes, 0) && tail == At(nodes, |nodes| - 1) && Linked(nodes)
      ensures Views(old(nodes)) == old(Versions()) && ParentPath(old(nodes))
    {
      Splice(del, i);
      SameViews(nodes);
      LinkedWithout(nodes, i);
      nodes := Without(nodes, i);
    }

    /** The loop over the remaining versions: whoever had `del` as its parent gets
        its own copies and `del`'s parent. `was` is the list before unlinking. */
    method RepairChildren(del: Node, ghost was: seq<Node>, ghost i: nat) returns (added: nat)
      requires i < |was| && was[i] == del && nodes == Without(was, i)
      requires head == At(nodes, 0) && Linked(nodes) && ParentPath(was) && Distinct(was)
      requires Removable(Views(was), i)
      modifies nodes
      ensures Linked(nodes) && ParentPath(nodes)
      ensures Views(nodes) == Remove(old(Views(was)), i)
      ensures added == Growth(old(Views(was)), i)
    {
      ghost var c := Views(was);
      added := 0;
      var iter := head;
      ghost var j := 0;
      while iter != null
        invariant 0 <= j <= |nodes| && iter == At(nodes, j) && nodes == old(nodes)
        invariant Linked(nodes)
        invariant Pending(was, i, j, c)
        invariant added == if i <= j then Growth(c, i) else 0
        decreases |nodes| - j
      {
        var a := RepairChild(iter, del, was, i, j, c);
        added := added + a;
        iter := iter.next;
        j := j + 1;
      }
      RepairedViews(was, i, c);
      RepairedParents(was, i, c);
    }

    /** Unlinking and repairing: the list part of version_remove_node_locked. */
    method TakeOut(del: Node, ghost i: nat) returns (prev: Node?, added: nat)
      requires Valid() && i < |nodes| && nodes[i] == del && Removable(Versions(), i)
      modifies this, nodes
      ensures Valid() && nodes == Without(old(nodes), i)
      ensures Versions() == Remove(old(Versions()), i)
      ensures prev == At(old(nodes), i - 1)
      ensures added == Growth(old(Versions()), i)
      ensures del.versionId == old(del.versionId)
    {
      ghost var was := nodes;
      prev := del.prev;
      Unlink(del, i);
      DistinctWithout(was, i);
      added := RepairChildren(del, was, i);
      count := count - 1;
    }

    /** version_remove_node_locked: take `del` out and correct the file's counters.
        Returns the next newer version and the bytes copied into the child. */
    method RemoveNode(del: Node, ghost i: nat, meta: FileMeta?) returns (prev: Node?, added: nat)
      requires Valid() && i < |nodes| && nodes[i] == del && Removable(Versions(), i)
      modifies this, nodes, MetaFrame(meta)`versionCount, MetaFrame(meta)`latestVersionId
      ensures Valid() && nodes == Without(old(nodes), i)
      ensures Versions() == Remove(old(Versions()), i)
      ensures prev == At(old(nodes), i - 1)
      ensures Total(Versions()) == Total(old(Versions())) - old(del.storedBytes) + added
      ensures meta != null ==>
                && meta.versionCount == Max(0, old(meta.versionCount) - 1)
                && meta.latestVersionId == (if old(meta.latestVersionId) == old(del.versionId)
                                            then IdAt(Versions(), 0) else old(meta.latestVersionId))
    {
      RemovedTotal(Versions(), i);
      assert Versions()[i] == del.View();
      prev, added := TakeOut(del, i);
      if meta != null {
        NoteRemoval(meta, del.versionId);
      }
    }

    /** Insert a new version at the head. */
    method Push(vn: Node)
      requires Valid() && vn !in nodes && vn.parent == head
      modifies this, nodes`prev, vn
      ensures Valid() && nodes == [vn] + old(nodes)
      ensures Versions() == [old(vn.View())] + old(Versions())
    {
      ghost var was := nodes;
      vn.next := head;
      vn.prev := null;
      if head != null {
        head.prev := vn;
      }
      head := vn;
      if tail == null {
        tail := vn;
      }
      count := count + 1;
      nodes := [vn] + nodes;
      PushedLinks(vn, was);
    }

    method NoteRemoval(meta: FileMeta, id: nat)
      requires Valid()
      modifies meta`versionCount, meta`latestVersionId
      ensures meta.versionCount == Max(0, old(meta.versionCount) - 1)
      ensures meta.latestVersionId == if old(meta.latestVersionId) == id then IdAt(Versions(), 0)
                                      else old(meta.latestVersionId)
    {
      if meta.versionCount > 0 {
        meta.versionCount := meta.versionCount - 1;
      }
      if meta.latestVersionId == id {
        meta.latestVersionId := if head != null then head.versionId else 0;
      }
    }
  }

  /** vn is linked in front of the list `was`. */
  ghost predicate InFront(vn: Node, was: seq<Node>)
    reads vn, was
  {
    && vn.next == At(was, 0) && vn.prev == null
    && (forall m {:trigger was[m].next} | 0 <= m < |was| :: was[m].next == At(was, m + 1))
    && (forall m {:trigger was[m].prev} | 0 <= m < |was| :: was[m].prev == if m == 0 then vn else At(was, m - 1))
  }

  lemma PushedLinks(vn: Node, was: seq<Node>)
    requires vn !in was && Distinct(was) && ParentPath(was)
    requires vn.parent == At(was, 0) && InFront(vn, was)
    ensures Distinct([vn] + was) && Linked([vn] + was) && ParentPath([vn] + was)
  {
  }

  lemma DistinctWithout(ns: seq<Node>, i: nat)
    requires i < |ns| && Distinct(ns)
    ensures Distinct(Without(ns, i)) && ns[i] !in Without(ns, i)
  {
  }

  lemma RemovedTotal(c: VersionModel.Chain, i: nat)
    requires i < |c|
    ensures Total(Remove(c, i)) ==
            Total(c) - c[i].storedBytes + Growth(c, i)
  {
    if i > 0 { TotalRemove(c, i); }
  }

  twostate lemma SameViews(ns: seq<Node>)
    requires forall n | n in ns :: n.View() == old(n.View())
    ensures Views(ns) == old(Views(ns))
  {
    forall m | 0 <= m < |ns| ensures Views(ns)[m] == old(Views(ns))[m] {
      assert ns[m] in ns;
    }
  }

  /** The file's counters agree with its chain. */
  ghost predicate MetaAgrees(meta: FileMeta?, c: VersionModel.Chain)
    reads MetaFrame(meta)
  {
    meta != null ==> meta.versionCount == |c| && meta.latestVersionId == IdAt(c, 0)
  }

  ghost function MetaFrame(meta: FileMeta?): set<FileMeta> {
    if meta == null then {} else {meta}
  }

  /** One iteration of the repair loop. */
  method RepairChild(iter: Node, del: Node, ghost was: seq<Node>, ghost i: nat, ghost j: nat,
                     ghost c: VersionModel.Chain) returns (added: nat)
    requires i < |was| == |c| && was[i] == del && Distinct(was)
    requires j < |was| - 1 && iter == Without(was, i)[j]
    requires Removable(c, i) && Pending(was, i, j, c)
    modifies iter
    ensures Pending(was, i, j + 1, c)
    ensures iter.next == old(iter.next) && iter.prev == old(iter.prev)
    ensures added == if j + 1 == i then Growth(c, i) else 0
  {
    ghost var o := if j < i then j else j + 1;
    assert iter == was[o] && iter.parent == At(was, o + 1);
    added := 0;
    if iter.parent == del {
      assert o + 1 == i;
      PathAt(was, i, c);
      assert was[i - 1].View() == c[i - 1];
      added := Adopt(iter, del, was[i..]);
      AdoptedIsAbsorb(c, i);
    }
  }

  /** State of the repair loop before it visits position j of the shortened list. */
  ghost predicate Pending(was: seq<Node>, i: nat, j: nat, c: VersionModel.Chain)
    requires i < |was| == |c|
    reads was
  {
    && (forall m {:trigger was[m].View()} {:trigger c[m]} | 0 <= m < |was| && !(m == i - 1 && i <= j) ::
          was[m].View() == c[m])
    && (forall m {:trigger was[m].parent} | 0 <= m < |was| && !(m == i - 1 && i <= j) ::
          was[m].parent == At(was, m + 1))
    && (0 < i <= j ==> was[i - 1].View() == Absorb(c, i) && was[i - 1].parent == At(was, i + 1))
  }

  /** The removed version and its ancestors are still a parent path. */
  lemma PathAt(was: seq<Node>, i: nat, c: VersionModel.Chain)
    requires 0 < i < |was| == |c| && Distinct(was) && Pending(was, i, i - 1, c)
    ensures ParentPath(was[i..]) && Views(was[i..]) == c[i..]
    ensures was[i - 1] !in was[i..]
  {
  }

  lemma RepairedViews(was: seq<Node>, i: nat, c: VersionModel.Chain)
    requires i < |was| == |c| && Pending(was, i, |was| - 1, c)
    ensures Views(Without(was, i)) == Remove(c, i)
  {
  }

  lemma RepairedParents(was: seq<Node>, i: nat, c: VersionModel.Chain)
    requires i < |was| == |c| && Pending(was, i, |was| - 1, c)
    ensures ParentPath(Without(was, i))
  {
  }

  /** The neighbours of position i point past it. */
  ghost predicate LinkedAround(ns: seq<Node>, i: nat)
    reads ns
  {
    && (forall m {:trigger ns[m].next} | 0 <= m < |ns| && m != i ::
          ns[m].next == At(ns, if m + 1 == i then i + 1 else m + 1))
    && (forall m {:trigger ns[m].prev} | 0 <= m < |ns| && m != i ::
          ns[m].prev == At(ns, if m - 1 == i then i - 1 else m - 1))
  }

  lemma LinkedWithout(ns: seq<Node>, i: nat)
    requires i < |ns| && LinkedAround(ns, i)
    ensures Linked(Without(ns, i))
    ensures At(Without(ns, i), 0) == if i == 0 then At(ns, 1) else At(ns, 0)
    ensures At(Without(ns, i), |ns| - 2) == if i == |ns| - 1 then At(ns, i - 1) else At(ns, |ns| - 1)
  {
  }
}
