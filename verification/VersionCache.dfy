/** The cache of version metadata (fs_state.version_cache) beside the chains it caches:
    all files at once, as values. An entry points at a version's node, so it must be
    gone before the node is freed. */
module VersionCache {
  import opened BlockModel
  import opened VersionModel
  import opened VersionProofs

  const TWO32 := 0x1_0000_0000

  /** (ino << 32) | (version_id & 0xffffffff), in 64 bits. */
  function Key(ino: nat, id: nat): nat {
    ino % TWO32 * TWO32 + id % TWO32
  }

  /** Keys tell versions apart exactly by the low 32 bits of both numbers. */
  lemma KeyDistinguishes(ino: nat, id: nat, ino2: nat, id2: nat)
    ensures Key(ino, id) == Key(ino2, id2) <==> ino % TWO32 == ino2 % TWO32 && id % TWO32 == id2 % TWO32
  {
  }

  /** What a cached entry and a rebuilt one have in common: the file, the node, the
      size and the block count. */
  datatype Entry = Entry(ino: nat, node: nat, size: nat, blocks: nat)

  /** nodes: the allocated node of every live version; next: a node not used before. */
  datatype State = State(
    files: map<nat, Chain>,
    nodes: map<(nat, nat), nat>,
    next: nat,
    cache: map<nat, Entry>)

  function ChainOf(s: State, ino: nat): Chain {
    if ino in s.files then s.files[ino] else []
  }

  // -------------------------------------------------------------------- steps

  /** Remove version i of a file: its node is freed and its key dropped. */
  function Drop(s: State, ino: nat, i: nat): State
    requires i < |ChainOf(s, ino)|
  {
    var c := ChainOf(s, ino);
    State(s.files[ino := Remove(c, i)], s.nodes - {(ino, c[i].id)}, s.next, s.cache - {Key(ino, c[i].id)})
  }

  /** The retention loop, dropping as it removes. */
  function RetainDrop(s: State, ino: nat, i: int, p: Policy, now: int): State
    requires -1 <= i < |ChainOf(s, ino)|
    decreases i + 1
  {
    var c := ChainOf(s, ino);
    if i < 0 then s
    else if ShouldRemove(c, i, p, now, Total(c)) then RetainDrop(Drop(s, ino, i), ino, i - 1, p, now)
    else RetainDrop(s, ino, i - 1, p, now)
  }

  /** What is snapshotted: the file's blocks, its size and its block count. */
  datatype Live = Live(content: Content, size: nat, blocks: nat)

  /** The new version's node at the head of the chain. */
  function Insert(s: State, sum: ChecksumFn, ino: nat, f: Live, now: int): State {
    var c := ChainOf(s, ino);
    State(
      s.files[ino := Create(c, sum, f.content, f.size, f.blocks, now)],
      s.nodes[(ino, NextId(c)) := s.next],
      s.next + 1,
      s.cache)
  }

  function Retained(s: State, ino: nat, p: Policy, later: int, pinned: bool): State {
    if pinned then s else RetainDrop(s, ino, |ChainOf(s, ino)| - 1, p, later)
  }

  function Put(s: State, evicted: set<nat>, key: nat, e: Entry): State {
    s.(cache := (s.cache - evicted)[key := e])
  }

  datatype Op =
    | Snapshot(ino: nat, file: Live, now: int, later: int, policy: Policy, pinned: bool, evicted: set<nat>)
    | Delete(ino: nat, index: nat)
    | Mark(ino: nat, index: nat, important: bool)
    | Retention(ino: nat, now: int, policy: Policy, pinned: bool)
    | Lookup(ino: nat, index: nat, evicted: set<nat>)

  /** The entry a lookup builds when the cache has none. */
  function Rebuilt(s: State, ino: nat, i: nat): Entry
    requires i < |ChainOf(s, ino)| && (ino, ChainOf(s, ino)[i].id) in s.nodes
  {
    var v := ChainOf(s, ino)[i];
    Entry(ino, s.nodes[(ino, v.id)], v.fileSize, v.blocks)
  }

  /** version_manager_get_version_meta once the version is found. */
  function LookupEntry(s: State, ino: nat, i: nat): Entry
    requires i < |ChainOf(s, ino)| && (ino, ChainOf(s, ino)[i].id) in s.nodes
  {
    var key := Key(ino, ChainOf(s, ino)[i].id);
    if key in s.cache then s.cache[key] else Rebuilt(s, ino, i)
  }

  function Step(s: State, sum: ChecksumFn, op: Op): State {
    match op
    case Snapshot(ino, f, now, later, p, pinned, evicted) =>
      var c := ChainOf(s, ino);
      Put(Retained(Insert(s, sum, ino, f, now), ino, p, later, pinned), evicted,
          Key(ino, NextId(c)), Entry(ino, s.next, f.size, f.blocks))
    case Delete(ino, i) =>
      if i < |ChainOf(s, ino)| && !ChainOf(s, ino)[i].important then Drop(s, ino, i) else s
    case Mark(ino, i, b) =>
      if i < |ChainOf(s, ino)| then s.(files := s.files[ino := MarkAt(ChainOf(s, ino), i, b)]) else s
    case Retention(ino, now, p, pinned) => Retained(s, ino, p, now, pinned)
    case Lookup(ino, i, evicted) =>
      if i < |ChainOf(s, ino)| && (ino, ChainOf(s, ino)[i].id) in s.nodes
         && Key(ino, ChainOf(s, ino)[i].id) !in s.cache
      then Put(s, evicted, Key(ino, ChainOf(s, ino)[i].id), Rebuilt(s, ino, i))
      else s
  }

  // --------------------------------------------------------------- invariants

  /** Every live version has its own node. */
  predicate NodesInv(s: State) {
    && (forall ino | ino in s.files :: IdsFall(s.files[ino]))
    && (forall ino, i: nat | ino in s.files && i < |s.files[ino]| :: (ino, s.files[ino][i].id) in s.nodes)
    && (forall p | p in s.nodes :: s.nodes[p] < s.next)
    && (forall p, q | p in s.nodes && q in s.nodes && p != q :: s.nodes[p] != s.nodes[q])
  }

  /** The entry describes version i of its file, and its key is that version's. */
  predicate Describes(s: State, key: nat, e: Entry, i: nat) {
    && e.ino in s.files && i < |s.files[e.ino]|
    && var v := s.files[e.ino][i];
       && key == Key(e.ino, v.id)
       && (e.ino, v.id) in s.nodes && e.node == s.nodes[(e.ino, v.id)]
       && e.size == v.fileSize && e.blocks == v.blocks
  }

  predicate LiveEntry(s: State, key: nat, e: Entry) {
    e.ino in s.files && exists i | 0 <= i < |s.files[e.ino]| :: Describes(s, key, e, i)
  }

  /** No entry points at a freed node, and all agree with what they point at. */
  predicate CacheInv(s: State) {
    forall key | key in s.cache :: LiveEntry(s, key, s.cache[key])
  }

  predicate Inv(s: State) {
    NodesInv(s) && CacheInv(s)
  }

  // ------------------------------------------------------------------ removal

  lemma DropNodes(s: State, ino: nat, i: nat)
    requires NodesInv(s) && i < |ChainOf(s, ino)|
    ensures NodesInv(Drop(s, ino, i))
  {
    var c, t := s.files[ino], Drop(s, ino, i);
    RemoveKeepsIds(c, i);
    RemoveShape(c, i);
    forall f, j: nat | f in t.files && j < |t.files[f]| ensures (f, t.files[f][j].id) in t.nodes {
      if f == ino {
        var o := if j < i then j else j + 1;
        assert t.files[f][j].id == c[o].id;
      } else {
        assert t.files[f] == s.files[f];
      }
    }
  }

  lemma DropEntry(s: State, ino: nat, i: nat, key: nat, e: Entry, j: nat) returns (j': nat)
    requires NodesInv(s) && i < |ChainOf(s, ino)| && Describes(s, key, e, j)
    requires key != Key(ino, ChainOf(s, ino)[i].id)
    ensures Describes(Drop(s, ino, i), key, e, j')
  {
    j' := j;
    if e.ino == ino {
      RemoveShape(s.files[ino], i);
      j' := if j < i then j else j - 1;
    }
  }

  /** Deleting a version keeps the invariant, because its key is dropped with it. */
  lemma DropKeepsInv(s: State, ino: nat, i: nat)
    requires Inv(s) && i < |ChainOf(s, ino)|
    ensures Inv(Drop(s, ino, i))
  {
    var t := Drop(s, ino, i);
    DropNodes(s, ino, i);
    forall key | key in t.cache ensures LiveEntry(t, key, t.cache[key]) {
      assert LiveEntry(s, key, s.cache[key]);
      var j :| 0 <= j < |s.files[s.cache[key].ino]| && Describes(s, key, s.cache[key], j);
      var j' := DropEntry(s, ino, i, key, s.cache[key], j);
    }
  }

  lemma {:induction false} RetainKeepsInv(s: State, ino: nat, i: int, p: Policy, now: int)
    requires Inv(s) && -1 <= i < |ChainOf(s, ino)|
    ensures Inv(RetainDrop(s, ino, i, p, now))
    decreases i + 1
  {
    if i >= 0 {
      if ShouldRemove(ChainOf(s, ino), i, p, now, Total(ChainOf(s, ino))) {
        DropKeepsInv(s, ino, i);
        RemoveShape(ChainOf(s, ino), i);
        RetainKeepsInv(Drop(s, ino, i), ino, i - 1, p, now);
      } else {
        RetainKeepsInv(s, ino, i - 1, p, now);
      }
    }
  }

  /** The chains themselves go through the retention pass they go through without
      the cache. */
  lemma {:induction false} RetainDropChain(s: State, ino: nat, i: int, p: Policy, now: int)
    requires -1 <= i < |ChainOf(s, ino)|
    ensures ChainOf(RetainDrop(s, ino, i, p, now), ino) == RetainFrom(ChainOf(s, ino), i, p, now)
    decreases i + 1
  {
    if i >= 0 {
      var c := ChainOf(s, ino);
      if ShouldRemove(c, i, p, now, Total(c)) {
        RemoveShape(c, i);
        assert ChainOf(Drop(s, ino, i), ino) == Remove(c, i);
        RetainDropChain(Drop(s, ino, i), ino, i - 1, p, now);
      } else {
        RetainDropChain(s, ino, i - 1, p, now);
      }
    }
  }

  // ----------------------------------------------------------------- creation

  lemma InsertKeepsInv(s: State, sum: ChecksumFn, ino: nat, f: Live, now: int)
    requires Inv(s)
    ensures Inv(Insert(s, sum, ino, f, now))
  {
    var c, t := ChainOf(s, ino), Insert(s, sum, ino, f, now);
    InsertNodes(s, sum, ino, f, now);
    forall key | key in t.cache ensures LiveEntry(t, key, t.cache[key]) {
      var e := s.cache[key];
      assert LiveEntry(s, key, e);
      var j :| 0 <= j < |s.files[e.ino]| && Describes(s, key, e, j);
      var j' := if e.ino == ino then j + 1 else j;
      assert t.files[e.ino][j'] == s.files[e.ino][j];
      assert s.files[e.ino][j].id != NextId(s.files[e.ino]);
      assert Describes(t, key, e, j');
    }
  }

  lemma InsertNodes(s: State, sum: ChecksumFn, ino: nat, f: Live, now: int)
    requires NodesInv(s)
    ensures NodesInv(Insert(s, sum, ino, f, now))
  {
    var c, t := ChainOf(s, ino), Insert(s, sum, ino, f, now);
    assert forall i | 0 <= i < |c| :: c[i].id < NextId(c);
    forall g, i: nat | g in t.files && i < |t.files[g]| ensures (g, t.files[g][i].id) in t.nodes {
      if g == ino && i > 0 {
        assert t.files[g][i] == c[i - 1];
      }
    }
  }

  /** The guard of the retention loop at its last step, where it reaches the version
      just created. */
  predicate NewestStays(d: Chain, p: Policy, later: int, pinned: bool)
    requires d != []
  {
    pinned || var c := BeforeLast(d, |d| - 1, p, later); c != [] && !ShouldRemove(c, 0, p, later, Total(c))
  }

  /** The chain when the retention loop reaches index 0. */
  function BeforeLast(c: Chain, i: int, p: Policy, now: int): Chain
    requires 0 <= i < |c|
    decreases i
  {
    if i == 0 then c
    else if ShouldRemove(c, i, p, now, Total(c)) then BeforeLast(Remove(c, i), i - 1, p, now)
    else BeforeLast(c, i - 1, p, now)
  }

  lemma {:induction false} BeforeLastHead(c: Chain, i: int, p: Policy, now: int)
    requires 0 <= i < |c|
    ensures var b := BeforeLast(c, i, p, now);
            b != [] && b[0].id == c[0].id && b[0].created == c[0].created
            && b[0].fileSize == c[0].fileSize && b[0].blocks == c[0].blocks
    ensures RetainFrom(c, i, p, now) == RetainFrom(BeforeLast(c, i, p, now), 0, p, now)
    ensures IdsFall(c) ==> IdsFall(BeforeLast(c, i, p, now))
    decreases i
  {
    if i > 0 {
      if ShouldRemove(c, i, p, now, Total(c)) {
        RemoveShape(c, i);
        if IdsFall(c) {
          RemoveKeepsIds(c, i);
        }
        BeforeLastHead(Remove(c, i), i - 1, p, now);
      } else {
        BeforeLastHead(c, i - 1, p, now);
      }
    }
  }

  /** Retention leaves the newest version at the head exactly when its guard lets it. */
  lemma NewestSurvives(d: Chain, p: Policy, later: int, pinned: bool)
    requires d != [] && IdsFall(d)
    ensures var r := Retain(d, p, later, pinned);
            && (NewestStays(d, p, later, pinned) <==> exists j | 0 <= j < |r| :: r[j].id == d[0].id)
            && (NewestStays(d, p, later, pinned) ==>
                  r != [] && r[0].id == d[0].id && r[0].fileSize == d[0].fileSize && r[0].blocks == d[0].blocks)
  {
    var r := Retain(d, p, later, pinned);
    if pinned {
      assert r[0].id == d[0].id;
    } else {
      BeforeLastHead(d, |d| - 1, p, later);
      var b := BeforeLast(d, |d| - 1, p, later);
      if NewestStays(d, p, later, pinned) {
        assert RetainFrom(b, 0, p, later) == RetainFrom(b, -1, p, later) == b;
        assert r[0].id == d[0].id;
      } else {
        RemoveShape(b, 0);
        assert RetainFrom(b, 0, p, later) == RetainFrom(b[1..], -1, p, later) == b[1..];
        assert forall j | 0 <= j < |r| :: r[j].id == b[j + 1].id;
      }
    }
  }

  /** Retention frees nothing but what it removes: a survivor keeps its node. */
  lemma {:induction false} RetainKeepsNode(s: State, ino: nat, i: int, p: Policy, now: int, id: nat)
    requires NodesInv(s) && -1 <= i < |ChainOf(s, ino)| && (ino, id) in s.nodes
    requires exists j | 0 <= j < |ChainOf(RetainDrop(s, ino, i, p, now), ino)| ::
               ChainOf(RetainDrop(s, ino, i, p, now), ino)[j].id == id
    ensures var t := RetainDrop(s, ino, i, p, now); (ino, id) in t.nodes && t.nodes[(ino, id)] == s.nodes[(ino, id)]
    decreases i + 1
  {
    if i >= 0 {
      var c := ChainOf(s, ino);
      if ShouldRemove(c, i, p, now, Total(c)) {
        var t := Drop(s, ino, i);
        DropNodes(s, ino, i);
        RemoveShape(c, i);
        if c[i].id == id {
          RetainDropChain(t, ino, i - 1, p, now);
          GoneStaysGone(Remove(c, i), i - 1, p, now, id);
          assert false;
        } else {
          RetainKeepsNode(t, ino, i - 1, p, now, id);
        }
      } else {
        RetainKeepsNode(s, ino, i - 1, p, now, id);
      }
    }
  }

  /** Retention brings no id back. */
  lemma {:induction false} GoneStaysGone(c: Chain, i: int, p: Policy, now: int, id: nat)
    requires -1 <= i < |c| && forall j | 0 <= j < |c| :: c[j].id != id
    ensures forall j | 0 <= j < |RetainFrom(c, i, p, now)| :: RetainFrom(c, i, p, now)[j].id != id
    decreases i + 1
  {
    if i >= 0 {
      if ShouldRemove(c, i, p, now, Total(c)) {
        RemoveShape(c, i);
        GoneStaysGone(Remove(c, i), i - 1, p, now, id);
      } else {
        GoneStaysGone(c, i - 1, p, now, id);
      }
    }
  }

  lemma PutKeepsInv(s: State, evicted: set<nat>, key: nat, e: Entry)
    requires Inv(s)
    ensures Inv(Put(s, evicted, key, e)) <==> LiveEntry(s, key, e)
  {
    var t := Put(s, evicted, key, e);
    forall k, x ensures LiveEntry(t, k, x) <==> LiveEntry(s, k, x) {
      if x.ino in s.files {
        assert forall i: nat :: Describes(t, k, x, i) <==> Describes(s, k, x, i);
      }
    }
    assert t.cache[key] == e;
  }

  /** A snapshot keeps the invariant exactly when retention spares the new version;
      otherwise the new entry points at a freed node. */
  lemma SnapshotKeepsInv(s: State, sum: ChecksumFn, ino: nat, f: Live, now: int, later: int, p: Policy, pinned: bool,
                         evicted: set<nat>)
    requires Inv(s)
    ensures Inv(Step(s, sum, Snapshot(ino, f, now, later, p, pinned, evicted)))
       <==> NewestStays(Create(ChainOf(s, ino), sum, f.content, f.size, f.blocks, now), p, later, pinned)
  {
    var d := Create(ChainOf(s, ino), sum, f.content, f.size, f.blocks, now);
    var a := Insert(s, sum, ino, f, now);
    var b := Retained(a, ino, p, later, pinned);
    var id := NextId(ChainOf(s, ino));
    var e := Entry(ino, s.next, f.size, f.blocks);
    InsertKeepsInv(s, sum, ino, f, now);
    RetainedKeepsInv(a, ino, p, later, pinned);
    NewestSurvives(d, p, later, pinned);
    PutKeepsInv(b, evicted, Key(ino, id), e);
    if NewestStays(d, p, later, pinned) {
      RetainedKeepsNode(a, ino, p, later, pinned, id);
      assert Describes(b, Key(ino, id), e, 0);
    } else {
      assert !pinned && ChainOf(a, ino) == d && a.nodes[(ino, id)] == e.node;
      FreedEntry(a, ino, p, later, id, Key(ino, id), e);
    }
  }

  /** An entry for a version that its retention pass removed points at nothing. */
  lemma FreedEntry(s: State, ino: nat, p: Policy, later: int, id: nat, key: nat, e: Entry)
    requires NodesInv(s) && (ino, id) in s.nodes && e.ino == ino && e.node == s.nodes[(ino, id)]
    requires forall j | 0 <= j < |Retain(ChainOf(s, ino), p, later, false)| ::
               Retain(ChainOf(s, ino), p, later, false)[j].id != id
    ensures !LiveEntry(Retained(s, ino, p, later, false), key, e)
  {
    var i := |ChainOf(s, ino)| - 1;
    var t := RetainDrop(s, ino, i, p, later);
    RetainDropChain(s, ino, i, p, later);
    FreedNode(s, ino, i, p, later, id);
    forall q | q in t.nodes && q != (ino, id) ensures t.nodes[q] != e.node {
    }
    var r := Retain(ChainOf(s, ino), p, later, false);
    assert ChainOf(t, ino) == r;
    forall j | 0 <= j < |ChainOf(t, ino)| ensures ChainOf(t, ino)[j].id != id {
      assert r[j].id != id;
    }
    NoLiveEntry(t, ino, id, key, e);
  }

  lemma RetainedKeepsInv(s: State, ino: nat, p: Policy, later: int, pinned: bool)
    requires Inv(s)
    ensures Inv(Retained(s, ino, p, later, pinned))
    ensures ChainOf(Retained(s, ino, p, later, pinned), ino) == Retain(ChainOf(s, ino), p, later, pinned)
  {
    if !pinned {
      RetainKeepsInv(s, ino, |ChainOf(s, ino)| - 1, p, later);
      RetainDropChain(s, ino, |ChainOf(s, ino)| - 1, p, later);
    }
  }

  lemma RetainedKeepsNode(s: State, ino: nat, p: Policy, later: int, pinned: bool, id: nat)
    requires NodesInv(s) && (ino, id) in s.nodes
    requires var c := ChainOf(Retained(s, ino, p, later, pinned), ino); c != [] && c[0].id == id
    ensures var t := Retained(s, ino, p, later, pinned);
            (ino, id) in t.nodes && t.nodes[(ino, id)] == s.nodes[(ino, id)]
  {
    if !pinned {
      RetainKeepsNode(s, ino, |ChainOf(s, ino)| - 1, p, later, id);
    }
  }

  /** The node that belonged to (ino, id) belongs to nothing else afterwards. */
  lemma FreedNode(s: State, ino: nat, i: int, p: Policy, now: int, id: nat)
    requires NodesInv(s) && -1 <= i < |ChainOf(s, ino)| && (ino, id) in s.nodes
    ensures var t := RetainDrop(s, ino, i, p, now);
            forall q | q in t.nodes && q != (ino, id) :: t.nodes[q] != s.nodes[(ino, id)]
  {
    var t := RetainDrop(s, ino, i, p, now);
    FewerNodes(s, ino, i, p, now);
    forall q | q in t.nodes && q != (ino, id) ensures t.nodes[q] != s.nodes[(ino, id)] {
      assert q in s.nodes && s.nodes[q] != s.nodes[(ino, id)];
    }
  }

  lemma {:induction false} FewerNodes(s: State, ino: nat, i: int, p: Policy, now: int)
    requires -1 <= i < |ChainOf(s, ino)|
    ensures var t := RetainDrop(s, ino, i, p, now);
            forall q | q in t.nodes :: q in s.nodes && t.nodes[q] == s.nodes[q]
    decreases i + 1
  {
    if i >= 0 {
      var c := ChainOf(s, ino);
      if ShouldRemove(c, i, p, now, Total(c)) {
        RemoveShape(c, i);
        FewerNodes(Drop(s, ino, i), ino, i - 1, p, now);
      } else {
        FewerNodes(s, ino, i - 1, p, now);
      }
    }
  }

  lemma NoLiveEntry(s: State, ino: nat, id: nat, key: nat, e: Entry)
    requires e.ino == ino && forall j | 0 <= j < |ChainOf(s, ino)| :: ChainOf(s, ino)[j].id != id
    requires forall q | q in s.nodes && q != (ino, id) :: s.nodes[q] != e.node
    ensures !LiveEntry(s, key, e)
  {
    if ino in s.files {
      forall i | 0 <= i < |s.files[ino]| ensures !Describes(s, key, e, i) {
        var q := (ino, s.files[ino][i].id);
        assert ChainOf(s, ino)[i].id != id;
      }
    }
  }

  // --------------------------------------------------------------------- runs

  lemma MarkKeepsInv(s: State, ino: nat, i: nat, b: bool)
    requires Inv(s) && i < |ChainOf(s, ino)|
    ensures Inv(s.(files := s.files[ino := MarkAt(ChainOf(s, ino), i, b)]))
  {
    var t := s.(files := s.files[ino := MarkAt(ChainOf(s, ino), i, b)]);
    forall g, j: nat | g in t.files && j < |t.files[g]|
      ensures g in s.files && j < |s.files[g]| && t.files[g][j] == s.files[g][j].(important := t.files[g][j].important)
    {
    }
    forall key | key in t.cache ensures LiveEntry(t, key, t.cache[key]) {
      var e := s.cache[key];
      assert LiveEntry(s, key, e);
      var j :| 0 <= j < |s.files[e.ino]| && Describes(s, key, e, j);
      assert Describes(t, key, e, j);
    }
  }

  /** The step's snapshot, if it is one, is spared by its own retention pass. */
  predicate Spares(s: State, sum: ChecksumFn, op: Op) {
    op.Snapshot? ==>
      NewestStays(Create(ChainOf(s, op.ino), sum, op.file.content, op.file.size, op.file.blocks, op.now),
                  op.policy, op.later, op.pinned)
  }

  lemma RebuiltIsLive(s: State, ino: nat, i: nat)
    requires NodesInv(s) && i < |ChainOf(s, ino)|
    ensures (ino, ChainOf(s, ino)[i].id) in s.nodes
    ensures LiveEntry(s, Key(ino, ChainOf(s, ino)[i].id), Rebuilt(s, ino, i))
  {
    assert Describes(s, Key(ino, ChainOf(s, ino)[i].id), Rebuilt(s, ino, i), i);
  }

  lemma StepKeepsInv(s: State, sum: ChecksumFn, op: Op)
    requires Inv(s)
    ensures Inv(Step(s, sum, op)) <==> Spares(s, sum, op)
  {
    match op
    case Snapshot(ino, f, now, later, p, pinned, evicted) =>
      SnapshotKeepsInv(s, sum, ino, f, now, later, p, pinned, evicted);
    case Delete(ino, i) =>
      if i < |ChainOf(s, ino)| {
        DropKeepsInv(s, ino, i);
      }
    case Mark(ino, i, b) =>
      if i < |ChainOf(s, ino)| {
        MarkKeepsInv(s, ino, i, b);
      }
    case Retention(ino, now, p, pinned) =>
      RetainedKeepsInv(s, ino, p, now, pinned);
    case Lookup(ino, i, evicted) =>
      if i < |ChainOf(s, ino)| {
        RebuiltIsLive(s, ino, i);
        PutKeepsInv(s, evicted, Key(ino, ChainOf(s, ino)[i].id), Rebuilt(s, ino, i));
      }
  }

  function Reached(s: State, sum: ChecksumFn, ops: seq<Op>): State {
    if ops == [] then s else Step(Reached(s, sum, ops[..|ops| - 1]), sum, ops[|ops| - 1])
  }

  const START := State(map[], map[], 0, map[])

  /** Over every run whose snapshots are spared, the cache holds live entries only. */
  lemma {:induction false} RunKeepsInv(sum: ChecksumFn, ops: seq<Op>)
    requires forall n | 0 <= n < |ops| :: Spares(Reached(START, sum, ops[..n]), sum, ops[n])
    ensures Inv(Reached(START, sum, ops))
    decreases |ops|
  {
    if ops != [] {
      var init := ops[..|ops| - 1];
      assert forall n | 0 <= n < |init| :: init[..n] == ops[..n] && init[n] == ops[n];
      RunKeepsInv(sum, init);
      StepKeepsInv(Reached(START, sum, init), sum, ops[|ops| - 1]);
    }
  }

  // ------------------------------------------------------------------- lookup

  function KeyAt(s: State, ino: nat, i: nat): nat
    requires i < |ChainOf(s, ino)|
  {
    Key(ino, ChainOf(s, ino)[i].id)
  }

  /** No two live versions, of one file or of two, share a key. */
  ghost predicate KeysDiffer(s: State) {
    forall f, i: nat, g, j: nat | i < |ChainOf(s, f)| && j < |ChainOf(s, g)| && KeyAt(s, f, i) == KeyAt(s, g, j) ::
      f == g && i == j
  }

  /** A lookup answers the same with the cache as without. */
  predicate Agrees(s: State, ino: nat, i: nat) {
    i < |ChainOf(s, ino)| ==>
      (ino, ChainOf(s, ino)[i].id) in s.nodes && LookupEntry(s, ino, i) == Rebuilt(s, ino, i)
  }

  ghost predicate AllAgree(s: State) {
    forall ino, i: nat :: Agrees(s, ino, i)
  }

  /** Where keys differ, every lookup does. */
  lemma LookupAgrees(s: State, ino: nat, i: nat)
    requires Inv(s) && KeysDiffer(s)
    ensures Agrees(s, ino, i)
  {
    if i < |ChainOf(s, ino)| && KeyAt(s, ino, i) in s.cache {
      var j := DescribedAt(s, KeyAt(s, ino, i));
      var e := s.cache[KeyAt(s, ino, i)];
      assert KeyAt(s, e.ino, j) == KeyAt(s, ino, i);
    }
  }

  /** The live version a cached entry describes. */
  lemma DescribedAt(s: State, key: nat) returns (j: nat)
    requires CacheInv(s) && key in s.cache
    ensures var e := s.cache[key];
            j < |ChainOf(s, e.ino)| && Describes(s, key, e, j) && KeyAt(s, e.ino, j) == key
  {
    var e := s.cache[key];
    assert LiveEntry(s, key, e);
    j :| 0 <= j < |s.files[e.ino]| && Describes(s, key, e, j);
  }

  /** Where two live versions share a key, looking one up makes one of the two
      lookups wrong, if it was not before. */
  lemma LookupConfused(s: State, sum: ChecksumFn, f: nat, i: nat, g: nat, j: nat)
    requires Inv(s) && i < |ChainOf(s, f)| && j < |ChainOf(s, g)|
    requires (f, i) != (g, j) && KeyAt(s, f, i) == KeyAt(s, g, j)
    ensures var t := Step(s, sum, Lookup(f, i, {})); Inv(t) && !(Agrees(t, f, i) && Agrees(t, g, j))
  {
    var t := Step(s, sum, Lookup(f, i, {}));
    StepKeepsInv(s, sum, Lookup(f, i, {}));
    RebuiltIsLive(s, f, i);
    assert KeyAt(s, f, i) in t.cache;
    NodesApart(t, f, i, g, j);
  }

  lemma NodesApart(s: State, f: nat, i: nat, g: nat, j: nat)
    requires NodesInv(s) && i < |ChainOf(s, f)| && j < |ChainOf(s, g)| && (f, i) != (g, j)
    ensures (f, ChainOf(s, f)[i].id) in s.nodes && (g, ChainOf(s, g)[j].id) in s.nodes
    ensures Rebuilt(s, f, i) != Rebuilt(s, g, j)
  {
    var p, q := (f, ChainOf(s, f)[i].id), (g, ChainOf(s, g)[j].id);
    assert p in s.nodes && q in s.nodes;
    assert f == g ==> ChainOf(s, f)[i].id != ChainOf(s, g)[j].id;
    assert p != q;
  }

  /** The exact condition: lookups agree with the cache now and after any one lookup
      more if and only if no two live versions share a key. */
  lemma LookupExact(s: State, sum: ChecksumFn)
    requires Inv(s)
    ensures KeysDiffer(s) <==>
            forall ino, i: nat, evicted: set<nat> :: AllAgree(Step(s, sum, Lookup(ino, i, evicted)))
  {
    if KeysDiffer(s) {
      forall ino, i: nat, evicted: set<nat> ensures AllAgree(Step(s, sum, Lookup(ino, i, evicted))) {
        var t := Step(s, sum, Lookup(ino, i, evicted));
        StepKeepsInv(s, sum, Lookup(ino, i, evicted));
        LookupKeepsKeys(s, sum, ino, i, evicted);
        forall f, j: nat ensures Agrees(t, f, j) {
          LookupAgrees(t, f, j);
        }
      }
    } else {
      var f, i: nat, g, j: nat :| i < |ChainOf(s, f)| && j < |ChainOf(s, g)|
                                  && KeyAt(s, f, i) == KeyAt(s, g, j) && !(f == g && i == j);
      LookupConfused(s, sum, f, i, g, j);
      assert !AllAgree(Step(s, sum, Lookup(f, i, {})));
    }
  }

  lemma LookupKeepsKeys(s: State, sum: ChecksumFn, ino: nat, i: nat, evicted: set<nat>)
    requires KeysDiffer(s)
    ensures KeysDiffer(Step(s, sum, Lookup(ino, i, evicted)))
  {
    var t := Step(s, sum, Lookup(ino, i, evicted));
    assert t.files == s.files;
    forall f, k: nat, g, l: nat
      | k < |ChainOf(t, f)| && l < |ChainOf(t, g)| && KeyAt(t, f, k) == KeyAt(t, g, l)
      ensures f == g && k == l
    {
      assert KeyAt(s, f, k) == KeyAt(t, f, k) && KeyAt(s, g, l) == KeyAt(t, g, l);
    }
  }

  /** All inode numbers and version ids fit in 32 bits. */
  predicate Fits(s: State) {
    && (forall ino | ino in s.files :: ino < TWO32)
    && (forall ino, i: nat | ino in s.files && i < |s.files[ino]| :: s.files[ino][i].id < TWO32)
  }

  /** That is enough for the keys to differ. */
  lemma FittingKeysDiffer(s: State)
    requires NodesInv(s) && Fits(s)
    ensures KeysDiffer(s)
  {
    forall f, i: nat, g, j: nat | i < |ChainOf(s, f)| && j < |ChainOf(s, g)| && KeyAt(s, f, i) == KeyAt(s, g, j)
      ensures f == g && i == j
    {
      KeyDistinguishes(f, ChainOf(s, f)[i].id, g, ChainOf(s, g)[j].id);
      assert f == g && ChainOf(s, f)[i].id == ChainOf(s, g)[j].id;
    }
  }
}
