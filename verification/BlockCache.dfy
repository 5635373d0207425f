/** The first two levels of the block cache (cache.c): the L1 first-in first-out list
    with its byte budget, and the L2 direct-mapped slots. Block ids are taken to be
    distinct, and the hash tables to be the maps HashTable.dfy proves them to be. */
module BlockCache {
  import opened Common

  // ------------------------------------------------------------------ L1 values

  datatype Item = Item(id: nat, size: nat)

  function Bytes1(l: seq<Item>): nat {
    if l == [] then 0 else l[0].size + Bytes1(l[1..])
  }

  function IdSet(l: seq<Item>): set<nat> {
    set i | 0 <= i < |l| :: l[i].id
  }

  predicate DistinctIds(l: seq<Item>) {
    forall i, j | 0 <= i < j < |l| :: l[i].id != l[j].id
  }

  /** The list without the entry for this id. */
  function Drop(l: seq<Item>, id: nat): seq<Item> {
    if l == [] then [] else if l[0].id == id then l[1..] else [l[0]] + Drop(l[1..], id)
  }

  /** A budget of 0 means no limit. */
  predicate Fits(l: seq<Item>, max: nat, incoming: nat) {
    max == 0 || Bytes1(l) + incoming <= max
  }

  /** How many of the oldest entries eviction removes. */
  function EvictCount(l: seq<Item>, max: nat, incoming: nat): (n: nat)
    ensures n <= |l|
  {
    if l == [] || Fits(l, max, incoming) then 0 else 1 + EvictCount(l[1..], max, incoming)
  }

  /** Eviction removes the shortest run of oldest entries that makes room, or all. */
  lemma {:induction false} EvictShortest(l: seq<Item>, max: nat, incoming: nat)
    ensures var n := EvictCount(l, max, incoming);
            && (Fits(l[n..], max, incoming) || n == |l|)
            && forall m: nat | m < n :: !Fits(l[m..], max, incoming)
  {
    if l != [] && !Fits(l, max, incoming) {
      var n := EvictCount(l[1..], max, incoming);
      EvictShortest(l[1..], max, incoming);
      assert l[1..][n..] == l[n + 1..];
      forall m: nat | m < n + 1 ensures !Fits(l[m..], max, incoming) {
        if m > 0 {
          assert l[m..] == l[1..][m - 1..];
        } else {
          assert l[0..] == l;
        }
      }
    }
    assert l[0..] == l;
  }

  /** What a put leaves in the list. */
  function PutItems(l: seq<Item>, id: nat, size: nat, max: nat): seq<Item> {
    var d := Drop(l, id);
    d[EvictCount(d, max, size)..] + [Item(id, size)]
  }

  lemma {:induction false} BytesConcat(a: seq<Item>, b: seq<Item>)
    ensures Bytes1(a + b) == Bytes1(a) + Bytes1(b)
  {
    if a == [] {
      assert a + b == b;
    } else {
      assert (a + b)[1..] == a[1..] + b;
      BytesConcat(a[1..], b);
    }
  }

  /** Dropping an id removes exactly its entry. */
  lemma {:induction false} DropIsCut(l: seq<Item>, id: nat, i: nat)
    requires i <= |l|
    requires forall j | 0 <= j < i :: l[j].id != id
    requires i < |l| ==> l[i].id == id
    ensures Drop(l, id) == if i < |l| then l[..i] + l[i + 1..] else l
  {
    if l != [] && i > 0 {
      var t := l[1..];
      assert forall j | 0 <= j < i - 1 :: t[j] == l[j + 1];
      DropIsCut(t, id, i - 1);
      assert l == [l[0]] + t;
      if i < |l| {
        assert [l[0]] + (t[..i - 1] + t[i..]) == l[..i] + l[i + 1..];
      }
    }
  }

  /** After a put the byte budget holds, or the new block is alone in the cache. */
  lemma PutWithinBudget(l: seq<Item>, id: nat, size: nat, max: nat)
    ensures var p := PutItems(l, id, size, max);
            max == 0 || Bytes1(p) <= max || p == [Item(id, size)]
  {
    var d := Drop(l, id);
    var n := EvictCount(d, max, size);
    EvictShortest(d, max, size);
    BytesConcat(d[n..], [Item(id, size)]);
  }

  /** The byte count is the sum of the sizes: it adds up over lists, and one entry counts
      its own size. */
  lemma BytesAreSum(a: seq<Item>, b: seq<Item>, x: Item)
    ensures Bytes1([]) == 0 && Bytes1([x]) == x.size && Bytes1(a + b) == Bytes1(a) + Bytes1(b)
  {
    assert [x][1..] == [];
    BytesConcat(a, b);
  }

  /** A put keeps the longest run of newest entries that leaves room for the new block,
      which goes last; so all of them if they fit. */
  lemma PutKeepsMost(l: seq<Item>, id: nat, size: nat, max: nat) returns (n: nat)
    ensures var d := Drop(l, id);
            && n <= |d| && PutItems(l, id, size, max) == d[n..] + [Item(id, size)]
            && (forall m | 0 <= m < n :: max != 0 && Bytes1(d[m..]) + size > max)
            && (max == 0 || Bytes1(d) + size <= max ==> n == 0)
  {
    var d := Drop(l, id);
    n := EvictCount(d, max, size);
    EvictShortest(d, max, size);
    assert d[0..] == d;
  }

  lemma PutKeepsAll(l: seq<Item>, id: nat, size: nat, max: nat)
    ensures (max == 0 || Bytes1(Drop(l, id)) + size <= max) ==>
              PutItems(l, id, size, max) == Drop(l, id) + [Item(id, size)]
  {
    var n := PutKeepsMost(l, id, size, max);
    assert Drop(l, id)[0..] == Drop(l, id);
  }

  // -------------------------------------------------------------------- L1 class

  class Entry {
    const id: nat
    const size: nat
    var next: Entry?

    constructor (id: nat, size: nat)
      ensures this.id == id && this.size == size && next == null
    {
      this.id, this.size, next := id, size, null;
    }
  }

  ghost function At(ns: seq<Entry>, i: int): Entry? {
    if 0 <= i < |ns| then ns[i] else null
  }

  ghost predicate Linked(ns: seq<Entry>)
    reads ns
  {
    forall i {:trigger ns[i].next} | 0 <= i < |ns| :: ns[i].next == At(ns, i + 1)
  }

  ghost function ItemsOf(ns: seq<Entry>): (l: seq<Item>)
    ensures |l| == |ns|
  {
    seq(|ns|, i requires 0 <= i < |ns| => Item(ns[i].id, ns[i].size))
  }

  lemma CutBytes(l: seq<Item>, i: nat)
    requires i < |l|
    ensures Bytes1(l) == Bytes1(l[..i] + l[i + 1..]) + l[i].size
  {
    assert l == l[..i] + l[i..] && l[i..][1..] == l[i + 1..];
    BytesConcat(l[..i], l[i..]);
    BytesConcat(l[..i], l[i + 1..]);
  }

  lemma DistinctEntries(ns: seq<Entry>)
    requires DistinctIds(ItemsOf(ns))
    ensures forall i, j | 0 <= i < j < |ns| :: ns[i] != ns[j]
  {
    forall i, j | 0 <= i < j < |ns| ensures ns[i] != ns[j] {
      assert ItemsOf(ns)[i].id != ItemsOf(ns)[j].id;
    }
  }

  lemma CutItems(ns: seq<Entry>, i: nat)
    requires i < |ns| && DistinctIds(ItemsOf(ns))
    ensures var l, m := ItemsOf(ns), ItemsOf(ns[..i] + ns[i + 1..]);
            m == l[..i] + l[i + 1..] && DistinctIds(m)
  {
  }

  /** If the entry before i points past it, the other entries form a list. */
  lemma CutLinked(ns: seq<Entry>, i: nat)
    requires i < |ns|
    requires forall j {:trigger ns[j].next} | 0 <= j < |ns| && j != i ::
               ns[j].next == At(ns, if j + 1 == i then i + 1 else j + 1)
    ensures Linked(ns[..i] + ns[i + 1..])
    ensures var m := ns[..i] + ns[i + 1..];
            && At(m, 0) == At(ns, if i == 0 then 1 else 0)
            && At(m, |m| - 1) == At(ns, if i == |ns| - 1 then i - 1 else |ns| - 1)
  {
  }

  lemma OneMoreGone<B>(was: map<nat, B>, now: map<nat, B>, l: seq<Item>, n: nat)
    requires n < |l| && now == was - IdSet(l[..n]) - {l[n].id}
    ensures now == was - IdSet(l[..n + 1])
  {
    assert l[..n + 1] == l[..n] + [l[n]];
    IdSetSnoc(l[..n], l[n]);
  }

  lemma NothingBefore<T>(s: seq<T>)
    requires s != []
    ensures s[..0] + s[1..] == s[1..]
  {
  }

  class L1<B> {
    const maxBytes: nat
    var head: Entry?
    var tail: Entry?
    var currentBytes: nat
    var table: map<nat, B>
    ghost var nodes: seq<Entry>

    ghost function Items(): seq<Item>
      reads this
    {
      ItemsOf(nodes)
    }

    /** The list part: linked, ids distinct, byte counter exact. */
    ghost predicate ListOk()
      reads this, nodes
    {
      && head == At(nodes, 0) && tail == At(nodes, |nodes| - 1)
      && Linked(nodes) && DistinctIds(Items())
      && currentBytes == Bytes1(Items())
    }

    /** The list and the table hold the same ids. */
    ghost predicate Valid()
      reads this, nodes
    {
      ListOk() && table.Keys == IdSet(Items())
    }

    constructor (maxBytes: nat)
      ensures Valid() && Items() == [] && this.maxBytes == maxBytes
    {
      this.maxBytes := maxBytes;
      head, tail, currentBytes, table, nodes := null, null, 0, map[], [];
    }

    /** Unlink entry i, `prev` being the one before it. */
    method CutEntry(prev: Entry?, cur: Entry, ghost i: nat)
      requires ListOk() && i < |nodes| && cur == nodes[i] && prev == At(nodes, i - 1)
      modifies this`head, this`tail, this`currentBytes, this`nodes, nodes`next
      ensures ListOk() && nodes == old(nodes)[..i] + old(nodes)[i + 1..]
      ensures Items() == old(Items())[..i] + old(Items())[i + 1..]
    {
      ghost var ns := nodes;
      CutBytes(Items(), i);
      DistinctEntries(ns);
      if prev != null {
        prev.next := cur.next;
      } else {
        head := cur.next;
      }
      if cur == tail {
        tail := prev;
      }
      if currentBytes >= cur.size {
        currentBytes := currentBytes - cur.size;
      }
      nodes := ns[..i] + ns[i + 1..];
      CutLinked(ns, i);
      CutItems(ns, i);
    }

    /** l1_remove_entry. */
    method RemoveEntry(id: nat)
      requires ListOk()
      modifies this`head, this`tail, this`currentBytes, this`nodes, nodes`next
      ensures ListOk() && Items() == Drop(old(Items()), id)
      ensures tail == null || tail in old(nodes)
      ensures forall n | n in nodes :: n in old(nodes)
    {
      ghost var l := Items();
      var prev: Entry? := null;
      var cur := head;
      ghost var i := 0;
      while cur != null
        invariant 0 <= i <= |nodes| && cur == At(nodes, i) && prev == At(nodes, i - 1)
        invariant forall j | 0 <= j < i :: l[j].id != id
        decreases |nodes| - i
      {
        assert l[i].id == cur.id;
        if cur.id == id {
          break;
        }
        prev := cur;
        cur := cur.next;
        i := i + 1;
      }
      DropIsCut(l, id, i);
      if cur != null {
        CutEntry(prev, cur, i);
      }
    }

    ghost function TailSet(): set<Entry>
      reads this
    {
      if tail == null then {} else {tail}
    }

    /** l1_track_insert: append at the tail. */
    method TrackInsert(id: nat, size: nat)
      requires ListOk() && id !in IdSet(Items())
      modifies this`head, this`tail, this`currentBytes, this`nodes, TailSet()`next
      ensures ListOk() && Items() == old(Items()) + [Item(id, size)]
    {
      ghost var l := Items();
      var ent := new Entry(id, size);
      if tail != null {
        tail.next := ent;
      } else {
        head := ent;
      }
      tail := ent;
      currentBytes := currentBytes + size;
      BytesConcat(l, [Item(id, size)]);
      nodes := nodes + [ent];
      assert Items() == l + [Item(id, size)];
    }

    /** Evict the oldest entry. */
    method EvictHead()
      requires ListOk() && head != null
      modifies this`head, this`tail, this`currentBytes, this`nodes, this`table
      ensures ListOk() && nodes == old(nodes)[1..] && Items() == old(Items())[1..]
      ensures table == old(table) - {old(Items())[0].id}
    {
      var victim := PopHead();
      table := table - {victim.id};
    }

    method PopHead() returns (victim: Entry)
      requires ListOk() && head != null
      modifies this`head, this`tail, this`currentBytes, this`nodes
      ensures ListOk() && nodes == old(nodes)[1..] && Items() == old(Items())[1..]
      ensures victim.id == old(Items())[0].id
    {
      ghost var ns := nodes;
      CutBytes(Items(), 0);
      CutLinked(ns, 0);
      CutItems(ns, 0);
      NothingBefore(ns);
      NothingBefore(Items());
      victim := head;
      head := victim.next;
      if head == null {
        tail := null;
      }
      if currentBytes >= victim.size {
        currentBytes := currentBytes - victim.size;
      }
      nodes := ns[1..];
    }

    /** l1_evict_until_fit. */
    method EvictUntilFit(incoming: nat)
      requires ListOk()
      modifies this`head, this`tail, this`currentBytes, this`nodes, this`table
      ensures ListOk()
      ensures var l := old(Items());
              var n := EvictCount(l, maxBytes, incoming);
              && Items() == l[n..] && nodes == old(nodes)[n..]
              && table == old(table) - IdSet(l[..n])
      ensures tail == null || tail == old(tail)
    {
      ghost var l, ns := Items(), nodes;
      ghost var n := 0;
      assert l[0..] == l && ns[0..] == ns;
      while maxBytes != 0 && currentBytes + incoming > maxBytes && head != null
        invariant 0 <= n <= |l| && Items() == l[n..] && nodes == ns[n..]
        invariant ListOk() && table == old(table) - IdSet(l[..n])
        invariant n + EvictCount(l[n..], maxBytes, incoming) == EvictCount(l, maxBytes, incoming)
        decreases |l| - n
      {
        assert l[n..][1..] == l[n + 1..] && ns[n..][1..] == ns[n + 1..];
        EvictHead();
        OneMoreGone(old(table), table, l, n);
        n := n + 1;
      }
    }

    /** The L1 part of cache_put_block. */
    method Put(id: nat, size: nat, block: B)
      requires Valid()
      modifies this, nodes
      ensures Valid()
      ensures Items() == PutItems(old(Items()), id, size, maxBytes)
      ensures var d := Drop(old(Items()), id);
              (maxBytes == 0 || Bytes1(d) + size <= maxBytes) ==> Items() == d + [Item(id, size)]
      ensures id in table && table[id] == block
      ensures forall k | k in table && k != id :: k in old(table) && table[k] == old(table)[k]
    {
      ghost var l := Items();
      PutKeepsAll(l, id, size, maxBytes);
      RemoveEntry(id);
      ghost var d := Items();
      DropIds(l, id);
      EvictUntilFit(size);
      ghost var n := EvictCount(d, maxBytes, size);
      SplitIds(d, n);
      table := table[id := block];
      TrackInsert(id, size);
      IdSetSnoc(d[n..], Item(id, size));
    }

    /** The L1 part of cache_invalidate_block. */
    method Invalidate(id: nat)
      requires Valid()
      modifies this, nodes
      ensures Valid() && Items() == Drop(old(Items()), id) && table == old(table) - {id}
    {
      DropIds(Items(), id);
      table := table - {id};
      RemoveEntry(id);
    }

    /** The L1 part of cache_get_block. */
    method Get(id: nat) returns (block: Option<B>)
      requires Valid()
      ensures block == if id in IdSet(Items()) then Some(table[id]) else None
    {
      block := if id in table then Some(table[id]) else None;
    }
  }

  lemma IdSetSnoc(l: seq<Item>, x: Item)
    ensures IdSet(l + [x]) == IdSet(l) + {x.id}
  {
    var m := l + [x];
    forall i: nat | i < |l| ensures l[i].id in IdSet(m) {
      assert m[i] == l[i];
    }
    assert m[|l|] == x;
  }

  lemma CutIds(l: seq<Item>, i: nat)
    requires i < |l| && DistinctIds(l)
    ensures DistinctIds(l[..i] + l[i + 1..])
    ensures IdSet(l[..i] + l[i + 1..]) == IdSet(l) - {l[i].id}
  {
    var m := l[..i] + l[i + 1..];
    assert forall j | 0 <= j < |m| :: m[j] == l[if j < i then j else j + 1];
    forall k | k in IdSet(l) - {l[i].id} ensures k in IdSet(m) {
      var j :| 0 <= j < |l| && l[j].id == k;
      assert m[if j < i then j else j - 1] == l[j];
    }
  }

  /** Dropping an id takes it, and nothing else, out of the id set. */
  lemma DropIds(l: seq<Item>, id: nat)
    requires DistinctIds(l)
    ensures DistinctIds(Drop(l, id)) && IdSet(Drop(l, id)) == IdSet(l) - {id}
  {
    if i :| 0 <= i < |l| && l[i].id == id {
      DropIsCut(l, id, i);
      CutIds(l, i);
    } else {
      DropIsCut(l, id, |l|);
    }
  }

  /** The ids of a list with distinct ids split into those of its two halves. */
  lemma SplitIds(l: seq<Item>, n: nat)
    requires DistinctIds(l) && n <= |l|
    ensures IdSet(l[n..]) == IdSet(l) - IdSet(l[..n])
  {
  }

  // -------------------------------------------------------------------- L2 class

  /** Which slot an id belongs to. */
  function SlotsOf(slots: nat): nat -> nat
    requires slots > 0
  {
    (id: nat) => id % slots
  }

  /** The index and the slots name each other, slot 0 aside. */
  ghost predicate Indexed(ids: seq<nat>, index: map<nat, nat>, slotOf: nat -> nat)
    requires ids != []
  {
    && (ids[0] != 0 ==> slotOf(ids[0]) == 0)
    && (forall s | 0 < s < |ids| && ids[s] != 0 :: ids[s] in index && index[ids[s]] == s)
    && (forall id | id in index :: id != 0 && 0 < index[id] < |ids| && index[id] == slotOf(id) && ids[index[id]] == id)
  }

  /** The index after `id` displaced whatever was in slot s. */
  function Displaced(ids: seq<nat>, index: map<nat, nat>, id: nat, s: nat): map<nat, nat>
    requires s < |ids|
  {
    var rest := if ids[s] != 0 then index - {ids[s]} else index;
    if s != 0 then rest[id := s] else rest
  }

  lemma DisplacedIndexed(ids: seq<nat>, index: map<nat, nat>, id: nat, slotOf: nat -> nat)
    requires ids != [] && Indexed(ids, index, slotOf) && slotOf(id) < |ids| && (id == 0 ==> slotOf(id) == 0)
    ensures var s := slotOf(id); var next := Displaced(ids, index, id, s);
            Indexed(ids[s := id], next, slotOf) && (id in next <==> s != 0)
  {
    var s := slotOf(id);
    var next := Displaced(ids, index, id, s);
    forall t | 0 < t < |ids| && t != s && ids[t] != 0 ensures ids[t] in next && next[ids[t]] == t {
      assert ids[t] in index && index[ids[t]] == t;
    }
    forall k | k in next && k != id ensures k in index && next[k] == index[k] != s {
    }
  }

  /** The L2 level: slot id % slots for every block. Slot 0 is never in the index,
      because a zero value is refused there. */
  class L2 {
    const slots: nat
    const slotSize: nat
    const slotIds: array<nat>
    const slotBlocks: array<Option<Bytes>>
    var index: map<nat, nat>

    function Slot(id: nat): (s: nat)
      requires slots > 0
      ensures s < slots
    {
      SlotsOf(slots)(id)
    }

    ghost predicate Shape()
      reads this
    {
      slots > 0 && slotSize > 0 && slotIds.Length == slotBlocks.Length == slots
    }

    /** Every id in the index has its block in its slot. */
    ghost predicate Valid()
      reads this, slotIds, slotBlocks
    {
      && Shape()
      && Indexed(slotIds[..], index, SlotsOf(slots))
      && forall s | 0 < s < slots && slotIds[s] != 0 :: slotBlocks[s].Some?
    }

    /** For every slot but 0, a non-zero id sits in it exactly when the index maps the
        id to it, and then it is the id's own slot. */
    lemma SlotsMatchIndex(s: nat, id: nat)
      requires Valid() && 0 < s < slots && id != 0
      ensures slotIds[s] == id <==> id in index && index[id] == s
      ensures slotIds[s] == id ==> s == id % slots
    {
      assert slotIds[..][s] == slotIds[s];
    }

    constructor (slots: nat, slotSize: nat)
      requires slots > 0 && slotSize > 0
      ensures Valid() && index == map[] && this.slots == slots && this.slotSize == slotSize
      ensures fresh(slotIds) && fresh(slotBlocks)
      ensures forall s | 0 <= s < slots :: slotIds[s] == 0 && slotBlocks[s] == None
    {
      this.slots, this.slotSize := slots, slotSize;
      slotIds := new nat[slots](_ => 0);
      slotBlocks := new Option<Bytes>[slots](_ => None);
      index := map[];
    }

    /** The L2 part of cache_put_block: displace whatever is in the slot. The copy is
        cut to the slot size. */
    method Put(id: nat, plain: Bytes)
      requires Valid()
      modifies this, slotIds, slotBlocks
      ensures Valid()
      ensures var s := Slot(id);
              && slotIds[s] == id && slotBlocks[s] == Some(plain[..Min(|plain|, slotSize)])
              && (forall t | 0 <= t < slots && t != s ::
                    slotIds[t] == old(slotIds[t]) && slotBlocks[t] == old(slotBlocks[t]))
              && (id in index <==> s != 0)
    {
      ghost var ids, before := slotIds[..], index;
      DisplacedIndexed(ids, index, id, SlotsOf(slots));
      var slot := Slot(id);
      var oldId := slotIds[slot];
      if oldId != 0 {
        index := index - {oldId};
        slotBlocks[slot] := None;
      }
      slotIds[slot] := id;
      slotBlocks[slot] := Some(plain[..Min(|plain|, slotSize)]);
      if slot != 0 {
        index := index[id := slot];
      }
      assert index == Displaced(ids, before, id, slot) && slotIds[..] == ids[slot := id];
    }

    /** The L2 part of cache_invalidate_block. */
    method Invalidate(id: nat)
      requires Valid()
      modifies this, slotIds, slotBlocks
      ensures Valid() && id !in index
      ensures forall t | 0 <= t < slots && !(t == Slot(id) && id in old(index)) ::
                slotIds[t] == old(slotIds[t]) && slotBlocks[t] == old(slotBlocks[t])
      ensures id in old(index) ==> slotIds[Slot(id)] == 0 && slotBlocks[Slot(id)] == None
    {
      if id in index {
        var slot := index[id];
        index := index - {id};
        slotIds[slot] := 0;
        slotBlocks[slot] := None;
      }
    }

    /** The L2 part of cache_get_block: a hit is the copy in the id's own slot, for
        ids that do not map to slot 0. */
    method Get(id: nat) returns (block: Option<Bytes>)
      requires Valid()
      ensures var s := Slot(id);
              block == if s != 0 && slotIds[s] == id then slotBlocks[s] else None
      ensures block.Some? <==> Slot(id) != 0 && slotIds[Slot(id)] == id
    {
      block := None;
      if id in index {
        var slot := index[id];
        if slot < slots && slotIds[slot] == id {
          block := slotBlocks[slot];
        }
      }
    }
  }
}
