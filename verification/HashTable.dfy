/** The chained hash table and the bounded cache on top of it (metadata_manager.c).
    The hash function is arbitrary: every result holds for all of them. */
module HashTable {
  import opened Common

  // -------------------------------------------------------------- one bucket

  datatype Entry<V> = Entry(key: nat, value: V)

  /** The first entry with this key, front to back. */
  function Lookup<V>(l: seq<Entry<V>>, k: nat): Option<V> {
    if l == [] then None
    else if l[0].key == k then Some(l[0].value)
    else Lookup(l[1..], k)
  }

  predicate DistinctKeys<V>(l: seq<Entry<V>>) {
    forall i, j | 0 <= i < j < |l| :: l[i].key != l[j].key
  }

  lemma {:induction false} LookupAt<V>(l: seq<Entry<V>>, i: nat)
    requires i < |l| && DistinctKeys(l)
    ensures Lookup(l, l[i].key) == Some(l[i].value)
  {
    if i > 0 {
      assert l[0].key != l[i].key;
      LookupAt(l[1..], i - 1);
    }
  }

  lemma {:induction false} LookupNone<V>(l: seq<Entry<V>>, k: nat)
    ensures Lookup(l, k) == None <==> forall i | 0 <= i < |l| :: l[i].key != k
  {
    if l != [] {
      LookupNone(l[1..], k);
      if Lookup(l, k) == None {
        forall i | 0 <= i < |l| ensures l[i].key != k {
          if i > 0 { assert l[i] == l[1..][i - 1]; }
        }
      } else if l[0].key != k {
        var i :| 0 <= i < |l[1..]| && l[1..][i].key == k;
        assert l[i + 1].key == k;
      }
    }
  }

  lemma {:induction false} LookupConcat<V>(a: seq<Entry<V>>, b: seq<Entry<V>>, k: nat)
    ensures Lookup(a + b, k) == if Lookup(a, k).Some? then Lookup(a, k) else Lookup(b, k)
  {
    if a == [] {
      assert a + b == b;
    } else {
      assert (a + b)[1..] == a[1..] + b;
      LookupConcat(a[1..], b, k);
    }
  }

  lemma ReplaceDistinct<V>(l: seq<Entry<V>>, i: nat, v: V)
    requires i < |l| && DistinctKeys(l)
    ensures DistinctKeys(l[i := Entry(l[i].key, v)])
  {
  }

  /** Replacing the value at i changes the lookup of that key only. */
  lemma LookupReplace<V>(l: seq<Entry<V>>, i: nat, v: V, k: nat)
    requires i < |l| && DistinctKeys(l)
    ensures Lookup(l[i := Entry(l[i].key, v)], k) == if k == l[i].key then Some(v) else Lookup(l, k)
  {
    var m := l[i := Entry(l[i].key, v)];
    if k == l[i].key {
      ReplaceDistinct(l, i, v);
      LookupAt(m, i);
    } else {
      assert l == l[..i] + ([l[i]] + l[i + 1..]) && m == l[..i] + ([m[i]] + l[i + 1..]);
      LookupConcat(l[..i], [l[i]] + l[i + 1..], k);
      LookupConcat(l[..i], [m[i]] + l[i + 1..], k);
      LookupConcat([l[i]], l[i + 1..], k);
      LookupConcat([m[i]], l[i + 1..], k);
    }
  }

  lemma CutDistinct<V>(l: seq<Entry<V>>, i: nat)
    requires i < |l| && DistinctKeys(l)
    ensures DistinctKeys(l[..i] + l[i + 1..])
    ensures Lookup(l[..i] + l[i + 1..], l[i].key) == None
  {
    var m := l[..i] + l[i + 1..];
    assert forall j | 0 <= j < |m| :: m[j] == l[if j < i then j else j + 1];
    LookupNone(m, l[i].key);
  }

  /** Cutting out entry i makes that key absent and changes no other lookup. */
  lemma LookupCut<V>(l: seq<Entry<V>>, i: nat, k: nat)
    requires i < |l| && DistinctKeys(l)
    ensures Lookup(l[..i] + l[i + 1..], k) == if k == l[i].key then None else Lookup(l, k)
  {
    if k == l[i].key {
      CutDistinct(l, i);
    } else {
      assert l == l[..i] + ([l[i]] + l[i + 1..]);
      LookupConcat(l[..i], l[i + 1..], k);
      LookupConcat(l[..i], [l[i]] + l[i + 1..], k);
      LookupConcat([l[i]], l[i + 1..], k);
    }
  }

  /** The lookups of `m` are those of `l` with `key` set to `v`. */
  ghost predicate Updated<V(!new)>(l: seq<Entry<V>>, m: seq<Entry<V>>, key: nat, v: Option<V>) {
    && DistinctKeys(m)
    && Lookup(m, key) == v
    && forall k: nat | k != key :: Lookup(m, k) == Lookup(l, k)
  }

  lemma ReplaceUpdates<V(!new)>(l: seq<Entry<V>>, i: nat, v: V)
    requires i < |l| && DistinctKeys(l)
    ensures Updated(l, l[i := Entry(l[i].key, v)], l[i].key, Some(v))
  {
    var m := l[i := Entry(l[i].key, v)];
    forall k: nat ensures Lookup(m, k) == if k == l[i].key then Some(v) else Lookup(l, k) {
      LookupReplace(l, i, v, k);
    }
    ReplaceDistinct(l, i, v);
  }

  lemma CutUpdates<V(!new)>(l: seq<Entry<V>>, i: nat)
    requires i < |l| && DistinctKeys(l)
    ensures Updated(l, l[..i] + l[i + 1..], l[i].key, None)
  {
    var m := l[..i] + l[i + 1..];
    forall k: nat ensures Lookup(m, k) == if k == l[i].key then None else Lookup(l, k) {
      LookupCut(l, i, k);
    }
    CutDistinct(l, i);
  }

  lemma PrependUpdates<V(!new)>(l: seq<Entry<V>>, key: nat, v: V)
    requires DistinctKeys(l) && Lookup(l, key) == None
    ensures Updated(l, [Entry(key, v)] + l, key, Some(v))
  {
    LookupNone(l, key);
    var m := [Entry(key, v)] + l;
    assert m[1..] == l;
    assert forall j | 1 <= j < |m| :: m[j] == l[j - 1];
  }

  // ---------------------------------------------------------------- the nodes

  class Node<V> {
    const key: nat
    var value: V
    var next: Node?<V>

    constructor (key: nat, value: V, next: Node?<V>)
      ensures this.key == key && this.value == value && this.next == next
    {
      this.key, this.value, this.next := key, value, next;
    }
  }

  ghost function At<V>(ns: seq<Node<V>>, i: int): Node?<V> {
    if 0 <= i < |ns| then ns[i] else null
  }

  /** `first` starts a null-terminated list of exactly these nodes. */
  ghost predicate Linked<V>(first: Node?<V>, ns: seq<Node<V>>)
    reads ns
  {
    && first == At(ns, 0)
    && forall i {:trigger ns[i].next} | 0 <= i < |ns| :: ns[i].next == At(ns, i + 1)
  }

  ghost function Entries<V>(ns: seq<Node<V>>): (l: seq<Entry<V>>)
    reads ns
    ensures |l| == |ns|
  {
    seq(|ns|, i requires 0 <= i < |ns| reads ns => Entry(ns[i].key, ns[i].value))
  }

  /** The maps agree on every key but this one. */
  ghost predicate SameElsewhere<V(!new)>(m: map<nat, V>, n: map<nat, V>, key: nat) {
    && (forall k: nat | k != key :: k in n <==> k in m)
    && (forall k: nat | k != key && k in n :: n[k] == m[k])
  }

  lemma MapWith<V(!new)>(m: map<nat, V>, key: nat, v: V)
    ensures SameElsewhere(m, m[key := v], key)
    ensures |m[key := v]| == if key in m then |m| else |m| + 1
  {
    assert m[key := v].Keys == m.Keys + {key};
    assert |m[key := v]| == |m[key := v].Keys| && |m| == |m.Keys|;
  }

  lemma MapWithout<V(!new)>(m: map<nat, V>, key: nat)
    requires key in m
    ensures SameElsewhere(m, m - {key}, key) && |m - {key}| == |m| - 1
  {
    assert (m - {key}).Keys == m.Keys - {key};
    assert |m - {key}| == |(m - {key}).Keys| && |m| == |m.Keys|;
  }

  lemma EntriesCut<V>(ns: seq<Node<V>>, i: nat)
    requires i < |ns|
    ensures Entries(ns[..i] + ns[i + 1..]) == Entries(ns)[..i] + Entries(ns)[i + 1..]
  {
  }

  lemma EntriesPrepend<V>(node: Node<V>, ns: seq<Node<V>>)
    ensures Entries([node] + ns) == [Entry(node.key, node.value)] + Entries(ns)
  {
  }

  // ---------------------------------------------------------------- the table

  class Table<V(!new)> {
    const size: nat
    const hash: nat -> nat
    const buckets: array<Node?<V>>
    var count: nat
    ghost var nodes: seq<seq<Node<V>>>
    ghost var entries: seq<seq<Entry<V>>>   // what the nodes hold
    ghost var contents: map<nat, V>
    ghost var Repr: set<object>

    function Bucket(key: nat): (b: nat)
      requires size > 0
      ensures b < size
    {
      hash(key) % size
    }

    ghost predicate Shape()
      reads `nodes, `entries, `Repr
    {
      && size > 0 && buckets.Length == size == |nodes| == |entries|
      && this !in Repr && buckets in Repr
      && forall b, i | 0 <= b < size && 0 <= i < |nodes[b]| :: nodes[b][i] in Repr
    }

    /** One bucket: an acyclic list of nodes that belong here. */
    ghost predicate BucketOk(b: nat)
      requires Shape() && b < size
      reads `nodes, `entries, `Repr, Repr
    {
      && Linked(buckets[b], nodes[b])
      && Entries(nodes[b]) == entries[b] && DistinctKeys(entries[b])
      && (forall i {:trigger nodes[b][i]} | 0 <= i < |nodes[b]| :: Bucket(nodes[b][i].key) == b)
    }

    /** Looking a key up in its bucket gives what the map holds for it. */
    ghost predicate Agrees(es: seq<seq<Entry<V>>>, m: map<nat, V>, k: nat)
      requires |es| == size > 0
    {
      Lookup(es[Bucket(k)], k) == if k in m then Some(m[k]) else None
    }

    /** The buckets together spell out the map. */
    ghost predicate Spells(es: seq<seq<Entry<V>>>, m: map<nat, V>)
      requires |es| == size > 0
    {
      forall k: nat :: Agrees(es, m, k)
    }

    /** Every bucket is sound. */
    ghost predicate Lists()
      reads `nodes, `entries, `Repr, Repr
    {
      Shape() && forall b: nat | b < size :: BucketOk(b)
    }

    /** And the buckets spell out the map, and `count` is its size. */
    ghost predicate Valid()
      reads this, Repr
    {
      Lists() && Spells(entries, contents) && count == |contents|
    }

    constructor (size: nat, hash: nat -> nat)
      requires size > 0
      ensures Valid() && fresh(Repr) && contents == map[]
      ensures this.size == size && this.hash == hash
    {
      this.size, this.hash := size, hash;
      var bs := new Node?<V>[size](_ => null);
      buckets := bs;
      count := 0;
      nodes, entries := seq(size, _ => []), seq(size, _ => []);
      contents := map[];
      Repr := {bs};
    }

    /** The search loop of set, get and remove; `prev` is the node before the match. */
    method Find(key: nat) returns (prev: Node?<V>, node: Node?<V>, ghost i: nat)
      requires Valid()
      ensures var ns := nodes[Bucket(key)];
              && i <= |ns| && node == At(ns, i) && prev == At(ns, i - 1)
              && (node != null ==> node.key == key)
              && (node == null <==> key !in contents)
    {
      var b := Bucket(key);
      ghost var ns, l := nodes[b], entries[b];
      assert BucketOk(b) && Agrees(entries, contents, key);
      LookupNone(l, key);
      prev := null;
      node := buckets[b];
      i := 0;
      while node != null
        invariant 0 <= i <= |ns| && node == At(ns, i) && prev == At(ns, i - 1)
        invariant forall j | 0 <= j < i :: l[j].key != key
        decreases |ns| - i
      {
        if node.key == key {
          assert l[i].key == key;
          return;
        }
        prev := node;
        node := node.next;
        i := i + 1;
      }
    }

    /** hash_table_get. */
    method Get(key: nat) returns (value: Option<V>)
      requires Valid()
      ensures value == if key in contents then Some(contents[key]) else None
    {
      var prev, node, i := Find(key);
      if node == null {
        return None;
      }
      var b := Bucket(key);
      assert BucketOk(b) && Agrees(entries, contents, key);
      LookupAt(entries[b], i);
      value := Some(node.value);
    }

    /** Changing one bucket's entries changes one key of the map. */
    lemma SpellsUpdated(es: seq<seq<Entry<V>>>, m: map<nat, V>, key: nat, fs: seq<seq<Entry<V>>>, n: map<nat, V>)
      requires |es| == |fs| == size > 0 && Spells(es, m)
      requires forall c | 0 <= c < size && c != Bucket(key) :: fs[c] == es[c]
      requires Updated(es[Bucket(key)], fs[Bucket(key)], key, if key in n then Some(n[key]) else None)
      requires SameElsewhere(m, n, key)
      ensures Spells(fs, n)
    {
      forall k: nat ensures Agrees(fs, n, k) {
        assert Agrees(es, m, k);
      }
    }

    /** A node sits in no other bucket and at no other place of its own. */
    lemma OnlyThere(node: Node<V>, i: nat)
      requires Lists()
      requires i < |nodes[Bucket(node.key)]| && nodes[Bucket(node.key)][i] == node
      ensures forall b, j | 0 <= b < size && 0 <= j < |nodes[b]| && nodes[b][j] == node ::
                b == Bucket(node.key) && j == i
    {
      forall b, j | 0 <= b < size && 0 <= j < |nodes[b]| && nodes[b][j] == node
        ensures b == Bucket(node.key) && j == i
      {
        assert BucketOk(b);
        assert Entries(nodes[b])[j].key == node.key;
        if b == Bucket(node.key) { assert Entries(nodes[b])[i].key == node.key; }
      }
    }

    /** The other buckets are as they were. */
    twostate lemma OthersKept(b: nat)
      requires old(Lists()) && Shape()
      requires forall c: nat | c < size && c != b ::
                 nodes[c] == old(nodes[c]) && entries[c] == old(entries[c]) && buckets[c] == old(buckets[c])
                 && forall n | n in nodes[c] :: n.next == old(n.next) && n.value == old(n.value)
      ensures forall c: nat | c < size && c != b :: BucketOk(c)
    {
      forall c: nat | c < size && c != b ensures BucketOk(c) {
        assert old(BucketOk(c));
        assert Entries(nodes[c]) == old(Entries(nodes[c]));
      }
    }

    /** Replace node i's value in place. */
    method ReplaceValue(node: Node<V>, ghost i: nat, value: V)
      requires Lists() && i < |nodes[Bucket(node.key)]| && nodes[Bucket(node.key)][i] == node
      modifies this`entries, node`value
      ensures Lists()
      ensures var b := Bucket(node.key);
              i < |old(entries)[b]| && old(entries)[b][i].key == node.key
              && entries == old(entries)[b := old(entries)[b][i := Entry(node.key, value)]]
    {
      ghost var b := Bucket(node.key);
      assert BucketOk(b);
      OnlyThere(node, i);
      node.value := value;
      entries := entries[b := entries[b][i := Entry(node.key, value)]];
      assert Entries(nodes[b]) == entries[b];
      OthersKept(b);
    }

    /** Put a new node in front of its bucket. */
    method PrependNode(key: nat, value: V)
      requires Lists() && Lookup(entries[Bucket(key)], key) == None
      modifies this`nodes, this`entries, this`Repr, buckets
      ensures Lists() && fresh(Repr - old(Repr)) && old(Repr) <= Repr
      ensures var b := Bucket(key); entries == old(entries)[b := [Entry(key, value)] + old(entries)[b]]
    {
      var b := Bucket(key);
      assert BucketOk(b);
      PrependUpdates(entries[b], key, value);
      var node := new Node(key, value, buckets[b]);
      EntriesPrepend(node, nodes[b]);
      buckets[b] := node;
      nodes := nodes[b := [node] + nodes[b]];
      entries := entries[b := [Entry(key, value)] + entries[b]];
      Repr := Repr + {node};
      OthersKept(b);
    }

    /** The match branch of hash_table_set. */
    method Replace(node: Node<V>, ghost i: nat, value: V)
      requires Valid()
      requires i < |nodes[Bucket(node.key)]| && nodes[Bucket(node.key)][i] == node && node.key in contents
      modifies this`contents, this`entries, node`value
      ensures Valid() && contents == old(contents)[node.key := value]
    {
      ghost var b, es, m := Bucket(node.key), entries, contents[node.key := value];
      assert BucketOk(b);
      ReplaceValue(node, i, value);
      ReplaceUpdates(es[b], i, value);
      MapWith(contents, node.key, value);
      SpellsUpdated(es, contents, node.key, entries, m);
      contents := m;
    }

    /** The other branch: a new node. */
    method Prepend(key: nat, value: V)
      requires Valid() && key !in contents
      modifies this`count, this`nodes, this`entries, this`contents, this`Repr, buckets
      ensures Valid() && fresh(Repr - old(Repr)) && old(Repr) <= Repr
      ensures contents == old(contents)[key := value]
    {
      ghost var b, es, m := Bucket(key), entries, contents[key := value];
      assert BucketOk(b) && Agrees(es, contents, key);
      PrependNode(key, value);
      PrependUpdates(es[b], key, value);
      MapWith(contents, key, value);
      SpellsUpdated(es, contents, key, entries, m);
      count := count + 1;
      contents := m;
    }

    /** hash_table_set. */
    method Set(key: nat, value: V)
      requires Valid()
      modifies this, Repr
      ensures Valid() && fresh(Repr - old(Repr)) && old(Repr) <= Repr
      ensures contents == old(contents)[key := value]
    {
      var prev, node, i := Find(key);
      if node != null {
        Replace(node, i, value);
      } else {
        Prepend(key, value);
      }
    }

    /** Take node i out of its bucket. */
    method CutOut(prev: Node?<V>, node: Node<V>, ghost i: nat)
      requires Valid() && node.key in contents
      requires i < |nodes[Bucket(node.key)]| && nodes[Bucket(node.key)][i] == node
      requires prev == At(nodes[Bucket(node.key)], i - 1)
      modifies this`count, this`nodes, this`entries, this`contents, buckets, Before(prev)`next
      ensures Valid() && Repr == old(Repr)
      ensures contents == old(contents) - {node.key}
    {
      ghost var b, es, m := Bucket(node.key), entries, contents - {node.key};
      assert BucketOk(b);
      CutNode(prev, node, i);
      CutUpdates(es[b], i);
      MapWithout(contents, node.key);
      SpellsUpdated(es, contents, node.key, entries, m);
      count := count - 1;
      contents := m;
    }

    /** Take node i out of the list of its bucket. */
    method CutNode(prev: Node?<V>, node: Node<V>, ghost i: nat)
      requires Lists() && i < |nodes[Bucket(node.key)]| && nodes[Bucket(node.key)][i] == node
      requires prev == At(nodes[Bucket(node.key)], i - 1)
      modifies this`nodes, this`entries, buckets, Before(prev)`next
      ensures Lists() && Repr == old(Repr)
      ensures var b := Bucket(node.key); var l := old(entries)[b];
              i < |l| && l[i].key == node.key && entries == old(entries)[b := l[..i] + l[i + 1..]]
    {
      ghost var b := Bucket(node.key);
      assert BucketOk(b);
      ghost var ns, l := nodes[b], entries[b];
      PassBy(prev, node, i);
      EntriesCut(ns, i);
      CutDistinct(l, i);
      nodes := nodes[b := ns[..i] + ns[i + 1..]];
      entries := entries[b := l[..i] + l[i + 1..]];
      OthersKept(b);
    }

    /** Make the link in front of node i point past it. */
    method PassBy(prev: Node?<V>, node: Node<V>, ghost i: nat)
      requires Lists() && i < |nodes[Bucket(node.key)]| && nodes[Bucket(node.key)][i] == node
      requires prev == At(nodes[Bucket(node.key)], i - 1)
      modifies buckets, Before(prev)`next
      ensures var b := Bucket(node.key);
              && Linked(buckets[b], nodes[b][..i] + nodes[b][i + 1..]) && Entries(nodes[b]) == entries[b]
              && (forall c | 0 <= c < size && c != b :: buckets[c] == old(buckets[c]) && prev !in nodes[c])
    {
      var b := Bucket(node.key);
      assert BucketOk(b);
      OnlyThere(node, i);
      if prev != null {
        assert Bucket(nodes[b][i - 1].key) == b;
        OnlyThere(prev, i - 1);
        prev.next := node.next;
      } else {
        buckets[b] := node.next;
      }
      CutLinked(buckets[b], nodes[b], i);
    }

    static ghost function Before(prev: Node?<V>): set<Node<V>> {
      if prev == null then {} else {prev}
    }

    /** hash_table_remove. */
    method Remove(key: nat) returns (rc: int)
      requires Valid()
      modifies this, Repr
      ensures Valid() && Repr == old(Repr)
      ensures contents == old(contents) - {key}
      ensures rc == if key in old(contents) then 0 else ENOENT
    {
      var prev, node, i := Find(key);
      if node == null {
        return ENOENT;
      }
      CutOut(prev, node, i);
      rc := 0;
    }

    /** hash_table_clear. */
    method Clear()
      requires Valid()
      modifies this, Repr
      ensures Valid() && Repr == old(Repr) && contents == map[]
    {
      var i := 0;
      while i < size
        invariant 0 <= i <= size
        invariant forall b | 0 <= b < i :: buckets[b] == null
        modifies buckets
      {
        buckets[i] := null;
        i := i + 1;
      }
      count := 0;
      nodes, entries := seq(size, _ => []), seq(size, _ => []);
      contents := map[];
    }
  }

  /** Skipping node i leaves a list of the other nodes. */
  lemma CutLinked<V>(first: Node?<V>, ns: seq<Node<V>>, i: nat)
    requires i < |ns|
    requires first == if i == 0 then At(ns, 1) else At(ns, 0)
    requires forall j {:trigger ns[j].next} | 0 <= j < |ns| && j != i ::
               ns[j].next == At(ns, if j + 1 == i then i + 1 else j + 1)
    ensures Linked(first, ns[..i] + ns[i + 1..])
  {
  }

  // ---------------------------------------------------------- the bounded cache

  /** lru_cache_t: despite the name it evicts the first node it meets. */
  class Cache<V(!new)> {
    const table: Table<V>
    const maxSize: nat
    ghost var last: map<nat, V>   // the last value put for each key ever

    /** Never more entries than allowed, and every entry is the last value put. */
    ghost predicate Valid()
      reads this, table, table.Repr
    {
      && table.Valid() && this !in table.Repr
      && maxSize >= 1 && |table.contents| <= maxSize
      && forall k | k in table.contents :: k in last && table.contents[k] == last[k]
    }

    /** lru_cache_create: twice as many buckets as entries. */
    constructor (maxSize: nat, hash: nat -> nat)
      requires maxSize >= 1
      ensures Valid() && fresh(table) && fresh(table.Repr) && table.contents == map[] && last == map[]
      ensures this.maxSize == maxSize
    {
      this.maxSize := maxSize;
      table := new Table(maxSize * 2, hash);
      last := map[];
    }

    /** The eviction loop: remove the head of the first bucket that has one. */
    method EvictFirst() returns (victim: nat)
      requires table.Valid() && table.count > 0
      modifies table, table.Repr
      ensures table.Valid() && table.Repr == old(table.Repr)
      ensures victim in old(table.contents) && table.contents == old(table.contents) - {victim}
    {
      var i := 0;
      while i < table.size
        invariant 0 <= i <= table.size
        invariant forall b | 0 <= b < i :: table.nodes[b] == []
        invariant table.Valid() && table.count > 0 && table.contents == old(table.contents)
      {
        assert table.BucketOk(i);
        var node := table.buckets[i];
        if node != null {
          victim := node.key;
          assert table.Agrees(table.entries, table.contents, victim);
          LookupAt(table.entries[i], 0);
          var _ := table.Remove(victim);
          return;
        }
        i := i + 1;
      }
      AllEmpty();
      assert false;
    }

    lemma AllEmpty()
      requires table.Valid() && forall b | 0 <= b < table.size :: table.nodes[b] == []
      ensures table.count == 0
    {
      forall k: nat ensures k !in table.contents {
        assert table.BucketOk(table.Bucket(k)) && table.Agrees(table.entries, table.contents, k);
      }
      assert table.contents == map[];
    }

    /** lru_cache_put: at the limit it first evicts one entry, even when the key is
        already there. */
    method Put(key: nat, value: V) returns (ghost evicted: set<nat>)
      requires Valid()
      modifies this, table, table.Repr
      ensures Valid()
      ensures table.contents == (old(table.contents) - evicted)[key := value]
      ensures evicted <= old(table.contents).Keys
      ensures |evicted| == if |old(table.contents)| >= maxSize then 1 else 0
      ensures last == old(last)[key := value]
    {
      evicted := {};
      if table.count >= maxSize {
        var victim := EvictFirst();
        evicted := {victim};
      }
      table.Set(key, value);
      last := last[key := value];
    }

    /** lru_cache_get: nothing, or the last value put for the key. */
    method Get(key: nat) returns (value: Option<V>)
      requires Valid()
      ensures value.Some? ==> key in last && value.value == last[key]
      ensures value.Some? <==> key in table.contents
    {
      value := table.Get(key);
    }

    /** lru_cache_remove. */
    method Remove(key: nat) returns (rc: int)
      requires Valid()
      modifies table, table.Repr
      ensures Valid() && table.contents == old(table.contents) - {key}
      ensures rc == if key in old(table.contents) then 0 else ENOENT
    {
      rc := table.Remove(key);
    }
  }
}
