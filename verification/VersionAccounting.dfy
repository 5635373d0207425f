/** How many bytes a chain stores, and what a deletion does to that number. */
module VersionAccounting {
  import opened Common
  import opened BlockModel
  import opened VersionModel
  import opened VersionProofs

  function Size(b: Option<Bytes>): nat {
    match b
    case None => 0
    case Some(d) => |d|
  }

  /** Bytes of the blocks below n that `older` holds and `newer` holds too. */
  function SharedBytes(newer: Content, older: Content, n: nat): nat
    requires n <= |newer|
  {
    if n == 0 then 0
    else SharedBytes(newer, older, n - 1) +
         if newer[n - 1].Some? && n - 1 < |older| then Size(older[n - 1]) else 0
  }

  /** Bytes of the blocks below n that neither version i-1 nor version i holds,
      as version i finds them further down. */
  function InheritedBytes(c: Chain, i: nat, n: nat): nat
    requires 0 < i < |c| && n <= |c[i - 1].held|
  {
    if n == 0 then 0
    else InheritedBytes(c, i, n - 1) +
         if c[i - 1].held[n - 1].None? && !Present(c[i].held, n - 1) then Size(Resolve(c, i + 1, n - 1)) else 0
  }

  lemma HeldBytesStep(h: Content, n: nat)
    requires n < |h|
    ensures HeldBytes(h[..n + 1]) == HeldBytes(h[..n]) + Size(h[n])
  {
    assert h[..n + 1][..n] == h[..n];
  }

  /** Filling an empty place adds exactly the new block's bytes. */
  lemma {:induction false} HeldBytesFill(h: Content, k: nat, d: Bytes)
    requires k < |h| && h[k].None?
    ensures HeldBytes(h[k := Some(d)]) == HeldBytes(h) + |d|
  {
    var g := h[k := Some(d)];
    var n := |h| - 1;
    if k == n {
      assert g[..n] == h[..n];
    } else {
      assert g[..n] == h[..n][k := Some(d)];
      HeldBytesFill(h[..n], k, d);
    }
  }

  lemma {:induction false} HeldBytesBeyond(h: Content, n: nat)
    requires n >= |h|
    ensures HeldBytes(h[..Min(n, |h|)]) == HeldBytes(h)
  {
    assert h[..|h|] == h;
  }

  /** Index by index, what the child ends up holding against what was held before. */
  lemma {:induction false} FilledBytes(c: Chain, i: nat, n: nat)
    requires 0 < i < |c| && n <= |c[i - 1].held|
    ensures var child, v := c[i - 1].held, c[i].held;
            HeldBytes(Filled(c, i, child)[..n]) + SharedBytes(child, v, n)
            == HeldBytes(child[..n]) + HeldBytes(v[..Min(n, |v|)]) + InheritedBytes(c, i, n)
  {
    var child, v := c[i - 1].held, c[i].held;
    if n > 0 {
      FilledBytes(c, i, n - 1);
      HeldBytesStep(Filled(c, i, child), n - 1);
      HeldBytesStep(child, n - 1);
      if n - 1 < |v| { HeldBytesStep(v, n - 1); }
    }
  }

  lemma {:induction false} TotalConcat(a: Chain, b: Chain)
    ensures Total(a + b) == Total(a) + Total(b)
  {
    if a == [] {
      assert a + b == b;
    } else {
      assert (a + b)[1..] == a[1..] + b;
      TotalConcat(a[1..], b);
    }
  }

  /** The total is the sum of the versions' bytes: it adds up over chains, and one version
      counts what it stores. */
  lemma TotalIsSum(a: Chain, b: Chain, v: Version)
    ensures Total([]) == 0 && Total([v]) == v.storedBytes && Total(a + b) == Total(a) + Total(b)
  {
    assert [v][1..] == [];
    TotalConcat(a, b);
  }

  /** The indices of the blocks held. */
  function HeldSet(h: Content): set<nat> {
    set k: nat | k < |h| && h[k].Some?
  }

  /** In full blocks, a version's own bytes are its blocks times the block size. */
  lemma {:induction false} HeldBytesCount(h: Content, bs: nat)
    requires Blocked(h, bs)
    ensures HeldBytes(h) == |HeldSet(h)| * bs
  {
    if h == [] {
      assert HeldSet(h) == {};
    } else {
      var n := |h| - 1;
      HeldBytesCount(h[..n], bs);
      assert HeldSet(h) == HeldSet(h[..n]) + if h[n].Some? then {n} else {};
      MoreBlocks(|HeldSet(h[..n])|, bs);
    }
  }

  lemma MoreBlocks(n: nat, bs: nat)
    ensures (n + 1) * bs == n * bs + bs
  {
  }

  lemma TotalAround(c: Chain, i: nat)
    requires i < |c|
    ensures Total(c) == Total(c[..i]) + c[i].storedBytes + Total(c[i + 1..])
  {
    assert c == c[..i] + c[i..];
    TotalConcat(c[..i], c[i..]);
    assert c[i..][1..] == c[i + 1..];
  }

  /** A deletion changes the total by the removed version's bytes and by what its
      child gained. */
  lemma TotalRemove(c: Chain, i: nat)
    requires 0 < i < |c|
    ensures Total(Remove(c, i)) + c[i].storedBytes + c[i - 1].storedBytes
            == Total(c) + Absorb(c, i).storedBytes
  {
    RemoveShape(c, i);
    var r := Remove(c, i);
    TotalAround(c, i);
    TotalAround(c[..i], i - 1);
    TotalAround(r, i - 1);
    assert c[..i][..i - 1] == c[..i - 1] == r[..i - 1];
    assert c[..i][i..] == [];
    assert r[i..] == c[i + 1..];
  }

  /** Deleting version i frees the bytes of the blocks its child holds too, and
      costs the bytes the child must now copy from further down. */
  lemma RemoveBytes(c: Chain, i: nat)
    requires NodesOk(c) && CountsFall(c) && 0 < i < |c|
    ensures var n := |c[i - 1].held|;
            Total(Remove(c, i)) + SharedBytes(c[i - 1].held, c[i].held, n)
            == Total(c) + InheritedBytes(c, i, n)
  {
    var child, v := c[i - 1].held, c[i].held;
    TotalRemove(c, i);
    FilledBytes(c, i, |child|);
    assert NodeOk(c[i - 1]) && NodeOk(c[i]);
    var f := Filled(c, i, child);
    assert f[..|child|] == f && child[..|child|] == child;
    HeldBytesBeyond(v, |child|);
  }

  lemma {:induction false} NothingInherited(c: Chain, n: nat)
    requires |c| > 1 && n <= |c[|c| - 2].held|
    ensures InheritedBytes(c, |c| - 1, n) == 0
  {
    if n > 0 { NothingInherited(c, n - 1); }
  }

  /** Deleting the oldest version lowers the total by exactly the bytes of the
      blocks the next version holds itself. */
  lemma RemoveOldestBytes(c: Chain)
    requires NodesOk(c) && CountsFall(c) && |c| > 1
    ensures var i := |c| - 1;
            Total(Remove(c, i)) == Total(c) - SharedBytes(c[i - 1].held, c[i].held, |c[i - 1].held|)
  {
    RemoveBytes(c, |c| - 1);
    NothingInherited(c, |c[|c| - 2].held|);
  }

  /** The removed version never stores more than the whole chain, so retention's
      guarded subtraction is exact. */
  lemma {:induction false} TotalCovers(c: Chain, i: nat)
    requires i < |c|
    ensures c[i].storedBytes <= Total(c)
  {
    TotalAround(c, i);
  }
}
