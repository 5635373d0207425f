/** The rolling checksum of version_manager.c, and what its collisions do to
    version creation. */
module RollingChecksum {
  import opened Common
  import opened VersionModel

  const BASE: bv32 := 1315423911

  /** One step of the checksum loop, in 32-bit arithmetic. */
  function Roll(h: bv32, c: Byte): bv32 {
    h ^ (((h << 5) + (c as bv32) + (h >> 2)) + BASE)
  }

  function RollAll(h: bv32, d: Bytes): bv32
    decreases d
  {
    if d == [] then h else RollAll(Roll(h, d[0]), d[1..])
  }

  function Rolling(d: Bytes): Checksum {
    RollAll(0, d)
  }

  /** rolling_checksum: the loop computes the fold. */
  method ComputeRolling(d: Bytes) returns (hash: bv32)
    ensures hash == Rolling(d)
  {
    hash := 0;
    var i := 0;
    while i < |d|
      invariant 0 <= i <= |d|
      invariant RollAll(hash, d[i..]) == Rolling(d)
    {
      assert d[i..][1..] == d[i + 1..];
      hash := Roll(hash, d[i]);
      i := i + 1;
    }
  }

  lemma {:induction false} RollConcat(h: bv32, a: Bytes, b: Bytes)
    ensures RollAll(h, a + b) == RollAll(RollAll(h, a), b)
    decreases a
  {
    if a == [] {
      assert a + b == b;
    } else {
      assert (a + b)[1..] == a[1..] + b;
      RollConcat(Roll(h, a[0]), a[1..], b);
    }
  }

  /** One step of a concrete computation. */
  lemma Next(h: bv32, c: Byte, g: bv32, rest: Bytes)
    requires Roll(h, c) == g
    ensures RollAll(h, [c] + rest) == RollAll(g, rest)
  {
  }

  lemma RollTwo(h: bv32, a: Byte, b: Byte)
    ensures RollAll(h, [a, b]) == Roll(Roll(h, a), b)
  {
    Next(h, a, Roll(h, a), [b]);
    Next(Roll(h, a), b, Roll(Roll(h, a), b), []);
  }

  /** Two different blocks of every size from two bytes on have the same checksum. */
  lemma Collide(rest: Bytes)
    ensures Rolling([0, 46] + rest) == Rolling([1, 0] + rest)
    ensures [0, 46] + rest != [1, 0] + rest
  {
    assert Roll(Roll(0, 0), 46) == Roll(Roll(0, 1), 0);
    RollTwo(0, 0, 46);
    RollTwo(0, 1, 0);
    RollConcat(0, [0, 46], rest);
    RollConcat(0, [1, 0], rest);
    assert ([0, 46] + rest)[0] == 0 && ([1, 0] + rest)[0] == 1;
  }

  function Repeat(w: Bytes, n: nat): (r: Bytes)
    ensures |r| == n * |w|
  {
    if n == 0 then [] else w + Repeat(w, n - 1)
  }

  lemma {:induction false} RepeatKeepsZero(w: Bytes, n: nat)
    requires RollAll(0, w) == 0
    ensures RollAll(0, Repeat(w, n)) == 0
  {
    if n > 0 {
      RollConcat(0, w, Repeat(w, n - 1));
      RepeatKeepsZero(w, n - 1);
    }
  }

  const SIX: Bytes := [114, 77, 78, 44, 48, 51]
  const TEN: Bytes := [105, 46, 99, 79, 101, 110, 87, 73, 110, 116]

  lemma SixIsZero()
    ensures RollAll(0, SIX) == 0
  {
  }

  lemma TenIsZero()
    ensures RollAll(0, TEN) == 0
  {
  }

  /** A full block of 4096 printable, non-zero bytes whose checksum is 0. */
  lemma ZeroBlock() returns (d: Bytes)
    ensures |d| == 4096 && d[0] != 0 && Rolling(d) == 0
  {
    d := TEN + Repeat(SIX, 681);
    TenIsZero();
    SixIsZero();
    RepeatKeepsZero(SIX, 681);
    RollConcat(0, TEN, Repeat(SIX, 681));
  }

  // ------------------------------------------------------- what a clash costs

  /** A changed block whose checksum did not change is not stored: the new version
      goes on showing the old bytes. */
  lemma CollisionLosesWrite(rest: Bytes, size: nat, blocks: nat, t1: int, t2: int)
    ensures var before, after := [Some([0, 46] + rest)], [Some([1, 0] + rest)];
            var c := Create([], Rolling, before, size, blocks, t1);
            && Image(Create(c, Rolling, after, size, blocks, t2), 0) == before
            && before != after
  {
    Collide(rest);
    var before, after := [Some([0, 46] + rest)], [Some([1, 0] + rest)];
    var c := Create([], Rolling, before, size, blocks, t1);
    var d := Create(c, Rolling, after, size, blocks, t2);
    assert Resolve(d, 1, 0) == before[0];
    assert Image(d, 0) == before;
  }

  /** A new block with checksum 0 is not stored either: its version shows a hole, and
      reads of it return zeros. */
  lemma ZeroChecksumLosesBlock(size: nat, blocks: nat, t1: int, t2: int) returns (d: Bytes)
    ensures |d| == 4096 && d[0] != 0
    ensures var c := Create([], Rolling, [], 0, 0, t1);
            Image(Create(c, Rolling, [Some(d)], size, blocks, t2), 0) == [None]
  {
    d := ZeroBlock();
    var c := Create([], Rolling, [], 0, 0, t1);
    var e := Create(c, Rolling, [Some(d)], size, blocks, t2);
    assert Resolve(e, 1, 0) == None;
    assert Image(e, 0) == [None];
  }
}
