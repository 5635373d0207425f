/** The segment list of module_d.c: md_transaction_log over linked segments with
    fixed-size buffers, proved to append as Wal.Logged says. */
module WalLog {
  import opened Wal

  class Segment {
    const id: nat
    const data: array<Octet>
    var size: nat
    var active: bool
    var next: Segment?

    constructor (id: nat)
      ensures this.id == id && size == 0 && active && next == null
      ensures fresh(data) && data.Length == WAL_SEGMENT_SIZE
    {
      this.id := id;
      data := new Octet[WAL_SEGMENT_SIZE](_ => 0);
      size, active, next := 0, true, null;
    }

    ghost predicate Valid()
      reads this
    {
      data.Length == WAL_SEGMENT_SIZE && size <= data.Length
    }

    ghost function Bytes(): Data
      requires Valid()
      reads this, data
    {
      data[..size]
    }

    /** The copy behind the bytes already there. */
    method Copy(d: Data)
      requires Valid() && size + |d| <= WAL_SEGMENT_SIZE
      modifies `size, data
      ensures Valid() && Bytes() == old(Bytes()) + d
    {
      forall i | 0 <= i < |d| {
        data[size + i] := d[i];
      }
      size := size + |d|;
    }
  }

  class Log {
    var enabled: bool
    var segments: Segment?
    var current: Segment?
    ghost var chain: seq<Segment>
    ghost var contents: seq<Data>
    ghost var pool: set<object>

    /** The list is the chain, ids count up from 1, only the last segment is active, and
        `contents` are the bytes held. */
    ghost predicate Valid()
      reads this, pool
    {
      && this !in pool
      && |contents| == |chain|
      && (forall i | 0 <= i < |chain| :: Linked(i))
      && (forall i, j {:trigger chain[i], chain[j]} | 0 <= i < j < |chain| ::
            chain[i] != chain[j] && chain[i].data != chain[j].data)
      && segments == (if chain == [] then null else chain[0])
      && current == (if chain == [] then null else chain[|chain| - 1])
    }

    ghost predicate Linked(i: nat)
      requires i < |chain| == |contents|
      reads this, pool
    {
      var s := chain[i];
      && s in pool && s.data in pool
      && s.Valid() && s.Bytes() == contents[i]
      && s.id == i + 1
      && s.active == (i + 1 == |chain|)
      && s.next == (if i + 1 < |chain| then chain[i + 1] else null)
    }

    constructor (enabled: bool)
      ensures Valid() && fresh(pool) && contents == [] && this.enabled == enabled
    {
      this.enabled := enabled;
      segments, current := null, null;
      chain, contents, pool := [], [], {};
    }

    /** A new, empty, active segment behind the current one. */
    method Rollover()
      requires Valid()
      modifies this, pool
      ensures Valid() && fresh(pool - old(pool))
      ensures contents == old(contents) + [[]] && enabled == old(enabled)
    {
      assert chain != [] ==> Linked(|chain| - 1);
      var segment := new Segment(if current != null then current.id + 1 else 1);
      if current != null {
        current.active := false;
        current.next := segment;
      } else {
        segments := segment;
      }
      current := segment;
      chain, contents := chain + [segment], contents + [[]];
      pool := pool + {segment, segment.data};
      forall i | 0 <= i < |chain| ensures Linked(i) {
        assert i < |chain| - 1 ==> old(Linked(i));
      }
      forall i, j {:trigger chain[i], chain[j]} | 0 <= i < j < |chain|
        ensures chain[i] != chain[j] && chain[i].data != chain[j].data
      {
        assert old(Linked(i)) && (j < |chain| - 1 ==> old(Linked(j)));
      }
    }

    /** The copy into the current segment. */
    method CopyLast(d: Data)
      requires Valid() && contents != [] && |contents[|contents| - 1]| + |d| <= WAL_SEGMENT_SIZE
      modifies this, pool
      ensures Valid() && pool == old(pool) && enabled == old(enabled)
      ensures var k := |old(contents)| - 1; contents == old(contents)[..k] + [old(contents)[k] + d]
    {
      ghost var k := |chain| - 1;
      assert Linked(k);
      current.Copy(d);
      contents := contents[..k] + [contents[k] + d];
      forall i | 0 <= i < |chain| ensures Linked(i) {
        assert old(Linked(i));
      }
    }

    /** md_transaction_log. A buffer larger than a segment would be written past the
        segment's end. */
    method Write(d: Data) returns (rc: int)
      requires Valid() && |d| <= WAL_SEGMENT_SIZE
      modifies this, pool
      ensures Valid() && fresh(pool - old(pool))
      ensures rc == if !enabled || d == [] then -1 else 0
      ensures contents == if rc == 0 then Logged(old(contents), d, WAL_SEGMENT_SIZE) else old(contents)
      ensures enabled == old(enabled)
    {
      if !enabled || d == [] {
        return -1;
      }
      assert chain != [] ==> Linked(|chain| - 1);
      if current == null || current.size + |d| > WAL_SEGMENT_SIZE {
        Rollover();
        assert contents[..|contents| - 1] == old(contents) && [] + d == d;
      }
      CopyLast(d);
      return 0;
    }
  }
}
