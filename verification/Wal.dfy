/** The write-ahead log of module_d.c: appending buffers to segments, and the record
    scan that recovery does over a segment file. */
module Wal {

  // The log does arithmetic on its bytes, so here they are numbers and not bit vectors.
  type Octet = x: int | 0 <= x < 256
  type Data = seq<Octet>

  // ------------------------------------------------------- little-endian numbers

  /** v in n bytes, least significant first. */
  function ToBytes(v: nat, n: nat): (r: Data)
    ensures |r| == n
    decreases n, v
  {
    if n == 0 then [] else [v % 256] + ToBytes(v / 256, n - 1)
  }

  function FromBytes(b: Data): nat
    decreases |b|
  {
    if b == [] then 0 else b[0] + 256 * FromBytes(b[1..])
  }

  function Pow256(n: nat): (p: nat)
    ensures p >= 1
  {
    if n == 0 then 1 else 256 * Pow256(n - 1)
  }

  lemma {:induction false} FromTo(v: nat, n: nat)
    requires v < Pow256(n)
    ensures FromBytes(ToBytes(v, n)) == v
    decreases n
  {
    if n > 0 {
      FromTo(v / 256, n - 1);
      assert ToBytes(v, n)[1..] == ToBytes(v / 256, n - 1);
    }
  }

  lemma {:induction false} ToFrom(b: Data)
    ensures FromBytes(b) < Pow256(|b|)
    ensures ToBytes(FromBytes(b), |b|) == b
    decreases |b|
  {
    if b != [] {
      ToFrom(b[1..]);
      var lo: int, hi := b[0], FromBytes(b[1..]);
      assert (lo + 256 * hi) % 256 == lo && (lo + 256 * hi) / 256 == hi;
      assert b == [b[0]] + b[1..];
    }
  }

  /** The number in the first n bytes. */
  function Get(b: Data, n: nat): nat
    requires n <= |b|
  {
    FromBytes(b[..n])
  }

  lemma {:induction false} Read(v: nat, n: nat, rest: Data)
    requires v < Pow256(n)
    ensures var d := ToBytes(v, n) + rest; Get(d, n) == v && d[n..] == rest
  {
    FromTo(v, n);
    assert (ToBytes(v, n) + rest)[..n] == ToBytes(v, n);
  }

  lemma Write(b: Data, n: nat)
    requires n <= |b|
    ensures Get(b, n) < Pow256(n) && ToBytes(Get(b, n), n) + b[n..] == b
  {
    ToFrom(b[..n]);
    assert b == b[..n] + b[n..];
  }

  // -------------------------------------------------------------------- records

  /** transaction_header_t, packed. */
  datatype Header = Header(
    txId: nat, kind: nat, state: nat, timestamp: nat, ino: nat, blockId: nat, dataSize: nat, checksum: nat)

  const HEADER := 52

  predicate InRange(h: Header) {
    && h.txId < Pow256(8) && h.kind < Pow256(4) && h.state < Pow256(4) && h.timestamp < Pow256(8)
    && h.ino < Pow256(8) && h.blockId < Pow256(8) && h.dataSize < Pow256(8) && h.checksum < Pow256(4)
  }

  /** The header in front of some bytes. */
  function Put(h: Header, rest: Data): (r: Data)
    ensures |r| == HEADER + |rest|
  {
    ToBytes(h.txId, 8) + (ToBytes(h.kind, 4) + (ToBytes(h.state, 4) + (ToBytes(h.timestamp, 8)
    + (ToBytes(h.ino, 8) + (ToBytes(h.blockId, 8) + (ToBytes(h.dataSize, 8) + (ToBytes(h.checksum, 4) + rest)))))))
  }

  function Decode(d: Data): Header
    requires |d| >= HEADER
  {
    var d1 := d[8..];
    var d2 := d1[4..];
    var d3 := d2[4..];
    var d4 := d3[8..];
    var d5 := d4[8..];
    var d6 := d5[8..];
    var d7 := d6[8..];
    Header(Get(d, 8), Get(d1, 4), Get(d2, 4), Get(d3, 8), Get(d4, 8), Get(d5, 8), Get(d6, 8), Get(d7, 4))
  }

  lemma Associate(a: Data, b: Data, c: Data)
    ensures a + b + c == a + (b + c)
  {
  }

  lemma PutSplits(h: Header, rest: Data)
    ensures Put(h, rest) == Put(h, []) + rest
    ensures Put(h, rest)[..HEADER] == Put(h, []) && Put(h, rest)[HEADER..] == rest
  {
  }

  /** Decoding what was put gives the header back. */
  lemma DecodePut(h: Header, rest: Data)
    requires InRange(h)
    ensures Decode(Put(h, rest)) == h
  {
    var t7 := ToBytes(h.checksum, 4) + rest;
    var t6 := ToBytes(h.dataSize, 8) + t7;
    var t5 := ToBytes(h.blockId, 8) + t6;
    var t4 := ToBytes(h.ino, 8) + t5;
    var t3 := ToBytes(h.timestamp, 8) + t4;
    var t2 := ToBytes(h.state, 4) + t3;
    var t1 := ToBytes(h.kind, 4) + t2;
    Read(h.txId, 8, t1);
    Read(h.kind, 4, t2);
    Read(h.state, 4, t3);
    Read(h.timestamp, 8, t4);
    Read(h.ino, 8, t5);
    Read(h.blockId, 8, t6);
    Read(h.dataSize, 8, t7);
    Read(h.checksum, 4, rest);
  }

  /** Every buffer of at least a header's length starts with the encoding of what it
      decodes to. */
  lemma PutDecode(d: Data)
    requires |d| >= HEADER
    ensures InRange(Decode(d)) && Put(Decode(d), d[HEADER..]) == d
  {
    var d1 := d[8..];
    var d2 := d1[4..];
    var d3 := d2[4..];
    var d4 := d3[8..];
    var d5 := d4[8..];
    var d6 := d5[8..];
    var d7 := d6[8..];
    Write(d, 8);
    Write(d1, 4);
    Write(d2, 4);
    Write(d3, 8);
    Write(d4, 8);
    Write(d5, 8);
    Write(d6, 8);
    Write(d7, 4);
    assert d7[4..] == d[HEADER..];
  }

  /** The data size field, read in place. */
  function SizeAt(d: Data): nat
    requires |d| >= HEADER
  {
    FromBytes(d[40..48])
  }

  lemma DecodeSize(d: Data)
    requires |d| >= HEADER
    ensures SizeAt(d) == Decode(d).dataSize
  {
    var d6 := d[8..][4..][4..][8..][8..][8..];
    assert d6[..8] == d[40..48];
  }

  lemma SizePut(h: Header, rest: Data)
    requires InRange(h)
    ensures SizeAt(Put(h, rest)) == h.dataSize
  {
    DecodeSize(Put(h, rest));
    DecodePut(h, rest);
  }

  /** A header and the data logged with it. */
  datatype Record = Record(header: Header, data: Data)

  /** The data is exactly what the header announces. */
  predicate Whole(r: Record) {
    InRange(r.header) && |r.data| == r.header.dataSize
  }

  predicate AllWhole(rs: seq<Record>) {
    forall i | 0 <= i < |rs| :: Whole(rs[i])
  }

  function Print(r: Record): (d: Data)
    ensures |d| == HEADER + |r.data|
  {
    Put(r.header, r.data)
  }

  lemma PrintWhole(r: Record)
    requires Whole(r)
    ensures SizeAt(Print(r)) == |r.data| && Print(r)[..HEADER] == Put(r.header, [])
    ensures Decode(Put(r.header, [])) == r.header
  {
    PutSplits(r.header, r.data);
    SizePut(r.header, r.data);
    DecodePut(r.header, []);
  }

  /** The stream of records. */
  function PrintAll(rs: seq<Record>): Data {
    if rs == [] then [] else Print(rs[0]) + PrintAll(rs[1..])
  }

  /** The records' headers, as recovery sees them in the buffer. */
  function Headers(rs: seq<Record>): (hs: seq<Data>)
    ensures |hs| == |rs|
  {
    if rs == [] then [] else [Put(rs[0].header, [])] + Headers(rs[1..])
  }

  lemma {:induction false} HeadersAt(rs: seq<Record>, i: nat)
    requires i < |rs|
    ensures Headers(rs)[i] == Put(rs[i].header, [])
  {
    if i > 0 {
      HeadersAt(rs[1..], i - 1);
    }
  }

  /** Reading the visited headers gives back the headers that were printed. */
  lemma HeadersDecode(rs: seq<Record>, i: nat)
    requires AllWhole(rs) && i < |rs|
    ensures |Headers(rs)[i]| == HEADER && Decode(Headers(rs)[i]) == rs[i].header
  {
    HeadersAt(rs, i);
    DecodePut(rs[i].header, []);
  }

  // ----------------------------------------------------------------------- scan

  /** The headers a scan visits, whether it stayed inside the buffer to its end, and
      how many bytes were left over. */
  datatype Visit = Visit(headers: seq<Data>, clean: bool, left: nat)

  function Scan(d: Data): Visit
    decreases |d|
  {
    if |d| < HEADER then Visit([], true, |d|)
    else if HEADER + SizeAt(d) > |d| then Visit([d[..HEADER]], false, 0)
    else Joined([d[..HEADER]], Scan(d[HEADER + SizeAt(d)..]))
  }

  function Joined(before: seq<Data>, v: Visit): Visit {
    Visit(before + v.headers, v.clean, v.left)
  }

  /** A first record that fits, with what is behind it. */
  lemma ScanFits(d: Data, rest: Data)
    requires |d| >= HEADER && HEADER + SizeAt(d) <= |d| && rest == d[HEADER + SizeAt(d)..]
    ensures Scan(d) == Joined([d[..HEADER]], Scan(rest))
  {
  }

  lemma SizePrefix(d: Data, e: Data)
    requires |d| >= HEADER
    ensures SizeAt(d + e) == SizeAt(d)
  {
    assert (d + e)[40..48] == d[40..48];
  }

  /** A first record that fits is visited first and skipped exactly. */
  lemma ScanFirst(d: Data, e: Data)
    requires |d| >= HEADER && |d| == HEADER + SizeAt(d)
    ensures Scan(d + e) == Joined([d[..HEADER]], Scan(e))
  {
    SizePrefix(d, e);
    assert (d + e)[..HEADER] == d[..HEADER];
    assert (d + e)[|d|..] == e;
  }

  /** A header followed by fewer bytes than it announces runs over the end. */
  lemma ScanShort(h: Header, data: Data)
    requires InRange(h) && |data| < h.dataSize
    ensures !Scan(Put(h, data)).clean
  {
    SizePut(h, data);
  }

  /** Printing then scanning visits the records in order and ignores a tail shorter
      than a header. */
  lemma {:induction false} ScanPrinted(rs: seq<Record>, tail: Data)
    requires AllWhole(rs) && |tail| < HEADER
    ensures Scan(PrintAll(rs) + tail) == Visit(Headers(rs), true, |tail|)
  {
    if rs == [] {
      assert PrintAll(rs) + tail == tail;
    } else {
      var r, rest := rs[0], PrintAll(rs[1..]);
      Associate(Print(r), rest, tail);
      PrintWhole(r);
      ScanFirst(Print(r), rest + tail);
      ScanPrinted(rs[1..], tail);
    }
  }

  /** The other way round: whatever scans cleanly is a stream of whole records and a
      short tail. */
  lemma {:induction false} CleanIsPrinted(d: Data) returns (rs: seq<Record>, tail: Data)
    requires Scan(d).clean
    ensures AllWhole(rs) && |tail| < HEADER
    ensures d == PrintAll(rs) + tail
    ensures Scan(d) == Visit(Headers(rs), true, |tail|)
    decreases |d|
  {
    if |d| < HEADER {
      rs, tail := [], d;
    } else {
      var n := HEADER + SizeAt(d);
      var more;
      more, tail := CleanIsPrinted(d[n..]);
      assert d == d[..n] + d[n..];
      var r := FirstRecord(d[..n], d[n..]);
      rs := [r] + more;
      assert rs[1..] == more;
      Associate(Print(r), PrintAll(more), tail);
      ScanPrinted(rs, tail);
    }
  }

  lemma FirstRecord(d: Data, rest: Data) returns (r: Record)
    requires |d| >= HEADER && HEADER + SizeAt(d + rest) == |d|
    ensures Whole(r) && Print(r) == d
  {
    r := Record(Decode(d), d[HEADER..]);
    SizePrefix(d, rest);
    DecodeSize(d);
    PutDecode(d);
  }

  /** md_recover_from_wal_file: the loop over the buffer. The C code would read past
      the buffer where `clean` is false. */
  method Recover(data: Data) returns (visited: seq<Data>, clean: bool, remaining: nat)
    ensures Visit(visited, clean, remaining) == Scan(data)
  {
    visited, clean, remaining := [], true, |data|;
    var current := 0;
    while remaining >= HEADER
      invariant 0 <= current && current + remaining == |data|
      invariant clean && ScanFrom(visited, data, current) == Scan(data)
    {
      var header, dataSize := ReadHeader(data, current);
      JoinedStep(visited, data, current, dataSize);
      visited := visited + [header];
      var entrySize := HEADER + dataSize;
      if entrySize > remaining {
        return visited, false, 0;
      }
      current := current + entrySize;
      remaining := remaining - entrySize;
    }
    ScanEnds(visited, data, current);
  }

  method ReadHeader(data: Data, i: nat) returns (header: Data, dataSize: nat)
    requires i + HEADER <= |data|
    ensures header == data[i..i + HEADER] && dataSize == SizeFrom(data, i)
  {
    header, dataSize := data[i..i + HEADER], SizeAt(data[i..]);
  }

  ghost function SizeFrom(d: Data, i: nat): nat
    requires i + HEADER <= |d|
  {
    SizeAt(d[i..])
  }

  /** The whole scan, from what was visited so far and the position reached. */
  ghost function ScanFrom(before: seq<Data>, d: Data, i: nat): Visit
    requires i <= |d|
  {
    Joined(before, Scan(d[i..]))
  }

  lemma ScanEnds(before: seq<Data>, d: Data, i: nat)
    requires i <= |d| < i + HEADER
    ensures ScanFrom(before, d, i) == Visit(before, true, |d| - i)
  {
  }

  lemma JoinedStep(before: seq<Data>, d: Data, i: nat, size: nat)
    requires i + HEADER <= |d| && size == SizeFrom(d, i)
    ensures var n := i + HEADER + size;
            var after := before + [d[i..i + HEADER]];
            ScanFrom(before, d, i) == if n > |d| then Visit(after, false, 0) else ScanFrom(after, d, n)
  {
    var e := d[i..];
    var n := HEADER + SizeAt(e);
    assert e[..HEADER] == d[i..i + HEADER];
    if n <= |e| {
      assert e[n..] == d[i + n..];
      JoinedTwice(before, [e[..HEADER]], Scan(e[n..]));
    }
  }

  lemma JoinedTwice(a: seq<Data>, b: seq<Data>, v: Visit)
    ensures Joined(a, Joined(b, v)) == Joined(a + b, v)
  {
  }

  // -------------------------------------------------------------------- segments

  const WAL_SEGMENT_SIZE := 16 * 1024 * 1024

  /** The contents of the segments after logging one buffer: it goes behind the last
      segment's bytes if it fits there, and otherwise into a new segment. */
  function Append(segs: seq<Data>, d: Data, cap: nat): (r: seq<Data>)
    ensures r != []
  {
    if segs == [] || |segs[|segs| - 1]| + |d| > cap then segs + [d]
    else segs[..|segs| - 1] + [segs[|segs| - 1] + d]
  }

  /** Logging an empty buffer is refused. */
  function Logged(segs: seq<Data>, d: Data, cap: nat): seq<Data> {
    if d == [] then segs else Append(segs, d, cap)
  }

  function LoggedAll(segs: seq<Data>, ds: seq<Data>, cap: nat): seq<Data>
    decreases |ds|
  {
    if ds == [] then segs else LoggedAll(Logged(segs, ds[0], cap), ds[1..], cap)
  }

  function Concat(ds: seq<Data>): Data {
    if ds == [] then [] else ds[0] + Concat(ds[1..])
  }

  lemma {:induction false} ConcatLast(ds: seq<Data>, d: Data)
    ensures Concat(ds + [d]) == Concat(ds) + d
  {
    if ds == [] {
      assert ds + [d] == [d];
    } else {
      assert (ds + [d])[1..] == ds[1..] + [d];
      ConcatLast(ds[1..], d);
      Associate(ds[0], Concat(ds[1..]), d);
    }
  }

  /** Every segment fits, none is empty, and a new segment is only started when the
      buffer did not fit: two neighbours always exceed one capacity. */
  predicate Packed(segs: seq<Data>, cap: nat) {
    && (forall i | 0 <= i < |segs| :: 0 < |segs[i]| <= cap)
    && (forall i | 0 < i < |segs| :: |segs[i - 1]| + |segs[i]| > cap)
  }

  lemma LoggedPacked(segs: seq<Data>, d: Data, cap: nat)
    requires Packed(segs, cap) && |d| <= cap
    ensures Packed(Logged(segs, d, cap), cap)
  {
  }

  lemma LoggedConcat(segs: seq<Data>, d: Data, cap: nat)
    ensures Concat(Logged(segs, d, cap)) == Concat(segs) + d
  {
    var n := |segs|;
    if d == [] {
      assert Concat(segs) + d == Concat(segs);
    } else if segs == [] || |segs[n - 1]| + |d| > cap {
      ConcatLast(segs, d);
    } else {
      ConcatLast(segs[..n - 1], segs[n - 1] + d);
      ConcatLast(segs[..n - 1], segs[n - 1]);
      assert segs == segs[..n - 1] + [segs[n - 1]];
      Associate(Concat(segs[..n - 1]), segs[n - 1], d);
    }
  }

  predicate AllFit(ds: seq<Data>, cap: nat) {
    forall i | 0 <= i < |ds| :: |ds[i]| <= cap
  }

  /** The segments in list order hold the logged buffers in order, and stay packed. */
  lemma {:induction false} LogConserves(segs: seq<Data>, ds: seq<Data>, cap: nat)
    requires Packed(segs, cap) && AllFit(ds, cap)
    ensures Packed(LoggedAll(segs, ds, cap), cap)
    ensures Concat(LoggedAll(segs, ds, cap)) == Concat(segs) + Concat(ds)
    decreases |ds|
  {
    if ds == [] {
      assert Concat(segs) + Concat(ds) == Concat(segs);
    } else {
      LoggedPacked(segs, ds[0], cap);
      LoggedConcat(segs, ds[0], cap);
      LogConserves(Logged(segs, ds[0], cap), ds[1..], cap);
      Associate(Concat(segs), ds[0], Concat(ds[1..]));
    }
  }
}
