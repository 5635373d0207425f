/** What recovery reads back from logged segments: how a segment's scan grows with what
    is appended, and the four buffers of a logged write. */
module WalRecovery {
  import opened Common
  import opened Wal

  /** The scan stays inside the bytes. */
  predicate Clean(d: Data) {
    Scan(d).clean
  }

  /** The bytes are whole records and nothing else. */
  predicate Complete(d: Data) {
    Scan(d).clean && Scan(d).left == 0
  }

  predicate AllClean(segs: seq<Data>) {
    forall i | 0 <= i < |segs| :: Clean(segs[i])
  }

  predicate AllComplete(segs: seq<Data>) {
    forall i | 0 <= i < |segs| :: Complete(segs[i])
  }

  /** Each segment's file is scanned by itself, one after the other. */
  function ScanAll(files: seq<Data>): seq<Data> {
    if files == [] then [] else Scan(files[0]).headers + ScanAll(files[1..])
  }

  lemma Regroup<T>(a: seq<T>, b: seq<T>, c: seq<T>)
    ensures a + b + c == a + (b + c)
  {
  }

  lemma NextFile(visited: seq<Data>, files: seq<Data>, i: nat)
    requires i < |files|
    ensures visited + ScanAll(files[i..]) == visited + Scan(files[i]).headers + ScanAll(files[i + 1..])
  {
    assert files[i..][1..] == files[i + 1..];
    Regroup(visited, Scan(files[i]).headers, ScanAll(files[i + 1..]));
  }

  /** md_crash_recovery: the files come in the order the directory lists them. */
  method RecoverAll(files: seq<Data>) returns (visited: seq<Data>, clean: bool)
    ensures visited == ScanAll(files)
    ensures clean <==> AllClean(files)
  {
    visited, clean := [], true;
    for i := 0 to |files|
      invariant visited + ScanAll(files[i..]) == ScanAll(files)
      invariant clean <==> forall j | 0 <= j < i :: Clean(files[j])
    {
      var headers, ok, _ := Recover(files[i]);
      NextFile(visited, files, i);
      visited, clean := visited + headers, clean && ok;
    }
  }

  // ------------------------------------------------------------- growing segments

  lemma FrontConcat(d: Data, e: Data, n: nat)
    requires HEADER <= n <= |d|
    ensures (d + e)[..HEADER] == d[..HEADER] && (d + e)[n..] == d[n..] + e
  {
  }

  /** Scanning complete bytes with more behind them is scanning one after the other. */
  lemma {:induction false} ScanConcat(d: Data, e: Data)
    requires Complete(d)
    ensures Scan(d + e) == Joined(Scan(d).headers, Scan(e))
    decreases |d|
  {
    if d == [] {
      assert d + e == e;
    } else {
      var n := CompleteStep(d);
      ScanConcat(d[n..], e);
      SizePrefix(d, e);
      FrontConcat(d, e, n);
      ScanFits(d + e, d[n..] + e);
      JoinedTwice([d[..HEADER]], Scan(d[n..]).headers, Scan(e));
    }
  }

  lemma CompleteStep(d: Data) returns (n: nat)
    requires Complete(d) && d != []
    ensures |d| >= HEADER && n == HEADER + SizeAt(d) && n <= |d| && Complete(d[n..])
    ensures Scan(d).headers == [d[..HEADER]] + Scan(d[n..]).headers
  {
    n := HEADER + SizeAt(d);
  }

  lemma {:induction false} ScanAllConcat(a: seq<Data>, b: seq<Data>)
    ensures ScanAll(a + b) == ScanAll(a) + ScanAll(b)
  {
    if a == [] {
      assert a + b == b;
    } else {
      assert (a + b)[1..] == a[1..] + b;
      ScanAllConcat(a[1..], b);
    }
  }

  lemma ScanAllLast(segs: seq<Data>, d: Data)
    ensures ScanAll(segs + [d]) == ScanAll(segs) + Scan(d).headers
  {
    ScanAllConcat(segs, [d]);
  }

  /** Logging a buffer onto complete segments: what the buffer is by itself decides
      what the segments are, and recovery visits its headers last. */
  lemma LogOnto(segs: seq<Data>, d: Data, cap: nat)
    requires AllComplete(segs) && d != []
    ensures AllComplete(Logged(segs, d, cap)) <==> Complete(d)
    ensures AllClean(Logged(segs, d, cap)) <==> Clean(d)
    ensures ScanAll(Logged(segs, d, cap)) == ScanAll(segs) + Scan(d).headers
  {
    if segs == [] || |segs[|segs| - 1]| + |d| > cap {
      LastDecides(segs, d);
      ScanAllLast(segs, d);
    } else {
      GrowLast(segs, d);
    }
  }

  lemma GrowLast(segs: seq<Data>, d: Data)
    requires AllComplete(segs) && segs != []
    ensures var n := |segs| - 1;
            var t := segs[..n] + [segs[n] + d];
            && (AllComplete(t) <==> Complete(d)) && (AllClean(t) <==> Clean(d))
            && ScanAll(t) == ScanAll(segs) + Scan(d).headers
  {
    var init, last := segs[..|segs| - 1], segs[|segs| - 1];
    ScanConcat(last, d);
    LastDecides(init, last + d);
    GrownHeaders(init, last, d);
    assert segs == init + [last];
  }

  lemma GrownHeaders(init: seq<Data>, last: Data, d: Data)
    requires Scan(last + d).headers == Scan(last).headers + Scan(d).headers
    ensures ScanAll(init + [last + d]) == ScanAll(init + [last]) + Scan(d).headers
  {
    ScanAllLast(init, last + d);
    ScanAllLast(init, last);
  }

  lemma LastDecides(init: seq<Data>, last: Data)
    requires AllComplete(init)
    ensures AllComplete(init + [last]) <==> Complete(last)
    ensures AllClean(init + [last]) <==> Clean(last)
  {
    var all := init + [last];
    assert all[|init|] == last;
    assert forall i | 0 <= i < |init| :: all[i] == init[i] && Complete(init[i]);
  }

  lemma OneRecord(r: Record)
    requires Whole(r)
    ensures Scan(Print(r)) == Visit([Put(r.header, [])], true, 0)
  {
    PrintWhole(r);
    ScanFirst(Print(r), []);
    assert Print(r) + [] == Print(r);
  }

  // ------------------------------------------------------------- a logged write

  const LOGGED_DATA := 1024

  /** The headers of one write's transaction: begin and commit announce no data, the
      write's own header announces every byte written. */
  datatype Transaction = Transaction(begin: Header, write: Header, commit: Header)

  predicate Announces(x: Transaction, size: nat) {
    && InRange(x.begin) && InRange(x.write) && InRange(x.commit)
    && x.begin.dataSize == 0 && x.write.dataSize == size && x.commit.dataSize == 0
  }

  function LoggedBegin(segs: seq<Data>, x: Transaction, cap: nat): seq<Data> {
    Logged(segs, Put(x.begin, []), cap)
  }

  /** The write path: begin, the write's header, at most 1024 of its bytes, commit. */
  function LoggedWrite(segs: seq<Data>, x: Transaction, d: Data, cap: nat): seq<Data> {
    var headed := Logged(LoggedBegin(segs, x, cap), Put(x.write, []), cap);
    Logged(Logged(headed, d[..Min(|d|, LOGGED_DATA)], cap), Put(x.commit, []), cap)
  }

  function Used(segs: seq<Data>): nat {
    if segs == [] then 0 else |segs[|segs| - 1]|
  }

  /** How full the last segment is after n more bytes in one piece. */
  function After(used: nat, n: nat, cap: nat): nat {
    if used + n > cap then n else used + n
  }

  /** A header is the last thing that fits its segment: its n bytes of data do not. */
  predicate Parted(used: nat, n: nat, cap: nat) {
    n > 0 && After(used, HEADER, cap) + n > cap
  }

  /** The write's header and its logged data are parted. */
  predicate Torn(segs: seq<Data>, size: nat, cap: nat) {
    Parted(Used(segs), Min(size, LOGGED_DATA), cap)
  }

  /** Where the write's data ends, when header and data share a segment. */
  function DataEnd(segs: seq<Data>, size: nat, cap: nat): nat {
    After(Used(segs), HEADER, cap) + Min(size, LOGGED_DATA)
  }

  /** The commit header lands right behind the data. */
  predicate CommitJoins(segs: seq<Data>, size: nat, cap: nat) {
    DataEnd(segs, size, cap) + HEADER <= cap
  }

  predicate WriteArgs(segs: seq<Data>, x: Transaction, d: Data, cap: nat) {
    AllComplete(segs) && Announces(x, |d|) && cap >= 2 * HEADER + LOGGED_DATA
  }

  /** A header that announces no data. */
  lemma BareHeader(h: Header)
    requires InRange(h) && h.dataSize == 0
    ensures Put(h, []) != [] && Scan(Put(h, [])) == Visit([Put(h, [])], true, 0)
  {
    OneRecord(Record(h, []));
  }

  lemma AfterBegin(segs: seq<Data>, x: Transaction, cap: nat)
    requires AllComplete(segs) && InRange(x.begin) && x.begin.dataSize == 0
    ensures AllComplete(LoggedBegin(segs, x, cap))
    ensures ScanAll(LoggedBegin(segs, x, cap)) == ScanAll(segs) + [Put(x.begin, [])]
  {
    BareHeader(x.begin);
    LogOnto(segs, Put(x.begin, []), cap);
  }

  lemma LoggedKeepsEarlier(segs: seq<Data>, d: Data, cap: nat, i: nat)
    requires i < |segs| && (i == |segs| - 1 ==> |segs[i]| + |d| > cap)
    ensures i < |Logged(segs, d, cap)| && Logged(segs, d, cap)[i] == segs[i]
  {
  }

  /** A torn header stays behind in its segment, announcing data that is not there. */
  lemma TornWrite(segs: seq<Data>, x: Transaction, d: Data, cap: nat)
    requires WriteArgs(segs, x, d, cap) && Torn(LoggedBegin(segs, x, cap), |d|, cap)
    ensures !AllClean(LoggedWrite(segs, x, d, cap))
  {
    var g := LoggedBegin(segs, x, cap);
    var n := |g| - 1;
    var data := d[..Min(|d|, LOGGED_DATA)];
    var g2 := Logged(g, Put(x.write, []), cap);
    AfterBegin(segs, x, cap);
    ScanShort(x.write, []);
    ScanConcat(g[n], Put(x.write, []));
    assert g2[n] == g[n] + Put(x.write, []);
    LoggedKeepsEarlier(g2, data, cap, n);
    LoggedKeepsEarlier(Logged(g2, data, cap), Put(x.commit, []), cap, n);
    assert !Clean(g2[n]);
  }

  /** Two buffers that are not torn apart are logged like one. */
  lemma OneBuffer(segs: seq<Data>, a: Data, b: Data, cap: nat)
    requires a != [] && b != [] && |a| + |b| <= cap
    requires Used(segs) + |a| > cap || Used(segs) + |a| + |b| <= cap
    ensures Logged(Logged(segs, a, cap), b, cap) == Logged(segs, a + b, cap)
  {
    var n := |segs|;
    if segs == [] || |segs[n - 1]| + |a| > cap {
      assert (segs + [a])[..n] == segs;
    } else {
      var init, last := segs[..n - 1], segs[n - 1];
      assert (init + [last + a])[..n - 1] == init;
      Associate(last, a, b);
    }
  }

  /** Header and data as one buffer. */
  lemma HeaderAndData(segs: seq<Data>, h: Header, data: Data, cap: nat)
    requires !Parted(Used(segs), |data|, cap)
    ensures Logged(Logged(segs, Put(h, []), cap), data, cap) == Logged(segs, Put(h, data), cap)
  {
    PutSplits(h, data);
    if data == [] {
      assert Put(h, []) + data == Put(h, []);
    } else {
      OneBuffer(segs, Put(h, []), data, cap);
    }
  }

  /** A short write: everything is where recovery looks for it. */
  lemma ShortWrite(segs: seq<Data>, x: Transaction, d: Data, cap: nat)
    requires WriteArgs(segs, x, d, cap) && |d| <= LOGGED_DATA && !Torn(LoggedBegin(segs, x, cap), |d|, cap)
    ensures AllComplete(LoggedWrite(segs, x, d, cap))
    ensures ScanAll(LoggedWrite(segs, x, d, cap))
         == ScanAll(segs) + [Put(x.begin, []), Put(x.write, []), Put(x.commit, [])]
  {
    var g := LoggedBegin(segs, x, cap);
    AfterBegin(segs, x, cap);
    HeaderAndData(g, x.write, d[..Min(|d|, LOGGED_DATA)], cap);
    assert d[..Min(|d|, LOGGED_DATA)] == d;
    OneRecord(Record(x.write, d));
    BareHeader(x.commit);
    var w, c := Put(x.write, []), Put(x.commit, []);
    LogTwo(g, Put(x.write, d), w, c, c, cap, LoggedWrite(segs, x, d, cap));
    ThreeMore(ScanAll(segs), Put(x.begin, []), Put(x.write, []), Put(x.commit, []));
  }

  lemma LogOne(g: seq<Data>, d: Data, h: Data, cap: nat, t: seq<Data>)
    requires AllComplete(g) && d != [] && Scan(d) == Visit([h], true, 0) && t == Logged(g, d, cap)
    ensures AllComplete(t) && ScanAll(t) == ScanAll(g) + [h]
  {
    LogOnto(g, d, cap);
  }

  lemma LogTwo(g: seq<Data>, a: Data, h1: Data, b: Data, h2: Data, cap: nat, t: seq<Data>)
    requires AllComplete(g) && a != [] && b != [] && t == Logged(Logged(g, a, cap), b, cap)
    requires Scan(a) == Visit([h1], true, 0) && Scan(b) == Visit([h2], true, 0)
    ensures AllComplete(t) && ScanAll(t) == ScanAll(g) + [h1, h2]
  {
    var t1 := Logged(g, a, cap);
    LogOne(g, a, h1, cap, t1);
    LogOne(t1, b, h2, cap, t);
    TwoMore(ScanAll(g), h1, h2);
  }

  lemma ThreeMore<T>(s: seq<T>, a: T, b: T, c: T)
    ensures s + [a] + [b, c] == s + [a, b, c]
  {
  }

  lemma TwoMore<T>(s: seq<T>, a: T, b: T)
    ensures s + [a] + [b] == s + [a, b]
  {
  }

  /** Of a long write 1024 bytes are logged. If the commit header lands behind them,
      the scan takes it for data. */
  lemma LongJoined(segs: seq<Data>, x: Transaction, d: Data, cap: nat)
    requires WriteArgs(segs, x, d, cap) && |d| > LOGGED_DATA
    requires !Torn(LoggedBegin(segs, x, cap), |d|, cap) && CommitJoins(LoggedBegin(segs, x, cap), |d|, cap)
    ensures AllClean(LoggedWrite(segs, x, d, cap)) <==> |d| <= LOGGED_DATA + HEADER
    ensures AllComplete(LoggedWrite(segs, x, d, cap)) <==> |d| == LOGGED_DATA + HEADER
    ensures AllClean(LoggedWrite(segs, x, d, cap)) ==>
              ScanAll(LoggedWrite(segs, x, d, cap)) == ScanAll(segs) + [Put(x.begin, []), Put(x.write, [])]
  {
    var g := LoggedBegin(segs, x, cap);
    var data, commit := d[..LOGGED_DATA], Put(x.commit, []);
    AfterBegin(segs, x, cap);
    HeaderAndData(g, x.write, d[..Min(|d|, LOGGED_DATA)], cap);
    OneBuffer(g, Put(x.write, data), commit, cap);
    PutTail(x.write, data, commit);
    LogOnto(g, Put(x.write, data + commit), cap);
    AnnouncedEnd(x.write, data + commit);
    TwoMore(ScanAll(segs), Put(x.begin, []), Put(x.write, []));
  }

  lemma PutTail(h: Header, a: Data, b: Data)
    ensures Put(h, a) + b == Put(h, a + b)
  {
    PutSplits(h, a);
    PutSplits(h, a + b);
    Associate(Put(h, []), a, b);
  }

  /** A header with bytes behind it that are too few, or end less than a header past
      what it announces. */
  lemma AnnouncedEnd(h: Header, rest: Data)
    requires InRange(h) && |rest| < h.dataSize + HEADER
    ensures Scan(Put(h, rest)).clean <==> h.dataSize <= |rest|
    ensures h.dataSize <= |rest| ==> Scan(Put(h, rest)) == Visit([Put(h, [])], true, |rest| - h.dataSize)
  {
    if |rest| < h.dataSize {
      ScanShort(h, rest);
    } else {
      var n := h.dataSize;
      var r := Record(h, rest[..n]);
      assert rest == rest[..n] + rest[n..];
      PutTail(h, rest[..n], rest[n..]);
      PrintWhole(r);
      ScanFirst(Print(r), rest[n..]);
    }
  }

  /** Otherwise the long write's segment ends inside the announced data. */
  lemma LongApart(segs: seq<Data>, x: Transaction, d: Data, cap: nat)
    requires WriteArgs(segs, x, d, cap) && |d| > LOGGED_DATA
    requires !Torn(LoggedBegin(segs, x, cap), |d|, cap) && !CommitJoins(LoggedBegin(segs, x, cap), |d|, cap)
    ensures !AllClean(LoggedWrite(segs, x, d, cap))
  {
    var g := LoggedBegin(segs, x, cap);
    var data := d[..LOGGED_DATA];
    var g3 := Logged(g, Put(x.write, data), cap);
    AfterBegin(segs, x, cap);
    HeaderAndData(g, x.write, d[..Min(|d|, LOGGED_DATA)], cap);
    ScanShort(x.write, data);
    LogOnto(g, Put(x.write, data), cap);
    var i :| 0 <= i < |g3| && !Clean(g3[i]);
    assert Used(g3) == DataEnd(g, |d|, cap);
    LoggedKeepsEarlier(g3, Put(x.commit, []), cap, i);
  }

  /** A logged write leaves every segment whole records and nothing else exactly when
      header and data are not torn apart and the write has at most 1024 bytes, or has
      1076 and the commit header makes up for the bytes not logged. */
  lemma WriteComplete(segs: seq<Data>, x: Transaction, d: Data, cap: nat)
    requires WriteArgs(segs, x, d, cap)
    ensures var g := LoggedBegin(segs, x, cap);
            AllComplete(LoggedWrite(segs, x, d, cap)) <==>
              && !Torn(g, |d|, cap)
              && (|d| <= LOGGED_DATA || (|d| == LOGGED_DATA + HEADER && CommitJoins(g, |d|, cap)))
  {
    WriteCases(segs, x, d, cap);
  }

  /** The scans stay inside the segments for the sizes in between, too; they then end
      in the middle of the commit header. */
  lemma WriteClean(segs: seq<Data>, x: Transaction, d: Data, cap: nat)
    requires WriteArgs(segs, x, d, cap)
    ensures var g := LoggedBegin(segs, x, cap);
            AllClean(LoggedWrite(segs, x, d, cap)) <==>
              && !Torn(g, |d|, cap)
              && (|d| <= LOGGED_DATA || (|d| <= LOGGED_DATA + HEADER && CommitJoins(g, |d|, cap)))
  {
    WriteCases(segs, x, d, cap);
  }

  /** Recovery visits the write's three headers and leaves nothing over exactly for
      untorn writes of at most 1024 bytes. */
  lemma WriteRecoverable(segs: seq<Data>, x: Transaction, d: Data, cap: nat)
    requires WriteArgs(segs, x, d, cap)
    ensures var t := LoggedWrite(segs, x, d, cap);
            AllComplete(t) && ScanAll(t) == ScanAll(segs) + [Put(x.begin, []), Put(x.write, []), Put(x.commit, [])]
            <==> |d| <= LOGGED_DATA && !Torn(LoggedBegin(segs, x, cap), |d|, cap)
  {
    WriteCases(segs, x, d, cap);
  }

  lemma WriteCases(segs: seq<Data>, x: Transaction, d: Data, cap: nat)
    requires WriteArgs(segs, x, d, cap)
    ensures var g, t := LoggedBegin(segs, x, cap), LoggedWrite(segs, x, d, cap);
            if Torn(g, |d|, cap) then !AllClean(t)
            else if |d| <= LOGGED_DATA then
              AllComplete(t) && ScanAll(t) == ScanAll(segs) + [Put(x.begin, []), Put(x.write, []), Put(x.commit, [])]
            else if CommitJoins(g, |d|, cap) then
              && (AllClean(t) <==> |d| <= LOGGED_DATA + HEADER)
              && (AllComplete(t) <==> |d| == LOGGED_DATA + HEADER)
              && (AllClean(t) ==> ScanAll(t) == ScanAll(segs) + [Put(x.begin, []), Put(x.write, [])])
            else !AllClean(t)
  {
    var g := LoggedBegin(segs, x, cap);
    if Torn(g, |d|, cap) {
      TornWrite(segs, x, d, cap);
    } else if |d| <= LOGGED_DATA {
      ShortWrite(segs, x, d, cap);
    } else if CommitJoins(g, |d|, cap) {
      LongJoined(segs, x, d, cap);
    } else {
      LongApart(segs, x, d, cap);
    }
  }

  // ------------------------------------------------------------------- witnesses

  function Zeros(n: nat): (d: Data)
    ensures |d| == n
  {
    seq(n, _ => 0)
  }

  /** A header that announces `size` bytes. */
  function Announcing(size: nat): Header {
    Header(1, 1, 1, 0, 1, 0, size, 0)
  }

  function Sample(size: nat): Transaction {
    Transaction(Announcing(0), Announcing(size), Announcing(0))
  }

  lemma SampleAnnounces(size: nat)
    requires size < 0x1_0000_0000
    ensures Announces(Sample(size), size)
  {
    assert Pow256(4) == 0x1_0000_0000 <= Pow256(8);
  }

  /** In a new log a write of 1076 bytes passes for complete, but its commit header is
      taken for data; one of 1077 bytes makes recovery run over the segment's end. */
  lemma LongWritesLost()
    ensures var t := LoggedWrite([], Sample(1076), Zeros(1076), WAL_SEGMENT_SIZE);
            AllComplete(t) && ScanAll(t) == [Put(Announcing(0), []), Put(Announcing(1076), [])]
    ensures !AllClean(LoggedWrite([], Sample(1077), Zeros(1077), WAL_SEGMENT_SIZE))
  {
    SampleAnnounces(1076);
    SampleAnnounces(1077);
    WriteCases([], Sample(1076), Zeros(1076), WAL_SEGMENT_SIZE);
    WriteCases([], Sample(1077), Zeros(1077), WAL_SEGMENT_SIZE);
  }

  /** One byte is enough when the header fills its segment. */
  lemma ByteTorn() returns (segs: seq<Data>)
    ensures AllComplete(segs) && Packed(segs, WAL_SEGMENT_SIZE)
    ensures !AllClean(LoggedWrite(segs, Sample(1), Zeros(1), WAL_SEGMENT_SIZE))
  {
    var n := WAL_SEGMENT_SIZE - 3 * HEADER;
    var r := Record(Announcing(n), Zeros(n));
    SampleAnnounces(n);
    OneRecord(r);
    segs := [Print(r)];
    ByteTornAfter(segs);
  }

  lemma ByteTornAfter(segs: seq<Data>)
    requires AllComplete(segs) && segs != [] && Used(segs) == WAL_SEGMENT_SIZE - 2 * HEADER
    ensures !AllClean(LoggedWrite(segs, Sample(1), Zeros(1), WAL_SEGMENT_SIZE))
  {
    SampleAnnounces(1);
    BeginUsed(segs, Sample(1), WAL_SEGMENT_SIZE);
    WriteCases(segs, Sample(1), Zeros(1), WAL_SEGMENT_SIZE);
  }

  lemma BeginUsed(segs: seq<Data>, x: Transaction, cap: nat)
    ensures Used(LoggedBegin(segs, x, cap))
         == if segs == [] || Used(segs) + HEADER > cap then HEADER else Used(segs) + HEADER
  {
  }
}
