/** Whole histories of logged transactions: which of them leave segments that recovery
    can read, and what it visits when the segment files come in any order. */
module WalHistory {
  import opened Common
  import opened Wal
  import opened WalRecovery

  // ---------------------------------------------- records, header and data apart

  /** How a caller logs a record: its header first, then its data in a second call. A
      record without data is its header alone. */
  function LoggedRecord(segs: seq<Data>, r: Record, cap: nat): seq<Data> {
    Logged(Logged(segs, Put(r.header, []), cap), r.data, cap)
  }

  function LoggedRecords(segs: seq<Data>, rs: seq<Record>, cap: nat): seq<Data>
    decreases |rs|
  {
    if rs == [] then segs else LoggedRecords(LoggedRecord(segs, rs[0], cap), rs[1..], cap)
  }

  /** No header is parted from its data when its turn comes; a matter of lengths only. */
  predicate NoneParted(used: nat, rs: seq<Record>, cap: nat)
    decreases |rs|
  {
    rs == [] || (
      && !Parted(used, |rs[0].data|, cap)
      && NoneParted(After(used, HEADER, cap) + |rs[0].data|, rs[1..], cap))
  }

  lemma UsedAfter(segs: seq<Data>, d: Data, cap: nat)
    requires d != []
    ensures Used(Logged(segs, d, cap)) == After(Used(segs), |d|, cap)
  {
  }

  /** A record in one piece is logged like one buffer. */
  lemma InOnePiece(segs: seq<Data>, r: Record, cap: nat)
    requires !Parted(Used(segs), |r.data|, cap)
    ensures LoggedRecord(segs, r, cap) == Logged(segs, Print(r), cap)
    ensures Used(LoggedRecord(segs, r, cap)) == After(Used(segs), HEADER, cap) + |r.data|
  {
    HeaderAndData(segs, r.header, r.data, cap);
    UsedAfter(segs, Print(r), cap);
  }

  lemma PieceLogged(segs: seq<Data>, r: Record, cap: nat)
    requires AllComplete(segs) && Whole(r) && !Parted(Used(segs), |r.data|, cap)
    ensures AllComplete(LoggedRecord(segs, r, cap))
    ensures ScanAll(LoggedRecord(segs, r, cap)) == ScanAll(segs) + [Put(r.header, [])]
  {
    InOnePiece(segs, r, cap);
    OneRecord(r);
    LogOnto(segs, Print(r), cap);
  }

  // -------------------------------------------------------------- parted records

  /** A segment that is no longer the last one does not scan cleanly. */
  predicate Buried(segs: seq<Data>) {
    exists i | 0 <= i < |segs| - 1 :: !Clean(segs[i])
  }

  /** A parted header stays behind, announcing data that is not there. */
  lemma PartedBuried(segs: seq<Data>, r: Record, cap: nat)
    requires AllComplete(segs) && Whole(r) && Parted(Used(segs), |r.data|, cap)
    ensures Buried(LoggedRecord(segs, r, cap))
  {
    var g := Logged(segs, Put(r.header, []), cap);
    UsedAfter(segs, Put(r.header, []), cap);
    ScanShort(r.header, []);
    LogOnto(segs, Put(r.header, []), cap);
    var i :| 0 <= i < |g| && !Clean(g[i]);
    assert (g + [r.data])[i] == g[i];
  }

  lemma BuriedStays(segs: seq<Data>, d: Data, cap: nat)
    requires Buried(segs)
    ensures Buried(Logged(segs, d, cap))
  {
    var i :| 0 <= i < |segs| - 1 && !Clean(segs[i]);
    LoggedKeepsEarlier(segs, d, cap, i);
  }

  lemma {:induction false} BuriedForGood(segs: seq<Data>, rs: seq<Record>, cap: nat)
    requires Buried(segs)
    ensures Buried(LoggedRecords(segs, rs, cap))
    decreases |rs|
  {
    if rs != [] {
      BuriedStays(segs, Put(rs[0].header, []), cap);
      BuriedStays(Logged(segs, Put(rs[0].header, []), cap), rs[0].data, cap);
      BuriedForGood(LoggedRecord(segs, rs[0], cap), rs[1..], cap);
    }
  }

  /** Behind a record in one piece the rest is logged as before. */
  lemma NextPiece(segs: seq<Data>, rs: seq<Record>, cap: nat)
    requires rs != [] && !Parted(Used(segs), |rs[0].data|, cap)
    ensures var t := LoggedRecord(segs, rs[0], cap);
            && (NoneParted(Used(segs), rs, cap) <==> NoneParted(Used(t), rs[1..], cap))
            && LoggedRecords(segs, rs, cap) == LoggedRecords(t, rs[1..], cap)
  {
    InOnePiece(segs, rs[0], cap);
  }

  lemma BuriedUnclean(segs: seq<Data>)
    requires Buried(segs)
    ensures !AllClean(segs) && !AllComplete(segs)
  {
  }

  /** Logging records behind complete segments: every segment scans cleanly, and every
      one is whole records and nothing else, exactly when no header was parted from its
      data at its turn. Nothing logged later repairs a parted one. Recovery then visits
      all headers, last and in order. */
  lemma {:induction false} HistoryComplete(segs: seq<Data>, rs: seq<Record>, cap: nat)
    requires AllComplete(segs) && AllWhole(rs)
    ensures AllComplete(LoggedRecords(segs, rs, cap)) <==> NoneParted(Used(segs), rs, cap)
    ensures AllClean(LoggedRecords(segs, rs, cap)) <==> NoneParted(Used(segs), rs, cap)
    ensures NoneParted(Used(segs), rs, cap) ==>
              ScanAll(LoggedRecords(segs, rs, cap)) == ScanAll(segs) + Headers(rs)
    decreases |rs|
  {
    if rs == [] {
      assert ScanAll(segs) + [] == ScanAll(segs);
    } else if Parted(Used(segs), |rs[0].data|, cap) {
      PartedBuried(segs, rs[0], cap);
      BuriedForGood(LoggedRecord(segs, rs[0], cap), rs[1..], cap);
      BuriedUnclean(LoggedRecords(segs, rs, cap));
    } else {
      NextPiece(segs, rs, cap);
      PieceLogged(segs, rs[0], cap);
      HistoryComplete(LoggedRecord(segs, rs[0], cap), rs[1..], cap);
      Regroup(ScanAll(segs), [Put(rs[0].header, [])], Headers(rs[1..]));
    }
  }

  lemma ThreeRecords(segs: seq<Data>, a: Record, b: Record, c: Record, cap: nat)
    ensures LoggedRecords(segs, [a, b, c], cap)
         == LoggedRecord(LoggedRecord(LoggedRecord(segs, a, cap), b, cap), c, cap)
  {
    assert [a, b, c][1..] == [b, c] && [b, c][1..] == [c];
    OneLogged(LoggedRecord(LoggedRecord(segs, a, cap), b, cap), c, cap);
  }

  lemma OneLogged(segs: seq<Data>, r: Record, cap: nat)
    ensures LoggedRecords(segs, [r], cap) == LoggedRecord(segs, r, cap)
  {
    assert [r][1..] == [];
  }

  // ------------------------------------------------------------ runs of a segment

  function Flatten(runs: seq<seq<Record>>): seq<Record> {
    if runs == [] then [] else runs[0] + Flatten(runs[1..])
  }

  lemma {:induction false} FlattenLast(runs: seq<seq<Record>>, run: seq<Record>)
    ensures Flatten(runs + [run]) == Flatten(runs) + run
  {
    if runs == [] {
      assert runs + [run] == [run];
    } else {
      assert (runs + [run])[1..] == runs[1..] + [run];
      FlattenLast(runs[1..], run);
      assert runs[0] + (Flatten(runs[1..]) + run) == runs[0] + Flatten(runs[1..]) + run;
    }
  }

  lemma {:induction false} PrintLast(rs: seq<Record>, r: Record)
    ensures PrintAll(rs + [r]) == PrintAll(rs) + Print(r)
  {
    if rs == [] {
      assert rs + [r] == [r];
    } else {
      assert (rs + [r])[1..] == rs[1..] + [r];
      PrintLast(rs[1..], r);
      Associate(Print(rs[0]), PrintAll(rs[1..]), Print(r));
    }
  }

  lemma PrintOne(r: Record)
    ensures PrintAll([r]) == Print(r)
  {
    assert [r][1..] == [] && Print(r) + [] == Print(r);
  }

  /** Segment by segment, the bytes are these runs of whole records. */
  predicate HoldsRuns(segs: seq<Data>, runs: seq<seq<Record>>) {
    && |segs| == |runs|
    && forall i | 0 <= i < |segs| :: AllWhole(runs[i]) && segs[i] == PrintAll(runs[i])
  }

  lemma LogRun(segs: seq<Data>, runs: seq<seq<Record>>, r: Record, cap: nat) returns (more: seq<seq<Record>>)
    requires HoldsRuns(segs, runs) && Whole(r) && !Parted(Used(segs), |r.data|, cap)
    ensures HoldsRuns(LoggedRecord(segs, r, cap), more) && Flatten(more) == Flatten(runs) + [r]
  {
    InOnePiece(segs, r, cap);
    more := PieceRun(segs, runs, r, cap);
  }

  lemma PieceRun(segs: seq<Data>, runs: seq<seq<Record>>, r: Record, cap: nat) returns (more: seq<seq<Record>>)
    requires HoldsRuns(segs, runs) && Whole(r)
    ensures HoldsRuns(Logged(segs, Print(r), cap), more) && Flatten(more) == Flatten(runs) + [r]
  {
    if segs == [] || |segs[|segs| - 1]| + |Print(r)| > cap {
      more := runs + [[r]];
      FlattenLast(runs, [r]);
      PrintOne(r);
    } else {
      more := GrowRun(runs, r);
      PrintLast(runs[|runs| - 1], r);
      GrownHolds(segs, runs, r, more);
    }
  }

  lemma GrownHolds(segs: seq<Data>, runs: seq<seq<Record>>, r: Record, more: seq<seq<Record>>)
    requires HoldsRuns(segs, runs) && Whole(r) && runs != []
    requires var n := |runs| - 1;
             more == runs[..n] + [runs[n] + [r]] && PrintAll(runs[n] + [r]) == PrintAll(runs[n]) + Print(r)
    ensures var n := |segs| - 1; HoldsRuns(segs[..n] + [segs[n] + Print(r)], more)
  {
    var n := |runs| - 1;
    assert AllWhole(runs[n]) && AllWhole(runs[n] + [r]);
  }

  lemma GrowRun(runs: seq<seq<Record>>, r: Record) returns (more: seq<seq<Record>>)
    requires runs != []
    ensures var n := |runs| - 1; more == runs[..n] + [runs[n] + [r]]
    ensures Flatten(more) == Flatten(runs) + [r]
  {
    var init, last := runs[..|runs| - 1], runs[|runs| - 1];
    more := init + [last + [r]];
    FlattenLast(init, last + [r]);
    FlattenLast(init, last);
    assert runs == init + [last];
    Regroup(Flatten(init), last, [r]);
  }

  lemma {:induction false} LogRuns(segs: seq<Data>, runs: seq<seq<Record>>, rs: seq<Record>, cap: nat)
      returns (more: seq<seq<Record>>)
    requires HoldsRuns(segs, runs) && AllWhole(rs) && NoneParted(Used(segs), rs, cap)
    ensures HoldsRuns(LoggedRecords(segs, rs, cap), more) && Flatten(more) == Flatten(runs) + rs
    decreases |rs|
  {
    if rs == [] {
      more := runs;
      assert Flatten(runs) + rs == Flatten(runs);
    } else {
      var next := LogRun(segs, runs, rs[0], cap);
      NextPiece(segs, rs, cap);
      more := LogRuns(LoggedRecord(segs, rs[0], cap), next, rs[1..], cap);
      FirstMoved(Flatten(runs), rs);
    }
  }

  lemma FirstMoved<T>(a: seq<T>, s: seq<T>)
    requires s != []
    ensures a + [s[0]] + s[1..] == a + s
  {
  }

  /** A segment that holds a run is scanned as that run. */
  lemma RunScans(run: seq<Record>)
    requires AllWhole(run)
    ensures Scan(PrintAll(run)) == Visit(Headers(run), true, 0)
  {
    ScanPrinted(run, []);
    assert PrintAll(run) + [] == PrintAll(run);
  }

  // ------------------------------------------------------ files in any order

  lemma {:induction false} PermutedScan(a: seq<Data>, b: seq<Data>)
    requires multiset(a) == multiset(b)
    ensures multiset(ScanAll(a)) == multiset(ScanAll(b))
  {
    if a == [] {
      assert |b| == |multiset(b)| == 0;
    } else {
      assert a[0] in multiset(b);
      var i :| 0 <= i < |b| && b[i] == a[0];
      var rest := b[..i] + b[i + 1..];
      FirstOut(a);
      TakenOut(b, i);
      PermutedScan(a[1..], rest);
      ScanAllAround(b, i);
    }
  }

  lemma FirstOut<T>(s: seq<T>)
    requires s != []
    ensures multiset(s[1..]) == multiset(s) - multiset{s[0]}
  {
    assert s == [s[0]] + s[1..];
  }

  lemma TakenOut<T>(s: seq<T>, i: nat)
    requires i < |s|
    ensures multiset(s[..i] + s[i + 1..]) == multiset(s) - multiset{s[i]}
  {
    assert s == s[..i] + [s[i]] + s[i + 1..];
  }

  lemma {:induction false} ScanAllAround(b: seq<Data>, i: nat)
    requires i < |b|
    ensures multiset(ScanAll(b)) == multiset(Scan(b[i]).headers) + multiset(ScanAll(b[..i] + b[i + 1..]))
  {
    Around(b, i);
    ScanAllMiddle(b[..i], b[i], b[i + 1..]);
    MiddleOut(ScanAll(b[..i]), Scan(b[i]).headers, ScanAll(b[i + 1..]));
  }

  lemma Around<T>(s: seq<T>, i: nat)
    requires i < |s|
    ensures s == s[..i] + ([s[i]] + s[i + 1..])
  {
  }

  lemma {:induction false} ScanAllMiddle(front: seq<Data>, d: Data, back: seq<Data>)
    ensures ScanAll(front + ([d] + back)) == ScanAll(front) + (Scan(d).headers + ScanAll(back))
    ensures ScanAll(front + back) == ScanAll(front) + ScanAll(back)
  {
    ScanAllConcat(front, [d] + back);
    ScanAllConcat(front, back);
    assert ([d] + back)[1..] == back;
  }

  lemma MiddleOut<T>(a: seq<T>, b: seq<T>, c: seq<T>)
    ensures multiset(a + (b + c)) == multiset(b) + multiset(a + c)
  {
  }

  // ------------------------------------------------- when the order is not lost

  predicate Distinct<T(==)>(s: seq<T>) {
    forall i, j | 0 <= i < j < |s| :: s[i] != s[j]
  }

  predicate AllVisit(segs: seq<Data>) {
    forall i | 0 <= i < |segs| :: Scan(segs[i]).headers != []
  }

  lemma {:induction false} FirstHeaderIn(segs: seq<Data>, f: Data)
    requires f in segs && Scan(f).headers != []
    ensures Scan(f).headers[0] in ScanAll(segs)
  {
    if segs[0] == f {
      assert ScanAll(segs)[0] == Scan(f).headers[0];
    } else {
      FirstHeaderIn(segs[1..], f);
    }
  }

  lemma DistinctSplits<T>(a: seq<T>, b: seq<T>)
    requires Distinct(a + b)
    ensures Distinct(b) && forall x | x in a :: x !in b
  {
    forall i, j | 0 <= i < j < |b| ensures b[i] != b[j] {
      assert (a + b)[|a| + i] == b[i] && (a + b)[|a| + j] == b[j];
    }
    forall i, j | 0 <= i < |a| && 0 <= j < |b| ensures a[i] != b[j] {
      assert (a + b)[i] == a[i] && (a + b)[|a| + j] == b[j];
    }
  }

  lemma SameTail<T>(a: seq<T>, b: seq<T>, c: seq<T>)
    requires a + b == a + c
    ensures b == c
  {
    assert (a + b)[|a|..] == b && (a + c)[|a|..] == c;
  }

  /** The first file listed is the first segment. */
  lemma FirstInPlace(files: seq<Data>, segs: seq<Data>)
    requires files != [] && segs != [] && AllVisit(segs) && Distinct(ScanAll(segs))
    requires files[0] in segs && ScanAll(files) == ScanAll(segs)
    ensures files[0] == segs[0]
  {
    var first := Scan(files[0]).headers;
    assert first != [];
    assert first[0] == ScanAll(files)[0] == ScanAll(segs)[0] == Scan(segs[0]).headers[0];
    if files[0] != segs[0] {
      assert files[0] in segs[1..];
      FirstHeaderIn(segs[1..], files[0]);
      DistinctSplits(Scan(segs[0]).headers, ScanAll(segs[1..]));
    }
  }

  lemma MovedMember<T>(a: seq<T>, b: seq<T>, x: T)
    requires multiset(a) == multiset(b) && x in a
    ensures x in b
  {
    assert x in multiset(b);
  }

  /** Recovery visits the headers in the log's order exactly when the directory lists the
      segments in that order, if every segment has a header to visit and no header is
      there twice. */
  lemma {:induction false} OrderKept(files: seq<Data>, segs: seq<Data>)
    requires multiset(files) == multiset(segs) && AllVisit(segs) && Distinct(ScanAll(segs))
    ensures ScanAll(files) == ScanAll(segs) <==> files == segs
  {
    assert |files| == |multiset(files)| == |multiset(segs)| == |segs|;
    if ScanAll(files) == ScanAll(segs) && segs != [] {
      MovedMember(files, segs, files[0]);
      FirstInPlace(files, segs);
      FirstOut(files);
      FirstOut(segs);
      SameTail(Scan(segs[0]).headers, ScanAll(files[1..]), ScanAll(segs[1..]));
      DistinctSplits(Scan(segs[0]).headers, ScanAll(segs[1..]));
      OrderKept(files[1..], segs[1..]);
      assert files == [files[0]] + files[1..] && segs == [segs[0]] + segs[1..];
    }
  }

  predicate NoneEmpty(segs: seq<Data>) {
    forall i | 0 <= i < |segs| :: segs[i] != []
  }

  lemma {:induction false} RecordsNoneEmpty(segs: seq<Data>, rs: seq<Record>, cap: nat)
    requires NoneEmpty(segs)
    ensures NoneEmpty(LoggedRecords(segs, rs, cap))
    decreases |rs|
  {
    if rs != [] {
      LoggedNoneEmpty(segs, Put(rs[0].header, []), cap);
      LoggedNoneEmpty(Logged(segs, Put(rs[0].header, []), cap), rs[0].data, cap);
      RecordsNoneEmpty(LoggedRecord(segs, rs[0], cap), rs[1..], cap);
    }
  }

  lemma LoggedNoneEmpty(segs: seq<Data>, d: Data, cap: nat)
    requires NoneEmpty(segs)
    ensures NoneEmpty(Logged(segs, d, cap))
  {
  }

  lemma CompleteVisits(segs: seq<Data>)
    requires AllComplete(segs) && NoneEmpty(segs)
    ensures AllVisit(segs)
  {
    forall i | 0 <= i < |segs| ensures Scan(segs[i]).headers != [] {
      var n := CompleteStep(segs[i]);
    }
  }

  /** Records logged from the start and recovered from the segment files in any order:
      every file is visited as a contiguous run of the log in logged order, all records
      are visited, each once, and if no header is there twice they are visited in logged
      order exactly when the files are listed in that order. */
  lemma RecoverAnyOrder(rs: seq<Record>, cap: nat, segs: seq<Data>, files: seq<Data>) returns (runs: seq<seq<Record>>)
    requires AllWhole(rs) && NoneParted(0, rs, cap)
    requires segs == LoggedRecords([], rs, cap) && multiset(files) == multiset(segs)
    ensures Flatten(runs) == rs && ScanAsRuns(segs, runs)
    ensures forall f | f in files :: ScansAsOne(f, runs)
    ensures multiset(ScanAll(files)) == multiset(Headers(rs))
    ensures files == segs ==> ScanAll(files) == Headers(rs)
    ensures Distinct(Headers(rs)) ==> (ScanAll(files) == Headers(rs) <==> files == segs)
  {
    runs := RunsOf(rs, cap, segs);
    FilesScan(segs, runs, files);
    HistoryInOrder(rs, cap, segs, files);
  }

  lemma RunsOf(rs: seq<Record>, cap: nat, segs: seq<Data>) returns (runs: seq<seq<Record>>)
    requires AllWhole(rs) && NoneParted(0, rs, cap) && segs == LoggedRecords([], rs, cap)
    ensures Flatten(runs) == rs && ScanAsRuns(segs, runs)
  {
    runs := LogRuns([], [], rs, cap);
    SegmentsScan(segs, runs);
    NothingBefore(Flatten([]), rs);
  }

  lemma NothingBefore<T>(a: seq<T>, s: seq<T>)
    requires a == []
    ensures a + s == s
  {
  }

  predicate ScansAs(d: Data, run: seq<Record>) {
    Scan(d) == Visit(Headers(run), true, 0)
  }

  predicate ScanAsRuns(segs: seq<Data>, runs: seq<seq<Record>>) {
    |segs| == |runs| && forall i | 0 <= i < |runs| :: ScansAs(segs[i], runs[i])
  }

  predicate ScansAsOne(d: Data, runs: seq<seq<Record>>) {
    exists i | 0 <= i < |runs| :: ScansAs(d, runs[i])
  }

  lemma SegmentsScan(segs: seq<Data>, runs: seq<seq<Record>>)
    requires HoldsRuns(segs, runs)
    ensures ScanAsRuns(segs, runs)
  {
    forall i | 0 <= i < |runs| ensures ScansAs(segs[i], runs[i]) {
      RunScans(runs[i]);
    }
  }

  lemma FilesScan(segs: seq<Data>, runs: seq<seq<Record>>, files: seq<Data>)
    requires ScanAsRuns(segs, runs) && multiset(files) == multiset(segs)
    ensures forall f | f in files :: ScansAsOne(f, runs)
  {
    forall f | f in files ensures ScansAsOne(f, runs) {
      MovedMember(files, segs, f);
      var i :| 0 <= i < |segs| && segs[i] == f;
      assert ScansAs(f, runs[i]);
    }
  }

  lemma HistoryInOrder(rs: seq<Record>, cap: nat, segs: seq<Data>, files: seq<Data>)
    requires AllWhole(rs) && NoneParted(0, rs, cap)
    requires segs == LoggedRecords([], rs, cap) && multiset(files) == multiset(segs)
    ensures multiset(ScanAll(files)) == multiset(Headers(rs))
    ensures files == segs ==> ScanAll(files) == Headers(rs)
    ensures Distinct(Headers(rs)) ==> (ScanAll(files) == Headers(rs) <==> files == segs)
  {
    NewLogComplete(rs, cap, segs);
    PermutedScan(files, segs);
    CompleteVisits(segs);
    if Distinct(Headers(rs)) {
      OrderKept(files, segs);
    }
  }

  lemma NewLogComplete(rs: seq<Record>, cap: nat, segs: seq<Data>)
    requires AllWhole(rs) && segs == LoggedRecords([], rs, cap)
    ensures NoneEmpty(segs)
    ensures AllComplete(segs) <==> NoneParted(0, rs, cap)
    ensures AllClean(segs) <==> NoneParted(0, rs, cap)
    ensures NoneParted(0, rs, cap) ==> ScanAll(segs) == Headers(rs)
  {
    HistoryComplete([], rs, cap);
    RecordsNoneEmpty([], rs, cap);
    NothingBefore(ScanAll([]), Headers(rs));
  }

  /** Two records that do not share a segment: listing the later file first visits the
      later record first. */
  lemma OrderLost(r1: Record, r2: Record, cap: nat)
    requires Whole(r1) && Whole(r2) && NoneParted(0, [r1, r2], cap) && |Print(r1)| + |Print(r2)| > cap
    ensures LoggedRecords([], [r1, r2], cap) == [Print(r1), Print(r2)]
    ensures ScanAll([Print(r2), Print(r1)]) == Headers([r2, r1])
    ensures r1.header != r2.header ==> Headers([r2, r1]) != Headers([r1, r2])
  {
    TwoSegments(r1, r2, cap);
    TwoFiles(r2, r1);
    if r1.header != r2.header {
      HeadersDecode([r2, r1], 0);
      HeadersDecode([r1, r2], 0);
    }
  }

  lemma TwoSegments(r1: Record, r2: Record, cap: nat)
    requires NoneParted(0, [r1, r2], cap) && |Print(r1)| + |Print(r2)| > cap
    ensures LoggedRecords([], [r1, r2], cap) == [Print(r1), Print(r2)]
  {
    assert [r1, r2][1..] == [r2];
    InOnePiece([], r1, cap);
    assert LoggedRecord([], r1, cap) == [Print(r1)];
    InOnePiece([Print(r1)], r2, cap);
    OneLogged([Print(r1)], r2, cap);
  }

  lemma TwoFiles(r1: Record, r2: Record)
    requires Whole(r1) && Whole(r2)
    ensures ScanAll([Print(r1), Print(r2)]) == Headers([r1, r2])
  {
    OneRecord(r1);
    OneRecord(r2);
    TwoScans(Print(r1), Print(r2));
  }

  lemma TwoScans(a: Data, b: Data)
    ensures ScanAll([a, b]) == Scan(a).headers + Scan(b).headers
  {
    ScanAllConcat([a], [b]);
    assert [a] + [b] == [a, b];
  }

  // ------------------------------------------------------------- logged histories

  const PENDING := 0
  const COMMITTED := 1
  const WRITE_DATA := 2

  /** What the file system logs. Enabling the log begins a transaction and leaves it at
      that; a write, a creation and a deletion begin one, log a header with the bytes
      written or the path, and commit. */
  datatype Call =
    | Begun(kind: nat, began: nat)
    | Done(kind: nat, began: nat, at: nat, ino: nat, blockId: nat, data: Data, ended: nat)

  /** Kinds are positive, and every field fits the header's. */
  predicate Loggable(c: Call) {
    && 0 < c.kind < Pow256(4) && c.began < Pow256(8)
    && (c.Done? ==>
          && c.at < Pow256(8) && c.ended < Pow256(8) && c.ino < Pow256(8) && c.blockId < Pow256(8)
          && |c.data| < Pow256(8))
  }

  predicate AllLoggable(cs: seq<Call>) {
    (forall i | 0 <= i < |cs| :: Loggable(cs[i])) && |cs| < Pow256(8)
  }

  /** Everything a write announces is logged. */
  predicate Short(c: Call) {
    c.Done? && c.kind == WRITE_DATA ==> |c.data| <= LOGGED_DATA
  }

  predicate AllShort(cs: seq<Call>) {
    forall i | 0 <= i < |cs| :: Short(cs[i])
  }

  function BeginHeader(c: Call, id: nat): Header {
    Header(id, c.kind, PENDING, c.began, 0, 0, 0, 0)
  }

  function OwnHeader(c: Call, id: nat): Header
    requires c.Done?
  {
    Header(id, c.kind, COMMITTED, c.at, c.ino, c.blockId, |c.data|, 0)
  }

  function CommitHeader(c: Call, id: nat): Header
    requires c.Done?
  {
    Header(id, 0, COMMITTED, c.ended, 0, 0, 0, 0)
  }

  /** Of a write the first 1024 bytes are logged, of a path all. */
  function Payload(c: Call): Data
    requires c.Done?
  {
    if c.kind == WRITE_DATA then c.data[..Min(|c.data|, LOGGED_DATA)] else c.data
  }

  /** The appends of one call under its transaction number. */
  function LoggedCall(segs: seq<Data>, c: Call, id: nat, cap: nat): seq<Data> {
    var begun := Logged(segs, Put(BeginHeader(c, id), []), cap);
    if c.Begun? then begun
    else
      var headed := Logged(begun, Put(OwnHeader(c, id), []), cap);
      Logged(Logged(headed, Payload(c), cap), Put(CommitHeader(c, id), []), cap)
  }

  /** The segments of a new log after these calls; the k-th takes transaction number k. */
  function LoggedCalls(cs: seq<Call>, cap: nat): seq<Data> {
    if cs == [] then [] else LoggedCall(LoggedCalls(cs[..|cs| - 1], cap), cs[|cs| - 1], |cs|, cap)
  }

  /** What a call means to log: each header with all it announces. */
  function CallRecords(c: Call, id: nat): seq<Record> {
    if c.Begun? then [Record(BeginHeader(c, id), [])]
    else [Record(BeginHeader(c, id), []), Record(OwnHeader(c, id), c.data), Record(CommitHeader(c, id), [])]
  }

  function CallsRecords(cs: seq<Call>): seq<Record> {
    if cs == [] then [] else CallsRecords(cs[..|cs| - 1]) + CallRecords(cs[|cs| - 1], |cs|)
  }

  /** Whole records of transactions up to this one, no header twice. */
  predicate Numbered(rs: seq<Record>, id: nat) {
    && AllWhole(rs)
    && (forall i | 0 <= i < |rs| :: rs[i].header.txId <= id)
    && (forall i, j | 0 <= i < j < |rs| :: rs[i].header != rs[j].header)
  }

  predicate AllOf(rs: seq<Record>, id: nat) {
    forall i | 0 <= i < |rs| :: rs[i].header.txId == id
  }

  lemma CallNumbered(c: Call, id: nat)
    requires Loggable(c) && id < Pow256(8)
    ensures Numbered(CallRecords(c, id), id) && AllOf(CallRecords(c, id), id)
  {
  }

  lemma NumberedJoin(a: seq<Record>, b: seq<Record>, id: nat)
    requires Numbered(a, id) && Numbered(b, id + 1) && AllOf(b, id + 1)
    ensures Numbered(a + b, id + 1)
  {
  }

  /** Transaction numbers count up, and within a transaction kind and state tell the
      headers apart. */
  lemma {:induction false} CallsNumbered(cs: seq<Call>)
    requires AllLoggable(cs)
    ensures Numbered(CallsRecords(cs), |cs|)
  {
    if cs != [] {
      var init, last := cs[..|cs| - 1], cs[|cs| - 1];
      CallsNumbered(init);
      CallNumbered(last, |cs|);
      NumberedJoin(CallsRecords(init), CallRecords(last, |cs|), |cs| - 1);
    }
  }

  lemma NumberedDistinct(rs: seq<Record>, id: nat)
    requires Numbered(rs, id)
    ensures Distinct(Headers(rs))
  {
    var hs := Headers(rs);
    forall i, j | 0 <= i < j < |hs| ensures hs[i] != hs[j] {
      HeadersDecode(rs, i);
      HeadersDecode(rs, j);
    }
  }

  // ------------------------------------------------------- calls as their records

  lemma {:induction false} RecordsJoin(segs: seq<Data>, a: seq<Record>, b: seq<Record>, cap: nat)
    ensures LoggedRecords(segs, a + b, cap) == LoggedRecords(LoggedRecords(segs, a, cap), b, cap)
    ensures NoneParted(Used(segs), a, cap) ==>
              (NoneParted(Used(segs), a + b, cap) <==> NoneParted(Used(LoggedRecords(segs, a, cap)), b, cap))
    ensures NoneParted(Used(segs), a + b, cap) ==> NoneParted(Used(segs), a, cap)
    decreases |a|
  {
    if a == [] {
      assert a + b == b;
    } else {
      assert (a + b)[1..] == a[1..] + b;
      RecordsJoin(LoggedRecord(segs, a[0], cap), a[1..], b, cap);
      if !Parted(Used(segs), |a[0].data|, cap) {
        NextPiece(segs, a, cap);
        NextPiece(segs, a + b, cap);
      }
    }
  }

  lemma ShortCall(segs: seq<Data>, c: Call, id: nat, cap: nat)
    requires Short(c)
    ensures LoggedCall(segs, c, id, cap) == LoggedRecords(segs, CallRecords(c, id), cap)
  {
    var b := Record(BeginHeader(c, id), []);
    if c.Begun? {
      OneLogged(segs, b, cap);
    } else {
      assert Payload(c) == c.data;
      ThreeRecords(segs, b, Record(OwnHeader(c, id), c.data), Record(CommitHeader(c, id), []), cap);
    }
  }

  lemma {:induction false} ShortCalls(cs: seq<Call>, cap: nat)
    requires AllShort(cs)
    ensures LoggedCalls(cs, cap) == LoggedRecords([], CallsRecords(cs), cap)
  {
    if cs != [] {
      var init, last := cs[..|cs| - 1], cs[|cs| - 1];
      ShortCalls(init, cap);
      ShortCall(LoggedCalls(init, cap), last, |cs|, cap);
      RecordsJoin([], CallsRecords(init), CallRecords(last, |cs|), cap);
    }
  }

  /** Any history of calls whose writes have at most 1024 bytes, on a new log. All
      segments scan cleanly, and are whole records, exactly when no header was parted
      from its data; then recovery, listing the files in any order, visits every header
      once, and in the order logged exactly when that is the listing's. */
  lemma RecoverCalls(cs: seq<Call>, cap: nat, files: seq<Data>)
    requires AllLoggable(cs) && AllShort(cs)
    ensures var rs, segs := CallsRecords(cs), LoggedCalls(cs, cap);
            && (AllComplete(segs) <==> NoneParted(0, rs, cap))
            && (AllClean(segs) <==> NoneParted(0, rs, cap))
            && (NoneParted(0, rs, cap) && multiset(files) == multiset(segs) ==>
                  && multiset(ScanAll(files)) == multiset(Headers(rs))
                  && (ScanAll(files) == Headers(rs) <==> files == segs))
  {
    var rs := CallsRecords(cs);
    CallsNumbered(cs);
    NumberedDistinct(rs, |cs|);
    ShortCalls(cs, cap);
    NewLogComplete(rs, cap, LoggedCalls(cs, cap));
    if NoneParted(0, rs, cap) && multiset(files) == multiset(LoggedCalls(cs, cap)) {
      HistoryInOrder(rs, cap, LoggedCalls(cs, cap), files);
    }
  }

  // ------------------------------------------------------------ at every moment

  /** Recovery would visit exactly these records' headers, in order, with nothing left. */
  predicate Recoverable(segs: seq<Data>, rs: seq<Record>) {
    AllComplete(segs) && ScanAll(segs) == Headers(rs)
  }

  predicate RecoverableAfter(cs: seq<Call>, k: nat, cap: nat)
    requires k <= |cs|
  {
    Recoverable(LoggedCalls(cs[..k], cap), CallsRecords(cs[..k]))
  }

  lemma {:induction false} HeadersConcat(a: seq<Record>, b: seq<Record>)
    ensures Headers(a + b) == Headers(a) + Headers(b)
  {
    if a == [] {
      assert a + b == b;
    } else {
      assert (a + b)[1..] == a[1..] + b;
      HeadersConcat(a[1..], b);
    }
  }

  lemma CallHeaders(c: Call, id: nat)
    requires c.Done?
    ensures Headers(CallRecords(c, id))
         == [Put(BeginHeader(c, id), []), Put(OwnHeader(c, id), []), Put(CommitHeader(c, id), [])]
  {
    var rs := CallRecords(c, id);
    HeadersAt(rs, 0);
    HeadersAt(rs, 1);
    HeadersAt(rs, 2);
  }

  /** The first call that is long or parted leaves segments that do not recover. */
  lemma OneMoreCall(segs: seq<Data>, rs: seq<Record>, c: Call, id: nat, cap: nat)
    requires Recoverable(segs, rs) && Loggable(c) && id < Pow256(8) && cap >= 2 * HEADER + LOGGED_DATA
    ensures Recoverable(LoggedCall(segs, c, id, cap), rs + CallRecords(c, id)) <==>
              Short(c) && NoneParted(Used(segs), CallRecords(c, id), cap)
  {
    HeadersConcat(rs, CallRecords(c, id));
    if Short(c) {
      CallNumbered(c, id);
      ShortCall(segs, c, id, cap);
      HistoryComplete(segs, CallRecords(c, id), cap);
    } else {
      var x := Transaction(BeginHeader(c, id), OwnHeader(c, id), CommitHeader(c, id));
      CallHeaders(c, id);
      WriteRecoverable(segs, x, c.data, cap);
    }
  }

  /** The same with the records logged before. */
  lemma NextCall(segs: seq<Data>, rs: seq<Record>, c: Call, id: nat, cap: nat, t: seq<Data>, ts: seq<Record>)
    requires Recoverable(segs, rs) && Loggable(c) && id < Pow256(8) && cap >= 2 * HEADER + LOGGED_DATA
    requires segs == LoggedRecords([], rs, cap) && NoneParted(0, rs, cap)
    requires t == LoggedCall(segs, c, id, cap) && ts == rs + CallRecords(c, id)
    ensures Recoverable(t, ts) <==> Short(c) && NoneParted(0, ts, cap)
  {
    OneMoreCall(segs, rs, c, id, cap);
    RecordsJoin([], rs, CallRecords(c, id), cap);
  }

  lemma LastShort(cs: seq<Call>, init: seq<Call>)
    requires cs != [] && init == cs[..|cs| - 1]
    ensures AllShort(cs) <==> AllShort(init) && Short(cs[|cs| - 1])
  {
    if AllShort(init) && Short(cs[|cs| - 1]) {
      forall i | 0 <= i < |cs| ensures Short(cs[i]) {
        assert i < |init| ==> cs[i] == init[i];
      }
    }
  }

  lemma LastCall(cs: seq<Call>, init: seq<Call>, cap: nat)
    requires cs != [] && init == cs[..|cs| - 1] && AllLoggable(cs) && cap >= 2 * HEADER + LOGGED_DATA
    requires AllShort(init) && NoneParted(0, CallsRecords(init), cap)
    requires Recoverable(LoggedCalls(init, cap), CallsRecords(init))
    ensures Recoverable(LoggedCalls(cs, cap), CallsRecords(cs)) <==>
              AllShort(cs) && NoneParted(0, CallsRecords(cs), cap)
  {
    var last := cs[|cs| - 1];
    ShortCalls(init, cap);
    LastShort(cs, init);
    NextCall(LoggedCalls(init, cap), CallsRecords(init), last, |cs|, cap, LoggedCalls(cs, cap), CallsRecords(cs));
  }

  lemma NextMoment(cs: seq<Call>, k: nat, cap: nat)
    requires 0 < k <= |cs| && AllLoggable(cs) && cap >= 2 * HEADER + LOGGED_DATA
    requires RecoverableAfter(cs, k - 1, cap) && RecoverableAfter(cs, k, cap)
    requires AllShort(cs[..k - 1]) && NoneParted(0, CallsRecords(cs[..k - 1]), cap)
    ensures AllShort(cs[..k]) && NoneParted(0, CallsRecords(cs[..k]), cap)
  {
    assert cs[..k][..k - 1] == cs[..k - 1];
    LastCall(cs[..k], cs[..k - 1], cap);
  }

  lemma {:induction false} RecoverableShort(cs: seq<Call>, k: nat, cap: nat)
    requires k <= |cs| && AllLoggable(cs) && cap >= 2 * HEADER + LOGGED_DATA
    requires forall j | 0 <= j <= |cs| :: RecoverableAfter(cs, j, cap)
    ensures AllShort(cs[..k]) && NoneParted(0, CallsRecords(cs[..k]), cap)
  {
    if k > 0 {
      RecoverableShort(cs, k - 1, cap);
      NextMoment(cs, k, cap);
    }
  }

  lemma {:induction false} ShortRecoverable(cs: seq<Call>, k: nat, cap: nat)
    requires k <= |cs| && AllLoggable(cs) && AllShort(cs) && NoneParted(0, CallsRecords(cs), cap)
    ensures RecoverableAfter(cs, k, cap)
    decreases |cs|
  {
    if k == |cs| {
      assert cs[..k] == cs;
      AllRecoverable(cs, cap);
    } else {
      PrefixNoneParted(cs, cs[..|cs| - 1], cap);
      ShortRecoverable(cs[..|cs| - 1], k, cap);
      assert cs[..|cs| - 1][..k] == cs[..k];
    }
  }

  lemma AllRecoverable(cs: seq<Call>, cap: nat)
    requires AllLoggable(cs) && AllShort(cs) && NoneParted(0, CallsRecords(cs), cap)
    ensures Recoverable(LoggedCalls(cs, cap), CallsRecords(cs))
  {
    CallsNumbered(cs);
    ShortCalls(cs, cap);
    NewLogComplete(CallsRecords(cs), cap, LoggedCalls(cs, cap));
  }

  lemma PrefixNoneParted(cs: seq<Call>, init: seq<Call>, cap: nat)
    requires cs != [] && init == cs[..|cs| - 1] && NoneParted(0, CallsRecords(cs), cap)
    ensures NoneParted(0, CallsRecords(init), cap)
  {
    RecordsJoin([], CallsRecords(init), CallRecords(cs[|cs| - 1], |cs|), cap);
  }

  /** Any calls on a new log: the log is recoverable at every moment, that is after each
      call, exactly when no write is longer than 1024 bytes and no header is ever parted
      from its data. */
  lemma AlwaysRecoverable(cs: seq<Call>, cap: nat)
    requires AllLoggable(cs) && cap >= 2 * HEADER + LOGGED_DATA
    ensures (forall k | 0 <= k <= |cs| :: RecoverableAfter(cs, k, cap)) <==>
              AllShort(cs) && NoneParted(0, CallsRecords(cs), cap)
  {
    assert cs[..|cs|] == cs;
    if forall k | 0 <= k <= |cs| :: RecoverableAfter(cs, k, cap) {
      RecoverableShort(cs, |cs|, cap);
    } else if AllShort(cs) && NoneParted(0, CallsRecords(cs), cap) {
      forall k | 0 <= k <= |cs| ensures RecoverableAfter(cs, k, cap) {
        ShortRecoverable(cs, k, cap);
      }
    }
  }

  // ------------------------------------------------------------ until a segment fills

  /** While all that was logged fits one segment, no header is parted from its data. */
  lemma {:induction false} OneSegmentFits(segs: seq<Data>, rs: seq<Record>, cap: nat)
    requires Used(segs) + |PrintAll(rs)| <= cap
    ensures NoneParted(Used(segs), rs, cap)
    ensures Used(LoggedRecords(segs, rs, cap)) == Used(segs) + |PrintAll(rs)|
    decreases |rs|
  {
    if rs != [] {
      InOnePiece(segs, rs[0], cap);
      OneSegmentFits(LoggedRecord(segs, rs[0], cap), rs[1..], cap);
      NextPiece(segs, rs, cap);
    }
  }

  lemma {:induction false} PrintedLength(a: seq<Record>, b: seq<Record>)
    ensures |PrintAll(a + b)| == |PrintAll(a)| + |PrintAll(b)|
  {
    if a == [] {
      assert a + b == b;
    } else {
      assert (a + b)[1..] == a[1..] + b;
      PrintedLength(a[1..], b);
    }
  }

  lemma CallLength(c: Call, id: nat)
    ensures |PrintAll(CallRecords(c, id))| == if c.Begun? then HEADER else 3 * HEADER + |c.data|
  {
    var rs := CallRecords(c, id);
    PrintOne(rs[0]);
    if c.Done? {
      PrintedLength([rs[0]], [rs[1]] + [rs[2]]);
      PrintedLength([rs[1]], [rs[2]]);
      PrintOne(rs[1]);
      PrintOne(rs[2]);
      assert rs == [rs[0]] + ([rs[1]] + [rs[2]]);
    }
  }

  predicate ThousandBytes(c: Call) {
    c.Done? && c.kind == WRITE_DATA && |c.data| == 1000
  }

  lemma {:induction false} ThousandsLogged(cs: seq<Call>)
    requires forall i | 0 <= i < |cs| :: ThousandBytes(cs[i])
    ensures |PrintAll(CallsRecords(cs))| == 1156 * |cs|
  {
    if cs != [] {
      var init, last := cs[..|cs| - 1], cs[|cs| - 1];
      ThousandsLogged(init);
      CallLength(last, |cs|);
      PrintedLength(CallsRecords(init), CallRecords(last, |cs|));
    }
  }

  /** Ordinary use comes to a parted header: 14513 writes of 1000 bytes fit the first
      segment, and the next one's header is the last thing in it. */
  lemma FirstSegmentFills(cs: seq<Call>)
    requires AllLoggable(cs) && |cs| == 14514 && forall i | 0 <= i < |cs| :: ThousandBytes(cs[i])
    ensures var init := cs[..|cs| - 1];
            Recoverable(LoggedCalls(init, WAL_SEGMENT_SIZE), CallsRecords(init))
    ensures !AllClean(LoggedCalls(cs, WAL_SEGMENT_SIZE))
  {
    var init, last := cs[..|cs| - 1], cs[|cs| - 1];
    FirstSegmentHolds(init);
    CallsNumbered(cs);
    ShortCalls(cs, WAL_SEGMENT_SIZE);
    NewLogComplete(CallsRecords(cs), WAL_SEGMENT_SIZE, LoggedCalls(cs, WAL_SEGMENT_SIZE));
    RecordsJoin([], CallsRecords(init), CallRecords(last, |cs|), WAL_SEGMENT_SIZE);
    LastOneParted(last, |cs|);
  }

  lemma FirstSegmentHolds(cs: seq<Call>)
    requires AllLoggable(cs) && |cs| == 14513 && forall i | 0 <= i < |cs| :: ThousandBytes(cs[i])
    ensures NoneParted(0, CallsRecords(cs), WAL_SEGMENT_SIZE)
    ensures Used(LoggedRecords([], CallsRecords(cs), WAL_SEGMENT_SIZE)) == 1156 * 14513
    ensures Recoverable(LoggedCalls(cs, WAL_SEGMENT_SIZE), CallsRecords(cs))
  {
    ThousandsLogged(cs);
    OneSegmentFits([], CallsRecords(cs), WAL_SEGMENT_SIZE);
    CallsNumbered(cs);
    ShortCalls(cs, WAL_SEGMENT_SIZE);
    NewLogComplete(CallsRecords(cs), WAL_SEGMENT_SIZE, LoggedCalls(cs, WAL_SEGMENT_SIZE));
  }

  lemma LastOneParted(c: Call, id: nat)
    requires ThousandBytes(c)
    ensures !NoneParted(1156 * 14513, CallRecords(c, id), WAL_SEGMENT_SIZE)
  {
    var rs := CallRecords(c, id);
    assert rs[1..][0] == rs[1];
    assert Parted(1156 * 14513 + HEADER, |rs[1].data|, WAL_SEGMENT_SIZE);
  }
}
