/** Which segments are in their files: a segment is written when the next one is started
    and at the first commit that finds it unwritten, but not again after that. */
module WalDurability {
  import opened Wal
  import opened WalRecovery
  import opened WalHistory

  /** The segments, the contents of their files, and whether the last one was written. */
  datatype Store = Store(segs: seq<Data>, files: seq<Data>, written: bool)

  const NEW_STORE := Store([], [], false)

  /** The last segment is written to its file, over what was there. */
  function Flush(s: Store): Store {
    if s.segs == [] then s
    else
      var n := |s.segs| - 1;
      var before := if n <= |s.files| then s.files[..n] else s.files;
      Store(s.segs, before + [s.segs[n]], true)
  }

  /** md_transaction_log: before a new segment is started the full one is written. */
  function StoreLogged(s: Store, d: Data, cap: nat): Store {
    if d == [] then s
    else if s.segs != [] && |s.segs[|s.segs| - 1]| + |d| <= cap then s.(segs := Logged(s.segs, d, cap))
    else Store(Logged(s.segs, d, cap), Flush(s).files, false)
  }

  /** md_transaction_commit: its header, and the segment if it was not written yet. */
  function StoreCommitted(s: Store, commit: Data, cap: nat): Store {
    var t := StoreLogged(s, commit, cap);
    if t.segs != [] && !t.written then Flush(t) else t
  }

  /** The same appends as WalHistory.LoggedCall, with the files. */
  function StoreCall(s: Store, c: Call, id: nat, cap: nat): Store {
    var begun := StoreLogged(s, Put(BeginHeader(c, id), []), cap);
    if c.Begun? then begun
    else
      var headed := StoreLogged(begun, Put(OwnHeader(c, id), []), cap);
      StoreCommitted(StoreLogged(headed, Payload(c), cap), Put(CommitHeader(c, id), []), cap)
  }

  function StoreCalls(cs: seq<Call>, cap: nat): Store {
    if cs == [] then NEW_STORE else StoreCall(StoreCalls(cs[..|cs| - 1], cap), cs[|cs| - 1], |cs|, cap)
  }

  // -------------------------------------------------------------------- invariant

  /** Every earlier segment is in its file; if the last one was written, its file holds
      what it was then. */
  predicate Filed(s: Store) {
    if s.segs == [] then s.files == [] && !s.written
    else
      var n := |s.segs| - 1;
      if s.written then |s.files| == n + 1 && s.files[..n] == s.segs[..n] && s.files[n] <= s.segs[n]
      else s.files == s.segs[..n]
  }

  lemma FlushFiles(s: Store)
    requires Filed(s)
    ensures Flush(s).files == s.segs && Flush(s).segs == s.segs && Filed(Flush(s))
  {
    if s.segs != [] {
      var n := |s.segs| - 1;
      assert s.segs == s.segs[..n] + [s.segs[n]];
      assert !s.written ==> s.files[..n] == s.files;
    }
  }

  lemma LoggedFiled(s: Store, d: Data, cap: nat)
    requires Filed(s)
    ensures Filed(StoreLogged(s, d, cap)) && StoreLogged(s, d, cap).segs == Logged(s.segs, d, cap)
  {
    if d != [] {
      var t := StoreLogged(s, d, cap);
      FlushFiles(s);
      if s.segs != [] && |s.segs[|s.segs| - 1]| + |d| <= cap {
        var n := |s.segs| - 1;
        assert t.segs[..n] == s.segs[..n] && t.segs[n] == s.segs[n] + d;
      } else {
        assert t.segs[..|t.segs| - 1] == s.segs;
      }
    }
  }

  lemma CommittedFiled(s: Store, commit: Data, cap: nat)
    requires Filed(s)
    ensures Filed(StoreCommitted(s, commit, cap))
    ensures StoreCommitted(s, commit, cap).segs == Logged(s.segs, commit, cap)
  {
    LoggedFiled(s, commit, cap);
    FlushFiles(StoreLogged(s, commit, cap));
  }

  /** After a commit all that was logged is in the files exactly when this was the first
      commit since its segment was started. */
  lemma CommitDurable(s: Store, commit: Data, cap: nat)
    requires Filed(s) && commit != []
    ensures var t := StoreCommitted(s, commit, cap);
            t.files == t.segs <==> !StoreLogged(s, commit, cap).written
  {
    var t := StoreLogged(s, commit, cap);
    LoggedFiled(s, commit, cap);
    FlushFiles(t);
    if t.written {
      var n := |s.segs| - 1;
      assert |s.files[n]| <= |s.segs[n]| < |t.segs[n]|;
    }
  }

  lemma CallFiled(s: Store, c: Call, id: nat, cap: nat)
    requires Filed(s)
    ensures Filed(StoreCall(s, c, id, cap)) && StoreCall(s, c, id, cap).segs == LoggedCall(s.segs, c, id, cap)
  {
    var b := Put(BeginHeader(c, id), []);
    LoggedFiled(s, b, cap);
    if c.Done? {
      var begun := StoreLogged(s, b, cap);
      var o := Put(OwnHeader(c, id), []);
      LoggedFiled(begun, o, cap);
      LoggedFiled(StoreLogged(begun, o, cap), Payload(c), cap);
      CommittedFiled(StoreLogged(StoreLogged(begun, o, cap), Payload(c), cap), Put(CommitHeader(c, id), []), cap);
    }
  }

  lemma {:induction false} CallsFiled(cs: seq<Call>, cap: nat)
    ensures Filed(StoreCalls(cs, cap)) && StoreCalls(cs, cap).segs == LoggedCalls(cs, cap)
  {
    if cs != [] {
      var init := cs[..|cs| - 1];
      CallsFiled(init, cap);
      CallFiled(StoreCalls(init, cap), cs[|cs| - 1], |cs|, cap);
    }
  }

  // ------------------------------------------------------ what a crash leaves behind

  /** Whole records everywhere, in the segments and in the files. */
  predicate Sane(s: Store) {
    Filed(s) && AllComplete(s.segs) && AllComplete(s.files)
  }

  lemma FlushSane(s: Store)
    requires Sane(s)
    ensures Sane(Flush(s))
  {
    FlushFiles(s);
  }

  /** One record in one piece. Only its header can start a segment, so what is written
      then ends with a whole record. */
  lemma RecordSane(s: Store, r: Record, cap: nat)
    requires Sane(s) && Whole(r) && !Parted(Used(s.segs), |r.data|, cap)
    ensures var t := StoreLogged(StoreLogged(s, Put(r.header, []), cap), r.data, cap);
            Sane(t) && t.segs == LoggedRecord(s.segs, r, cap)
  {
    var g := StoreLogged(s, Put(r.header, []), cap);
    LoggedFiled(s, Put(r.header, []), cap);
    LoggedFiled(g, r.data, cap);
    FlushFiles(s);
    UsedAfter(s.segs, Put(r.header, []), cap);
    PieceLogged(s.segs, r, cap);
  }

  lemma NothingLogged(s: Store, cap: nat)
    ensures StoreLogged(s, [], cap) == s
  {
  }

  lemma CallSane(s: Store, c: Call, id: nat, cap: nat)
    requires Sane(s) && Loggable(c) && Short(c) && id < Pow256(8)
    requires NoneParted(Used(s.segs), CallRecords(c, id), cap)
    ensures Sane(StoreCall(s, c, id, cap))
  {
    var b := Record(BeginHeader(c, id), []);
    CallNumbered(c, id);
    assert CallRecords(c, id)[0] == b;
    var s1 := StoreLogged(s, Put(b.header, []), cap);
    RecordSane(s, b, cap);
    NothingLogged(s1, cap);
    if c.Done? {
      var o, e := Record(OwnHeader(c, id), c.data), Record(CommitHeader(c, id), []);
      assert Payload(c) == c.data;
      OwnUnparted(s.segs, b, o, e, cap);
      RecordSane(s1, o, cap);
      var s2 := StoreLogged(StoreLogged(s1, Put(o.header, []), cap), o.data, cap);
      RecordSane(s2, e, cap);
      var s3 := StoreLogged(s2, Put(e.header, []), cap);
      NothingLogged(s3, cap);
      FlushSane(s3);
    }
  }

  lemma OwnUnparted(segs: seq<Data>, b: Record, o: Record, e: Record, cap: nat)
    requires NoneParted(Used(segs), [b, o, e], cap) && b.data == []
    ensures !Parted(Used(LoggedRecord(segs, b, cap)), |o.data|, cap)
  {
    InOnePiece(segs, b, cap);
    assert [b, o, e][1..] == [o, e];
  }

  lemma {:induction false} CallsSane(cs: seq<Call>, cap: nat)
    requires AllLoggable(cs) && AllShort(cs) && NoneParted(0, CallsRecords(cs), cap)
    ensures Sane(StoreCalls(cs, cap))
  {
    if cs != [] {
      var init, last := cs[..|cs| - 1], cs[|cs| - 1];
      PrefixNoneParted(cs, init, cap);
      CallsSane(init, cap);
      CallsFiled(init, cap);
      ShortCalls(init, cap);
      RecordsJoin([], CallsRecords(init), CallRecords(last, |cs|), cap);
      CallSane(StoreCalls(init, cap), last, |cs|, cap);
    }
  }

  lemma PrefixScan(a: Data, b: Data)
    requires Complete(a) && a <= b
    ensures Scan(a).headers <= Scan(b).headers
  {
    ScanConcat(a, b[|a|..]);
    assert a + b[|a|..] == b;
  }

  /** The files in order are scanned as a prefix of what the segments are. */
  lemma FilesPrefix(s: Store)
    requires Sane(s)
    ensures ScanAll(s.files) <= ScanAll(s.segs)
  {
    if s.segs != [] {
      var n := |s.segs| - 1;
      var init := s.segs[..n];
      assert s.segs == init + [s.segs[n]];
      ScanAllLast(init, s.segs[n]);
      if s.written {
        assert s.files == init + [s.files[n]];
        ScanAllLast(init, s.files[n]);
        PrefixScan(s.files[n], s.segs[n]);
      }
    }
  }

  /** A crash after any calls that leave the log recoverable: the files in order hold a
      prefix of the headers logged, and all of them exactly when the files hold all the
      segments. */
  lemma CrashKeepsPrefix(cs: seq<Call>, cap: nat)
    requires AllLoggable(cs) && AllShort(cs) && NoneParted(0, CallsRecords(cs), cap)
    ensures var s := StoreCalls(cs, cap);
            && AllComplete(s.files)
            && ScanAll(s.files) <= Headers(CallsRecords(cs))
            && (ScanAll(s.files) == Headers(CallsRecords(cs)) <==> s.files == s.segs)
  {
    var s := StoreCalls(cs, cap);
    CallsSane(cs, cap);
    CallsFiled(cs, cap);
    AllRecoverable(cs, cap);
    ShortCalls(cs, cap);
    RecordsNoneEmpty([], CallsRecords(cs), cap);
    FilesPrefix(s);
    CompleteVisits(s.segs);
    if ScanAll(s.files) == ScanAll(s.segs) {
      SameScanSameFiles(s);
    }
  }

  lemma SameScanSameFiles(s: Store)
    requires Sane(s) && NoneEmpty(s.segs) && ScanAll(s.files) == ScanAll(s.segs)
    ensures s.files == s.segs
  {
    if s.segs != [] {
      var n := |s.segs| - 1;
      assert s.segs == s.segs[..n] + [s.segs[n]];
      if s.written {
        assert s.files == s.segs[..n] + [s.files[n]];
        SameLast(s.segs[..n], s.files[n], s.segs[n]);
      } else {
        ScanAllLast(s.segs[..n], s.segs[n]);
        var m := CompleteStep(s.segs[n]);
      }
    }
  }

  lemma SameLast(init: seq<Data>, a: Data, b: Data)
    requires Complete(a) && Complete(b) && a <= b && ScanAll(init + [a]) == ScanAll(init + [b])
    ensures a == b
  {
    ScanAllLast(init, a);
    ScanAllLast(init, b);
    SameTail(ScanAll(init), Scan(a).headers, Scan(b).headers);
    SameHeadersSame(a, b);
  }

  /** Complete bytes of which one is the beginning of the other and that show the same
      headers are the same. */
  lemma SameHeadersSame(a: Data, b: Data)
    requires Complete(a) && Complete(b) && a <= b && |Scan(a).headers| == |Scan(b).headers|
    ensures a == b
  {
    var rest := b[|a|..];
    ScanConcat(a, rest);
    assert a + rest == b;
    if rest != [] {
      var m := CompleteStep(rest);
    }
  }

  // ----------------------------------------------------------- lost commits

  /** A buffer that fits the last segment leaves the files as they are. */
  lemma FittingKeepsFiles(s: Store, d: Data, cap: nat)
    requires s.segs != [] && Used(s.segs) + |d| <= cap
    ensures var t := StoreLogged(s, d, cap);
            t.files == s.files && t.written == s.written && t.segs != [] && Used(t.segs) == Used(s.segs) + |d|
  {
  }

  lemma WrittenCall(s: Store, c: Call, id: nat, cap: nat)
    requires s.segs != [] && s.written && Short(c) && Used(s.segs) + |PrintAll(CallRecords(c, id))| <= cap
    ensures StoreCall(s, c, id, cap).files == s.files && StoreCall(s, c, id, cap).written
  {
    var b := Put(BeginHeader(c, id), []);
    CallLength(c, id);
    FittingKeepsFiles(s, b, cap);
    if c.Done? {
      var s1 := StoreLogged(s, b, cap);
      FittingKeepsFiles(s1, Put(OwnHeader(c, id), []), cap);
      var s2 := StoreLogged(s1, Put(OwnHeader(c, id), []), cap);
      assert Payload(c) == c.data;
      FittingKeepsFiles(s2, c.data, cap);
      FittingKeepsFiles(StoreLogged(s2, c.data, cap), Put(CommitHeader(c, id), []), cap);
    }
  }

  lemma UnwrittenCall(s: Store, c: Call, id: nat, cap: nat)
    requires Filed(s) && !s.written
    ensures var t := StoreCall(s, c, id, cap);
            t.written == c.Done? && (c.Done? ==> t.files == t.segs)
  {
    CallFiled(s, c, id, cap);
    if c.Done? {
      var t := StoreCall(s, c, id, cap);
      assert t.segs != [];
      var s3 := StoreLogged(StoreLogged(s, Put(BeginHeader(c, id), []), cap), Put(OwnHeader(c, id), []), cap);
      CommitDurableFrom(s, s3, c, id, cap);
    }
  }

  lemma CommitDurableFrom(s: Store, s3: Store, c: Call, id: nat, cap: nat)
    requires Filed(s) && !s.written && c.Done?
    requires s3 == StoreLogged(StoreLogged(s, Put(BeginHeader(c, id), []), cap), Put(OwnHeader(c, id), []), cap)
    ensures StoreCall(s, c, id, cap).files == StoreCall(s, c, id, cap).segs && StoreCall(s, c, id, cap).written
  {
    LoggedFiled(s, Put(BeginHeader(c, id), []), cap);
    LoggedFiled(StoreLogged(s, Put(BeginHeader(c, id), []), cap), Put(OwnHeader(c, id), []), cap);
    LoggedFiled(s3, Payload(c), cap);
    CommitDurable(StoreLogged(s3, Payload(c), cap), Put(CommitHeader(c, id), []), cap);
  }

  lemma {:induction false} NoneCommitted(cs: seq<Call>, cap: nat)
    requires forall i | 0 <= i < |cs| :: cs[i].Begun?
    ensures !StoreCalls(cs, cap).written
  {
    if cs != [] {
      var init := cs[..|cs| - 1];
      NoneCommitted(init, cap);
      CallsFiled(init, cap);
      UnwrittenCall(StoreCalls(init, cap), cs[|cs| - 1], |cs|, cap);
    }
  }

  lemma CallsFit(cs: seq<Call>, init: seq<Call>, cap: nat)
    requires cs != [] && init == cs[..|cs| - 1] && AllShort(cs) && |PrintAll(CallsRecords(cs))| <= cap
    ensures |PrintAll(CallsRecords(init))| <= cap
    ensures Used(LoggedCalls(init, cap)) + |PrintAll(CallRecords(cs[|cs| - 1], |cs|))| <= cap
  {
    PrintedLength(CallsRecords(init), CallRecords(cs[|cs| - 1], |cs|));
    ShortCalls(init, cap);
    OneSegmentFits([], CallsRecords(init), cap);
  }

  lemma FirstCommit(cs: seq<Call>, init: seq<Call>, cap: nat)
    requires cs != [] && init == cs[..|cs| - 1] && cs[|cs| - 1].Done?
    requires forall i | 0 <= i < |init| :: init[i].Begun?
    ensures StoreCalls(cs, cap).written && StoreCalls(cs, cap).files == LoggedCalls(cs, cap)
  {
    NoneCommitted(init, cap);
    CallsFiled(init, cap);
    CallsFiled(cs, cap);
    UnwrittenCall(StoreCalls(init, cap), cs[|cs| - 1], |cs|, cap);
  }

  /** The first call that commits. */
  predicate FirstDone(cs: seq<Call>, j: nat) {
    j < |cs| && cs[j].Done? && forall i | 0 <= i < j :: cs[i].Begun?
  }

  /** Within one segment the file keeps what the first commit put there. */
  lemma {:induction false} FirstCommitStays(cs: seq<Call>, j: nat, kept: seq<Call>, cap: nat)
    requires FirstDone(cs, j) && kept == cs[..j + 1]
    requires AllShort(cs) && |PrintAll(CallsRecords(cs))| <= cap
    ensures StoreCalls(cs, cap).written && StoreCalls(cs, cap).files == LoggedCalls(kept, cap)
    decreases |cs|
  {
    var init := cs[..|cs| - 1];
    if |cs| == j + 1 {
      assert kept == cs;
      FirstCommit(cs, init, cap);
    } else {
      CallsFit(cs, init, cap);
      Shorter(cs, init, j, kept);
      FirstCommitStays(init, j, kept, cap);
      LaterCall(cs, init, cap);
    }
  }

  lemma Shorter(cs: seq<Call>, init: seq<Call>, j: nat, kept: seq<Call>)
    requires FirstDone(cs, j) && kept == cs[..j + 1] && j + 1 < |cs| && init == cs[..|cs| - 1] && AllShort(cs)
    ensures FirstDone(init, j) && kept == init[..j + 1] && AllShort(init)
  {
  }

  lemma LaterCall(cs: seq<Call>, init: seq<Call>, cap: nat)
    requires cs != [] && init == cs[..|cs| - 1] && init != [] && AllShort(cs)
    requires |PrintAll(CallsRecords(cs))| <= cap && StoreCalls(init, cap).written
    ensures StoreCalls(cs, cap).written && StoreCalls(cs, cap).files == StoreCalls(init, cap).files
  {
    CallsFit(cs, init, cap);
    CallsFiled(init, cap);
    WrittenCall(StoreCalls(init, cap), cs[|cs| - 1], |cs|, cap);
  }

  lemma {:induction false} PrefixFits(cs: seq<Call>, k: nat)
    requires k <= |cs|
    ensures |PrintAll(CallsRecords(cs[..k]))| <= |PrintAll(CallsRecords(cs))|
    decreases |cs|
  {
    if k == |cs| {
      assert cs[..k] == cs;
    } else {
      var init := cs[..|cs| - 1];
      PrefixFits(init, k);
      assert init[..k] == cs[..k];
      PrintedLength(CallsRecords(init), CallRecords(cs[|cs| - 1], |cs|));
    }
  }

  /** Within one segment only the first commit reaches the file: what every later
      operation logs, commits included, is lost in a crash. */
  lemma LaterCommitsLost(cs: seq<Call>, j: nat, cap: nat)
    requires FirstDone(cs, j) && AllLoggable(cs) && AllShort(cs) && |PrintAll(CallsRecords(cs))| <= cap
    ensures ScanAll(StoreCalls(cs, cap).files) == Headers(CallsRecords(cs[..j + 1]))
  {
    FirstCommitStays(cs, j, cs[..j + 1], cap);
    PrefixFits(cs, j + 1);
    SmallLogRecovers(cs[..j + 1], cap);
  }

  lemma SmallLogRecovers(cs: seq<Call>, cap: nat)
    requires AllLoggable(cs) && AllShort(cs) && |PrintAll(CallsRecords(cs))| <= cap
    ensures Recoverable(LoggedCalls(cs, cap), CallsRecords(cs))
  {
    OneSegmentFits([], CallsRecords(cs), cap);
    AllRecoverable(cs, cap);
  }
}
