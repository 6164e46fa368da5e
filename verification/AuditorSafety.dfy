/** Every step keeps the invariants of the auditor, and what follows for whole runs. */
module AuditorSafety {
  import opened Wrappers
  import opened Records
  import opened Merkle
  import opened Database
  import opened Auditor

  // ---- What survives a change of the tables ----

  lemma LaterReflexive(db: Db)
    ensures Later(db, db)
  {
  }

  lemma LaterTransitive(a: Db, b: Db, c: Db)
    requires Later(a, b) && Later(b, c)
    ensures Later(a, c)
  {
    forall i | 0 <= i < |a.sths|
      ensures SameRow(a.sths[i], c.sths[i])
    {
      assert SameRow(a.sths[i], b.sths[i]) && SameRow(b.sths[i], c.sths[i]);
    }
  }

  lemma HasSthLater(db: Db, db': Db, treeSize: nat, rootHash: Hash)
    requires Later(db, db') && HasSth(db.sths, treeSize, rootHash)
    ensures HasSth(db'.sths, treeSize, rootHash)
  {
    var i :| 0 <= i < |db.sths| && db.sths[i].treeSize == treeSize && db.sths[i].rootHash == rootHash;
    assert SameRow(db.sths[i], db'.sths[i]);
  }

  lemma CandidatesLater(db: Db, db': Db, st: Ingester)
    requires Later(db, db') && CandidatesOk(db, st)
    ensures CandidatesOk(db', st)
  {
    forall i | 0 <= i < |st.sths|
      ensures HasSth(db'.sths, st.sths[i].treeSize, st.sths[i].rootHash)
    {
      HasSthLater(db, db', st.sths[i].treeSize, st.sths[i].rootHash);
    }
  }

  lemma PrefixTreeLater(db: Db, db': Db, tree: CollapsedTree)
    requires Later(db, db') && PrefixTree(db, tree)
    ensures PrefixTree(db', tree)
  {
    assert Log(db')[..tree.size] == Log(db)[..tree.size];
  }

  /** A worker outside a transaction does not mind later tables; one inside needs its log and address. */
  lemma IngestLater(db: Db, db': Db, phase: Phase)
    requires Later(db, db') && IngestOk(db, phase)
    requires InTransaction(phase) ==> Log(db) == Log(db') && db.address == db'.address
    ensures IngestOk(db', phase)
  {
    match phase
    case Start =>
    case Asleep =>
    case Loaded(_, tree) => PrefixTreeLater(db, db', tree);
    case Ready(st) =>
      CandidatesLater(db, db', st);
      PrefixTreeLater(db, db', st.tree);
    case Receiving(st) => CandidatesLater(db, db', st);
    case Committing(st, verified) =>
      CandidatesLater(db, db', st);
      if verified {
        HasSthLater(db, db', st.tree.size, st.tree.CalculateRoot());
      }
  }

  /** Enough to keep a verdict: the log and the verified size only grow. */
  lemma VerdictLater(log: seq<Record>, log': seq<Record>, size: nat, size': nat, row: SthRow)
    requires VerdictOk(log, size, row) && log <= log' && size <= size' <= |log'|
    ensures VerdictOk(log', size', row)
  {
    if row.consistent.Some? {
      assert log'[..row.treeSize] == log[..row.treeSize];
    }
  }

  // ---- Storing a tree head ----

  /** A verdict given by the insert trigger is right, and it is given whenever the size is verified. */
  lemma InsertVerdictOk(db: Db, treeSize: nat, rootHash: Hash)
    requires TablesOk(db)
    ensures VerdictOk(Log(db), VerifiedSize(db), SthRow(treeSize, rootHash, InsertVerdict(db, treeSize, rootHash)))
    ensures InsertVerdict(db, treeSize, rootHash).Some? <==> treeSize <= VerifiedSize(db)
  {
    if treeSize == 0 {
      assert Log(db)[..0] == [] && Formats([]) == [];
    } else if treeSize <= VerifiedSize(db) {
      RootAtRows(Log(db), treeSize - 1);
    }
  }

  lemma StoreTables(db: Db, treeSize: nat, rootHash: Hash)
    requires TablesOk(db)
    ensures TablesOk(InsertSth(db, treeSize, rootHash)) && Later(db, InsertSth(db, treeSize, rootHash))
  {
    var db' := InsertSth(db, treeSize, rootHash);
    assert Log(db') == Log(db);
    assert Later(db, db');
    InsertVerdictOk(db, treeSize, rootHash);
    if db.verified.Some? {
      HasSthLater(db, db', VerifiedSize(db), RootOfLog(Log(db)[..VerifiedSize(db)]));
    }
  }

  lemma StoreDaemon(db: Db, treeSize: nat, rootHash: Hash, dm: Daemon, dm': Daemon)
    requires TablesOk(db) && DaemonOk(db, dm)
    requires dm' == if InsertNotifies(db, treeSize, rootHash) then dm.(inbox := dm.inbox + [NewSth]) else dm
    ensures DaemonOk(InsertSth(db, treeSize, rootHash), dm')
  {
    var db' := InsertSth(db, treeSize, rootHash);
    StoreTables(db, treeSize, rootHash);
    InsertVerdictOk(db, treeSize, rootHash);
    assert Log(db') == Log(db);
    IngestLater(db, db', dm.ingest);
    forall i | 0 <= i < |db'.sths| && db'.sths[i].treeSize > |Log(db')|
      ensures NewSth in dm'.inbox || dm'.newSth || Covers(dm'.ingest, db'.sths[i].treeSize)
    {
      if i < |db.sths| {
        assert db'.sths[i] == db.sths[i];
      } else {
        assert InsertNotifies(db, treeSize, rootHash);
      }
    }
    forall i | 0 <= i < |db'.sths| && Undecided(db', db'.sths[i])
      ensures NewPosition in dm'.inbox || dm'.newPosition || AuditCovers(dm'.audit, db'.sths[i].treeSize)
    {
      assert i < |db.sths| && db'.sths[i] == db.sths[i];
    }
  }

  // ---- The audit ----

  lemma AuditTables(db: Db, size: nat)
    requires TablesOk(db) && size <= VerifiedSize(db)
    ensures TablesOk(AuditSths(db, size)) && Later(db, AuditSths(db, size))
    ensures forall i :: 0 <= i < |db.sths| && 1 <= db.sths[i].treeSize <= size ==>
              AuditSths(db, size).sths[i].consistent.Some?
  {
    var db' := AuditSths(db, size);
    assert Log(db') == Log(db);
    forall i | 0 <= i < |db.sths|
      ensures SameRow(db.sths[i], db'.sths[i])
      ensures VerdictOk(Log(db), VerifiedSize(db), db'.sths[i])
      ensures 1 <= db.sths[i].treeSize <= size ==> db'.sths[i].consistent.Some?
    {
      assert VerdictOk(Log(db), VerifiedSize(db), db.sths[i]);
      if 1 <= db.sths[i].treeSize <= size {
        RootAtRows(Log(db), db.sths[i].treeSize - 1);
      }
    }
    assert Later(db, db');
    if db.verified.Some? {
      HasSthLater(db, db', VerifiedSize(db), RootOfLog(Log(db)[..VerifiedSize(db)]));
    }
  }

  /** Another daemon's audit only removes work; our own leaves none of the size it read. */
  lemma AuditDaemon(db: Db, size: nat, dm: Daemon, ours: bool)
    requires TablesOk(db) && DaemonOk(db, dm) && size <= VerifiedSize(db)
    requires ours ==> dm.audit == AuditRead(size)
    ensures DaemonOk(AuditSths(db, size), if ours then dm.(audit := AuditAsleep) else dm)
  {
    var db' := AuditSths(db, size);
    var dm' := if ours then dm.(audit := AuditAsleep) else dm;
    AuditTables(db, size);
    assert Log(db') == Log(db);
    IngestLater(db, db', dm.ingest);
    forall i | 0 <= i < |db'.sths|
      ensures db'.sths[i].treeSize == db.sths[i].treeSize
      ensures Undecided(db', db'.sths[i]) ==> Undecided(db, db.sths[i])
      ensures Undecided(db', db'.sths[i]) ==> !(db.sths[i].treeSize <= size)
    {
      assert SameRow(db.sths[i], db'.sths[i]);
    }
  }

  // ---- Committing a batch ----

  /** The batch of an open transaction never collides with stored rows. */
  lemma CommitSucceeds(db: Db, st: Ingester, verified: bool)
    requires TablesOk(db) && TransactionOk(db, st)
    ensures var db' := CommitBatch(db, st.pending, st.tree, verified);
      db'.Some? && db'.value.records == Rows(Log(db) + Added(st)) && Log(db'.value) == Log(db) + Added(st)
  {
    CopyBatch(Log(db), Added(st));
    LogOfRows(CommitBatch(db, st.pending, st.tree, verified).value, Log(db) + Added(st));
  }

  lemma CommitVerified(db: Db, st: Ingester, verified: bool, db': Db)
    requires TablesOk(db) && TransactionOk(db, st)
    requires verified ==> st.pending != [] && HasSth(db.sths, st.tree.size, st.tree.CalculateRoot())
    requires db' == db.(records := db'.records, download := st.tree,
                        verified := if verified then Some(st.tree) else db.verified)
    requires Log(db') == Log(db) + Added(st)
    ensures VerifiedOk(db') && VerifiedSize(db) <= VerifiedSize(db') <= |Log(db')|
  {
    var log, log' := Log(db), Log(db');
    if verified {
      RootIsMth(Formats(log'));
      assert log'[..|log'|] == log';
    } else if db.verified.Some? {
      assert log'[..VerifiedSize(db)] == log[..VerifiedSize(db)];
    }
  }

  lemma CommitTables(db: Db, st: Ingester, verified: bool)
    requires TablesOk(db) && TransactionOk(db, st)
    requires verified ==> st.pending != [] && HasSth(db.sths, st.tree.size, st.tree.CalculateRoot())
    ensures CommitBatch(db, st.pending, st.tree, verified).Some?
    ensures var db' := CommitBatch(db, st.pending, st.tree, verified).value;
      TablesOk(db') && Later(db, db') && |Log(db')| == st.tree.size
  {
    CommitSucceeds(db, st, verified);
    var db' := CommitBatch(db, st.pending, st.tree, verified).value;
    var log, log' := Log(db), Log(db');
    CommitVerified(db, st, verified, db');
    hide VerifiedOk, HasSth;
    forall i | 0 <= i < |db.sths|
      ensures VerdictOk(log', VerifiedSize(db'), db'.sths[i])
    {
      VerdictLater(log, log', VerifiedSize(db), VerifiedSize(db'), db.sths[i]);
    }
  }

  /** What the commit leaves for any daemon: either told of the new position or not concerned. */
  lemma CommitDaemon(db: Db, db': Db, verified: bool, dm: Daemon, dm': Daemon)
    requires Later(db, db') && TablesOk(db') && db'.sths == db.sths && DaemonOk(db, dm)
    requires verified || VerifiedSize(db) == VerifiedSize(db')
    requires IngestOk(db', dm'.ingest)
    requires dm' == dm.(ingest := dm'.ingest, inbox := dm.inbox + if verified then [NewPosition] else [])
    requires forall size: nat :: size > |Log(db')| && Covers(dm.ingest, size) ==> Covers(dm'.ingest, size)
    ensures DaemonOk(db', dm')
  {
    forall i | 0 <= i < |db'.sths| && db'.sths[i].treeSize > |Log(db')|
      ensures NewSth in dm'.inbox || dm'.newSth || Covers(dm'.ingest, db'.sths[i].treeSize)
    {
      assert db.sths[i].treeSize > |Log(db)|;
    }
  }

  // ---- Steps inside one daemon ----

  lemma CandidatesEnd(db: Db, st: Ingester)
    requires CandidatesOk(db, st)
    ensures if st.sths == [] then st.tree.size == st.end else st.tree.size < st.end
  {
    if st.sths != [] {
      assert st.sths[|st.sths| - 1].treeSize > st.tree.size;
    }
  }

  lemma AddTransaction(db: Db, st: Ingester, record: Record)
    requires TransactionOk(db, st)
    ensures TransactionOk(db, AddRecord(st, record).0)
    ensures AddRecord(st, record).0.tree.size == st.tree.size + 1
    ensures AddRecord(st, record).0.pending != []
  {
    var st' := AddRecord(st, record).0;
    var log, added := Log(db), Added(st);
    BatchAppend(log, added, record);
    TreeAppend(log + added, record);
    assert Added(st') == added + [record];
    assert log + (added + [record]) == log + added + [record];
  }

  lemma AddCandidates(db: Db, st: Ingester, record: Record)
    requires CandidatesOk(db, st) && st.tree.size < st.end
    requires AddRecord(st, record).0.tree.size == st.tree.size + 1
    ensures CandidatesOk(db, AddRecord(st, record).0) && AddRecord(st, record).0.end == st.end
    ensures AddRecord(st, record).1 == Checkpoint(true) ==>
              var st' := AddRecord(st, record).0; HasSth(db.sths, st'.tree.size, st'.tree.CalculateRoot())
  {
    hide HasSth;
    var st' := AddRecord(st, record).0;
    assert st.sths != [] && st.sths[0].treeSize >= st'.tree.size;
    if st'.tree.size == st.sths[0].treeSize {
      assert forall i :: 0 <= i < |st'.sths| ==> st'.sths[i] == st.sths[i + 1];
    } else {
      assert st'.sths == st.sths;
      assert forall i :: 0 < i < |st.sths| ==> st.sths[0].treeSize < st.sths[i].treeSize;
    }
  }

  /** Adding a record keeps the transaction, and stops at a checkpoint only for a stored root. */
  lemma AddKeeps(db: Db, st: Ingester, record: Record)
    requires CandidatesOk(db, st) && TransactionOk(db, st) && st.tree.size < st.end
    ensures IngestOk(db, AfterAdd(AddRecord(st, record)))
    ensures AddRecord(st, record).0.end == st.end && InTransaction(AfterAdd(AddRecord(st, record)))
  {
    AddTransaction(db, st, record);
    AddCandidates(db, st, record);
    hide AddRecord, CandidatesOk, TransactionOk, HasSth;
  }

  /** The largest candidate is the largest stored size. */
  lemma CandidatesCoverSths(leq: (Hash, Hash) -> bool, sths: seq<SthRow>, size: nat, next: seq<Candidate>, k: nat)
    requires NextSths(leq, sths, size, next) && k < |sths| && sths[k].treeSize > size
    ensures next != [] && sths[k].treeSize <= next[|next| - 1].treeSize
  {
    hide IsLeastRoot;
    assert HasCandidate(next, sths[k].treeSize);
    var i :| 0 <= i < |next| && next[i].treeSize == sths[k].treeSize;
    assert i < |next| - 1 ==> next[i].treeSize < next[|next| - 1].treeSize;
  }

  lemma LoadSthsKeeps(leq: (Hash, Hash) -> bool, db: Db, dm: Daemon, next: seq<Candidate>)
    requires DaemonOk(db, dm) && dm.ingest.Loaded? && NextSths(leq, db.sths, dm.ingest.tree.size, next)
    ensures var tree := dm.ingest.tree;
      var st := Ended(Ingester(dm.ingest.address, tree, tree.size, tree.size, next, []), next);
      DaemonOk(db, dm.(ingest := Ready(st)))
  {
    hide HasSth;
    var tree := dm.ingest.tree;
    var st := Ended(Ingester(dm.ingest.address, tree, tree.size, tree.size, next, []), next);
    var dm' := dm.(ingest := Ready(st));
    assert CandidatesOk(db, st);
    assert SthsNoticed(db, dm') by {
      hide NextSths, CandidatesOk;
      forall k | 0 <= k < |db.sths| && db.sths[k].treeSize > |Log(db)|
        ensures db.sths[k].treeSize <= st.end
      {
        CandidatesCoverSths(leq, db.sths, tree.size, next, k);
      }
    }
    assert UndecidedNoticed(db, dm');
  }

  lemma BeginKeeps(db: Db, st: Ingester)
    requires TablesOk(db) && CandidatesOk(db, st) && st.pending == [] && BeginSucceeds(db, st)
    ensures IngestOk(db, Receiving(st))
  {
    assert Added(st) == [] && Log(db) + [] == Log(db);
    assert Batch(Log(db), []) == [];
  }

  // ---- Putting daemons and tables together ----

  lemma InvSetDaemon(s: System, d: nat, dm: Daemon, lock: Option<nat>)
    requires Inv(s) && d < |s.daemons| && DaemonOk(s.db, dm)
    requires InTransaction(dm.ingest) <==> lock == Some(d)
    requires forall e :: e != d ==> (lock == Some(e) <==> s.lock == Some(e))
    ensures Inv(SetDaemon(s, d, dm).(lock := lock))
  {
  }

  lemma StoreStep(s: System, treeSize: nat, rootHash: Hash, s': System)
    requires Inv(s)
    requires s' == s.(db := InsertSth(s.db, treeSize, rootHash),
                      daemons := if InsertNotifies(s.db, treeSize, rootHash)
                                 then Broadcast(s.daemons, NewSth) else s.daemons)
    ensures Inv(s') && Later(s.db, s'.db)
  {
    hide DaemonOk, TablesOk, InsertSth, InsertNotifies, Later;
    StoreTables(s.db, treeSize, rootHash);
    forall d | 0 <= d < |s.daemons|
      ensures DaemonOk(s'.db, s'.daemons[d])
    {
      StoreDaemon(s.db, treeSize, rootHash, s.daemons[d], s'.daemons[d]);
    }
  }

  lemma RenameStep(s: System, address: string, s': System)
    requires Inv(s) && s.lock.None? && s' == s.(db := s.db.(address := address))
    ensures Inv(s') && Later(s.db, s'.db)
  {
    assert Log(s'.db) == Log(s.db) && VerifiedSize(s'.db) == VerifiedSize(s.db);
    forall d | 0 <= d < |s.daemons|
      ensures DaemonOk(s'.db, s'.daemons[d])
    {
      var dm := s.daemons[d];
      assert DaemonOk(s.db, dm);
      IngestLater(s.db, s'.db, dm.ingest);
      assert SthsNoticed(s'.db, dm) && UndecidedNoticed(s'.db, dm);
    }
  }

  lemma AuditStep(s: System, d: nat, size: nat, s': System)
    requires Inv(s) && d < |s.daemons| && s.daemons[d].audit == AuditRead(size)
    requires s' == SetAudit(s.(db := AuditSths(s.db, size)), d, AuditAsleep)
    ensures Inv(s') && Later(s.db, s'.db)
  {
    assert DaemonOk(s.db, s.daemons[d]);
    AuditTables(s.db, size);
    forall e | 0 <= e < |s.daemons|
      ensures DaemonOk(s'.db, s'.daemons[e])
    {
      AuditDaemon(s.db, size, s.daemons[e], e == d);
    }
  }

  lemma CommitStep(s: System, d: nat, st: Ingester, verified: bool, phase: Phase, s': System)
    requires Inv(s) && d < |s.daemons|
    requires s.daemons[d].ingest == Receiving(st) || s.daemons[d].ingest == Committing(st, verified)
    requires verified ==> s.daemons[d].ingest.Committing?
    requires phase == Ready(st.(pending := [])) || (phase == Asleep && st.end == st.tree.size)
    requires CommitBatch(s.db, st.pending, st.tree, verified).Some?
    requires s' == Committed(s, d, CommitBatch(s.db, st.pending, st.tree, verified).value, verified, phase)
    ensures Inv(s') && Later(s.db, s'.db)
  {
    hide TablesOk, SthsNoticed, UndecidedNoticed, Later, HasSth, Batch, TreeOfLog;
    var db' := CommitBatch(s.db, st.pending, st.tree, verified).value;
    assert DaemonOk(s.db, s.daemons[d]);
    CommitTables(s.db, st, verified);
    CandidatesLater(s.db, db', st);
    assert CandidatesOk(db', st.(pending := []));
    DownloadIsPrefix(db');
    forall e | 0 <= e < |s.daemons|
      ensures DaemonOk(db', s'.daemons[e])
    {
      CommitOne(s, d, st, verified, phase, db', s', e);
    }
  }

  lemma CommitOne(s: System, d: nat, st: Ingester, verified: bool, phase: Phase, db': Db, s': System, e: nat)
    requires Inv(s) && d < |s.daemons| && e < |s.daemons|
    requires s.daemons[d].ingest == Receiving(st) || s.daemons[d].ingest == Committing(st, verified)
    requires phase == Ready(st.(pending := [])) || (phase == Asleep && st.end == st.tree.size)
    requires CommitBatch(s.db, st.pending, st.tree, verified) == Some(db')
    requires Later(s.db, db') && TablesOk(db') && |Log(db')| == st.tree.size
    requires IngestOk(db', phase)
    requires s' == Committed(s, d, db', verified, phase)
    ensures DaemonOk(db', s'.daemons[e])
  {
    hide TablesOk, Later, Rows;
    var dm, dm' := s.daemons[e], s'.daemons[e];
    assert DaemonOk(s.db, dm);
    assert dm.inbox + [] == dm.inbox;
    if e != d {
      IngestLater(s.db, db', dm.ingest);
    }
    CommitDaemon(s.db, db', verified, dm, dm');
  }

  /** Steps that change one daemon and no table. */
  lemma LocalStep(leq: (Hash, Hash) -> bool, s: System, a: Action, s': System)
    requires Inv(s) && !a.StoreSth? && !a.Rename? && !a.AuditUpdate? && !a.Commit? && !a.Finish?
    requires Next(leq, s, a, s')
    ensures Inv(s') && s'.db == s.db
  {
    hide TablesOk, IngestOk, NextSths, SthsNoticed, UndecidedNoticed, AddRecord;
    var d, dm, dm' := a.d, s.daemons[a.d], s'.daemons[a.d];
    assert DaemonOk(s.db, dm);
    LocalDaemon(leq, s, a, s');
    InvSetDaemon(s, d, dm', s'.lock);
    assert s' == SetDaemon(s, d, dm').(lock := s'.lock);
  }

  lemma LocalDaemon(leq: (Hash, Hash) -> bool, s: System, a: Action, s': System)
    requires Inv(s) && !a.StoreSth? && !a.Rename? && !a.AuditUpdate? && !a.Commit? && !a.Finish?
    requires Next(leq, s, a, s')
    ensures a.d < |s'.daemons| && DaemonOk(s.db, s'.daemons[a.d])
    ensures InTransaction(s'.daemons[a.d].ingest) <==> s'.lock == Some(a.d)
  {
    hide TablesOk, NextSths, AddRecord, CandidatesOk, TransactionOk, BeginSucceeds;
    var dm, dm' := s.daemons[a.d], s'.daemons[a.d];
    assert DaemonOk(s.db, dm);
    match a
    case LoadSths(d, next) => LoadSthsKeeps(leq, s.db, dm, next);
    case Begin(d) =>
      BeginKeeps(s.db, dm.ingest.st);
    case Add(d, record) => AddKeeps(s.db, dm.ingest.st, record);
    case Load(d) => assert PrefixTree(s.db, s.db.download) by { DownloadIsPrefix(s.db); }
    case Return(d) => ReturnKeeps(s.db, dm);
    case Deliver(d) =>
    case WakeIngest(d) =>
    case TimerIngest(d) =>
    case WakeAudit(d) =>
    case TimerAudit(d) =>
    case AuditLoad(d) =>
    case Crash(d) =>
  }

  lemma DownloadIsPrefix(db: Db)
    requires TablesOk(db)
    ensures PrefixTree(db, db.download)
  {
    assert Log(db)[..|Log(db)|] == Log(db);
  }

  /** A run without candidates leaves no stored tree head above the download position. */
  lemma ReturnKeeps(db: Db, dm: Daemon)
    requires DaemonOk(db, dm) && dm.ingest.Receiving? && dm.ingest.st.begin == dm.ingest.st.end
    ensures DaemonOk(db, dm.(ingest := Asleep))
  {
    var st := dm.ingest.st;
    CandidatesEnd(db, st);
    assert st.tree.size == |Log(db)| + |Added(st)|;
  }

  /** Every step keeps the invariant, and the tables only grow. */
  lemma StepKeeps(leq: (Hash, Hash) -> bool, s: System, a: Action, s': System)
    requires Inv(s) && Next(leq, s, a, s')
    ensures Inv(s') && Later(s.db, s'.db)
  {
    match a
    case StoreSth(treeSize, rootHash) => StoreStep(s, treeSize, rootHash, s');
    case Rename(address) => RenameStep(s, address, s');
    case AuditUpdate(d) => AuditStep(s, d, s.daemons[d].audit.verifiedSize, s');
    case Commit(d) =>
      var st := s.daemons[d].ingest.st;
      CommitStep(s, d, st, s.daemons[d].ingest.verified, Ready(st.(pending := [])), s');
    case Finish(d) => CommitStep(s, d, s.daemons[d].ingest.st, false, Asleep, s');
    case _ => LocalStep(leq, s, a, s');
  }

  lemma InitInv(s: System)
    requires Init(s)
    ensures Inv(s)
  {
    assert Log(s.db) == [] && Rows([]) == [];
  }

  lemma {:induction false} RunInv(leq: (Hash, Hash) -> bool, run: seq<System>, i: nat)
    requires IsRun(leq, run) && i < |run|
    ensures Inv(run[i])
  {
    if i == 0 {
      InitInv(run[0]);
    } else {
      RunInv(leq, run, i - 1);
      assert Takes(leq, run[i - 1], run[i]);
      var a :| Next(leq, run[i - 1], a, run[i]);
      StepKeeps(leq, run[i - 1], a, run[i]);
    }
  }

  lemma {:induction false} RunLater(leq: (Hash, Hash) -> bool, run: seq<System>, i: nat, j: nat)
    requires IsRun(leq, run) && i <= j < |run|
    ensures Later(run[i].db, run[j].db)
    decreases j
  {
    hide Later, Next, Inv;
    LaterReflexive(run[i].db);
    if i < j {
      RunLater(leq, run, i, j - 1);
      RunInv(leq, run, j - 1);
      assert Takes(leq, run[j - 1], run[j]);
      var a :| Next(leq, run[j - 1], a, run[j]);
      StepKeeps(leq, run[j - 1], a, run[j]);
      LaterTransitive(run[i].db, run[j - 1].db, run[j].db);
    }
  }

  // ---- What a run guarantees ----

  /** The table `record` in every state of a run. */
  lemma RecordsAreTheLog(leq: (Hash, Hash) -> bool, run: seq<System>, i: nat, p: nat)
    requires IsRun(leq, run) && i < |run| && p < |run[i].db.records|
    ensures var db, log := run[i].db, Log(run[i].db);
      && db.records[p].position == p
      && db.records[p].rootHash == Mth(Formats(log)[..p + 1])
      && db.records[p].previous == LastBefore(log, log[p], p)
  {
    var log := Log(run[i].db);
    assert run[i].db.records == Rows(log) by {
      RunInv(leq, run, i);
    }
    FormatsPrefix(log, p + 1);
    hide IsRun, Mth, LastBefore;
    assert Rows(log)[p] == RowAt(log, p);
  }

  /** Both positions are trees of stored records, and verified does not exceed download. */
  lemma PositionsAreTrees(leq: (Hash, Hash) -> bool, run: seq<System>, i: nat)
    requires IsRun(leq, run) && i < |run|
    ensures var db := run[i].db;
      && db.download == Collapsed(Formats(Log(db)))
      && VerifiedSize(db) <= db.download.size == |db.records|
      && (db.verified.Some? ==>
            && db.verified.value == Collapsed(Formats(Log(db))[..VerifiedSize(db)])
            && HasSth(db.sths, VerifiedSize(db), db.verified.value.CalculateRoot()))
  {
    RunInv(leq, run, i);
    var db := run[i].db;
    if db.verified.Some? {
      FormatsPrefix(Log(db), VerifiedSize(db));
      RootIsMth(Formats(Log(db)[..VerifiedSize(db)]));
    }
  }

  lemma RowsPrefix(log: seq<Record>, log': seq<Record>)
    requires log <= log'
    ensures Rows(log) <= Rows(log')
  {
    var more := log'[|log|..];
    assert log' == log + more;
    forall i | 0 <= i < |log|
      ensures RowAt(log', i) == RowAt(log, i)
    {
      assert log'[..i + 1] == log[..i + 1];
      LastBeforePrefix(log, more, log[i], i);
    }
  }

  /** Nothing that was stored or decided ever changes, and both positions only grow. */
  lemma NothingChanges(leq: (Hash, Hash) -> bool, run: seq<System>, i: nat, j: nat)
    requires IsRun(leq, run) && i <= j < |run|
    ensures run[i].db.records <= run[j].db.records
    ensures VerifiedSize(run[i].db) <= VerifiedSize(run[j].db)
    ensures run[i].db.download.size <= run[j].db.download.size
    ensures |run[i].db.sths| <= |run[j].db.sths|
    ensures forall k :: 0 <= k < |run[i].db.sths| && run[i].db.sths[k].consistent.Some? ==>
              run[j].db.sths[k] == run[i].db.sths[k]
    ensures forall k :: 0 <= k < |run[i].db.sths| ==> SameRow(run[i].db.sths[k], run[j].db.sths[k])
  {
    RunInv(leq, run, i);
    RunInv(leq, run, j);
    RunLater(leq, run, i, j);
    RowsPrefix(Log(run[i].db), Log(run[j].db));
    forall k | 0 <= k < |run[i].db.sths| && run[i].db.sths[k].consistent.Some?
      ensures run[j].db.sths[k] == run[i].db.sths[k]
    {
      assert SameRow(run[i].db.sths[k], run[j].db.sths[k]);
    }
  }

  /** Whoever gave a verdict, it says the same thing, and says it of every later table too. */
  lemma VerdictMeaning(leq: (Hash, Hash) -> bool, run: seq<System>, i: nat, j: nat, k: nat)
    requires IsRun(leq, run) && i <= j < |run|
    requires k < |run[i].db.sths| && run[i].db.sths[k].consistent.Some?
    ensures var row, log := run[i].db.sths[k], Log(run[j].db);
      && row.treeSize <= |log|
      && row.consistent.value == (row.rootHash == Mth(Formats(log)[..row.treeSize]))
  {
    RunInv(leq, run, j);
    NothingChanges(leq, run, i, j);
    var db := run[j].db;
    assert VerdictOk(Log(db), VerifiedSize(db), db.sths[k]);
    FormatsPrefix(Log(db), db.sths[k].treeSize);
  }

  /** One list of leaves has both roots at both sizes. */
  ghost predicate Explains(leaves: seq<string>, row: SthRow, anchor: SthRow) {
    && row.treeSize <= anchor.treeSize <= |leaves|
    && Mth(leaves[..row.treeSize]) == row.rootHash
    && Mth(leaves[..anchor.treeSize]) == anchor.rootHash
  }

  /** The larger root already fixes the smaller one. */
  lemma ExplainsForces(leaves: seq<string>, row: SthRow, anchor: SthRow, computed: seq<string>)
    requires Explains(leaves, row, anchor)
    requires anchor.treeSize <= |computed| && anchor.rootHash == Mth(computed[..anchor.treeSize])
    ensures row.rootHash == Mth(computed[..row.treeSize])
  {
    var a, b := leaves[..anchor.treeSize], computed[..anchor.treeSize];
    MthInjective(a, b);
    assert a[..row.treeSize] == leaves[..row.treeSize] && b[..row.treeSize] == computed[..row.treeSize];
  }

  /**
   A verdict on a non-empty tree is evidence: some stored tree head at least as large has
   the computed root, and the verdict is false exactly when no list of leaves explains both
   tree heads, that is, when the log showed two different histories.
   */
  lemma VerdictIsEvidence(leq: (Hash, Hash) -> bool, run: seq<System>, i: nat, k: nat)
      returns (anchor: SthRow)
    requires IsRun(leq, run) && i < |run| && k < |run[i].db.sths|
    requires run[i].db.sths[k].treeSize >= 1 && run[i].db.sths[k].consistent.Some?
    ensures anchor in run[i].db.sths && anchor.treeSize >= run[i].db.sths[k].treeSize
    ensures anchor.treeSize <= |Log(run[i].db)|
    ensures anchor.rootHash == Mth(Formats(Log(run[i].db))[..anchor.treeSize])
    ensures run[i].db.sths[k].consistent == Some(false) <==>
            !exists leaves :: Explains(leaves, run[i].db.sths[k], anchor)
  {
    RunInv(leq, run, i);
    var db, row := run[i].db, run[i].db.sths[k];
    var log, size := Log(db), VerifiedSize(db);
    assert VerdictOk(log, size, row);
    var w :| 0 <= w < |db.sths| && db.sths[w].treeSize == size && db.sths[w].rootHash == RootOfLog(log[..size]);
    anchor := db.sths[w];
    FormatsPrefix(log, size);
    FormatsPrefix(log, row.treeSize);
    var computed := Formats(log);
    if row.consistent.value {
      assert Explains(computed, row, anchor);
    }
    forall leaves | Explains(leaves, row, anchor)
      ensures row.consistent.value
    {
      ExplainsForces(leaves, row, anchor, computed);
    }
  }

  /** No tree head of size 0 waits for a verdict. */
  ghost predicate EmptyDecided(db: Db) {
    forall k :: 0 <= k < |db.sths| && db.sths[k].treeSize == 0 ==> db.sths[k].consistent.Some?
  }

  lemma EmptyStaysDecided(leq: (Hash, Hash) -> bool, s: System, a: Action, s': System)
    requires Inv(s) && EmptyDecided(s.db) && Next(leq, s, a, s')
    ensures EmptyDecided(s'.db)
  {
    match a
    case StoreSth(_, _) =>
    case Rename(_) =>
    case AuditUpdate(_) =>
    case Commit(_) =>
    case Finish(_) =>
    case _ => LocalStep(leq, s, a, s');
  }

  lemma {:induction false} RunEmptyDecided(leq: (Hash, Hash) -> bool, run: seq<System>, i: nat)
    requires IsRun(leq, run) && i < |run|
    ensures EmptyDecided(run[i].db)
  {
    if i > 0 {
      RunEmptyDecided(leq, run, i - 1);
      RunInv(leq, run, i - 1);
      assert Takes(leq, run[i - 1], run[i]);
      var a :| Next(leq, run[i - 1], a, run[i]);
      EmptyStaysDecided(leq, run[i - 1], a, run[i]);
    }
  }

  ghost predicate Distinct(sths: seq<SthRow>) {
    forall k, l :: 0 <= k < l < |sths| ==> sths[k].treeSize != sths[l].treeSize || sths[k].rootHash != sths[l].rootHash
  }

  lemma StaysDistinct(leq: (Hash, Hash) -> bool, s: System, a: Action, s': System)
    requires Inv(s) && Distinct(s.db.sths) && Next(leq, s, a, s')
    ensures Distinct(s'.db.sths)
  {
    hide Inv, InsertVerdict;
    match a
    case StoreSth(treeSize, rootHash) => InsertOnce(s.db, treeSize, rootHash);
    case Rename(_) =>
    case AuditUpdate(_) =>
    case Commit(_) =>
    case Finish(_) =>
    case _ => LocalStep(leq, s, a, s');
  }

  /** However often a tree head arrives, it is stored once. */
  lemma {:induction false} StoredOnce(leq: (Hash, Hash) -> bool, run: seq<System>, i: nat)
    requires IsRun(leq, run) && i < |run|
    ensures Distinct(run[i].db.sths)
  {
    if i > 0 {
      StoredOnce(leq, run, i - 1);
      RunInv(leq, run, i - 1);
      assert Takes(leq, run[i - 1], run[i]);
      var a :| Next(leq, run[i - 1], a, run[i]);
      StaysDistinct(leq, run[i - 1], a, run[i]);
    }
  }

  /** What the triggers tell everybody: a new tree head without a verdict, a new verified position. */
  function Told(db: Db, db': Db): seq<Event> {
    (if |db'.sths| > |db.sths| && db'.sths[|db.sths|].consistent.None? then [NewSth] else [])
    + (if db'.verified != db.verified then [NewPosition] else [])
  }

  /** A step sends exactly these notifications, to every daemon. */
  lemma NotifiesExactly(leq: (Hash, Hash) -> bool, s: System, a: Action, s': System, e: nat)
    requires Inv(s) && Next(leq, s, a, s') && e < |s.daemons| == |s'.daemons|
    requires (a.Deliver? || a.Crash?) ==> a.d != e
    ensures s'.daemons[e].inbox == s.daemons[e].inbox + Told(s.db, s'.db)
  {
    match a
    case StoreSth(treeSize, rootHash) => InsertOnce(s.db, treeSize, rootHash);
    case Rename(_) =>
    case AuditUpdate(_) =>
    case Commit(d) => CommitTells(s, d, s.daemons[d].ingest.verified, s');
    case Finish(d) => CommitTells(s, d, false, s');
    case _ => LocalStep(leq, s, a, s');
  }

  lemma CommitTells(s: System, d: nat, verified: bool, s': System)
    requires Inv(s) && d < |s.daemons| && InTransaction(s.daemons[d].ingest)
    requires verified ==> s.daemons[d].ingest.Committing? && s.daemons[d].ingest.verified
    requires var st := s.daemons[d].ingest.st;
      && CommitBatch(s.db, st.pending, st.tree, verified) == Some(s'.db)
    ensures Told(s.db, s'.db) == if verified then [NewPosition] else []
  {
    var st := s.daemons[d].ingest.st;
    assert DaemonOk(s.db, s.daemons[d]);
    assert st.tree.size == |Log(s.db)| + |Added(st)|;
  }

  /** A tree head of size 0 is decided from the start, against the hash of the empty list. */
  lemma EmptyTreeVerdict(leq: (Hash, Hash) -> bool, run: seq<System>, i: nat, k: nat)
    requires IsRun(leq, run) && i < |run| && k < |run[i].db.sths| && run[i].db.sths[k].treeSize == 0
    ensures run[i].db.sths[k].consistent == Some(run[i].db.sths[k].rootHash == Mth([]))
  {
    RunEmptyDecided(leq, run, i);
    VerdictMeaning(leq, run, i, i, k);
    assert Formats(Log(run[i].db))[..0] == [];
  }

  /** Nothing left to hear or to do for one daemon. */
  predicate Quiet(dm: Daemon) {
    dm.ingest.Asleep? && dm.audit.AuditAsleep? && !dm.newSth && !dm.newPosition && dm.inbox == []
  }

  /** When one daemon is quiet, every stored tree head was downloaded and every verified one decided. */
  lemma NothingLeft(leq: (Hash, Hash) -> bool, run: seq<System>, i: nat, d: nat)
    requires IsRun(leq, run) && i < |run| && d < |run[i].daemons| && Quiet(run[i].daemons[d])
    ensures forall k :: 0 <= k < |run[i].db.sths| ==>
      && run[i].db.sths[k].treeSize <= run[i].db.download.size
      && (run[i].db.sths[k].treeSize <= VerifiedSize(run[i].db) ==> run[i].db.sths[k].consistent.Some?)
  {
    RunInv(leq, run, i);
    RunEmptyDecided(leq, run, i);
    assert DaemonOk(run[i].db, run[i].daemons[d]);
    forall k | 0 <= k < |run[i].db.sths|
      ensures run[i].db.sths[k].treeSize <= |Log(run[i].db)|
      ensures !Undecided(run[i].db, run[i].db.sths[k])
    {
    }
  }

  /** At most one daemon has a transaction open, and its commit cannot fail on a taken position. */
  lemma TransactionsExclude(leq: (Hash, Hash) -> bool, run: seq<System>, i: nat, d: nat)
    requires IsRun(leq, run) && i < |run| && d < |run[i].daemons| && InTransaction(run[i].daemons[d].ingest)
    ensures forall e :: 0 <= e < |run[i].daemons| && InTransaction(run[i].daemons[e].ingest) ==> e == d
    ensures var st := run[i].daemons[d].ingest.st; var db := run[i].db;
      && st.tree == Collapsed(Formats(Log(db) + Added(st)))
      && forall verified ::
           var db' := CommitBatch(db, st.pending, st.tree, verified);
           db'.Some? && db'.value.records == Rows(Log(db) + Added(st))
  {
    RunInv(leq, run, i);
    var st := run[i].daemons[d].ingest.st;
    assert DaemonOk(run[i].db, run[i].daemons[d]);
    forall verified
      ensures var db' := CommitBatch(run[i].db, st.pending, st.tree, verified);
              db'.Some? && db'.value.records == Rows(Log(run[i].db) + Added(st))
    {
      CommitSucceeds(run[i].db, st, verified);
    }
  }

  /** The check in `begin` fails exactly for a renamed log or an ingester that was overtaken. */
  lemma BeginFailsIffOvertaken(leq: (Hash, Hash) -> bool, run: seq<System>, i: nat, d: nat)
    requires IsRun(leq, run) && i < |run| && d < |run[i].daemons| && run[i].daemons[d].ingest.Ready?
    ensures var db, st := run[i].db, run[i].daemons[d].ingest.st;
      && st.tree.size <= |db.records|
      && (BeginSucceeds(db, st) <==> st.address == db.address && st.tree.size == |db.records|)
  {
    RunInv(leq, run, i);
    assert DaemonOk(run[i].db, run[i].daemons[d]);
    var log := Log(run[i].db);
    assert log[..|log|] == log;
  }
}
