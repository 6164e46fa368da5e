/**
 From every state of a run a daemon can come to rest by its own steps and those of whoever
 holds the lock: cmd/sourcespotter/sumdb.go.
 */
module Quiescence {
  import opened Wrappers
  import opened Records
  import opened Database
  import opened Auditor
  import opened AuditorSafety
  import opened Progress

  /** The daemon that is to come to rest, and the record that the log delivers for each position. */
  datatype Setting = Setting(leq: RootOrder, feed: nat -> Record, d: nat)

  /** The ingester was overtaken: `begin` will refuse it, which ends the process. */
  ghost predicate Refused(s: System, d: nat) {
    && d < |s.daemons| && s.daemons[d].ingest.Ready? && s.lock.None?
    && !BeginSucceeds(s.db, s.daemons[d].ingest.st)
  }

  /**
   Steps without news from outside: no tree head, no new name, no timer, the records of the
   log, and no crash but the one of a refused `begin`.
   */
  ghost predicate IsOwnStep(c: Setting, s: System, a: Action) {
    match a
    case StoreSth(_, _) => false
    case Rename(_) => false
    case TimerIngest(_) => false
    case TimerAudit(_) => false
    case Add(e, record) =>
      e < |s.daemons| && s.daemons[e].ingest.Receiving? && record == c.feed(s.daemons[e].ingest.st.tree.size)
    case Crash(e) => e == c.d && Refused(s, e)
    case _ => true
  }

  ghost predicate Does(c: Setting, s: System, s': System) {
    exists a :: Next(c.leq, s, a, s') && IsOwnStep(c, s, a)
  }

  /** A run whose steps after state `from` are of that kind. */
  ghost predicate Continues(c: Setting, from: nat, run: seq<System>) {
    && from < |run| && IsRun(c.leq, run)
    && forall i :: from < i < |run| ==> Does(c, run[i - 1], run[i])
  }

  function Last(run: seq<System>): System
    requires run != []
  {
    run[|run| - 1]
  }

  lemma Goes(c: Setting, from: nat, run: seq<System>, a: Action, s': System)
    requires Continues(c, from, run) && Next(c.leq, Last(run), a, s') && IsOwnStep(c, Last(run), a)
    ensures Continues(c, from, run + [s']) && Last(run + [s']) == s'
  {
    var longer := run + [s'];
    assert Takes(c.leq, Last(run), s') && Does(c, Last(run), s');
    hide Takes, Does;
    forall i | 0 < i < |longer|
      ensures Takes(c.leq, longer[i - 1], longer[i])
      ensures from < i ==> Does(c, longer[i - 1], longer[i])
    {
      assert i < |run| ==> longer[i - 1] == run[i - 1] && longer[i] == run[i];
    }
  }

  // ---- What the steps leave alone ----

  /** How much a daemon still has to hear about new tree heads. */
  function News(dm: Daemon): nat {
    2 * multiset(dm.inbox)[NewSth] + if dm.newSth then 1 else 0
  }

  /** No news for anybody, and only daemon e moved. */
  ghost predicate OnlyMoved(s: System, s': System, e: nat) {
    && |s'.daemons| == |s.daemons| && |s'.db.sths| == |s.db.sths|
    && forall x :: 0 <= x < |s.daemons| ==>
         && News(s'.daemons[x]) == News(s.daemons[x])
         && (x != e ==> s'.daemons[x].ingest == s.daemons[x].ingest && s'.daemons[x].audit == s.daemons[x].audit)
  }

  lemma SetPhase(s: System, e: nat, phase: Phase, lock: Option<nat>)
    requires e < |s.daemons|
    ensures OnlyMoved(s, SetIngest(s, e, phase).(lock := lock), e)
    ensures SetIngest(s, e, phase).(lock := lock).daemons[e].audit == s.daemons[e].audit
  {
  }

  lemma CommittedMoves(s: System, e: nat, db: Db, verified: bool, phase: Phase)
    requires e < |s.daemons| && |db.sths| == |s.db.sths|
    ensures var s' := Committed(s, e, db, verified, phase);
      && OnlyMoved(s, s', e) && s'.lock.None? && s'.db == db
      && s'.daemons[e].ingest == phase && s'.daemons[e].audit == s.daemons[e].audit
  {
  }

  // ---- The holder of the lock comes to an end ----

  /** The lock is held by one of the daemons. */
  lemma {:induction false} RunLock(leq: RootOrder, run: seq<System>, i: nat)
    requires IsRun(leq, run) && i < |run|
    ensures run[i].lock.Some? ==> run[i].lock.value < |run[i].daemons|
  {
    hide CommitBatch, AddRecord, InsertSth, NextSths, BeginSucceeds, AuditSths, Raise;
    if i > 0 {
      RunLock(leq, run, i - 1);
      assert Takes(leq, run[i - 1], run[i]);
      var a :| Next(leq, run[i - 1], a, run[i]);
    }
  }

  function Left(phase: Phase): nat
    requires InTransaction(phase)
  {
    (if phase.st.tree.size <= phase.st.end then 2 * (phase.st.end - phase.st.tree.size) else 0)
    + if phase.Committing? then 1 else 0
  }

  /** What a transaction needs to go on. */
  lemma InTransactionOk(leq: RootOrder, run: seq<System>, e: nat)
    requires IsRun(leq, run) && e < |Last(run).daemons| && InTransaction(Last(run).daemons[e].ingest)
    ensures var s, st := Last(run), Last(run).daemons[e].ingest.st;
      && TablesOk(s.db) && CandidatesOk(s.db, st) && TransactionOk(s.db, st)
      && st.begin <= st.tree.size <= st.end
      && forall verified :: var db := CommitBatch(s.db, st.pending, st.tree, verified);
           db.Some? && |db.value.sths| == |s.db.sths| && BeginSucceeds(db.value, st.(pending := []))
  {
    var s, st := Last(run), Last(run).daemons[e].ingest.st;
    RunInv(leq, run, |run| - 1);
    assert DaemonOk(s.db, s.daemons[e]);
    CandidatesEnd(s.db, st);
    forall verified
      ensures var db := CommitBatch(s.db, st.pending, st.tree, verified);
        db.Some? && |db.value.sths| == |s.db.sths| && BeginSucceeds(db.value, st.(pending := []))
    {
      CommitSucceeds(s.db, st, verified);
    }
  }

  /** The step that commits, from what it needs to know. */
  lemma CommitGoes(c: Setting, from: nat, run: seq<System>, a: Action, db: Db, phase: Phase)
      returns (longer: seq<System>)
    requires Continues(c, from, run) && (a.Commit? || a.Finish?) && a.d < |Last(run).daemons|
    requires if a.Commit? then Last(run).daemons[a.d].ingest.Committing? else Last(run).daemons[a.d].ingest.Receiving?
    requires var dm := Last(run).daemons[a.d]; var st := dm.ingest.st;
      && CommitBatch(Last(run).db, st.pending, st.tree, a.Commit? && dm.ingest.verified) == Some(db)
      && |db.sths| == |Last(run).db.sths|
      && if a.Commit? then phase == Ready(st.(pending := []))
         else st.begin < st.end == st.tree.size && phase == Asleep
    ensures run <= longer && Continues(c, from, longer) && OnlyMoved(Last(run), Last(longer), a.d)
    ensures var s' := Last(longer);
      && s'.lock.None? && s'.db == db
      && s'.daemons[a.d].ingest == phase && s'.daemons[a.d].audit == Last(run).daemons[a.d].audit
  {
    assert |run| >= 1;
    hide Continues, IsRun, OnlyMoved, CommitBatch, Committed, AddRecord, NextSths, InsertSth, BeginSucceeds;
    var verified := a.Commit? && Last(run).daemons[a.d].ingest.verified;
    var s' := Committed(Last(run), a.d, db, verified, phase);
    CommittedMoves(Last(run), a.d, db, verified, phase);
    Goes(c, from, run, a, s');
    longer := run + [s'];
  }

  lemma OnlyMovedOnce(s: System, s1: System, s2: System, e: nat)
    requires OnlyMoved(s, s1, e) && OnlyMoved(s1, s2, e)
    ensures OnlyMoved(s, s2, e)
  {
  }

  /** A daemon in a transaction can bring its run to an end. */
  lemma {:induction false} RunsOut(c: Setting, from: nat, run: seq<System>, e: nat) returns (longer: seq<System>)
    requires Continues(c, from, run) && e < |Last(run).daemons| && InTransaction(Last(run).daemons[e].ingest)
    ensures run <= longer && Continues(c, from, longer) && OnlyMoved(Last(run), Last(longer), e)
    ensures Last(longer).daemons[e].ingest.Asleep? && Last(longer).lock.None?
    ensures Last(longer).daemons[e].audit == Last(run).daemons[e].audit
    decreases Left(Last(run).daemons[e].ingest)
  {
    var s := Last(run);
    var st := s.daemons[e].ingest.st;
    InTransactionOk(c.leq, run, e);
    if s.daemons[e].ingest.Committing? {
      longer := CommitsAndBegins(c, from, run, e);
    } else if st.tree.size < st.end {
      longer := Adds(c, from, run, e);
    } else {
      longer := EndsRun(c, from, run, e);
      return;
    }
    var mid := Last(longer);
    longer := RunsOut(c, from, longer, e);
    OnlyMovedOnce(s, mid, Last(longer), e);
  }

  lemma Adds(c: Setting, from: nat, run: seq<System>, e: nat) returns (longer: seq<System>)
    requires Continues(c, from, run) && e < |Last(run).daemons| && Last(run).daemons[e].ingest.Receiving?
    requires Last(run).daemons[e].ingest.st.tree.size < Last(run).daemons[e].ingest.st.end
    ensures run <= longer && Continues(c, from, longer) && OnlyMoved(Last(run), Last(longer), e)
    ensures InTransaction(Last(longer).daemons[e].ingest)
    ensures Left(Last(longer).daemons[e].ingest) < Left(Last(run).daemons[e].ingest)
    ensures Last(longer).daemons[e].audit == Last(run).daemons[e].audit
  {
    assert |run| >= 1 && IsRun(c.leq, run);
    hide AddRecord, TransactionOk, CandidatesOk, Continues, IsRun, OnlyMoved, TablesOk, BeginSucceeds, CommitBatch;
    var s := Last(run);
    var st := s.daemons[e].ingest.st;
    var record := c.feed(st.tree.size);
    InTransactionOk(c.leq, run, e);
    AddTransaction(s.db, st, record);
    AddKeeps(s.db, st, record);
    var s' := SetIngest(s, e, AfterAdd(AddRecord(st, record)));
    SetPhase(s, e, AfterAdd(AddRecord(st, record)), s.lock);
    assert s'.(lock := s.lock) == s';
    Goes(c, from, run, Add(e, record), s');
    longer := run + [s'];
  }

  lemma EndsRun(c: Setting, from: nat, run: seq<System>, e: nat) returns (longer: seq<System>)
    requires Continues(c, from, run) && e < |Last(run).daemons| && Last(run).daemons[e].ingest.Receiving?
    requires Last(run).daemons[e].ingest.st.tree.size >= Last(run).daemons[e].ingest.st.end
    ensures run <= longer && Continues(c, from, longer) && OnlyMoved(Last(run), Last(longer), e)
    ensures Last(longer).daemons[e].ingest.Asleep? && Last(longer).lock.None?
    ensures Last(longer).daemons[e].audit == Last(run).daemons[e].audit
  {
    assert |run| >= 1 && IsRun(c.leq, run);
    hide TransactionOk, CandidatesOk, Continues, IsRun, OnlyMoved, TablesOk, CommitBatch, BeginSucceeds;
    var s := Last(run);
    var st := s.daemons[e].ingest.st;
    InTransactionOk(c.leq, run, e);
    if st.begin == st.end {
      var s' := SetIngest(s, e, Asleep).(lock := None);
      SetPhase(s, e, Asleep, None);
      Goes(c, from, run, Return(e), s');
      longer := run + [s'];
    } else {
      longer := Finishes(c, from, run, e);
    }
  }

  lemma Finishes(c: Setting, from: nat, run: seq<System>, e: nat) returns (longer: seq<System>)
    requires Continues(c, from, run) && e < |Last(run).daemons| && Last(run).daemons[e].ingest.Receiving?
    requires var st := Last(run).daemons[e].ingest.st; st.tree.size >= st.end && st.begin != st.end
    ensures run <= longer && Continues(c, from, longer) && OnlyMoved(Last(run), Last(longer), e)
    ensures Last(longer).daemons[e].ingest.Asleep? && Last(longer).lock.None?
    ensures Last(longer).daemons[e].audit == Last(run).daemons[e].audit
  {
    assert |run| >= 1 && IsRun(c.leq, run);
    hide TransactionOk, CandidatesOk, Continues, IsRun, OnlyMoved, TablesOk, CommitBatch, BeginSucceeds;
    var s := Last(run);
    var st := s.daemons[e].ingest.st;
    InTransactionOk(c.leq, run, e);
    longer := CommitGoes(c, from, run, Finish(e), CommitBatch(s.db, st.pending, st.tree, false).value, Asleep);
  }

  lemma Commits(c: Setting, from: nat, run: seq<System>, e: nat) returns (longer: seq<System>)
    requires Continues(c, from, run) && e < |Last(run).daemons| && Last(run).daemons[e].ingest.Committing?
    ensures run <= longer && Continues(c, from, longer) && OnlyMoved(Last(run), Last(longer), e)
    ensures var s', st := Last(longer), Last(run).daemons[e].ingest.st;
      && s'.daemons[e].ingest == Ready(st.(pending := [])) && s'.lock.None?
      && BeginSucceeds(s'.db, st.(pending := [])) && s'.daemons[e].audit == Last(run).daemons[e].audit
  {
    assert |run| >= 1 && IsRun(c.leq, run);
    hide TransactionOk, CandidatesOk, Continues, IsRun, OnlyMoved, TablesOk, CommitBatch, BeginSucceeds;
    var s := Last(run);
    var Committing(st, verified) := s.daemons[e].ingest;
    InTransactionOk(c.leq, run, e);
    var db, ready := CommitBatch(s.db, st.pending, st.tree, verified).value, st.(pending := []);
    longer := CommitGoes(c, from, run, Commit(e), db, Ready(ready));
  }

  lemma Begins(c: Setting, from: nat, run: seq<System>, e: nat) returns (longer: seq<System>)
    requires Continues(c, from, run) && e < |Last(run).daemons| && Last(run).daemons[e].ingest.Ready?
    requires Last(run).lock.None? && BeginSucceeds(Last(run).db, Last(run).daemons[e].ingest.st)
    ensures run <= longer && Continues(c, from, longer) && OnlyMoved(Last(run), Last(longer), e)
    ensures Last(longer).daemons[e].ingest == Receiving(Last(run).daemons[e].ingest.st)
    ensures Last(longer).daemons[e].audit == Last(run).daemons[e].audit
  {
    assert |run| >= 1;
    hide Continues, OnlyMoved, BeginSucceeds;
    var s := Last(run);
    var s' := SetIngest(s, e, Receiving(s.daemons[e].ingest.st)).(lock := Some(e));
    SetPhase(s, e, Receiving(s.daemons[e].ingest.st), Some(e));
    Goes(c, from, run, Begin(e), s');
    longer := run + [s'];
  }

  lemma CommitsAndBegins(c: Setting, from: nat, run: seq<System>, e: nat) returns (longer: seq<System>)
    requires Continues(c, from, run) && e < |Last(run).daemons| && Last(run).daemons[e].ingest.Committing?
    ensures run <= longer && Continues(c, from, longer) && OnlyMoved(Last(run), Last(longer), e)
    ensures InTransaction(Last(longer).daemons[e].ingest)
    ensures Left(Last(longer).daemons[e].ingest) < Left(Last(run).daemons[e].ingest)
    ensures Last(longer).daemons[e].audit == Last(run).daemons[e].audit
  {
    hide BeginSucceeds;
    longer := Commits(c, from, run, e);
    var mid := Last(longer);
    longer := Begins(c, from, longer, e);
    OnlyMovedOnce(Last(run), mid, Last(longer), e);
  }

  /** The lock can become free; a daemon that did not hold it stays where it is. */
  lemma Frees(c: Setting, from: nat, run: seq<System>, d: nat) returns (longer: seq<System>)
    requires Continues(c, from, run) && d < |Last(run).daemons|
    ensures run <= longer && Continues(c, from, longer) && Last(longer).lock.None?
    ensures var s, s' := Last(run), Last(longer);
      && |s'.daemons| == |s.daemons| && |s'.db.sths| == |s.db.sths|
      && News(s'.daemons[d]) == News(s.daemons[d]) && s'.daemons[d].audit == s.daemons[d].audit
      && !InTransaction(s'.daemons[d].ingest)
  {
    var s := Last(run);
    if s.lock.None? {
      longer := run;
    } else {
      RunLock(c.leq, run, |run| - 1);
      RunInv(c.leq, run, |run| - 1);
      longer := RunsOut(c, from, run, s.lock.value);
    }
    RunInv(c.leq, longer, |longer| - 1);
  }

  // ---- The ingest worker falls asleep ----

  /** In s' the ingest worker sleeps, and the daemon has heard of no tree head since s. */
  ghost predicate Sleeps(s: System, s': System, d: nat) {
    && d < |s.daemons| == |s'.daemons| && |s'.db.sths| == |s.db.sths|
    && News(s'.daemons[d]) <= News(s.daemons[d]) && s'.daemons[d].ingest.Asleep?
  }

  lemma FromFreshReady(c: Setting, from: nat, run: seq<System>) returns (longer: seq<System>)
    requires Continues(c, from, run) && c.d < |Last(run).daemons| && Last(run).daemons[c.d].ingest.Ready?
    requires Last(run).lock.None? && BeginSucceeds(Last(run).db, Last(run).daemons[c.d].ingest.st)
    ensures run <= longer && Continues(c, from, longer) && Sleeps(Last(run), Last(longer), c.d)
  {
    longer := Begins(c, from, run, c.d);
    longer := RunsOut(c, from, longer, c.d);
  }

  lemma Loads(c: Setting, from: nat, run: seq<System>) returns (longer: seq<System>)
    requires Continues(c, from, run) && c.d < |Last(run).daemons| && Last(run).daemons[c.d].ingest.Loaded?
    requires IsTotalOrder(c.leq)
    ensures run <= longer && Continues(c, from, longer) && OnlyMoved(Last(run), Last(longer), c.d)
    ensures Last(longer).lock == Last(run).lock && Last(longer).db == Last(run).db
    ensures var phase, phase' := Last(run).daemons[c.d].ingest, Last(longer).daemons[c.d].ingest;
      phase'.Ready? && phase'.st.address == phase.address && phase'.st.tree == phase.tree
  {
    var s := Last(run);
    var Loaded(address, tree) := s.daemons[c.d].ingest;
    var next := SelectNextSths(c.leq, s.db.sths, tree.size);
    SelectMeansNext(c.leq, s.db.sths, tree.size);
    hide Continues, OnlyMoved, NextSths, SelectNextSths;
    var phase := Ready(Ended(Ingester(address, tree, tree.size, tree.size, next, []), next));
    var s' := SetIngest(s, c.d, phase);
    SetPhase(s, c.d, phase, s.lock);
    assert s'.(lock := s.lock) == s';
    Goes(c, from, run, LoadSths(c.d, next), s');
    longer := run + [s'];
  }

  lemma FromStart(c: Setting, from: nat, run: seq<System>) returns (longer: seq<System>)
    requires Continues(c, from, run) && c.d < |Last(run).daemons| && Last(run).daemons[c.d].ingest.Start?
    requires IsTotalOrder(c.leq) && Last(run).lock.None?
    ensures run <= longer && Continues(c, from, longer) && Sleeps(Last(run), Last(longer), c.d)
  {
    var s := Last(run);
    var s' := SetIngest(s, c.d, Loaded(s.db.address, s.db.download));
    Goes(c, from, run, Load(c.d), s');
    longer := Loads(c, from, run + [s']);
    longer := FromFreshReady(c, from, longer);
  }

  lemma FromReady(c: Setting, from: nat, run: seq<System>) returns (longer: seq<System>)
    requires Continues(c, from, run) && c.d < |Last(run).daemons| && Last(run).daemons[c.d].ingest.Ready?
    requires IsTotalOrder(c.leq) && Last(run).lock.None?
    ensures run <= longer && Continues(c, from, longer) && Sleeps(Last(run), Last(longer), c.d)
  {
    var s := Last(run);
    if BeginSucceeds(s.db, s.daemons[c.d].ingest.st) {
      longer := FromFreshReady(c, from, run);
    } else {
      var s' := SetDaemon(s, c.d, FRESH_DAEMON).(lock := None);
      Goes(c, from, run, Crash(c.d), s');
      longer := FromStart(c, from, run + [s']);
    }
  }

  lemma FallsAsleep(c: Setting, from: nat, run: seq<System>) returns (longer: seq<System>)
    requires Continues(c, from, run) && c.d < |Last(run).daemons| && IsTotalOrder(c.leq)
    ensures run <= longer && Continues(c, from, longer) && Sleeps(Last(run), Last(longer), c.d)
  {
    longer := Frees(c, from, run, c.d);
    match Last(longer).daemons[c.d].ingest
    case Asleep =>
    case Start => longer := FromStart(c, from, longer);
    case Loaded(_, _) =>
      longer := Loads(c, from, longer);
      longer := FromReady(c, from, longer);
    case Ready(_) => longer := FromReady(c, from, longer);
  }

  // ---- The daemon comes to rest ----

  function Rank(phase: AuditPhase): nat {
    match phase
    case AuditStart => 2
    case AuditRead(_) => 1
    case AuditAsleep => 0
  }

  lemma Delivers(c: Setting, from: nat, run: seq<System>) returns (longer: seq<System>)
    requires Continues(c, from, run) && c.d < |Last(run).daemons| && Last(run).daemons[c.d].inbox != []
    ensures run <= longer && Continues(c, from, longer)
    ensures |Last(longer).daemons| == |Last(run).daemons| && Last(longer).db == Last(run).db
    ensures var dm, dm' := Last(run).daemons[c.d], Last(longer).daemons[c.d];
      News(dm') <= News(dm) && |dm'.inbox| < |dm.inbox| && dm'.ingest == dm.ingest
  {
    assert |run| >= 1;
    hide Continues;
    var s, dm := Last(run), Last(run).daemons[c.d];
    assert dm.inbox == [dm.inbox[0]] + dm.inbox[1..];
    var s' := SetDaemon(s, c.d, Raise(dm.(inbox := dm.inbox[1..]), dm.inbox[0]));
    Goes(c, from, run, Deliver(c.d), s');
    longer := run + [s'];
  }

  lemma AuditMoves(c: Setting, from: nat, run: seq<System>) returns (longer: seq<System>)
    requires Continues(c, from, run) && c.d < |Last(run).daemons|
    requires !Last(run).daemons[c.d].audit.AuditAsleep? || Last(run).daemons[c.d].newPosition
    ensures run <= longer && Continues(c, from, longer)
    ensures |Last(longer).daemons| == |Last(run).daemons| && |Last(longer).db.sths| == |Last(run).db.sths|
    ensures var dm, dm' := Last(run).daemons[c.d], Last(longer).daemons[c.d];
      && dm' == dm.(newPosition := dm'.newPosition, audit := dm'.audit)
      && ((dm.newPosition && !dm'.newPosition)
          || (dm.newPosition == dm'.newPosition && Rank(dm'.audit) < Rank(dm.audit)))
  {
    assert |run| >= 1;
    hide Continues;
    var s, dm := Last(run), Last(run).daemons[c.d];
    var a, s';
    match dm.audit {
      case AuditStart => a, s' := AuditLoad(c.d), SetAudit(s, c.d, AuditRead(VerifiedSize(s.db)));
      case AuditRead(size) => a, s' := AuditUpdate(c.d), SetAudit(s.(db := AuditSths(s.db, size)), c.d, AuditAsleep);
      case AuditAsleep => a, s' := WakeAudit(c.d), SetDaemon(s, c.d, dm.(audit := AuditStart, newPosition := false));
    }
    Goes(c, from, run, a, s');
    longer := run + [s'];
  }

  lemma {:induction false} ComesToRest(c: Setting, from: nat, run: seq<System>) returns (longer: seq<System>)
    requires Continues(c, from, run) && c.d < |Last(run).daemons| && IsTotalOrder(c.leq)
    requires Last(run).daemons[c.d].ingest.Asleep?
    ensures run <= longer && Continues(c, from, longer)
    ensures |Last(longer).daemons| == |Last(run).daemons| && Quiet(Last(longer).daemons[c.d])
    ensures |Last(longer).db.sths| == |Last(run).db.sths|
    decreases News(Last(run).daemons[c.d]), |Last(run).daemons[c.d].inbox|,
              Last(run).daemons[c.d].newPosition, Rank(Last(run).daemons[c.d].audit)
  {
    var s := Last(run);
    var dm := s.daemons[c.d];
    if Quiet(dm) {
      longer := run;
    } else if dm.inbox == [] && dm.newSth {
      var s' := SetDaemon(s, c.d, dm.(ingest := Start, newSth := false));
      Goes(c, from, run, WakeIngest(c.d), s');
      longer := FallsAsleep(c, from, run + [s']);
      longer := ComesToRest(c, from, longer);
    } else {
      if dm.inbox != [] {
        longer := Delivers(c, from, run);
      } else {
        longer := AuditMoves(c, from, run);
      }
      longer := ComesToRest(c, from, longer);
    }
  }

  /**
   Whatever state a run is in, daemon d can come to rest without new tree heads, timers or
   crashes other than the one of a refused `begin`. Then every tree head of that state is
   downloaded and, if its size is verified, decided.
   */
  lemma QuietIsReachable(c: Setting, run: seq<System>) returns (longer: seq<System>)
    requires IsTotalOrder(c.leq) && IsRun(c.leq, run) && c.d < |Last(run).daemons|
    ensures run <= longer && Continues(c, |run| - 1, longer)
    ensures c.d < |Last(longer).daemons| && Quiet(Last(longer).daemons[c.d])
    ensures var db, db' := Last(run).db, Last(longer).db;
      && |db'.sths| == |db.sths|
      && forall k :: 0 <= k < |db.sths| ==>
           && SameRow(db.sths[k], db'.sths[k]) && db.sths[k].treeSize <= db'.download.size
           && (db.sths[k].treeSize <= VerifiedSize(db') ==> db'.sths[k].consistent.Some?)
  {
    longer := FallsAsleep(c, |run| - 1, run);
    longer := ComesToRest(c, |run| - 1, longer);
    NothingLeft(c.leq, longer, |longer| - 1, c.d);
    NothingChanges(c.leq, longer, |run| - 1, |longer| - 1);
  }
}
