/**
 Any number of daemons that audit one checksum database, as a state machine over the
 statements they send: internal/records/ingest.go, internal/sths/audit.go and
 cmd/sourcespotter/sumdb.go. Each action is one statement or one committed transaction.
 */
module Auditor {
  import opened Wrappers
  import opened Records
  import opened Merkle
  import opened Database

  const CHECKPOINT_INTERVAL: nat := 10000

  // ---- One run of the ingester ----

  /** The ingestState of a run that downloads the positions from `begin` to `end`. */
  datatype Ingester = Ingester(
    address: string,
    tree: CollapsedTree,
    begin: nat,
    end: nat,
    sths: seq<Candidate>,
    pending: seq<Pending>)

  datatype Checkpoint = NoCheckpoint | Checkpoint(verified: bool)

  /** addRecord up to its checkpoint, which is a step of its own. */
  function AddRecord(st: Ingester, record: Record): (Ingester, Checkpoint) {
    var tree := st.tree.Add(record.Hash());
    var root := tree.CalculateRoot();
    var added := st.(tree := tree, pending := st.pending + [Pending(st.tree.size, record, root)]);
    var full := if |added.pending| >= CHECKPOINT_INTERVAL then Checkpoint(false) else NoCheckpoint;
    if st.sths != [] && tree.size == st.sths[0].treeSize then
      (added.(sths := st.sths[1..]), if st.sths[0].rootHash == root then Checkpoint(true) else full)
    else (added, full)
  }

  /** The records in the open transaction. */
  function Added(st: Ingester): seq<Record> {
    seq(|st.pending|, i requires 0 <= i < |st.pending| => st.pending[i].record)
  }

  /** Where the ingest worker of a daemon is. */
  datatype Phase =
    | Start                                     // about to call Ingest
    | Loaded(address: string, tree: CollapsedTree)
    | Ready(st: Ingester)                       // about to begin a transaction
    | Receiving(st: Ingester)                   // in a transaction, between two records
    | Committing(st: Ingester, verified: bool)  // in a transaction, at a checkpoint
    | Asleep

  datatype AuditPhase = AuditStart | AuditRead(verifiedSize: nat) | AuditAsleep

  datatype Event = NewSth | NewPosition

  /** A daemon: its two workers, their signal channels and its notifications to come. */
  datatype Daemon = Daemon(
    ingest: Phase,
    audit: AuditPhase,
    newSth: bool,
    newPosition: bool,
    inbox: seq<Event>)

  const FRESH_DAEMON := Daemon(Start, AuditStart, false, false, [])

  /** `lock` is the daemon that holds the row of `db` FOR UPDATE. */
  datatype System = System(db: Db, lock: Option<nat>, daemons: seq<Daemon>)

  // ---- Steps ----

  datatype Action =
    | StoreSth(treeSize: nat, rootHash: Hash)
    | Rename(address: string)
    | Deliver(d: nat)
    | WakeIngest(d: nat)
    | TimerIngest(d: nat)
    | WakeAudit(d: nat)
    | TimerAudit(d: nat)
    | Load(d: nat)
    | LoadSths(d: nat, next: seq<Candidate>)
    | Begin(d: nat)
    | Return(d: nat)
    | Add(d: nat, record: Record)
    | Commit(d: nat)
    | Finish(d: nat)
    | AuditLoad(d: nat)
    | AuditUpdate(d: nat)
    | Crash(d: nat)

  function Broadcast(daemons: seq<Daemon>, event: Event): seq<Daemon> {
    seq(|daemons|, i requires 0 <= i < |daemons| => daemons[i].(inbox := daemons[i].inbox + [event]))
  }

  /** signal.raise for the channel of an event: a full channel stays full. */
  function Raise(daemon: Daemon, event: Event): Daemon {
    match event
    case NewSth => daemon.(newSth := true)
    case NewPosition => daemon.(newPosition := true)
  }

  function Ended(st: Ingester, next: seq<Candidate>): Ingester {
    st.(end := if next == [] then st.begin else next[|next| - 1].treeSize)
  }

  function SetDaemon(s: System, d: nat, daemon: Daemon): System
    requires d < |s.daemons|
  {
    s.(daemons := s.daemons[d := daemon])
  }

  function SetIngest(s: System, d: nat, phase: Phase): System
    requires d < |s.daemons|
  {
    SetDaemon(s, d, s.daemons[d].(ingest := phase))
  }

  function SetAudit(s: System, d: nat, phase: AuditPhase): System
    requires d < |s.daemons|
  {
    SetDaemon(s, d, s.daemons[d].(audit := phase))
  }

  /** A committed batch: the tables change, the lock is released, listeners are notified. */
  function Committed(s: System, d: nat, db: Db, verified: bool, phase: Phase): System
    requires d < |s.daemons|
  {
    var released := SetIngest(s.(db := db, lock := None), d, phase);
    if verified then released.(daemons := Broadcast(released.daemons, NewPosition)) else released
  }

  function AfterAdd(result: (Ingester, Checkpoint)): Phase {
    match result.1
    case NoCheckpoint => Receiving(result.0)
    case Checkpoint(verified) => Committing(result.0, verified)
  }

  ghost predicate Next(leq: (Hash, Hash) -> bool, s: System, a: Action, s': System) {
    match a
    case StoreSth(treeSize, rootHash) =>
      && treeSize <= MAX_BIGINT
      && s' == s.(db := InsertSth(s.db, treeSize, rootHash),
                  daemons := if InsertNotifies(s.db, treeSize, rootHash)
                             then Broadcast(s.daemons, NewSth) else s.daemons)
    case Rename(address) => s.lock.None? && s' == s.(db := s.db.(address := address))
    case _ => a.d < |s.daemons| && NextOf(leq, s, s.daemons[a.d], a, s')
  }

  /** The steps of one daemon. */
  ghost predicate NextOf(leq: (Hash, Hash) -> bool, s: System, dm: Daemon, a: Action, s': System)
    requires !a.StoreSth? && !a.Rename? && a.d < |s.daemons| && dm == s.daemons[a.d]
  {
    match a
    case Deliver(d) =>
      dm.inbox != [] && s' == SetDaemon(s, d, Raise(dm.(inbox := dm.inbox[1..]), dm.inbox[0]))
    case WakeIngest(d) =>
      dm.ingest.Asleep? && dm.newSth && s' == SetDaemon(s, d, dm.(ingest := Start, newSth := false))
    case TimerIngest(d) => dm.ingest.Asleep? && s' == SetIngest(s, d, Start)
    case WakeAudit(d) =>
      dm.audit.AuditAsleep? && dm.newPosition
      && s' == SetDaemon(s, d, dm.(audit := AuditStart, newPosition := false))
    case TimerAudit(d) => dm.audit.AuditAsleep? && s' == SetAudit(s, d, AuditStart)
    case Load(d) => dm.ingest.Start? && s' == SetIngest(s, d, Loaded(s.db.address, s.db.download))
    case LoadSths(d, next) =>
      && dm.ingest.Loaded?
      && var tree := dm.ingest.tree;
      && NextSths(leq, s.db.sths, tree.size, next)
      && s' == SetIngest(s, d, Ready(Ended(
                 Ingester(dm.ingest.address, tree, tree.size, tree.size, next, []), next)))
    case Begin(d) =>
      && dm.ingest.Ready? && s.lock.None? && BeginSucceeds(s.db, dm.ingest.st)
      && s' == SetIngest(s, d, Receiving(dm.ingest.st)).(lock := Some(d))
    case Return(d) =>
      && dm.ingest.Receiving? && dm.ingest.st.begin == dm.ingest.st.end
      && s' == SetIngest(s, d, Asleep).(lock := None)
    case Add(d, record) =>
      && dm.ingest.Receiving? && dm.ingest.st.tree.size < dm.ingest.st.end
      && s' == SetIngest(s, d, AfterAdd(AddRecord(dm.ingest.st, record)))
    case Commit(d) =>
      && dm.ingest.Committing?
      && var st, verified := dm.ingest.st, dm.ingest.verified;
         var db := CommitBatch(s.db, st.pending, st.tree, verified);
      && db.Some? && s' == Committed(s, d, db.value, verified, Ready(st.(pending := [])))
    case Finish(d) =>
      && dm.ingest.Receiving?
      && var st := dm.ingest.st;
         var db := CommitBatch(s.db, st.pending, st.tree, false);
      && st.begin < st.end == st.tree.size
      && db.Some? && s' == Committed(s, d, db.value, false, Asleep)
    case AuditLoad(d) => dm.audit.AuditStart? && s' == SetAudit(s, d, AuditRead(VerifiedSize(s.db)))
    case AuditUpdate(d) =>
      && dm.audit.AuditRead?
      && s' == SetAudit(s.(db := AuditSths(s.db, dm.audit.verifiedSize)), d, AuditAsleep)
    case Crash(d) =>
      s' == SetDaemon(s, d, FRESH_DAEMON).(lock := if s.lock == Some(d) then None else s.lock)
  }

  /** What `begin` checks after it locked the row. */
  predicate BeginSucceeds(db: Db, st: Ingester) {
    st.address == db.address && st.tree == db.download
  }

  ghost predicate Init(s: System) {
    && s.db == EmptyDb(s.db.address) && s.lock.None?
    && forall d :: 0 <= d < |s.daemons| ==> s.daemons[d] == FRESH_DAEMON
  }

  ghost predicate Takes(leq: (Hash, Hash) -> bool, s: System, s': System) {
    exists a :: Next(leq, s, a, s')
  }

  /** A finite run: it starts with an empty database and each state follows by one step. */
  ghost predicate IsRun(leq: (Hash, Hash) -> bool, run: seq<System>) {
    && |run| >= 1 && Init(run[0])
    && forall i :: 0 < i < |run| ==> Takes(leq, run[i - 1], run[i])
  }

  // ---- Invariants ----

  /** The verified position is a stored tree head that the records confirm. */
  ghost predicate VerifiedOk(db: Db) {
    db.verified.Some? ==>
      && 1 <= VerifiedSize(db) <= |Log(db)|
      && db.verified.value == TreeOfLog(Log(db)[..VerifiedSize(db)])
      && HasSth(db.sths, VerifiedSize(db), RootOfLog(Log(db)[..VerifiedSize(db)]))
  }

  /** A verdict says whether the root is that of the first treeSize records. */
  ghost predicate VerdictOk(log: seq<Record>, verifiedSize: nat, row: SthRow) {
    row.consistent.Some? ==>
      && row.treeSize <= verifiedSize <= |log|
      && row.consistent.value == (row.rootHash == RootOfLog(log[..row.treeSize]))
  }

  ghost predicate VerdictsOk(db: Db) {
    forall i :: 0 <= i < |db.sths| ==> VerdictOk(Log(db), VerifiedSize(db), db.sths[i])
  }

  ghost predicate TablesOk(db: Db) {
    && db.records == Rows(Log(db))
    && db.download == TreeOfLog(Log(db))
    && VerifiedOk(db)
    && VerdictsOk(db)
  }

  ghost predicate CandidatesOk(db: Db, st: Ingester) {
    && (forall i, j :: 0 <= i < j < |st.sths| ==> st.sths[i].treeSize < st.sths[j].treeSize)
    && (forall i :: 0 <= i < |st.sths| ==>
          st.sths[i].treeSize > st.tree.size && HasSth(db.sths, st.sths[i].treeSize, st.sths[i].rootHash))
    && st.begin <= st.tree.size
    && st.end == (if st.sths == [] then st.tree.size else st.sths[|st.sths| - 1].treeSize)
  }

  /** The open transaction continues the stored records. */
  ghost predicate TransactionOk(db: Db, st: Ingester) {
    && st.address == db.address
    && st.begin <= |Log(db)|
    && st.pending == Batch(Log(db), Added(st))
    && st.tree == TreeOfLog(Log(db) + Added(st))
  }

  /** A tree read earlier is that of a prefix of the records. */
  ghost predicate PrefixTree(db: Db, tree: CollapsedTree) {
    tree.size <= |Log(db)| && tree == TreeOfLog(Log(db)[..tree.size])
  }

  predicate InTransaction(phase: Phase) {
    phase.Receiving? || phase.Committing?
  }

  ghost predicate IngestOk(db: Db, phase: Phase) {
    match phase
    case Start => true
    case Asleep => true
    case Loaded(address, tree) => PrefixTree(db, tree)
    case Ready(st) => CandidatesOk(db, st) && PrefixTree(db, st.tree) && st.pending == []
    case Receiving(st) => CandidatesOk(db, st) && TransactionOk(db, st)
    case Committing(st, verified) =>
      && CandidatesOk(db, st) && TransactionOk(db, st) && st.pending != []
      && (verified ==> HasSth(db.sths, st.tree.size, st.tree.CalculateRoot()))
  }

  /** A run under way will look at tree heads of this size. */
  predicate Covers(phase: Phase, treeSize: nat) {
    match phase
    case Start => true
    case Loaded(_, _) => true
    case Asleep => false
    case Ready(st) => treeSize <= st.end
    case Receiving(st) => treeSize <= st.end
    case Committing(st, _) => treeSize <= st.end
  }

  predicate AuditCovers(phase: AuditPhase, treeSize: nat) {
    match phase
    case AuditStart => true
    case AuditRead(size) => treeSize <= size
    case AuditAsleep => false
  }

  /** Outstanding work of the ingester: a notification, a full channel or a run exists for it. */
  ghost predicate SthsNoticed(db: Db, dm: Daemon) {
    forall i :: 0 <= i < |db.sths| && db.sths[i].treeSize > |Log(db)| ==>
      NewSth in dm.inbox || dm.newSth || Covers(dm.ingest, db.sths[i].treeSize)
  }

  predicate Undecided(db: Db, row: SthRow) {
    row.consistent.None? && 1 <= row.treeSize <= VerifiedSize(db)
  }

  /** The same for the audit worker. */
  ghost predicate UndecidedNoticed(db: Db, dm: Daemon) {
    forall i :: 0 <= i < |db.sths| && Undecided(db, db.sths[i]) ==>
      NewPosition in dm.inbox || dm.newPosition || AuditCovers(dm.audit, db.sths[i].treeSize)
  }

  ghost predicate DaemonOk(db: Db, dm: Daemon) {
    && IngestOk(db, dm.ingest)
    && (dm.audit.AuditRead? ==> dm.audit.verifiedSize <= VerifiedSize(db))
    && SthsNoticed(db, dm)
    && UndecidedNoticed(db, dm)
  }

  ghost predicate Inv(s: System) {
    && TablesOk(s.db)
    && (forall d :: 0 <= d < |s.daemons| ==> DaemonOk(s.db, s.daemons[d]))
    && (forall d :: 0 <= d < |s.daemons| ==> (InTransaction(s.daemons[d].ingest) <==> s.lock == Some(d)))
  }

  /** What never changes: records and tree heads stay, verdicts stay, verified only grows. */
  ghost predicate Later(db: Db, db': Db) {
    && Log(db) <= Log(db')
    && VerifiedSize(db) <= VerifiedSize(db')
    && |db.sths| <= |db'.sths|
    && forall i :: 0 <= i < |db.sths| ==> SameRow(db.sths[i], db'.sths[i])
  }

  ghost predicate SameRow(row: SthRow, row': SthRow) {
    && row.treeSize == row'.treeSize && row.rootHash == row'.rootHash
    && (row.consistent.Some? ==> row'.consistent == row.consistent)
  }
}
