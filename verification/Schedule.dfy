/**
 Pass after pass of AuditAll, with the builds that it runs side by side and the compilers
 that they find: internal/toolchain/build.go.
 */
module Schedule {
  import opened Wrappers
  import opened Text
  import opened ToolchainAudit
  import opened Bootstrap

  /** The limit of the group, less the goroutine that starts the others. */
  const WORKERS: nat := 9

  /**
   The pass under way: `todo` is still to be started, `conflict` is the version at which it
   stops, and `waiting` was started and has not yet looked for its compiler.
   */
  datatype Scheduler = Scheduler(
    trust: Trust,
    todo: seq<Record>,
    conflict: Option<Version>,
    waiting: seq<Record>)

  datatype Step =
    | Log(record: Record)
    | Query(list: seq<Record>)
    | Start
    | Dispute
    | Audit(index: nat, action: Action)
    | End(index: nat, status: Status)
    | Error(index: nat)
    | Cancel

  /** What `audit` does first with a record; only hashes on darwin can fail before the build. */
  predicate IsAuditOf(action: Action, record: Record) {
    match action
    case AuditOld(version) => version == record.version
    case AuditLegacy(audited, _) => audited == record
    case AuditModern(audited, _, _, _) => audited == record
    case AuditFails(version) => version == record.version && version.platform == Darwin
    case _ => false
  }

  function Without<T>(s: seq<T>, index: nat): seq<T>
    requires index < |s|
  {
    s[..index] + s[index + 1..]
  }

  ghost predicate Moves(p: Scheduler, step: Step, p': Scheduler) {
    match step
    case Log(record) => Next(p.trust, Publish(record), p'.trust) && p' == p.(trust := p'.trust)
    case Query(list) =>
      && p.todo == [] && p.conflict.None? && p.waiting == [] && p.trust.running == []
      && Queried(p.trust.records, p.trust.results.Keys, list)
      && p' == p.(todo := Groups(list).0, conflict := Groups(list).1)
    case Start =>
      && p.todo != [] && |p.waiting| + |p.trust.running| < WORKERS
      && p' == p.(todo := p.todo[1..], waiting := p.waiting + [p.todo[0]])
    case Dispute =>
      && p.todo == [] && p.conflict.Some?
      && p' == p.(conflict := None, trust := Store(p.trust, p.conflict.value, Failed))
    case Audit(index, action) =>
      && index < |p.waiting| && IsAuditOf(action, p.waiting[index])
      && Next(p.trust, action, p'.trust)
      && p' == p.(trust := p'.trust, waiting := Without(p.waiting, index))
    case End(index, status) =>
      Next(p.trust, Finish(index, status), p'.trust) && p' == p.(trust := p'.trust)
    case Error(index) =>
      && Next(p.trust, Abandon(index), p'.trust)
      && p' == p.(trust := p'.trust, todo := [], conflict := None, waiting := [])
    case Cancel => p' == p.(todo := [], conflict := None, waiting := [])
  }

  ghost predicate Begins(p: Scheduler) {
    Init(p.trust) && p.todo == [] && p.conflict.None? && p.waiting == []
  }

  ghost predicate MovesTo(p: Scheduler, p': Scheduler) {
    exists step :: Moves(p, step, p')
  }

  ghost predicate IsSchedule(run: seq<Scheduler>) {
    && |run| >= 1 && Begins(run[0])
    && forall i :: 0 < i < |run| ==> MovesTo(run[i - 1], run[i])
  }

  // ---- Schedules are runs of builds ----

  lemma StepIsAction(p: Scheduler, step: Step, p': Scheduler)
    requires Moves(p, step, p')
    ensures p'.trust == p.trust || Takes(p.trust, p'.trust)
    ensures p.trust.records <= p'.trust.records && p.trust.history <= p'.trust.history
  {
    if step.Dispute? {
      assert Next(p.trust, AuditFails(p.conflict.value), p'.trust);
    }
  }

  lemma {:induction false} Grows(run: seq<Scheduler>, i: nat, j: nat)
    requires IsSchedule(run) && i <= j < |run|
    ensures run[i].trust.records <= run[j].trust.records && run[i].trust.history <= run[j].trust.history
    decreases j
  {
    hide Moves;
    if i < j {
      Grows(run, i, j - 1);
      assert MovesTo(run[j - 1], run[j]);
      var step :| Moves(run[j - 1], step, run[j]);
      StepIsAction(run[j - 1], step, run[j]);
    }
  }

  lemma {:induction false} ScheduleInv(run: seq<Scheduler>, i: nat)
    requires IsSchedule(run) && i < |run| && CompilersUndisputed(run[i].trust.records)
    ensures Inv(run[i].trust)
  {
    if i > 0 {
      Grows(run, i - 1, i);
      UndisputedBefore(run[i - 1].trust.records, run[i].trust.records);
      ScheduleInv(run, i - 1);
      assert MovesTo(run[i - 1], run[i]);
      var step :| Moves(run[i - 1], step, run[i]);
      StepIsAction(run[i - 1], step, run[i]);
      if run[i].trust != run[i - 1].trust {
        var a :| Next(run[i - 1].trust, a, run[i].trust);
        StepKeeps(run[i - 1].trust, a, run[i].trust);
      }
    }
  }

  /** However the builds of a pass interleave, what is `equal` can be trusted. */
  lemma SchedulesAreTrusted(run: seq<Scheduler>, i: nat)
    requires IsSchedule(run) && i < |run| && CompilersUndisputed(run[i].trust.records)
    ensures WellFounded(run[i].trust)
  {
    ScheduleInv(run, i);
    InvIsWellFounded(run[i].trust);
  }

  // ---- Every version has one audit at a time ----

  function Names(records: seq<Record>): (names: seq<Version>)
    ensures |names| == |records|
  {
    seq(|records|, i requires 0 <= i < |records| => records[i].version)
  }

  function JobNames(jobs: seq<Job>): (names: seq<Version>)
    ensures |names| == |jobs|
  {
    seq(|jobs|, i requires 0 <= i < |jobs| => jobs[i].version)
  }

  /** The versions that will get a result. */
  ghost function Due(p: Scheduler): multiset<Version> {
    Planned(p) + multiset(Names(p.waiting)) + multiset(JobNames(p.trust.running))
  }

  ghost function Planned(p: Scheduler): multiset<Version> {
    multiset(Names(p.todo)) + if p.conflict.Some? then multiset{p.conflict.value} else multiset{}
  }

  /** No version is due twice, or due and stored. */
  ghost predicate OnceEach(due: multiset<Version>, stored: set<Version>) {
    forall v :: v in due ==> due[v] == 1 && v !in stored
  }

  ghost predicate Once(p: Scheduler) {
    OnceEach(Due(p), p.trust.results.Keys)
  }

  lemma WithoutNames(records: seq<Record>, jobs: seq<Job>, index: nat)
    ensures index < |records| ==>
      multiset(Names(records)) == multiset(Names(Without(records, index))) + multiset{records[index].version}
    ensures index < |jobs| ==>
      multiset(JobNames(jobs)) == multiset(JobNames(Without(jobs, index))) + multiset{jobs[index].version}
  {
    if index < |records| {
      var names, rest := Names(records), Names(Without(records, index));
      assert names == names[..index] + [names[index]] + names[index + 1..];
      assert rest == names[..index] + names[index + 1..];
    }
    if index < |jobs| {
      var names, rest := JobNames(jobs), JobNames(Without(jobs, index));
      assert names == names[..index] + [names[index]] + names[index + 1..];
      assert rest == names[..index] + names[index + 1..];
    }
  }

  lemma WithNames(records: seq<Record>, jobs: seq<Job>)
    ensures records != [] ==> multiset(Names(records)) == multiset(Names(records[1..])) + multiset{records[0].version}
    ensures forall r :: multiset(Names(records + [r])) == multiset(Names(records)) + multiset{r.version}
    ensures forall j :: multiset(JobNames(jobs + [j])) == multiset(JobNames(jobs)) + multiset{j.version}
  {
    if records != [] {
      assert Names(records) == [records[0].version] + Names(records[1..]);
    }
    assert forall r :: Names(records + [r]) == Names(records) + [r.version];
    assert forall j :: JobNames(jobs + [j]) == JobNames(jobs) + [j.version];
  }

  lemma {:induction false} DistinctOnce(names: seq<Version>, v: Version)
    requires forall i, j :: 0 <= i < j < |names| ==> names[i] != names[j]
    ensures multiset(names)[v] == if v in names then 1 else 0
  {
    if names != [] {
      assert names == [names[0]] + names[1..];
      DistinctOnce(names[1..], v);
    }
  }

  lemma QueryOnce(p: Scheduler, list: seq<Record>, p': Scheduler)
    requires Moves(p, Query(list), p')
    ensures Once(p')
    ensures p'.conflict.Some? ==> Conflicting(p'.trust.records, p'.conflict.value)
  {
    PassIsOk(list);
    var (jobs, conflict) := Groups(list);
    var end: nat :| StopsAt(list, jobs, conflict, end);
    JobsUnstored(list, jobs, p.trust.results.Keys, end);
    if conflict.Some? {
      assert list[end] in list;
      ConflictStays(p.trust.records, list, conflict.value);
    }
    forall v | v in Due(p')
      ensures Due(p')[v] == 1 && v !in p'.trust.results.Keys
    {
      DistinctOnce(Names(jobs), v);
      PlannedCount(p', v);
    }
  }

  lemma JobsUnstored(list: seq<Record>, jobs: seq<Record>, stored: set<Version>, end: nat)
    requires end <= |list| && (forall m :: m in jobs ==> m in list[..end])
    requires forall m :: m in list ==> m.version !in stored
    ensures forall v :: v in Names(jobs) ==> v !in stored
  {
    forall v | v in Names(jobs)
      ensures v !in stored
    {
      var i :| 0 <= i < |jobs| && jobs[i].version == v;
      assert jobs[i] in jobs && jobs[i] in list[..end];
    }
  }

  lemma ConflictStays(records: seq<Record>, list: seq<Record>, v: Version)
    requires Conflicting(list, v) && forall m :: m in list ==> m in records
    ensures Conflicting(records, v)
  {
    var i, j :| 0 <= i < |list| && 0 <= j < |list|
      && list[i].version == list[j].version == v && list[i].sha256 != list[j].sha256;
    assert list[i] in list && list[j] in list;
    TwoChecksums(records, v, list[i].sha256, list[j].sha256);
  }

  lemma PlannedCount(p: Scheduler, v: Version)
    requires p.waiting == [] && p.trust.running == []
    ensures Due(p)[v] == multiset(Names(p.todo))[v] + if p.conflict == Some(v) then 1 else 0
  {
    assert Names(p.waiting) == [] && JobNames(p.trust.running) == [];
  }

  ghost predicate StoresFor(t: Trust, t': Trust, v: Version) {
    v in t'.results && t' == Store(t, v, t'.results[v])
  }

  ghost predicate LaunchesFor(t: Trust, t': Trust, v: Version) {
    |t'.running| == |t.running| + 1
    && var job := t'.running[|t.running|]; t' == Launch(t, job) && job.version == v
  }

  /** An audit of a record stores its result or starts its build. */
  lemma AuditStep(p: Scheduler, index: nat, action: Action, p': Scheduler)
    requires Moves(p, Audit(index, action), p')
    ensures var v := p.waiting[index].version;
      StoresFor(p.trust, p'.trust, v) || LaunchesFor(p.trust, p'.trust, v)
  {
    var record := p.waiting[index];
    match action
    case AuditOld(version) =>
      assert p'.trust == Store(p.trust, version, Skipped);
    case AuditFails(version) =>
      assert p'.trust == Store(p.trust, version, Failed);
    case AuditLegacy(_, expected) =>
      if p.trust.bootstrap.None? {
        assert p'.trust == Store(p.trust, record.version, Skipped);
      } else {
        var job := Job(record.version, expected, Configured(p.trust.bootstrap.value), |p.trust.history|);
        assert p'.trust == Launch(p.trust, job);
      }
    case AuditModern(_, expected, rows, row) =>
      if rows == [] || rows[row].status != Some(Equal) {
        assert p'.trust == Store(p.trust, record.version, Failed);
      } else {
        var compiler := Toolchain(rows[row].version.value, rows[row].sha256);
        assert p'.trust == Launch(p.trust, Job(record.version, expected, compiler, |p.trust.history|));
      }
  }

  lemma BuildStep(p: Scheduler, step: Step, p': Scheduler)
    requires Moves(p, step, p')
    ensures var t, t' := p.trust, p'.trust;
      match step
      case Log(_) => t'.results == t.results && t'.running == t.running && p'.todo == p.todo
                     && p'.waiting == p.waiting && p'.conflict == p.conflict
      case End(index, status) =>
        && index < |t.running| && t'.running == Without(t.running, index)
        && t'.results == t.results[t.running[index].version := status]
      case Error(index) =>
        index < |t.running| && t'.running == Without(t.running, index) && t'.results == t.results
      case _ => true
  {
  }

  lemma Settle(due: multiset<Version>, stored: set<Version>, v: Version)
    requires OnceEach(due, stored) && v in due
    ensures OnceEach(due - multiset{v}, stored + {v}) && v !in stored
  {
  }

  lemma Drop(due: multiset<Version>, due': multiset<Version>, stored: set<Version>)
    requires OnceEach(due, stored) && due' <= due
    ensures OnceEach(due', stored)
  {
    assert forall v :: due'[v] <= due[v];
  }

  /** What a step does to the versions that are due: nothing, or it settles one, or it drops some. */
  ghost predicate Settles(p: Scheduler, v: Version, p': Scheduler) {
    && v in Due(p) && Due(p') == Due(p) - multiset{v}
    && v in p'.trust.results && p'.trust.results == p.trust.results[v := p'.trust.results[v]]
  }

  lemma StartDue(p: Scheduler, p': Scheduler)
    requires Moves(p, Start, p')
    ensures Due(p') == Due(p)
  {
    WithNames(p.todo, []);
    WithNames(p.waiting, []);
  }

  lemma DisputeDue(p: Scheduler, p': Scheduler)
    requires Moves(p, Dispute, p')
    ensures Settles(p, p.conflict.value, p')
  {
    assert p'.trust.results == p.trust.results[p.conflict.value := Failed];
  }

  lemma AuditDue(p: Scheduler, index: nat, action: Action, p': Scheduler)
    requires Moves(p, Audit(index, action), p')
    ensures Settles(p, p.waiting[index].version, p')
            || (Due(p') == Due(p) && p'.trust.results == p.trust.results)
  {
    var v := p.waiting[index].version;
    WithoutNames(p.waiting, [], index);
    WithNames([], p.trust.running);
    AuditStep(p, index, action, p');
    hide Moves, Names, JobNames;
    if LaunchesFor(p.trust, p'.trust, v) {
      assert Due(p') == Due(p);
    }
  }

  lemma EndDue(p: Scheduler, index: nat, status: Status, p': Scheduler)
    requires Moves(p, End(index, status), p')
    ensures index < |p.trust.running| && Settles(p, p.trust.running[index].version, p')
  {
    BuildStep(p, End(index, status), p');
    WithoutNames([], p.trust.running, index);
    assert p'.trust.results == p.trust.results[p.trust.running[index].version := status];
  }

  lemma ErrorDue(p: Scheduler, index: nat, p': Scheduler)
    requires Moves(p, Error(index), p')
    ensures Due(p') <= Due(p) && p'.trust.results == p.trust.results
  {
    BuildStep(p, Error(index), p');
    WithoutNames([], p.trust.running, index);
    assert Names([]) == [];
  }

  /** What is stored was due, so it was not stored before. */
  lemma StepOnce(p: Scheduler, step: Step, p': Scheduler)
    requires Once(p) && Moves(p, step, p')
    ensures Once(p')
    ensures forall v :: v in p.trust.results ==>
      v in p'.trust.results && p'.trust.results[v] == p.trust.results[v]
  {
    var due, stored := Due(p), p.trust.results.Keys;
    match step
    case Query(list) => QueryOnce(p, list, p');
    case Start => StartDue(p, p');
    case Dispute =>
      DisputeDue(p, p');
      SettleOnce(p, p.conflict.value, p');
    case Audit(index, action) =>
      AuditDue(p, index, action, p');
      if p'.trust.results != p.trust.results || Due(p') != Due(p) {
        SettleOnce(p, p.waiting[index].version, p');
      }
    case End(index, status) =>
      EndDue(p, index, status, p');
      SettleOnce(p, p.trust.running[index].version, p');
    case Error(index) =>
      ErrorDue(p, index, p');
      Drop(due, Due(p'), stored);
    case Log(record) => BuildStep(p, step, p');
    case Cancel =>
      assert Names([]) == [];
      Drop(due, Due(p'), stored);
  }

  lemma SettleOnce(p: Scheduler, v: Version, p': Scheduler)
    requires Once(p) && Settles(p, v, p')
    ensures Once(p')
    ensures forall u :: u in p.trust.results ==> u in p'.trust.results && p'.trust.results[u] == p.trust.results[u]
  {
    Settle(Due(p), p.trust.results.Keys, v);
    assert p'.trust.results.Keys == p.trust.results.Keys + {v};
  }

  lemma {:induction false} ScheduleOnce(run: seq<Scheduler>, i: nat)
    requires IsSchedule(run) && i < |run|
    ensures Once(run[i])
  {
    if i > 0 {
      ScheduleOnce(run, i - 1);
      assert MovesTo(run[i - 1], run[i]);
      var step :| Moves(run[i - 1], step, run[i]);
      StepOnce(run[i - 1], step, run[i]);
    } else {
      assert Names([]) == [] && JobNames([]) == [];
    }
  }

  /** A result that was stored never changes, also when the next pass would come out differently. */
  lemma {:induction false} ResultsAreFinal(run: seq<Scheduler>, i: nat, j: nat, v: Version)
    requires IsSchedule(run) && i <= j < |run| && v in run[i].trust.results
    ensures v in run[j].trust.results && run[j].trust.results[v] == run[i].trust.results[v]
    decreases j
  {
    hide Once, Moves;
    if i < j {
      ResultsAreFinal(run, i, j - 1, v);
      ScheduleOnce(run, j - 1);
      assert MovesTo(run[j - 1], run[j]);
      var step :| Moves(run[j - 1], step, run[j]);
      StepOnce(run[j - 1], step, run[j]);
    }
  }

  /** The status of every ended build is the result of its version. */
  ghost predicate EventsStored(t: Trust) {
    forall e :: e in t.history ==> StatusOf(t, e.job.version) == Some(e.status)
  }

  lemma StepStores(p: Scheduler, step: Step, p': Scheduler)
    requires Moves(p, step, p') && EventsStored(p.trust)
    requires forall v :: v in p.trust.results ==>
      v in p'.trust.results && p'.trust.results[v] == p.trust.results[v]
    ensures EventsStored(p'.trust)
  {
    if step.Audit? {
      AuditStep(p, step.index, step.action, p');
    }
    forall e | e in p'.trust.history
      ensures StatusOf(p'.trust, e.job.version) == Some(e.status)
    {
      assert e in p.trust.history || (step.End? && e == Event(p.trust.running[step.index], step.status));
    }
  }

  lemma {:induction false} BuildsAreStored(run: seq<Scheduler>, i: nat)
    requires IsSchedule(run) && i < |run|
    ensures EventsStored(run[i].trust)
  {
    hide Moves, EventsStored, Once;
    if i > 0 {
      BuildsAreStored(run, i - 1);
      ScheduleOnce(run, i - 1);
      assert MovesTo(run[i - 1], run[i]);
      var step :| Moves(run[i - 1], step, run[i]);
      StepOnce(run[i - 1], step, run[i]);
      StepStores(run[i - 1], step, run[i]);
    } else {
      NoEvents(run);
    }
  }

  lemma NoEvents(run: seq<Scheduler>)
    requires IsSchedule(run)
    ensures EventsStored(run[0].trust)
  {
  }

  // ---- When a reproducible toolchain ends equal ----

  /** The newest recorded compiler of a minor version has an `equal` result. */
  ghost predicate CompilerReady(t: Trust, minor: nat) {
    exists v :: IsNewest(t.records, minor, v) && StatusOf(t, v) == Some(Equal)
  }

  ghost predicate IsNewest(records: seq<Record>, minor: nat, v: Version) {
    && Occurs(records, v) && IsRelease(v, minor)
    && forall u :: Occurs(records, u) && IsRelease(u, minor) ==> u.release <= v.release
  }

  /** Candidates do not count, nor do other platforms. */
  predicate IsRelease(version: Version, minor: nat) {
    version.minor == minor && version.platform == Builder && !version.candidate
  }

  /** The row that is picked has the status of the newest recorded compiler. */
  lemma PickIsNewest(t: Trust, minor: nat, rows: seq<BootRow>, row: nat)
    requires multiset(rows) == multiset(BootRows(t, t.records, minor)) && IsPick(rows, row)
    ensures rows[row].version.Some? && IsNewest(t.records, minor, rows[row].version.value)
    ensures rows[row].status == StatusOf(t, rows[row].version.value)
    ensures Module(rows[row].version.value, rows[row].sha256) in t.records
  {
    assert rows[row] in multiset(rows);
    BootRowsAre(t, t.records, minor, rows[row]);
    var v := rows[row].version.value;
    var k :| 0 <= k < |t.records| && t.records[k] == Module(v, rows[row].sha256);
    forall u | Occurs(t.records, u) && IsRelease(u, minor)
      ensures u.release <= v.release
    {
      var i :| 0 <= i < |t.records| && t.records[i].version == u;
      var r := BootRow(Some(u), t.records[i].sha256, StatusOf(t, u));
      BootRowsHave(t, t.records, minor, t.records[i]);
      assert r in multiset(rows);
      var j :| 0 <= j < |rows| && rows[j] == r;
    }
  }

  lemma ModernAudit(t: Trust, record: Record, expected: seq<byte>, rows: seq<BootRow>, row: nat, t': Trust)
    requires Next(t, AuditModern(record, expected, rows, row), t')
    ensures var ready := CompilerReady(t, BootstrapMinor(record.version.minor).value);
      if ready then LaunchesFor(t, t', record.version) else t' == Store(t, record.version, Failed)
    ensures |t'.running| > |t.running| ==>
      exists v, sha256 ::
        && IsNewest(t.records, BootstrapMinor(record.version.minor).value, v) && Module(v, sha256) in t.records
        && t' == Launch(t, Job(record.version, expected, Toolchain(v, sha256), |t.history|))
  {
    var minor := BootstrapMinor(record.version.minor).value;
    if rows == [] {
      assert |multiset(rows)| == |multiset(BootRows(t, t.records, minor))| == 0;
      forall v
        ensures !(Occurs(t.records, v) && IsRelease(v, minor))
      {
        if Occurs(t.records, v) && IsRelease(v, minor) {
          var i :| 0 <= i < |t.records| && t.records[i].version == v;
          BootRowsHave(t, t.records, minor, t.records[i]);
        }
      }
    } else {
      PickIsNewest(t, minor, rows, row);
      OnlyNewest(t.records, minor, rows[row].version.value);
    }
  }

  lemma OnlyNewest(records: seq<Record>, minor: nat, v: Version)
    requires IsNewest(records, minor, v)
    ensures forall u :: IsNewest(records, minor, u) ==> u == v
  {
  }

  /** In this step the audit of w looked for its compiler. */
  ghost predicate Audits(p: Scheduler, p': Scheduler, w: Version) {
    exists index: nat, action ::
      && index < |p.waiting| && p.waiting[index].version == w
      && Moves(p, Audit(index, action), p')
  }

  /** It did so in step k of a run, and the compiler was ready then, or was not. */
  ghost predicate AuditsAt(run: seq<Scheduler>, k: nat, w: Version, ready: bool)
    requires k + 1 < |run| && w.minor >= 24
  {
    && Audits(run[k], run[k + 1], w)
    && (CompilerReady(run[k].trust, BootstrapMinor(w.minor).value) <==> ready)
  }

  ghost predicate AuditedAt(run: seq<Scheduler>, from: nat, to: nat, w: Version, ready: bool)
    requires w.minor >= 24
  {
    exists k: nat :: from <= k < to < |run| && AuditsAt(run, k, w, ready)
  }

  /** What is known of w since state `from`: its result or its build comes from an audit. */
  ghost predicate Decided(run: seq<Scheduler>, from: nat, i: nat, w: Version)
    requires i < |run| && w.minor >= 24
  {
    var t := run[i].trust;
    && (w in t.results ==> t.results[w] in {Equal, Failed} && AuditedAt(run, from, i, w, t.results[w] == Equal))
    && (w in JobNames(t.running) ==> AuditedAt(run, from, i, w, true))
  }

  /** All builds of w that ended reproduced it, and nothing else can decide it. */
  ghost predicate Reproducible(t: Trust, w: Version) {
    && w.platform != Darwin && !Conflicting(t.records, w)
    && forall e :: e in t.history && e.job.version == w ==> e.status == Equal
  }

  lemma AuditedLater(run: seq<Scheduler>, from: nat, i: nat, w: Version, ready: bool)
    requires i + 1 < |run| && w.minor >= 24 && AuditedAt(run, from, i, w, ready)
    ensures AuditedAt(run, from, i + 1, w, ready)
  {
  }

  lemma {:induction false} ConflictIsKnown(run: seq<Scheduler>, i: nat)
    requires IsSchedule(run) && i < |run|
    ensures run[i].conflict.Some? ==> Conflicting(run[i].trust.records, run[i].conflict.value)
  {
    if i > 0 {
      ConflictIsKnown(run, i - 1);
      assert MovesTo(run[i - 1], run[i]);
      var step :| Moves(run[i - 1], step, run[i]);
      StepIsAction(run[i - 1], step, run[i]);
      if step.Query? {
        QueryOnce(run[i - 1], step.list, run[i]);
      } else if run[i].conflict.Some? {
        ConflictStays(run[i].trust.records, run[i - 1].trust.records, run[i].conflict.value);
      }
    }
  }

  lemma AuditDecides(p: Scheduler, index: nat, action: Action, p': Scheduler, w: Version)
    requires Moves(p, Audit(index, action), p') && p.waiting[index].version == w
    requires w.minor >= 24 && w.platform != Darwin
    ensures if CompilerReady(p.trust, BootstrapMinor(w.minor).value) then LaunchesFor(p.trust, p'.trust, w)
            else p'.trust == Store(p.trust, w, Failed)
  {
    hide CompilerReady, LaunchesFor;
    match action
    case AuditModern(record, expected, rows, row) => ModernAudit(p.trust, record, expected, rows, row, p'.trust);
    case _ =>
  }

  lemma DecidedStep(run: seq<Scheduler>, from: nat, i: nat, step: Step, w: Version)
    requires from <= i && i + 1 < |run| && Moves(run[i], step, run[i + 1])
    requires w.minor >= 24 && Reproducible(run[i + 1].trust, w) && Decided(run, from, i, w)
    requires step.Dispute? ==> run[i].conflict != Some(w)
    ensures Decided(run, from, i + 1, w)
  {
    var p, p' := run[i], run[i + 1];
    var t, t' := p.trust, p'.trust;
    forall ready | AuditedAt(run, from, i, w, ready)
      ensures AuditedAt(run, from, i + 1, w, ready)
    {
      AuditedLater(run, from, i, w, ready);
    }
    BuildStep(p, step, p');
    match step
    case Audit(index, action) =>
      AuditStep(p, index, action, p');
      if p.waiting[index].version == w {
        AuditDecides(p, index, action, p', w);
        assert Audits(run[i], run[i + 1], w);
        assert AuditsAt(run, i, w, CompilerReady(t, BootstrapMinor(w.minor).value));
      }
      LaunchNames(t, t', p.waiting[index].version, w);
    case End(index, status) =>
      NamesWithout(t.running, index, w);
      assert t'.history[|t.history|] == Event(t.running[index], status);
      assert t'.history[|t.history|] in t'.history;
    case Error(index) => NamesWithout(t.running, index, w);
    case _ =>
  }

  lemma LaunchNames(t: Trust, t': Trust, v: Version, w: Version)
    requires StoresFor(t, t', v) || LaunchesFor(t, t', v)
    ensures v != w ==> (w in JobNames(t'.running) <==> w in JobNames(t.running))
    ensures StoresFor(t, t', v) ==> (w in JobNames(t'.running) <==> w in JobNames(t.running))
  {
    if LaunchesFor(t, t', v) {
      assert JobNames(t'.running) == JobNames(t.running) + [v];
    }
  }

  lemma NamesWithout(jobs: seq<Job>, index: nat, w: Version)
    requires index < |jobs|
    ensures w in JobNames(Without(jobs, index)) ==> w in JobNames(jobs)
    ensures jobs[index].version in JobNames(jobs)
  {
    var rest := Without(jobs, index);
    if w in JobNames(rest) {
      var i :| 0 <= i < |rest| && JobNames(rest)[i] == w;
      assert JobNames(jobs)[if i < index then i else i + 1] == w;
    }
    assert JobNames(jobs)[index] == jobs[index].version;
  }

  lemma ReproducibleBefore(t: Trust, t': Trust, w: Version)
    requires Reproducible(t', w) && t.records <= t'.records && t.history <= t'.history
    ensures Reproducible(t, w)
  {
    if Conflicting(t.records, w) {
      ConflictStays(t'.records, t.records, w);
    }
    assert forall e :: e in t.history ==> e in t'.history;
  }

  lemma {:induction false} RunDecided(run: seq<Scheduler>, from: nat, i: nat, w: Version)
    requires IsSchedule(run) && from <= i < |run| && w.minor >= 24 && Reproducible(run[i].trust, w)
    requires w !in run[from].trust.results && w !in JobNames(run[from].trust.running)
    ensures Decided(run, from, i, w)
  {
    hide Moves, Reproducible, AuditedAt;
    if from < i {
      Grows(run, i - 1, i);
      ReproducibleBefore(run[i - 1].trust, run[i].trust, w);
      RunDecided(run, from, i - 1, w);
      assert MovesTo(run[i - 1], run[i]);
      var step :| Moves(run[i - 1], step, run[i]);
      ConflictIsKnown(run, i - 1);
      ReproducibleIsUndisputed(run[i - 1].trust, w);
      DecidedStep(run, from, i - 1, step, w);
    }
  }

  lemma ReproducibleIsUndisputed(t: Trust, w: Version)
    requires Reproducible(t, w)
    ensures !Conflicting(t.records, w)
  {
  }

  /**
   The result of a toolchain whose builds all reproduce it: it is `equal` exactly when the
   newest recorded compiler had an `equal` result at the moment at which its audit looked for
   it, and `failed` otherwise. That moment comes after any state without a result and a build.
   */
  lemma EqualIffCompilerReady(run: seq<Scheduler>, from: nat, w: Version) returns (k: nat)
    requires IsSchedule(run) && from < |run| && w.minor >= 24 && Reproducible(run[|run| - 1].trust, w)
    requires w !in run[from].trust.results && w !in JobNames(run[from].trust.running)
    requires w in run[|run| - 1].trust.results
    ensures from <= k < |run| - 1 && Audits(run[k], run[k + 1], w)
    ensures run[|run| - 1].trust.results[w]
            == if CompilerReady(run[k].trust, BootstrapMinor(w.minor).value) then Equal else Failed
  {
    hide IsSchedule, Audits, Reproducible, CompilerReady;
    var t := run[|run| - 1].trust;
    RunDecided(run, from, |run| - 1, w);
    assert AuditedAt(run, from, |run| - 1, w, t.results[w] == Equal);
    k :| from <= k < |run| - 1 && AuditsAt(run, k, w, t.results[w] == Equal);
  }

  /** No compiler of the minor version is published between two states. */
  ghost predicate Settled(t: Trust, t': Trust, minor: nat) {
    forall u :: Occurs(t'.records, u) && IsRelease(u, minor) ==> Occurs(t.records, u)
  }

  lemma ReadyStays(run: seq<Scheduler>, i: nat, k: nat, j: nat, minor: nat)
    requires IsSchedule(run) && i <= k <= j < |run|
    requires CompilerReady(run[i].trust, minor) && Settled(run[i].trust, run[j].trust, minor)
    ensures CompilerReady(run[k].trust, minor)
  {
    var v :| IsNewest(run[i].trust.records, minor, v) && StatusOf(run[i].trust, v) == Some(Equal);
    ResultsAreFinal(run, i, k, v);
    Grows(run, i, k);
    Grows(run, k, j);
    OccursLater(run[i].trust.records, run[k].trust.records);
    OccursLater(run[k].trust.records, run[j].trust.records);
    assert IsNewest(run[k].trust.records, minor, v);
  }

  lemma OccursLater(records: seq<Record>, later: seq<Record>)
    requires records <= later
    ensures forall u :: Occurs(records, u) ==> Occurs(later, u)
  {
    forall u | Occurs(records, u)
      ensures Occurs(later, u)
    {
      var i :| 0 <= i < |records| && records[i].version == u;
      assert later[i].version == u;
    }
  }

  /** So a pass that starts with the compiler ready, and meets no newer one, ends well. */
  lemma ReadyInTime(run: seq<Scheduler>, i: nat, w: Version)
    requires IsSchedule(run) && i < |run| && w.minor >= 24 && Reproducible(run[|run| - 1].trust, w)
    requires w !in run[i].trust.results && w !in JobNames(run[i].trust.running)
    requires CompilerReady(run[i].trust, BootstrapMinor(w.minor).value)
    requires Settled(run[i].trust, run[|run| - 1].trust, BootstrapMinor(w.minor).value)
    requires w in run[|run| - 1].trust.results
    ensures run[|run| - 1].trust.results[w] == Equal
  {
    var k := EqualIffCompilerReady(run, i, w);
    ReadyStays(run, i, k, |run| - 1, BootstrapMinor(w.minor).value);
  }

  // ---- Go 1.23 and earlier ----

  /** How such a version is audited: skipped, or built with the configured compiler. */
  lemma LegacyAudit(p: Scheduler, index: nat, action: Action, p': Scheduler)
    requires Moves(p, Audit(index, action), p')
    requires p.waiting[index].version.minor < 24 && p.waiting[index].version.platform != Darwin
    ensures var t, t', record := p.trust, p'.trust, p.waiting[index];
      if record.version.minor < 21 || t.bootstrap.None? then t' == Store(t, record.version, Skipped)
      else t' == Launch(t, Job(record.version, record.sha256, Configured(t.bootstrap.value), |t.history|))
  {
  }

  /** What holds of w along a run: it is skipped or built, as its minor version and the bootstrap say. */
  ghost predicate LegacyOk(t: Trust, w: Version) {
    var skip := w.minor < 21 || t.bootstrap.None?;
    && (w in t.results ==> t.results[w] == if skip then Skipped else Equal)
    && (w in JobNames(t.running) ==> !skip)
  }

  lemma LegacyStep(p: Scheduler, step: Step, p': Scheduler, w: Version)
    requires Moves(p, step, p') && Reproducible(p'.trust, w) && w.minor < 24 && LegacyOk(p.trust, w)
    requires step.Dispute? ==> p.conflict != Some(w)
    ensures LegacyOk(p'.trust, w) && p'.trust.bootstrap == p.trust.bootstrap
  {
    var t, t' := p.trust, p'.trust;
    BuildStep(p, step, p');
    match step
    case Audit(index, action) =>
      AuditStep(p, index, action, p');
      if p.waiting[index].version == w {
        LegacyAudit(p, index, action, p');
      }
      LaunchNames(t, t', p.waiting[index].version, w);
    case End(index, status) =>
      NamesWithout(t.running, index, w);
      assert t'.history[|t.history|] == Event(t.running[index], status);
      assert t'.history[|t.history|] in t'.history;
    case Error(index) => NamesWithout(t.running, index, w);
    case _ =>
  }

  lemma {:induction false} RunLegacy(run: seq<Scheduler>, i: nat, w: Version)
    requires IsSchedule(run) && i < |run| && w.minor < 24 && Reproducible(run[i].trust, w)
    ensures LegacyOk(run[i].trust, w)
  {
    hide Moves, Reproducible;
    if i > 0 {
      Grows(run, i - 1, i);
      ReproducibleBefore(run[i - 1].trust, run[i].trust, w);
      RunLegacy(run, i - 1, w);
      assert MovesTo(run[i - 1], run[i]);
      var step :| Moves(run[i - 1], step, run[i]);
      ConflictIsKnown(run, i - 1);
      ReproducibleIsUndisputed(run[i - 1].trust, w);
      LegacyStep(run[i - 1], step, run[i], w);
    }
  }

  /**
   The result of a toolchain before Go 1.24 whose builds all reproduce it: `skipped` before
   Go 1.21 or without the configured compiler, and `equal` otherwise.
   */
  lemma LegacyResult(run: seq<Scheduler>, i: nat, w: Version)
    requires IsSchedule(run) && i < |run| && w.minor < 24 && Reproducible(run[i].trust, w)
    requires w in run[i].trust.results
    ensures run[i].trust.results[w] == if w.minor < 21 || run[i].trust.bootstrap.None? then Skipped else Equal
  {
    RunLegacy(run, i, w);
  }

  // ---- A pass that ends ----

  /** At most nine audits run beside the goroutine that starts them. */
  lemma {:induction false} AtMostNine(run: seq<Scheduler>, i: nat)
    requires IsSchedule(run) && i < |run|
    ensures |run[i].waiting| + |run[i].trust.running| <= 9
  {
    if i > 0 {
      AtMostNine(run, i - 1);
      assert MovesTo(run[i - 1], run[i]);
      var step :| Moves(run[i - 1], step, run[i]);
      BuildStep(run[i - 1], step, run[i]);
      if step.Audit? {
        AuditStep(run[i - 1], step.index, step.action, run[i]);
      }
    }
  }

  /** What this pass has settled or will. */
  ghost function Covered(p: Scheduler): set<Version> {
    p.trust.results.Keys + set v | v in Due(p)
  }

  /** Outside errors, a step forgets no version that is due. */
  lemma StepCovers(p: Scheduler, step: Step, p': Scheduler)
    requires Moves(p, step, p') && !step.Query? && !step.Error? && !step.Cancel?
    ensures Covered(p') == Covered(p)
  {
    match step
    case Start => StartDue(p, p');
    case Dispute =>
      DisputeDue(p, p');
      SettleCovers(p, p.conflict.value, p');
    case Audit(index, action) =>
      AuditDue(p, index, action, p');
      if Settles(p, p.waiting[index].version, p') {
        SettleCovers(p, p.waiting[index].version, p');
      }
    case End(index, status) =>
      EndDue(p, index, status, p');
      SettleCovers(p, p.trust.running[index].version, p');
    case Log(record) => BuildStep(p, step, p');
  }

  lemma SettleCovers(p: Scheduler, v: Version, p': Scheduler)
    requires Settles(p, v, p')
    ensures Covered(p') == Covered(p)
  {
    assert p'.trust.results.Keys == p.trust.results.Keys + {v};
    forall u
      ensures u in Covered(p') <==> u in Covered(p)
    {
    }
  }

  /** The steps of one pass, without errors. */
  ghost predicate IsPass(run: seq<Scheduler>) {
    && |run| >= 2 && (exists list :: Moves(run[0], Query(list), run[1]))
    && forall i :: 1 < i < |run| ==> GoesOn(run[i - 1], run[i])
  }

  ghost predicate GoesOn(p: Scheduler, p': Scheduler) {
    exists step :: StepsInPass(p, step, p')
  }

  ghost predicate StepsInPass(p: Scheduler, step: Step, p': Scheduler) {
    Moves(p, step, p') && !step.Query? && !step.Error? && !step.Cancel?
  }

  lemma {:induction false} PassCovers(run: seq<Scheduler>, i: nat)
    requires IsPass(run) && 1 <= i < |run|
    ensures Covered(run[i]) == Covered(run[1])
  {
    if i > 1 {
      PassCovers(run, i - 1);
      assert GoesOn(run[i - 1], run[i]);
      var step :| StepsInPass(run[i - 1], step, run[i]);
      StepCovers(run[i - 1], step, run[i]);
    }
  }

  /**
   A pass without errors that has nothing left to do has given a result to exactly what the
   loop came to: it is a pass in the sense of the lemma `PassesComplete`.
   */
  lemma PassSettles(run: seq<Scheduler>, records: seq<Record>)
    requires IsPass(run) && records == run[0].trust.records
    requires var p := run[|run| - 1]; p.todo == [] && p.conflict.None? && p.waiting == [] && p.trust.running == []
    ensures Pass(records, run[0].trust.results.Keys, run[|run| - 1].trust.results.Keys)
  {
    var list :| Moves(run[0], Query(list), run[1]);
    PassCovers(run, |run| - 1);
    QueryCovers(run[0], list, run[1]);
    NothingDue(run[|run| - 1]);
    hide Covered, IsPass, Groups, Stored;
  }

  lemma NothingDue(p: Scheduler)
    requires p.todo == [] && p.conflict.None? && p.waiting == [] && p.trust.running == []
    ensures Covered(p) == p.trust.results.Keys
  {
    assert Names([]) == [] && JobNames([]) == [];
  }

  lemma QueryCovers(p: Scheduler, list: seq<Record>, p': Scheduler)
    requires Moves(p, Query(list), p')
    ensures Queried(p.trust.records, p.trust.results.Keys, list)
    ensures Covered(p') == p.trust.results.Keys + Stored(Groups(list))
  {
    var (jobs, conflict) := Groups(list);
    hide Groups, Queried;
    assert Names([]) == [] && JobNames([]) == [];
    forall v
      ensures v in Due(p') <==> v in Stored((jobs, conflict))
    {
      NamesAre(jobs, v);
    }
  }

  lemma NamesAre(records: seq<Record>, v: Version)
    ensures v in Names(records) <==> v in Versions(records)
  {
    if v in Names(records) {
      var i :| 0 <= i < |records| && records[i].version == v;
      assert records[i] in records;
    }
    if v in Versions(records) {
      var r :| r in records && r.version == v;
      var i :| 0 <= i < |records| && records[i] == r;
      assert Names(records)[i] == v;
    }
  }

  // ---- A reproducible toolchain that stays failed ----

  lemma Goes(run: seq<Scheduler>, step: Step, p: Scheduler)
    requires IsSchedule(run) && Moves(run[|run| - 1], step, p)
    ensures IsSchedule(run + [p])
  {
    var longer := run + [p];
    assert MovesTo(run[|run| - 1], p);
    forall i | 0 < i < |longer|
      ensures MovesTo(longer[i - 1], longer[i])
    {
      assert i < |run| ==> longer[i - 1] == run[i - 1] && longer[i] == run[i];
    }
  }

  /** A pass that finds a Go 1.22 compiler and a toolchain made with it, and starts both. */
  function BothStarted(boot: seq<byte>, good: seq<byte>, v: Version, w: Version): (run: seq<Scheduler>)
    ensures |run| == 6
  {
    var a, b := Module(v, good), Module(w, good);
    var empty := Trust(Some(boot), [], map[], [], []);
    var one := empty.(records := [a]);
    var both := empty.(records := [a, b]);
    [Scheduler(empty, [], None, []), Scheduler(one, [], None, []), Scheduler(both, [], None, []),
     Scheduler(both, [a, b], None, []), Scheduler(both, [b], None, [a]), Scheduler(both, [], None, [a, b])]
  }

  lemma BothStart(boot: seq<byte>, good: seq<byte>, v: Version, w: Version)
    requires v.minor < w.minor
    ensures IsSchedule(BothStarted(boot, good, v, w))
  {
    var run := BothStarted(boot, good, v, w);
    BothFound(boot, good, v, w);
    assert Moves(run[3], Start, run[4]);
    assert Moves(run[4], Start, run[5]);
    hide Moves;
    assert forall i :: 0 < i < |run| ==> MovesTo(run[i - 1], run[i]);
  }

  lemma BothFound(boot: seq<byte>, good: seq<byte>, v: Version, w: Version)
    requires v.minor < w.minor
    ensures var run := BothStarted(boot, good, v, w);
      && Moves(run[0], Log(Module(v, good)), run[1])
      && Moves(run[1], Log(Module(w, good)), run[2])
      && Moves(run[2], Query([Module(v, good), Module(w, good)]), run[3])
  {
    GroupsOfTwo(Module(v, good), Module(w, good));
    hide Groups;
  }

  lemma GroupsOfTwo(a: Record, b: Record)
    requires a.version != b.version
    ensures Groups([a, b]) == ([a, b], None)
  {
    var list := [a, b];
    RunEnds(list, 0, 1, false);
    RunEnds(list, 1, 2, false);
    assert list[0..] == list && list[2..] == [] && Groups(list[2..]) == ([], None);
    assert [b] + [] == [b] && [a] + [b] == list;
  }

  /** Then w looks for its compiler while that is still being built. */
  function TooEarly(boot: seq<byte>, good: seq<byte>, v: Version, w: Version): (states: seq<Scheduler>)
    ensures |states| == 3
  {
    var a, b := Module(v, good), Module(w, good);
    var job := Job(v, good, Configured(boot), 0);
    var building := Trust(Some(boot), [a, b], map[], [job], []);
    var failed := Store(building, w, Failed);
    var ended := Trust(Some(boot), [a, b], map[w := Failed][v := Equal], [], [Event(job, Equal)]);
    [Scheduler(building, [], None, [b]), Scheduler(failed, [], None, []), Scheduler(ended, [], None, [])]
  }

  lemma CompilerMoves(boot: seq<byte>, good: seq<byte>, v: Version, w: Version)
    requires CanCompile(v) && v.minor == 22 && 24 <= w.minor <= 25
    ensures var states := TooEarly(boot, good, v, w);
      && Moves(BothStarted(boot, good, v, w)[5], Audit(0, AuditLegacy(Module(v, good), good)), states[0])
      && Moves(states[1], End(0, Equal), states[2])
  {
    assert Without([Module(v, good), Module(w, good)], 0) == [Module(w, good)];
  }

  lemma EarlyMove(boot: seq<byte>, good: seq<byte>, v: Version, w: Version)
    requires CanCompile(v) && v.minor == 22 && 24 <= w.minor <= 25
    ensures var b, none, states := Module(w, good), BootRow(Some(v), good, None), TooEarly(boot, good, v, w);
      Moves(states[0], Audit(0, AuditModern(b, good, [none], 0)), states[1])
  {
    var b, states := Module(w, good), TooEarly(boot, good, v, w);
    assert Without([b], 0) == [];
    OneRow(states[0].trust, Module(v, good), b);
    assert IsPick([BootRow(Some(v), good, None)], 0);
  }

  lemma EarlyEnd(boot: seq<byte>, good: seq<byte>, v: Version, w: Version)
    requires v.minor == 22 && 24 <= w.minor <= 25 && w.platform != Darwin
    ensures var t := TooEarly(boot, good, v, w)[2].trust;
      && Reproducible(t, w) && (forall e :: e in t.history ==> e.status == Equal)
      && StatusOf(t, v) == Some(Equal) && StatusOf(t, w) == Some(Failed)
  {
  }

  /**
   Both toolchains are reproducible and recorded before the pass, and one stays `failed`
   whatever later passes do.
   */
  lemma TooEarlyStaysFailed(boot: seq<byte>, good: seq<byte>, v: Version, w: Version) returns (run: seq<Scheduler>)
    requires CanCompile(v) && v.minor == 22 && 24 <= w.minor <= 25 && w.platform != Darwin
    ensures |run| >= 1 && IsSchedule(run)
    ensures var t := run[|run| - 1].trust;
      && Reproducible(t, w) && (forall e :: e in t.history ==> e.status == Equal)
      && StatusOf(t, v) == Some(Equal) && StatusOf(t, w) == Some(Failed)
    ensures forall more :: IsSchedule(run + more) ==>
      var later := run + more; StatusOf(later[|later| - 1].trust, w) == Some(Failed)
  {
    var first, states := BothStarted(boot, good, v, w), TooEarly(boot, good, v, w);
    BothStart(boot, good, v, w);
    CompilerMoves(boot, good, v, w);
    EarlyMove(boot, good, v, w);
    EarlyEnd(boot, good, v, w);
    hide *;
    Goes(first, Audit(0, AuditLegacy(Module(v, good), good)), states[0]);
    Goes(first + [states[0]],
         Audit(0, AuditModern(Module(w, good), good, [BootRow(Some(v), good, None)], 0)), states[1]);
    Goes(first + [states[0]] + [states[1]], End(0, Equal), states[2]);
    run := first + [states[0]] + [states[1]] + [states[2]];
    forall more | IsSchedule(run + more)
      ensures var later := run + more; StatusOf(later[|later| - 1].trust, w) == Some(Failed)
    {
      assert (run + more)[|run| - 1] == states[2];
      ResultsAreFinal(run + more, |run| - 1, |run + more| - 1, w);
    }
  }

  lemma OneRow(t: Trust, a: Record, b: Record)
    requires t.records == [a, b] && Matches(a.version, 22) && b.version.minor != 22
    ensures BootRows(t, t.records, 22) == [BootRow(Some(a.version), a.sha256, StatusOf(t, a.version))]
  {
    assert t.records[1..] == [b] && [b][1..] == [];
    assert BootRows(t, [b], 22) == [];
  }
}
