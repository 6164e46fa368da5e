/** Which compiler built a toolchain, and why it can be trusted: internal/toolchain/build.go. */
module Bootstrap {
  import opened Wrappers
  import opened Text
  import opened ToolchainAudit

  /** Bootstrap compilers are always taken for one platform, linux on the builder's architecture. */
  datatype Platform = Builder | Darwin | Other(name: string)

  /**
   A toolchain of Go 1.minor; `release` orders the releases of one minor version. A candidate
   such as go1.24rc1 has no release number of its own.
   */
  datatype Version = Version(minor: nat, release: nat, candidate: bool, platform: Platform)

  datatype Status = Skipped | Equal | Unequal | Failed

  /** The order of goversion.Compare. */
  predicate Newer(a: Version, b: Version) {
    a.minor > b.minor || (a.minor == b.minor && a.release > b.release)
  }

  /** The minor version whose compiler builds Go 1.minor. */
  function BootstrapMinor(minor: nat): (m: Option<nat>)
    ensures m.Some? <==> minor >= 24
    ensures m.Some? ==> m.value % 2 == 0 && 22 <= m.value && minor - 3 <= m.value <= minor - 2
  {
    if minor < 24 then None else Some((minor - 2) - (minor - 2) % 2)
  }

  // ---- Picking a bootstrap toolchain ----

  /** A row of the query; the version is None when it does not parse, the status when there is no build. */
  datatype BootRow = BootRow(version: Option<Version>, sha256: seq<byte>, status: Option<Status>)

  /** The row is one of the newest that parse, and the first of its version. */
  ghost predicate IsPick(rows: seq<BootRow>, i: nat) {
    && i < |rows| && rows[i].version.Some?
    && (forall j :: 0 <= j < |rows| && rows[j].version.Some? ==>
          !Newer(rows[j].version.value, rows[i].version.value))
    && (forall j :: 0 <= j < i && rows[j].version.Some? ==>
          Newer(rows[i].version.value, rows[j].version.value))
  }

  method PickModernBootstrapToolchain(rows: seq<BootRow>) returns (picked: Option<BootRow>)
    ensures picked.None? <==> forall i :: 0 <= i < |rows| ==> rows[i].version.None?
    ensures picked.Some? ==> exists i: nat :: IsPick(rows, i) && picked.value == rows[i]
    ensures picked.Some? ==> picked.value in rows && picked.value.version.Some?
    ensures picked.Some? ==> forall r :: r in rows && r.version.Some? ==>
      var v, best := r.version.value, picked.value.version.value;
      v.minor < best.minor || (v.minor == best.minor && v.release <= best.release)
  {
    picked := None;
    ghost var at := 0;
    for i := 0 to |rows|
      invariant picked.None? ==> forall j :: 0 <= j < i ==> rows[j].version.None?
      invariant picked.Some? ==> at < i && IsPick(rows[..i], at) && picked.value == rows[at]
    {
      assert rows[..i + 1][i] == rows[i] && forall j :: 0 <= j < i ==> rows[..i + 1][j] == rows[..i][j];
      if rows[i].version.None? {
        continue;
      }
      if picked.None? || Newer(rows[i].version.value, picked.value.version.value) {
        picked := Some(rows[i]);
        at := i;
      }
    }
    assert rows[..|rows|] == rows;
  }

  // ---- Building ----

  datatype Compiler = Configured(hash: seq<byte>) | Toolchain(version: Version, hash: seq<byte>)

  /**
   A build: what it should give, and the compiler that the builder downloads and checks. When
   it was launched, `launched` builds had ended.
   */
  datatype Job = Job(version: Version, expected: seq<byte>, compiler: Compiler, launched: nat)

  datatype Event = Event(job: Job, status: Status)

  /** A record of golang.org/toolchain. */
  type Record = Module<Version>

  /**
   `results` is toolchain_build, `running` the builds under way and `history` all builds that
   ended, in order. `bootstrap` is the configured hash of the Go 1.20 compiler, if any.
   */
  datatype Trust = Trust(
    bootstrap: Option<seq<byte>>,
    records: seq<Record>,
    results: map<Version, Status>,
    running: seq<Job>,
    history: seq<Event>)

  function StatusOf(t: Trust, version: Version): Option<Status> {
    if version in t.results then Some(t.results[version]) else None
  }

  /** The pattern of the query: a dot follows the minor version, so candidates do not match. */
  predicate Matches(version: Version, minor: nat) {
    version.minor == minor && version.platform == Builder && !version.candidate
  }

  /** The query: the records that match, with their results. The rows come in any order. */
  function BootRows(t: Trust, records: seq<Record>, minor: nat): seq<BootRow> {
    if records == [] then []
    else
      var r := records[0];
      var rest := BootRows(t, records[1..], minor);
      if Matches(r.version, minor)
      then [BootRow(Some(r.version), r.sha256, StatusOf(t, r.version))] + rest else rest
  }

  datatype Action =
    | Publish(record: Record)
    | AuditOld(version: Version)
    | AuditLegacy(record: Record, expected: seq<byte>)
    | AuditModern(record: Record, expected: seq<byte>, rows: seq<BootRow>, row: nat)
    | AuditFails(version: Version)
    | Finish(index: nat, status: Status)
    | Abandon(index: nat)

  /** What a build is compared with: on darwin a hash without signatures, else the checksum. */
  predicate Expects(record: Record, expected: seq<byte>) {
    record.version.platform == Darwin || expected == record.sha256
  }

  function Store(t: Trust, version: Version, status: Status): Trust {
    t.(results := t.results[version := status])
  }

  function Launch(t: Trust, job: Job): Trust {
    t.(running := t.running + [job])
  }

  ghost predicate Next(t: Trust, a: Action, t': Trust) {
    match a
    case Publish(record) => t' == t.(records := t.records + [record])
    case AuditOld(version) => version.minor < 21 && t' == Store(t, version, Skipped)
    case AuditLegacy(record, expected) =>
      && record in t.records && 21 <= record.version.minor < 24 && Expects(record, expected)
      && t' == if t.bootstrap.None? then Store(t, record.version, Skipped)
               else Launch(t, Job(record.version, expected, Configured(t.bootstrap.value), |t.history|))
    case AuditModern(record, expected, rows, row) =>
      && record in t.records && record.version.minor >= 24 && Expects(record, expected)
      && multiset(rows) == multiset(BootRows(t, t.records, BootstrapMinor(record.version.minor).value))
      && (if rows == [] then t' == Store(t, record.version, Failed)
          else
            && IsPick(rows, row)
            && t' == if rows[row].status != Some(Equal) then Store(t, record.version, Failed)
                     else Launch(t, Job(record.version, expected,
                                        Toolchain(rows[row].version.value, rows[row].sha256), |t.history|)))
    case AuditFails(version) => t' == Store(t, version, Failed)
    case Finish(index, status) =>
      && index < |t.running| && status != Skipped
      && t' == Store(t, t.running[index].version, status).(
                 running := t.running[..index] + t.running[index + 1..],
                 history := t.history + [Event(t.running[index], status)])
    case Abandon(index) =>
      index < |t.running| && t' == t.(running := t.running[..index] + t.running[index + 1..])
  }

  ghost predicate Init(t: Trust) {
    t.records == [] && t.results == map[] && t.running == [] && t.history == []
  }

  ghost predicate Takes(t: Trust, t': Trust) {
    exists a :: Next(t, a, t')
  }

  ghost predicate IsRun(run: seq<Trust>) {
    && |run| >= 1 && Init(run[0])
    && forall i :: 0 < i < |run| ==> Takes(run[i - 1], run[i])
  }

  // ---- Trust ----

  /** Some later Go version is built with toolchains of this minor version. */
  predicate CanCompile(version: Version) {
    && version.platform == Builder && !version.candidate
    && version.minor >= 22 && version.minor % 2 == 0
  }

  /** No toolchain that can be a compiler is disputed; all others may be. */
  ghost predicate CompilersUndisputed(records: seq<Record>) {
    forall version :: Conflicting(records, version) ==> !CanCompile(version)
  }

  /** An earlier build reproduced exactly the toolchain that this compiler names. */
  ghost predicate Reproduced(history: seq<Event>, n: nat, compiler: Compiler)
    requires compiler.Toolchain?
  {
    exists j :: 0 <= j < n <= |history| && IsReproduction(history[j], compiler)
  }

  predicate IsReproduction(event: Event, compiler: Compiler)
    requires compiler.Toolchain?
  {
    event.status == Equal && event.job.version == compiler.version && event.job.expected == compiler.hash
  }

  /** The compiler of a job is the right one for its version, and vouched for by the first n builds. */
  ghost predicate JobOk(t: Trust, n: nat, job: Job) {
    match job.compiler
    case Configured(hash) => 21 <= job.version.minor < 24 && t.bootstrap == Some(hash)
    case Toolchain(version, _) =>
      && BootstrapMinor(job.version.minor) == Some(version.minor) && CanCompile(version)
      && Reproduced(t.history, n, job.compiler)
  }

  ghost predicate RecordedJob(t: Trust, job: Job) {
    exists i :: 0 <= i < |t.records| && t.records[i].version == job.version && Expects(t.records[i], job.expected)
  }

  /** An `equal` result was earned by a build of a recorded toolchain. */
  ghost predicate ResultOk(t: Trust, version: Version) {
    exists j :: 0 <= j < |t.history| && t.history[j].status == Equal && t.history[j].job.version == version
  }

  /** When the job was launched, at most n builds had ended, and those vouch for its compiler. */
  ghost predicate LaunchedOk(t: Trust, n: nat, job: Job) {
    job.launched <= n && JobOk(t, job.launched, job) && RecordedJob(t, job)
  }

  ghost predicate Inv(t: Trust) {
    && (forall i :: 0 <= i < |t.running| ==> LaunchedOk(t, |t.history|, t.running[i]))
    && (forall i :: 0 <= i < |t.history| ==> LaunchedOk(t, i, t.history[i].job))
    && (forall version :: version in t.results && t.results[version] == Equal ==> ResultOk(t, version))
  }

  lemma {:induction false} BootRowsAre(t: Trust, records: seq<Record>, minor: nat, r: BootRow)
    requires r in BootRows(t, records, minor)
    ensures r.version.Some? && Matches(r.version.value, minor)
    ensures r.status == StatusOf(t, r.version.value) && Module(r.version.value, r.sha256) in records
  {
    if r in BootRows(t, records[1..], minor) {
      BootRowsAre(t, records[1..], minor, r);
    }
  }

  lemma {:induction false} BootRowsHave(t: Trust, records: seq<Record>, minor: nat, record: Record)
    requires record in records && Matches(record.version, minor)
    ensures BootRow(Some(record.version), record.sha256, StatusOf(t, record.version)) in BootRows(t, records, minor)
  {
    if records[0] != record {
      BootRowsHave(t, records[1..], minor, record);
    }
  }

  /** The query finds the releases of the minor version for the builder's platform, and no others. */
  lemma BootRowsMeans(t: Trust, records: seq<Record>, minor: nat, v: Version, sha256: seq<byte>, status: Option<Status>)
    ensures BootRow(Some(v), sha256, status) in BootRows(t, records, minor) <==>
      && Module(v, sha256) in records && v.minor == minor && v.platform == Builder && !v.candidate
      && status == if v in t.results then Some(t.results[v]) else None
  {
    if BootRow(Some(v), sha256, status) in BootRows(t, records, minor) {
      BootRowsAre(t, records, minor, BootRow(Some(v), sha256, status));
    }
    if Module(v, sha256) in records && Matches(v, minor) {
      BootRowsHave(t, records, minor, Module(v, sha256));
    }
  }

  /** A compiler with status `equal` was reproduced: its checksum is the one the build was compared with. */
  lemma PickedIsReproduced(t: Trust, minor: nat, r: BootRow)
    requires Inv(t) && CompilersUndisputed(t.records) && minor >= 22 && minor % 2 == 0
    requires r in BootRows(t, t.records, minor) && r.status == Some(Equal)
    ensures r.version.Some? && Reproduced(t.history, |t.history|, Toolchain(r.version.value, r.sha256))
  {
    BootRowsAre(t, t.records, minor, r);
    var v := r.version.value;
    assert ResultOk(t, v);
    var j :| 0 <= j < |t.history| && t.history[j].status == Equal && t.history[j].job.version == v;
    var job := t.history[j].job;
    assert LaunchedOk(t, j, job);
    assert Module(v, job.expected) in t.records && Module(v, r.sha256) in t.records && !Conflicting(t.records, v);
    if job.expected != r.sha256 {
      TwoChecksums(t.records, v, job.expected, r.sha256);
    }
    assert IsReproduction(t.history[j], Toolchain(v, r.sha256));
  }

  lemma JobLater(t: Trust, t': Trust, n: nat, n': nat, job: Job)
    requires t.bootstrap == t'.bootstrap && t.history <= t'.history && t.records <= t'.records
    requires n <= n' && n <= |t.history| && LaunchedOk(t, n, job)
    ensures LaunchedOk(t', n', job)
  {
    var i :| 0 <= i < |t.records| && t.records[i].version == job.version && Expects(t.records[i], job.expected);
    assert t'.records[i] == t.records[i];
    if job.compiler.Toolchain? {
      var j :| 0 <= j < job.launched && IsReproduction(t.history[j], job.compiler);
      assert t'.history[j] == t.history[j];
    }
  }

  lemma ResultLater(t: Trust, t': Trust, version: Version)
    requires t.history <= t'.history && ResultOk(t, version)
    ensures ResultOk(t', version)
  {
    var j :| 0 <= j < |t.history| && t.history[j].status == Equal && t.history[j].job.version == version;
    assert t'.history[j] == t.history[j];
  }

  /** A step that adds to the tables keeps what was known. */
  lemma GrowKeeps(t: Trust, t': Trust)
    requires Inv(t) && t.bootstrap == t'.bootstrap && t.records <= t'.records && t.history == t'.history
    requires t'.running == t.running
    requires forall v :: v in t'.results && t'.results[v] == Equal ==> v in t.results && t.results[v] == Equal
    ensures Inv(t')
  {
    forall i | 0 <= i < |t'.running|
      ensures LaunchedOk(t', |t'.history|, t'.running[i])
    {
      JobLater(t, t', |t.history|, |t'.history|, t.running[i]);
    }
    forall i | 0 <= i < |t'.history|
      ensures LaunchedOk(t', i, t'.history[i].job)
    {
      JobLater(t, t', i, i, t.history[i].job);
    }
    forall v | v in t'.results && t'.results[v] == Equal
      ensures ResultOk(t', v)
    {
      ResultLater(t, t', v);
    }
  }

  lemma LaunchKeeps(t: Trust, job: Job)
    requires Inv(t) && LaunchedOk(t, |t.history|, job)
    ensures Inv(Launch(t, job))
  {
    var t' := Launch(t, job);
    GrowKeeps(t, t'.(running := t.running));
    forall i | 0 <= i < |t'.running|
      ensures LaunchedOk(t', |t'.history|, t'.running[i])
    {
      JobLater(t, t', |t.history|, |t'.history|, t'.running[i]);
    }
  }

  lemma FinishKeeps(t: Trust, index: nat, status: Status, t': Trust)
    requires Inv(t) && Next(t, Finish(index, status), t')
    ensures Inv(t')
  {
    var job := t.running[index];
    forall i | 0 <= i < |t'.running|
      ensures LaunchedOk(t', |t'.history|, t'.running[i])
    {
      assert t'.running[i] == if i < index then t.running[i] else t.running[i + 1];
      JobLater(t, t', |t.history|, |t'.history|, t'.running[i]);
    }
    forall i | 0 <= i < |t'.history|
      ensures LaunchedOk(t', i, t'.history[i].job)
    {
      JobLater(t, t', i, i, t'.history[i].job);
    }
    forall v | v in t'.results && t'.results[v] == Equal
      ensures ResultOk(t', v)
    {
      if v == job.version {
        assert t'.history[|t.history|].job.version == v;
      } else {
        ResultLater(t, t', v);
      }
    }
  }

  lemma AbandonKeeps(t: Trust, index: nat, t': Trust)
    requires Inv(t) && Next(t, Abandon(index), t')
    ensures Inv(t')
  {
    var still := t.(running := t'.running);
    assert forall i :: 0 <= i < |still.running| ==>
      still.running[i] == if i < index then t.running[i] else t.running[i + 1];
    forall i | 0 <= i < |still.running|
      ensures LaunchedOk(t', |t'.history|, t'.running[i])
    {
      JobLater(t, t', |t.history|, |t'.history|, t'.running[i]);
    }
    GrowKeeps(t.(running := []), t'.(running := []));
  }

  lemma StepKeeps(t: Trust, a: Action, t': Trust)
    requires Inv(t) && CompilersUndisputed(t.records) && Next(t, a, t')
    ensures Inv(t')
  {
    match a
    case Publish(record) => GrowKeeps(t, t');
    case AuditOld(version) => GrowKeeps(t, t');
    case AuditFails(version) => GrowKeeps(t, t');
    case Finish(index, status) => FinishKeeps(t, index, status, t');
    case Abandon(index) => AbandonKeeps(t, index, t');
    case AuditLegacy(record, expected) =>
      if t.bootstrap.None? {
        GrowKeeps(t, t');
      } else {
        var i :| 0 <= i < |t.records| && t.records[i] == record;
        LaunchKeeps(t, Job(record.version, expected, Configured(t.bootstrap.value), |t.history|));
      }
    case AuditModern(record, expected, rows, row) =>
      if rows == [] || rows[row].status != Some(Equal) {
        GrowKeeps(t, t');
      } else {
        var minor := BootstrapMinor(record.version.minor).value;
        var i :| 0 <= i < |t.records| && t.records[i] == record;
        assert rows[row] in multiset(rows);
        PickedIsReproduced(t, minor, rows[row]);
        BootRowsAre(t, t.records, minor, rows[row]);
        var compiler := Toolchain(rows[row].version.value, rows[row].sha256);
        LaunchKeeps(t, Job(record.version, expected, compiler, |t.history|));
      }
  }

  lemma RecordsGrow(t: Trust, t': Trust)
    requires Takes(t, t')
    ensures t.records <= t'.records && t.bootstrap == t'.bootstrap
  {
    var a :| Next(t, a, t');
  }

  lemma {:induction false} RunRecords(run: seq<Trust>, i: nat, j: nat)
    requires IsRun(run) && i <= j < |run|
    ensures run[i].records <= run[j].records
    decreases j
  {
    if i < j {
      RunRecords(run, i, j - 1);
      RecordsGrow(run[j - 1], run[j]);
    }
  }

  lemma UndisputedBefore(records: seq<Record>, later: seq<Record>)
    requires records <= later && CompilersUndisputed(later)
    ensures CompilersUndisputed(records)
  {
    forall version | Conflicting(records, version)
      ensures Conflicting(later, version)
    {
      var i, j :| 0 <= i < |records| && 0 <= j < |records|
        && records[i].version == records[j].version == version && records[i].sha256 != records[j].sha256;
      assert later[i] == records[i] && later[j] == records[j];
    }
  }

  lemma {:induction false} RunInv(run: seq<Trust>, i: nat)
    requires IsRun(run) && i < |run| && CompilersUndisputed(run[i].records)
    ensures Inv(run[i])
  {
    if i > 0 {
      RunRecords(run, i - 1, i);
      UndisputedBefore(run[i - 1].records, run[i].records);
      RunInv(run, i - 1);
      assert Takes(run[i - 1], run[i]);
      var a :| Next(run[i - 1], a, run[i]);
      StepKeeps(run[i - 1], a, run[i]);
    }
  }

  // ---- What a result says ----

  /** An ended build of this version had this status; it was compared with what the records say. */
  ghost predicate HasBuild(t: Trust, version: Version, status: Status) {
    exists j :: 0 <= j < |t.history| && t.history[j].status == status && t.history[j].job.version == version
  }

  /** The build was compared with a recorded checksum, on darwin with a hash computed from the toolchain. */
  ghost predicate Compared(t: Trust, job: Job) {
    job.version.platform == Darwin || Module(job.version, job.expected) in t.records
  }

  ghost predicate Earned(t: Trust) {
    && (forall i :: 0 <= i < |t.running| ==> Compared(t, t.running[i]))
    && (forall i :: 0 <= i < |t.history| ==> Compared(t, t.history[i].job))
    && (forall version :: version in t.results && t.results[version] in {Equal, Unequal} ==>
          HasBuild(t, version, t.results[version]))
    && (forall version :: version in t.results && t.results[version] == Skipped ==>
          version.minor < 21 || (version.minor < 24 && t.bootstrap.None?))
  }

  lemma HasBuildLater(t: Trust, t': Trust, version: Version, status: Status)
    requires HasBuild(t, version, status) && t.history <= t'.history
    ensures HasBuild(t', version, status)
  {
    var j :| 0 <= j < |t.history| && t.history[j].status == status && t.history[j].job.version == version;
    assert t'.history[j] == t.history[j];
  }

  lemma StepEarned(t: Trust, a: Action, t': Trust)
    requires Earned(t) && Next(t, a, t')
    ensures Earned(t')
  {
    assert forall r :: r in t.records ==> r in t'.records;
    forall i | 0 <= i < |t'.running|
      ensures Compared(t', t'.running[i])
    {
      assert i < |t.running| ==> Compared(t, t.running[i]);
      assert i + 1 < |t.running| ==> Compared(t, t.running[i + 1]);
    }
    forall i | 0 <= i < |t'.history|
      ensures Compared(t', t'.history[i].job)
    {
      assert i < |t.history| ==> Compared(t, t.history[i].job);
    }
    forall version | version in t'.results && t'.results[version] in {Equal, Unequal}
      ensures HasBuild(t', version, t'.results[version])
    {
      if a.Finish? && version == t.running[a.index].version {
        assert t'.history[|t.history|] == Event(t.running[a.index], a.status);
      } else {
        HasBuildLater(t, t', version, t.results[version]);
      }
    }
  }

  lemma {:induction false} RunEarned(run: seq<Trust>, i: nat)
    requires IsRun(run) && i < |run|
    ensures Earned(run[i])
  {
    if i > 0 {
      RunEarned(run, i - 1);
      assert Takes(run[i - 1], run[i]);
      var a :| Next(run[i - 1], a, run[i]);
      StepEarned(run[i - 1], a, run[i]);
    }
  }

  /**
   In every run: `equal` and `unequal` come from an ended build with that status, which
   outside darwin was compared with a recorded checksum, and `skipped` means that the version
   is older than Go 1.21 or that it needs the configured compiler and there is none.
   */
  lemma ResultsAreEarned(run: seq<Trust>, i: nat, version: Version)
    requires IsRun(run) && i < |run| && version in run[i].results
    ensures var t, status := run[i], run[i].results[version];
      && (status == Equal || status == Unequal ==>
            exists j :: 0 <= j < |t.history| && t.history[j].status == status && t.history[j].job.version == version
              && (version.platform != Darwin ==> Module(version, t.history[j].job.expected) in t.records))
      && (status == Skipped ==> version.minor < 21 || (version.minor < 24 && t.bootstrap.None?))
  {
    RunEarned(run, i);
    var t, status := run[i], run[i].results[version];
    if status in {Equal, Unequal} {
      assert HasBuild(t, version, status);
      var j :| 0 <= j < |t.history| && t.history[j].status == status && t.history[j].job.version == version;
      assert Compared(t, t.history[j].job);
    }
  }

  // ---- The chain of compilers ----

  /** Builds by position in the history, each made with the one that follows it. */
  ghost predicate IsChain(t: Trust, chain: seq<nat>) {
    && |chain| >= 1
    && (forall k :: 0 <= k < |chain| ==> chain[k] < |t.history| && t.history[chain[k]].status == Equal)
    && (forall k :: 0 <= k < |chain| - 1 ==> IsLink(t, chain[k], chain[k + 1]))
  }

  /** Build i used the toolchain that build j reproduced, which had ended when i was launched. */
  ghost predicate IsLink(t: Trust, i: nat, j: nat) {
    && j < i < |t.history| && j < t.history[i].job.launched
    && var job, with := t.history[i].job, t.history[j].job;
    && job.compiler == Toolchain(with.version, with.expected)
    && with.version.minor < job.version.minor && CanCompile(with.version)
  }

  lemma {:induction false} ChainFrom(t: Trust, i: nat) returns (chain: seq<nat>)
    requires Inv(t) && i < |t.history| && t.history[i].status == Equal
    ensures IsChain(t, chain) && chain[0] == i
    ensures var last := t.history[chain[|chain| - 1]].job;
      t.bootstrap.Some? && last.compiler == Configured(t.bootstrap.value) && 21 <= last.version.minor < 24
    ensures |chain| >= 2 ==> t.history[chain[|chain| - 1]].job.version.minor == 22
    ensures |chain| >= 2 <==> t.history[i].job.version.minor >= 24
    decreases i
  {
    var job := t.history[i].job;
    assert LaunchedOk(t, i, job);
    hide Inv, RecordedJob;
    match job.compiler
    case Configured(hash) => chain := [i];
    case Toolchain(version, hash) =>
      var j :| 0 <= j < job.launched && IsReproduction(t.history[j], job.compiler);
      var rest := ChainFrom(t, j);
      chain := [i] + rest;
      assert IsLink(t, i, j);
      forall k | 0 <= k < |chain| - 1
        ensures IsLink(t, chain[k], chain[k + 1])
      {
        assert k > 0 ==> chain[k] == rest[k - 1] && chain[k + 1] == rest[k];
      }
  }

  /** The chain of builds that makes a version trusted: it ends at a Go 1.22 of the configured compiler. */
  ghost predicate IsTrustChain(t: Trust, chain: seq<nat>, version: Version) {
    && IsChain(t, chain) && |chain| >= 2 && t.history[chain[0]].job.version == version
    && var last := t.history[chain[|chain| - 1]].job;
    && last.version.minor == 22 && t.bootstrap.Some? && last.compiler == Configured(t.bootstrap.value)
  }

  /** Every `equal` result of Go 1.24 or later has such a chain. */
  ghost predicate WellFounded(t: Trust) {
    forall version :: version in t.results && t.results[version] == Equal && version.minor >= 24 ==>
      exists chain :: IsTrustChain(t, chain, version)
  }

  lemma InvIsWellFounded(t: Trust)
    requires Inv(t)
    ensures WellFounded(t)
  {
    forall version | version in t.results && t.results[version] == Equal && version.minor >= 24
      ensures exists chain :: IsTrustChain(t, chain, version)
    {
      assert ResultOk(t, version);
      var j :| 0 <= j < |t.history| && t.history[j].status == Equal && t.history[j].job.version == version;
      var chain := ChainFrom(t, j);
      assert IsTrustChain(t, chain, version);
    }
  }

  /**
   In every run in which no possible compiler is disputed: each `equal` result of Go 1.24 or
   later stands for a build at the head of a finite chain of builds, each of which had ended
   `equal` when the one before it was launched, down to a Go 1.22 made with the configured
   compiler.
   */
  lemma TrustIsWellFounded(run: seq<Trust>, i: nat)
    requires IsRun(run) && i < |run| && CompilersUndisputed(run[i].records)
    ensures WellFounded(run[i])
  {
    RunInv(run, i);
    InvIsWellFounded(run[i]);
  }

  // ---- When the chain breaks ----

  lemma {:induction false} BootRowsAppend(t: Trust, records: seq<Record>, r: Record, minor: nat)
    ensures BootRows(t, records + [r], minor) == BootRows(t, records, minor) + BootRows(t, [r], minor)
  {
    assert [r][1..] == [];
    if records == [] {
      assert records + [r] == [r];
    } else {
      assert (records + [r])[1..] == records[1..] + [r];
      BootRowsAppend(t, records[1..], r, minor);
    }
  }

  /** The rows depend on the records of that minor version and on the results of those versions. */
  lemma {:induction false} BootRowsSame(t: Trust, t': Trust, records: seq<Record>, minor: nat)
    requires forall v: Version :: v.minor == minor ==> StatusOf(t, v) == StatusOf(t', v)
    ensures BootRows(t, records, minor) == BootRows(t', records, minor)
  {
    if records != [] {
      BootRowsSame(t, t', records[1..], minor);
    }
  }

  lemma RunGrows(run: seq<Trust>, a: Action, t': Trust)
    requires IsRun(run) && Next(run[|run| - 1], a, t')
    ensures IsRun(run + [t'])
  {
    var longer := run + [t'];
    assert Takes(run[|run| - 1], t');
    forall i | 0 < i < |longer|
      ensures Takes(longer[i - 1], longer[i])
    {
      assert i < |run| ==> longer[i - 1] == run[i - 1] && longer[i] == run[i];
    }
  }

  /** The tables after a build of a published toolchain ended `equal`. */
  function Built(t: Trust, job: Job): Trust {
    t.(records := t.records + [Module(job.version, job.expected)],
       results := t.results[job.version := Equal],
       history := t.history + [Event(job, Equal)])
  }

  /** Publishing a toolchain of Go 1.24 or later and building it with the row that was picked. */
  lemma BuildModern(run: seq<Trust>, w: Version, hash: seq<byte>, rows: seq<BootRow>, row: nat)
      returns (longer: seq<Trust>)
    requires IsRun(run) && w.minor >= 24 && run[|run| - 1].running == []
    requires var t := run[|run| - 1];
      multiset(rows) == multiset(BootRows(t, t.records, BootstrapMinor(w.minor).value))
    requires IsPick(rows, row) && rows[row].status == Some(Equal)
    ensures |longer| >= 1 && IsRun(longer)
    ensures var t := run[|run| - 1];
      var job := Job(w, hash, Toolchain(rows[row].version.value, rows[row].sha256), |t.history|);
      longer[|longer| - 1] == Built(t, job)
  {
    var t := run[|run| - 1];
    var job := Job(w, hash, Toolchain(rows[row].version.value, rows[row].sha256), |t.history|);
    var record, minor := Module(w, hash), BootstrapMinor(w.minor).value;
    var t1 := t.(records := t.records + [record]);
    var t2 := Launch(t1, job);
    BootRowsAppend(t, t.records, record, minor);
    BootRowsSame(t, t1, t1.records, minor);
    hide IsRun, BootRows, IsPick, BootstrapMinor;
    RunGrows(run, Publish(record), t1);
    RunGrows(run + [t1], AuditModern(record, hash, rows, row), t2);
    RunGrows(run + [t1] + [t2], Finish(0, Equal), Built(t, job));
    longer := run + [t1] + [t2] + [Built(t, job)];
  }

  /** A run that publishes Go 1.22 and reproduces it with the configured compiler. */
  function FirstBuild(boot: seq<byte>, good: seq<byte>, v: Version): (run: seq<Trust>)
    requires v.minor == 22
    ensures IsRun(run) && |run| == 4
    ensures run[3] == Trust(Some(boot), [Module(v, good)], map[v := Equal], [],
                            [Event(Job(v, good, Configured(boot), 0), Equal)])
  {
    var job := Job(v, good, Configured(boot), 0);
    var t0 := Trust(Some(boot), [], map[], [], []);
    var t1 := t0.(records := [Module(v, good)]);
    var t2 := t1.(running := [job]);
    var t3 := Trust(Some(boot), [Module(v, good)], map[v := Equal], [], [Event(job, Equal)]);
    assert Next(t0, Publish(Module(v, good)), t1) && Takes(t0, t1);
    assert Next(t1, AuditLegacy(Module(v, good), good), t2) && Takes(t1, t2);
    assert Next(t2, Finish(0, Equal), t3) && Takes(t2, t3);
    [t0, t1, t2, t3]
  }

  /** Every build so far used the checksum `good`; v is the newest of all and has status `equal`. */
  ghost predicate Newest(t: Trust, good: seq<byte>, v: Version) {
    && t.running == []
    && (forall r :: r in t.records ==> r.sha256 == good)
    && (forall e :: e in t.history ==> e.job.expected == good && e.job.version.minor <= v.minor)
    && (forall u :: u in t.results ==> u.minor <= v.minor)
    && (forall minor :: minor > v.minor ==> BootRows(t, t.records, minor) == [])
    && BootRows(t, t.records, v.minor) == [BootRow(Some(v), good, Some(Equal))]
  }

  /** Every possible compiler can be reached: one build for each even minor version from 22 on. */
  lemma {:induction false} Reach(boot: seq<byte>, good: seq<byte>, v: Version) returns (run: seq<Trust>)
    requires CanCompile(v)
    ensures |run| >= 1 && IsRun(run) && Newest(run[|run| - 1], good, v)
    decreases v.minor
  {
    hide IsRun, BootRows, Built;
    if v.minor == 22 {
      run := FirstBuild(boot, good, v);
      NewestFirst(run[3], boot, good, v);
    } else {
      var u := Version(v.minor - 2, 0, false, Builder);
      var before := Reach(boot, good, u);
      var rows := [BootRow(Some(u), good, Some(Equal))];
      assert IsPick(rows, 0);
      hide IsPick;
      run := BuildModern(before, v, good, rows, 0);
      var t := before[|before| - 1];
      NewestNext(t, good, u, Job(v, good, Toolchain(u, good), |t.history|));
    }
  }

  lemma NewestFirst(t: Trust, boot: seq<byte>, good: seq<byte>, v: Version)
    requires CanCompile(v)
    requires t == Trust(Some(boot), [Module(v, good)], map[v := Equal], [],
                        [Event(Job(v, good, Configured(boot), 0), Equal)])
    ensures Newest(t, good, v)
  {
    forall minor
      ensures BootRows(t, t.records, minor) == if minor == v.minor then [BootRow(Some(v), good, Some(Equal))] else []
    {
      assert t.records[1..] == [];
    }
  }

  lemma NewestNext(t: Trust, good: seq<byte>, u: Version, job: Job)
    requires Newest(t, good, u) && job.expected == good
    requires job.version.minor > u.minor && CanCompile(job.version)
    ensures Newest(Built(t, job), good, job.version)
  {
    var v, t' := job.version, Built(t, job);
    forall minor | minor >= v.minor
      ensures BootRows(t', t'.records, minor) == if minor == v.minor then [BootRow(Some(v), good, Some(Equal))] else []
    {
      BootRowsAppend(t', t.records, Module(v, good), minor);
      NoRows(t, t', t.records, minor);
      assert [Module(v, good)][1..] == [];
    }
  }

  lemma {:induction false} NoRows(t: Trust, t': Trust, records: seq<Record>, minor: nat)
    requires BootRows(t, records, minor) == []
    ensures BootRows(t', records, minor) == []
  {
    if records != [] {
      NoRows(t, t', records[1..], minor);
    }
  }

  /**
   Whatever possible compiler v is disputed, there is a run in which nothing else is, where
   the next Go version is built with the checksum of v that nobody reproduced, and its `equal`
   result has no chain.
   */
  lemma SecondChecksumBreaksTrust(boot: seq<byte>, good: seq<byte>, bad: seq<byte>, v: Version)
      returns (run: seq<Trust>)
    requires CanCompile(v) && good != bad
    ensures IsRun(run)
    ensures var t := run[|run| - 1];
      && (forall u :: Conflicting(t.records, u) <==> u == v)
      && var w := Version(v.minor + 2, 0, false, Builder);
      && StatusOf(t, w) == Some(Equal) && !exists chain :: IsTrustChain(t, chain, w)
  {
    hide IsRun, Conflicting, IsTrustChain, BootRows;
    var before := Reach(boot, good, v);
    var w := Version(v.minor + 2, 0, false, Builder);
    var t0 := before[|before| - 1];
    var t1 := t0.(records := t0.records + [Module(v, bad)]);
    var first, second := BootRow(Some(v), good, Some(Equal)), BootRow(Some(v), bad, Some(Equal));
    RunGrows(before, Publish(Module(v, bad)), t1);
    TwoRows(t0, good, bad, v);
    assert IsPick([second, first], 0);
    run := BuildModern(before + [t1], w, good, [second, first], 0);
    var job := Job(w, good, Toolchain(v, bad), |t1.history|);
    OnlyDispute(t0, good, bad, v, Module(w, good));
    forall chain
      ensures !IsTrustChain(Built(t1, job), chain, w)
    {
      Unvouched(t1, good, v, job, chain);
    }
  }

  lemma TwoRows(t: Trust, good: seq<byte>, bad: seq<byte>, v: Version)
    requires Newest(t, good, v) && CanCompile(v)
    ensures var t1 := t.(records := t.records + [Module(v, bad)]);
      BootRows(t1, t1.records, v.minor)
      == [BootRow(Some(v), good, Some(Equal)), BootRow(Some(v), bad, Some(Equal))]
  {
    var t1 := t.(records := t.records + [Module(v, bad)]);
    BootRowsAppend(t1, t.records, Module(v, bad), v.minor);
    BootRowsSame(t, t1, t.records, v.minor);
    BootRowsAre(t, t.records, v.minor, BootRow(Some(v), good, Some(Equal)));
    assert [Module(v, bad)][1..] == [];
  }

  lemma OnlyDispute(t: Trust, good: seq<byte>, bad: seq<byte>, v: Version, other: Record)
    requires Newest(t, good, v) && good != bad && other.sha256 == good
    ensures forall u :: Conflicting(t.records + [Module(v, bad)] + [other], u) <==> u == v
  {
    BootRowsAre(t, t.records, v.minor, BootRow(Some(v), good, Some(Equal)));
    var all := t.records + [Module(v, bad)] + [other];
    assert forall r :: r in all ==> r.sha256 == good || r == Module(v, bad);
    assert Module(v, good) in all && Module(v, bad) in all;
    TwoChecksums(all, v, good, bad);
  }

  /** The newest build was made with a compiler that no build reproduced. */
  lemma Unvouched(t: Trust, good: seq<byte>, v: Version, job: Job, chain: seq<nat>)
    requires forall e :: e in t.history ==> e.job.expected == good && e.job.version.minor < job.version.minor
    requires job.compiler.Toolchain? && job.compiler.hash != good
    ensures !IsTrustChain(Built(t, job), chain, job.version)
  {
    var t', n := Built(t, job), |t.history|;
    forall i | 0 <= i < n
      ensures !IsLink(t', n, i) && t'.history[i].job.version != job.version
    {
      assert t'.history[i] in t.history;
    }
    assert IsChain(t', chain) && |chain| >= 2 ==> IsLink(t', chain[0], chain[1]);
  }

  /**
   The exact condition: if only the versions of a set can be disputed, every state of every
   run is well founded exactly when no version of the set can be a compiler.
   */
  lemma TrustIffCompilersUndisputed(disputes: iset<Version>)
    ensures (forall run: seq<Trust> ::
               IsRun(run) && (forall u :: Conflicting(run[|run| - 1].records, u) ==> u in disputes) ==>
                 WellFounded(run[|run| - 1]))
            <==> forall v :: v in disputes ==> !CanCompile(v)
  {
    if v :| v in disputes && CanCompile(v) {
      var run := SecondChecksumBreaksTrust([], [], [0], v);
      var t, w := run[|run| - 1], Version(v.minor + 2, 0, false, Builder);
      assert w in t.results && t.results[w] == Equal && !WellFounded(t);
    } else {
      forall run: seq<Trust> |
        IsRun(run) && (forall u :: Conflicting(run[|run| - 1].records, u) ==> u in disputes)
        ensures WellFounded(run[|run| - 1])
      {
        TrustIsWellFounded(run, |run| - 1);
      }
    }
  }
}
