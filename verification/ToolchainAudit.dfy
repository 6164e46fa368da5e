/** Which toolchains one pass of AuditAll builds: internal/toolchain/build.go. */
module ToolchainAudit {
  import opened Wrappers
  import opened Text

  /** A record of golang.org/toolchain: the module version, of any type V, and its checksum. */
  datatype Module<V> = Module(version: V, sha256: seq<byte>)

  /** The first entries that have the version of the first one. */
  function RunLength<V(==,!new)>(list: seq<Module<V>>): (n: nat)
    requires list != []
    ensures 1 <= n <= |list|
    ensures forall i :: 0 <= i < n ==> list[i].version == list[0].version
    ensures n < |list| ==> list[n].version != list[0].version
  {
    if |list| == 1 || list[1].version != list[0].version then 1 else 1 + RunLength(list[1..])
  }

  predicate SameChecksums<V(==,!new)>(list: seq<Module<V>>) {
    forall i, j :: 0 <= i < j < |list| ==> list[i].sha256 == list[j].sha256
  }

  /** What a pass builds, and the version it gives up at. */
  function Groups<V(==,!new)>(list: seq<Module<V>>): (seq<Module<V>>, Option<V>)
    decreases |list|
  {
    if list == [] then ([], None)
    else
      var n := RunLength(list);
      if !SameChecksums(list[..n]) then ([], Some(list[0].version))
      else
        var (jobs, conflict) := Groups(list[n..]);
        ([list[0]] + jobs, conflict)
  }

  /** The jobs started so far, then those of the rest of the list. */
  function After<V(==,!new)>(jobs: seq<Module<V>>, rest: (seq<Module<V>>, Option<V>)): (seq<Module<V>>, Option<V>) {
    (jobs + rest.0, rest.1)
  }

  method AuditAll<V(==,!new)>(toolchains: seq<Module<V>>) returns (jobs: seq<Module<V>>, conflict: Option<V>)
    ensures (jobs, conflict) == Groups(toolchains)
  {
    jobs := [];
    var i := 0;
    hide Groups, After;
    AfterNothing(jobs);
    assert toolchains[0..] == toolchains;
    while i < |toolchains|
      invariant i <= |toolchains|
      invariant Groups(toolchains) == After(jobs, Groups(toolchains[i..]))
    {
      ghost var start := i;
      var version, sha256 := toolchains[i].version, toolchains[i].sha256;
      i := i + 1;
      var inconsistent := false;
      while i < |toolchains| && toolchains[i].version == version
        invariant start < i <= |toolchains|
        invariant forall k :: start <= k < i ==> toolchains[k].version == version
        invariant inconsistent <==> exists k :: start <= k < i && toolchains[k].sha256 != sha256
      {
        if toolchains[i].sha256 != sha256 {
          inconsistent := true;
        }
        i := i + 1;
      }
      RunEnds(toolchains, start, i, inconsistent);
      if inconsistent {
        AfterNothing(jobs);
        return jobs, Some(version);
      }
      AfterOne(jobs, Module(version, sha256), Groups(toolchains[i..]));
      jobs := jobs + [Module(version, sha256)];
    }
    AfterNothing(jobs);
    assert toolchains[i..] == [];
    return jobs, None;
  }

  lemma AfterOne<V(!new)>(jobs: seq<Module<V>>, job: Module<V>, rest: (seq<Module<V>>, Option<V>))
    ensures After(jobs, After([job], rest)) == After(jobs + [job], rest)
  {
    assert jobs + ([job] + rest.0) == jobs + [job] + rest.0;
  }

  lemma AfterNothing<V(!new)>(jobs: seq<Module<V>>)
    ensures After(jobs, Groups([])) == (jobs, None)
    ensures forall v :: After(jobs, ([], Some(v))) == (jobs, Some(v))
    ensures forall rest: (seq<Module<V>>, Option<V>) :: After([], rest) == rest
  {
    assert jobs + [] == jobs;
    assert forall rest: seq<Module<V>> :: [] + rest == rest;
    assert forall rest: (seq<Module<V>>, Option<V>) :: After([], rest) == (rest.0, rest.1);
  }

  lemma {:induction false} RunLengthIs<V(!new)>(list: seq<Module<V>>, n: nat)
    requires 1 <= n <= |list| && forall i :: 0 <= i < n ==> list[i].version == list[0].version
    requires n < |list| ==> list[n].version != list[0].version
    ensures RunLength(list) == n
  {
    if n > 1 {
      RunLengthIs(list[1..], n - 1);
    }
  }

  lemma RunEnds<V(!new)>(list: seq<Module<V>>, start: nat, end: nat, inconsistent: bool)
    requires start < end <= |list|
    requires forall k :: start <= k < end ==> list[k].version == list[start].version
    requires end < |list| ==> list[end].version != list[start].version
    requires inconsistent <==> exists k :: start <= k < end && list[k].sha256 != list[start].sha256
    ensures Groups(list[start..]) ==
      if inconsistent then ([], Some(list[start].version)) else After([list[start]], Groups(list[end..]))
  {
    var rest, n := list[start..], end - start;
    RunLengthIs(rest, n);
    assert rest[n..] == list[end..];
    if inconsistent {
      var k :| start <= k < end && list[k].sha256 != list[start].sha256;
      assert rest[..n][k - start] == list[k] && rest[..n][0] == list[start];
    } else {
      forall i, j | 0 <= i < j < n
        ensures rest[..n][i].sha256 == rest[..n][j].sha256
      {
        assert rest[..n][i] == list[start + i] && rest[..n][j] == list[start + j];
      }
    }
  }

  // ---- One pass ----

  /** Entries of one version stand together, as they do after sorting. */
  ghost predicate Grouped<V(!new)>(list: seq<Module<V>>) {
    forall i, j, k :: 0 <= i < j < k < |list| && list[i].version == list[k].version ==>
      list[j].version == list[i].version
  }

  ghost predicate IsStrictOrder<V(!new)>(less: (V, V) -> bool) {
    && (forall a, b :: a != b ==> less(a, b) || less(b, a))
    && (forall a, b :: less(a, b) ==> !less(b, a))
    && (forall a, b, c :: less(a, b) && less(b, c) ==> less(a, c))
  }

  ghost predicate Sorted<V(!new)>(less: (V, V) -> bool, list: seq<Module<V>>) {
    forall i, j :: 0 <= i < j < |list| ==> !less(list[j].version, list[i].version)
  }

  lemma SortedIsGrouped<V(!new)>(less: (V, V) -> bool, list: seq<Module<V>>)
    requires IsStrictOrder(less) && Sorted(less, list)
    ensures Grouped(list)
  {
  }

  ghost predicate Conflicting<V(!new)>(list: seq<Module<V>>, version: V) {
    exists i, j :: 0 <= i < |list| && 0 <= j < |list|
      && list[i].version == list[j].version == version && list[i].sha256 != list[j].sha256
  }

  lemma TwoChecksums<V(!new)>(list: seq<Module<V>>, version: V, a: seq<byte>, b: seq<byte>)
    requires Module(version, a) in list && Module(version, b) in list && a != b
    ensures Conflicting(list, version)
  {
    var i :| 0 <= i < |list| && list[i] == Module(version, a);
    var j :| 0 <= j < |list| && list[j] == Module(version, b);
    assert list[i].version == list[j].version;
  }

  ghost predicate Occurs<V(!new)>(list: seq<Module<V>>, version: V) {
    exists i :: 0 <= i < |list| && list[i].version == version
  }

  /** What a pass does to a grouped list. */
  ghost predicate PassOk<V(!new)>(list: seq<Module<V>>, jobs: seq<Module<V>>, conflict: Option<V>) {
    // no version twice, each with the one checksum it has in the list
    && (forall i, j :: 0 <= i < j < |jobs| ==> jobs[i].version != jobs[j].version)
    && (forall i :: 0 <= i < |jobs| ==> !Conflicting(list, jobs[i].version))
    // in the order of the list
    && InOrder(list, jobs)
    // it stops at the first version with two checksums, or visits every version
    && exists end :: StopsAt(list, jobs, conflict, end)
  }

  ghost predicate InOrder<V(!new)>(list: seq<Module<V>>, jobs: seq<Module<V>>) {
    forall a, b, p, q :: 0 <= a < b < |jobs| && 0 <= p < |list| && 0 <= q < |list| ==>
      list[p] == jobs[a] && list[q] == jobs[b] ==> p < q
  }

  /** Exactly what stands before `end` was started. */
  ghost predicate StopsAt<V(!new)>(list: seq<Module<V>>, jobs: seq<Module<V>>, conflict: Option<V>, end: nat) {
    && end <= |list|
    && (forall m :: m in jobs <==> m in list[..end])
    && match conflict
       case None => end == |list|
       case Some(version) => end < |list| && list[end].version == version && Conflicting(list, version)
  }

  lemma {:induction false} PassIsOk<V(!new)>(list: seq<Module<V>>)
    requires Grouped(list)
    ensures PassOk(list, Groups(list).0, Groups(list).1)
    decreases |list|
  {
    if list != [] {
      var n := RunLength(list);
      var rest := list[n..];
      if SameChecksums(list[..n]) {
        PassIsOk(rest);
        OtherVersions(list, n);
        PassJoins(list, n, Groups(rest).0, Groups(rest).1);
      } else {
        var i, j :| 0 <= i < j < n && list[..n][i].sha256 != list[..n][j].sha256;
        assert list[i].version == list[j].version == list[0].version;
        assert StopsAt(list, [], Some(list[0].version), 0);
      }
    } else {
      assert StopsAt(list, [], None, 0);
    }
  }

  /** After its run a version does not come again. */
  lemma OtherVersions<V(!new)>(list: seq<Module<V>>, n: nat)
    requires Grouped(list) && list != [] && n == RunLength(list)
    ensures Grouped(list[n..])
    ensures forall k :: n <= k < |list| ==> list[k].version != list[0].version
  {
    forall k | n <= k < |list|
      ensures list[k].version != list[0].version
    {
      var first, next, other := list[0], list[n], list[k];
    }
  }

  lemma ConflictInRest<V(!new)>(list: seq<Module<V>>, n: nat, version: V)
    requires n <= |list| && (forall i, j :: 0 <= i < n <= j < |list| ==> list[i].version != list[j].version)
    requires Occurs(list[n..], version)
    ensures Conflicting(list, version) <==> Conflicting(list[n..], version)
  {
    var rest := list[n..];
    var o :| 0 <= o < |rest| && rest[o].version == version;
    assert list[n + o] == rest[o];
    if Conflicting(rest, version) {
      var i, j :| 0 <= i < |rest| && 0 <= j < |rest|
        && rest[i].version == rest[j].version == version && rest[i].sha256 != rest[j].sha256;
      assert list[n + i] == rest[i] && list[n + j] == rest[j];
    }
    if Conflicting(list, version) {
      var i, j :| 0 <= i < |list| && 0 <= j < |list|
        && list[i].version == list[j].version == version && list[i].sha256 != list[j].sha256;
      assert rest[i - n] == list[i] && rest[j - n] == list[j];
    }
  }

  /** What the entries after the first run are in the whole list. */
  lemma RestInList<V(!new)>(list: seq<Module<V>>, n: nat, m: Module<V>)
    requires n <= |list| && (forall i, j :: 0 <= i < n <= j < |list| ==> list[i].version != list[j].version)
    requires m in list[n..]
    ensures m in list && (n > 0 ==> m.version != list[0].version)
    ensures Conflicting(list, m.version) <==> Conflicting(list[n..], m.version)
  {
    var o :| 0 <= o < |list[n..]| && list[n..][o] == m;
    assert list[n + o] == m;
    ConflictInRest(list, n, m.version);
  }

  lemma FirstRun<V(!new)>(list: seq<Module<V>>, n: nat)
    requires 1 <= n <= |list| && SameChecksums(list[..n])
    requires forall i :: 0 <= i < n ==> list[i].version == list[0].version
    requires forall k :: n <= k < |list| ==> list[k].version != list[0].version
    ensures forall i :: 0 <= i < n ==> list[i] == list[0]
    ensures !Conflicting(list, list[0].version)
  {
    forall i | 0 <= i < n
      ensures list[i] == list[0]
    {
      assert list[..n][i] == list[i] && list[..n][0] == list[0];
    }
  }

  lemma PassJoins<V(!new)>(list: seq<Module<V>>, n: nat, jobs: seq<Module<V>>, conflict: Option<V>)
    requires 1 <= n <= |list| && SameChecksums(list[..n])
    requires forall i :: 0 <= i < n ==> list[i].version == list[0].version
    requires forall k :: n <= k < |list| ==> list[k].version != list[0].version
    requires PassOk(list[n..], jobs, conflict)
    ensures PassOk(list, [list[0]] + jobs, conflict)
  {
    hide Conflicting, SameChecksums, StopsAt, InOrder;
    var rest, all := list[n..], [list[0]] + jobs;
    FirstRun(list, n);
    var end :| StopsAt(rest, jobs, conflict, end);
    JobsAreLater(list, n, jobs, conflict, end);
    StopJoins(list, n, jobs, conflict, end);
    OrderJoins(list, n, jobs);
    assert forall i :: 0 < i < |all| ==> all[i] == jobs[i - 1] && jobs[i - 1] in jobs;
  }

  lemma OrderJoins<V(!new)>(list: seq<Module<V>>, n: nat, jobs: seq<Module<V>>)
    requires 1 <= n <= |list| && InOrder(list[n..], jobs)
    requires forall i :: 0 <= i < n ==> list[i] == list[0]
    requires forall k :: n <= k < |list| ==> list[k].version != list[0].version
    requires forall m :: m in jobs ==> m.version != list[0].version
    ensures InOrder(list, [list[0]] + jobs)
  {
    var rest, all := list[n..], [list[0]] + jobs;
    forall a, b, p, q | 0 <= a < b < |all| && 0 <= p < |list| && 0 <= q < |list|
      ensures list[p] == all[a] && list[q] == all[b] ==> p < q
    {
      if list[p] == all[a] && list[q] == all[b] {
        assert all[b] == jobs[b - 1] && rest[q - n] == jobs[b - 1];
        assert a > 0 ==> all[a] == jobs[a - 1] && rest[p - n] == jobs[a - 1];
      }
    }
  }

  lemma JobsAreLater<V(!new)>(list: seq<Module<V>>, n: nat, jobs: seq<Module<V>>, conflict: Option<V>, end: nat)
    requires 1 <= n <= |list| && StopsAt(list[n..], jobs, conflict, end)
    requires forall i :: 0 <= i < n ==> list[i].version == list[0].version
    requires forall k :: n <= k < |list| ==> list[k].version != list[0].version
    ensures forall m :: m in jobs ==>
      m.version != list[0].version && (Conflicting(list, m.version) <==> Conflicting(list[n..], m.version))
  {
    forall m | m in jobs
      ensures m.version != list[0].version && (Conflicting(list, m.version) <==> Conflicting(list[n..], m.version))
    {
      RestInList(list, n, m);
    }
  }

  lemma StopJoins<V(!new)>(list: seq<Module<V>>, n: nat, jobs: seq<Module<V>>, conflict: Option<V>, end: nat)
    requires 1 <= n <= |list| && StopsAt(list[n..], jobs, conflict, end)
    requires forall i :: 0 <= i < n ==> list[i] == list[0]
    requires forall k :: n <= k < |list| ==> list[k].version != list[0].version
    ensures StopsAt(list, [list[0]] + jobs, conflict, n + end)
  {
    var rest := list[n..];
    if conflict.Some? {
      RestInList(list, n, rest[end]);
    }
    assert list[..n + end] == list[..n] + rest[..end];
    assert list[..n][0] == list[0];
    assert forall m :: m in list[..n] <==> m == list[0];
  }

  // ---- Pass after pass ----

  /** The query for unbuilt toolchains, sorted. */
  ghost predicate Queried<V(!new)>(records: seq<Module<V>>, built: set<V>, list: seq<Module<V>>) {
    Grouped(list) && forall m :: m in list <==> m in records && m.version !in built
  }

  function Versions<V(==,!new)>(jobs: seq<Module<V>>): set<V> {
    set m | m in jobs :: m.version
  }

  /** A pass without errors: every job and the conflict, if any, get a row in toolchain_build. */
  ghost predicate Pass<V(!new)>(records: seq<Module<V>>, built: set<V>, built': set<V>) {
    exists list :: Queried(records, built, list) && built' == built + Stored(Groups(list))
  }

  function Stored<V(==,!new)>(groups: (seq<Module<V>>, Option<V>)): set<V> {
    Versions(groups.0) + if groups.1.Some? then {groups.1.value} else {}
  }

  ghost predicate Complete<V(!new)>(records: seq<Module<V>>, built: set<V>) {
    forall m :: m in records ==> m.version in built
  }

  /** The versions with two checksums that no pass has come to. */
  ghost function ConflictsLeft<V(!new)>(records: seq<Module<V>>, built: set<V>): set<V> {
    set v | v in Versions(records) && Conflicting(records, v) && v !in built
  }

  lemma ConflictIsRecorded<V(!new)>(records: seq<Module<V>>, built: set<V>, list: seq<Module<V>>, v: V)
    requires Queried(records, built, list) && Conflicting(list, v)
    ensures v in ConflictsLeft(records, built)
  {
    var i, j :| 0 <= i < |list| && 0 <= j < |list|
      && list[i].version == list[j].version == v && list[i].sha256 != list[j].sha256;
    assert list[i] in list && list[j] in list;
    var a :| 0 <= a < |records| && records[a] == list[i];
    var b :| 0 <= b < |records| && records[b] == list[j];
    assert Conflicting(records, v);
    assert records[a] in records;
  }

  /** A pass that leaves something out has dealt with one more conflicting version. */
  lemma PassProgress<V(!new)>(records: seq<Module<V>>, built: set<V>, built': set<V>)
    requires Pass(records, built, built')
    ensures built <= built'
    ensures Complete(records, built') || |ConflictsLeft(records, built')| < |ConflictsLeft(records, built)|
  {
    var list: seq<Module<V>> :| Queried(records, built, list) && built' == built + Stored(Groups(list));
    PassIsOk(list);
    var (jobs, conflict) := Groups(list);
    hide Conflicting, Groups, Grouped;
    if conflict.None? {
      forall m | m in records
        ensures m.version in built'
      {
        assert m.version in built || m in jobs;
      }
    } else {
      ConflictIsRecorded(records, built, list, conflict.value);
      SmallerSet(ConflictsLeft(records, built'), ConflictsLeft(records, built), conflict.value);
    }
  }

  lemma SmallerSet<T>(a: set<T>, b: set<T>, x: T)
    requires a <= b && x in b && x !in a
    ensures |a| < |b|
  {
    assert a <= b - {x};
    SubsetSize(a, b - {x});
  }

  lemma {:induction false} SubsetSize<T>(a: set<T>, b: set<T>)
    requires a <= b
    ensures |a| <= |b|
    decreases |a|
  {
    if a != {} {
      var x :| x in a;
      SubsetSize(a - {x}, b - {x});
    }
  }

  ghost predicate PassAt<V(!new)>(records: seq<Module<V>>, states: seq<set<V>>, i: nat)
    requires i + 1 < |states|
  {
    Pass(records, states[i], states[i + 1])
  }

  /** With k versions of two checksums, k + 1 passes leave every version with a result. */
  lemma {:induction false} PassesComplete<V(!new)>(records: seq<Module<V>>, states: seq<set<V>>)
    requires |states| >= 1 && |states| >= |ConflictsLeft(records, states[0])| + 2
    requires forall i: nat :: i + 1 < |states| ==> PassAt(records, states, i)
    ensures Complete(records, states[|states| - 1])
    decreases |states|
  {
    assert PassAt(records, states, 0);
    PassProgress(records, states[0], states[1]);
    if Complete(records, states[1]) {
      StaysComplete(records, states, |states| - 1);
    } else {
      var rest := states[1..];
      forall i: nat | i + 1 < |rest|
        ensures PassAt(records, rest, i)
      {
        assert PassAt(records, states, i + 1);
      }
      PassesComplete(records, rest);
    }
  }

  lemma {:induction false} StaysComplete<V(!new)>(records: seq<Module<V>>, states: seq<set<V>>, j: nat)
    requires 1 <= j < |states| && Complete(records, states[1])
    requires forall i: nat :: i + 1 < |states| ==> PassAt(records, states, i)
    ensures Complete(records, states[j])
  {
    if j > 1 {
      StaysComplete(records, states, j - 1);
      assert PassAt(records, states, j - 1);
      PassProgress(records, states[j - 1], states[j]);
    }
  }
}
