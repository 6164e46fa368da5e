/**
 Where one ingester after another leaves the tables, for a fixed log and fixed stored tree
 heads, and why crashes do not matter: internal/records/ingest.go.
 */
module Progress {
  import opened Wrappers
  import opened Records
  import opened Merkle
  import opened Database

  type RootOrder = (Hash, Hash) -> bool

  ghost predicate IsTotalOrder(leq: RootOrder) {
    && (forall a, b :: leq(a, b) || leq(b, a))
    && (forall a, b :: leq(a, b) && leq(b, a) ==> a == b)
    && (forall a, b, c :: leq(a, b) && leq(b, c) ==> leq(a, c))
  }

  // ---- The query for the next tree heads ----

  /** The least stored root of a size. */
  function LeastRoot(leq: RootOrder, sths: seq<SthRow>, treeSize: nat): Option<Hash> {
    if sths == [] then None
    else
      var least, last := LeastRoot(leq, sths[..|sths| - 1], treeSize), sths[|sths| - 1];
      if last.treeSize == treeSize && (least.None? || leq(last.rootHash, least.value))
      then Some(last.rootHash) else least
  }

  lemma {:induction false} LeastRootIsLeast(leq: RootOrder, sths: seq<SthRow>, treeSize: nat)
    requires IsTotalOrder(leq)
    ensures var r := LeastRoot(leq, sths, treeSize);
      if r.Some? then IsLeastRoot(leq, sths, Candidate(treeSize, r.value))
      else forall k :: 0 <= k < |sths| ==> sths[k].treeSize != treeSize
  {
    if sths != [] {
      var shorter, last := sths[..|sths| - 1], sths[|sths| - 1];
      LeastRootIsLeast(leq, shorter, treeSize);
      var before, r := LeastRoot(leq, shorter, treeSize), LeastRoot(leq, sths, treeSize);
      if r.Some? {
        if before.Some? && r == before {
          var i :| 0 <= i < |shorter| && shorter[i].treeSize == treeSize && shorter[i].rootHash == r.value;
          assert sths[i] == shorter[i];
        }
        forall k | 0 <= k < |sths| && sths[k].treeSize == treeSize
          ensures leq(r.value, sths[k].rootHash)
        {
          assert k < |shorter| ==> sths[k] == shorter[k];
        }
      }
    }
  }

  function MaxSize(sths: seq<SthRow>, least: nat): (size: nat)
    ensures size >= least && forall k :: 0 <= k < |sths| ==> sths[k].treeSize <= size
    ensures size == least || exists k :: 0 <= k < |sths| && sths[k].treeSize == size
  {
    if sths == [] then least
    else
      var rest, last := MaxSize(sths[..|sths| - 1], least), sths[|sths| - 1];
      assert forall k :: 0 <= k < |sths| - 1 ==> sths[k] == sths[..|sths| - 1][k];
      if last.treeSize > rest then last.treeSize else rest
  }

  /** The candidates of sizes above `size` and up to `top`. */
  function CandidatesUpTo(leq: RootOrder, sths: seq<SthRow>, size: nat, top: nat): seq<Candidate> {
    if top <= size then []
    else
      var earlier, root := CandidatesUpTo(leq, sths, size, top - 1), LeastRoot(leq, sths, top);
      if root.Some? then earlier + [Candidate(top, root.value)] else earlier
  }

  /** The answer of the query in loadIngestState. */
  function SelectNextSths(leq: RootOrder, sths: seq<SthRow>, size: nat): seq<Candidate> {
    CandidatesUpTo(leq, sths, size, MaxSize(sths, size))
  }

  lemma {:induction false} CandidatesUpToOk(leq: RootOrder, sths: seq<SthRow>, size: nat, top: nat)
    requires IsTotalOrder(leq)
    ensures var next := CandidatesUpTo(leq, sths, size, top);
      && (forall i :: 0 <= i < |next| ==> size < next[i].treeSize <= top && IsLeastRoot(leq, sths, next[i]))
      && (forall i, j :: 0 <= i < j < |next| ==> next[i].treeSize < next[j].treeSize)
      && (forall k :: 0 <= k < |sths| && size < sths[k].treeSize <= top ==> HasCandidate(next, sths[k].treeSize))
  {
    hide IsLeastRoot, IsTotalOrder;
    if top > size {
      CandidatesUpToOk(leq, sths, size, top - 1);
      LeastRootIsLeast(leq, sths, top);
      var earlier, next := CandidatesUpTo(leq, sths, size, top - 1), CandidatesUpTo(leq, sths, size, top);
      forall k | 0 <= k < |sths| && size < sths[k].treeSize <= top
        ensures HasCandidate(next, sths[k].treeSize)
      {
        if sths[k].treeSize == top {
          assert next[|next| - 1].treeSize == top;
        } else {
          assert HasCandidate(earlier, sths[k].treeSize);
          var i :| 0 <= i < |earlier| && earlier[i].treeSize == sths[k].treeSize;
          assert next[i] == earlier[i];
        }
      }
    }
  }

  /** The query has the answer that the state machine describes. */
  lemma SelectMeansNext(leq: RootOrder, sths: seq<SthRow>, size: nat)
    requires IsTotalOrder(leq)
    ensures NextSths(leq, sths, size, SelectNextSths(leq, sths, size))
    ensures forall i, k :: 0 <= i < |SelectNextSths(leq, sths, size)| && 0 <= k < |sths| ==>
      var c := SelectNextSths(leq, sths, size)[i];
      sths[k].treeSize == c.treeSize ==> leq(c.rootHash, sths[k].rootHash)
  {
    CandidatesUpToOk(leq, sths, size, MaxSize(sths, size));
  }

  lemma LastCandidate(leq: RootOrder, sths: seq<SthRow>, size: nat, next: seq<Candidate>)
    requires NextSths(leq, sths, size, next)
    ensures MaxSize(sths, size) == if next == [] then size else next[|next| - 1].treeSize
  {
    var top := MaxSize(sths, size);
    forall k | 0 <= k < |sths| && sths[k].treeSize > size
      ensures next != [] && sths[k].treeSize <= next[|next| - 1].treeSize
    {
      assert HasCandidate(next, sths[k].treeSize);
      var i :| 0 <= i < |next| && next[i].treeSize == sths[k].treeSize;
      assert i < |next| - 1 ==> next[i].treeSize < next[|next| - 1].treeSize;
    }
    if next != [] {
      var last := next[|next| - 1];
      assert HasSth(sths, last.treeSize, last.rootHash);
    }
  }

  /** Taking the first candidate once its size is reached leaves the answer for that size. */
  lemma PassSize(leq: RootOrder, sths: seq<SthRow>, size: nat, next: seq<Candidate>)
    requires NextSths(leq, sths, size, next)
    ensures NextSths(leq, sths, size + 1,
                     if next != [] && next[0].treeSize == size + 1 then next[1..] else next)
  {
    hide IsLeastRoot;
    var first := next != [] && next[0].treeSize == size + 1;
    var rest := if first then next[1..] else next;
    assert !first && next != [] ==> next[0].treeSize > size + 1;
    forall k | 0 <= k < |sths| && sths[k].treeSize > size + 1
      ensures HasCandidate(rest, sths[k].treeSize)
    {
      assert HasCandidate(next, sths[k].treeSize);
      var i :| 0 <= i < |next| && next[i].treeSize == sths[k].treeSize;
      assert first ==> i > 0 && rest[i - 1] == next[i];
    }
  }

  // ---- Where the verified position belongs ----

  /** The candidate of size n has the root of the first n records. */
  ghost predicate IsAnchor(leq: RootOrder, sths: seq<SthRow>, log: seq<Record>, n: nat) {
    1 <= n <= |log| && IsLeastRoot(leq, sths, Candidate(n, RootOfLog(log[..n])))
  }

  /** The largest anchor in (from, to]. */
  ghost function LastAnchor(leq: RootOrder, sths: seq<SthRow>, log: seq<Record>, from: nat, to: nat): Option<nat> {
    if to <= from then None
    else if IsAnchor(leq, sths, log, to) then Some(to)
    else LastAnchor(leq, sths, log, from, to - 1)
  }

  lemma {:induction false} LastAnchorIsLargest(leq: RootOrder, sths: seq<SthRow>, log: seq<Record>, from: nat, to: nat)
    ensures var r := LastAnchor(leq, sths, log, from, to);
      if r.Some? then
        && from < r.value <= to && IsAnchor(leq, sths, log, r.value)
        && forall n :: r.value < n <= to ==> !IsAnchor(leq, sths, log, n)
      else forall n :: from < n <= to ==> !IsAnchor(leq, sths, log, n)
  {
    if from < to && !IsAnchor(leq, sths, log, to) {
      LastAnchorIsLargest(leq, sths, log, from, to - 1);
    }
  }

  lemma {:induction false} LastAnchorSplit(leq: RootOrder, sths: seq<SthRow>, log: seq<Record>,
                                           from: nat, mid: nat, to: nat)
    requires from <= mid <= to
    ensures LastAnchor(leq, sths, log, from, to) ==
      var late := LastAnchor(leq, sths, log, mid, to);
      if late.Some? then late else LastAnchor(leq, sths, log, from, mid)
  {
    if mid < to {
      LastAnchorSplit(leq, sths, log, from, mid, to - 1);
    }
  }

  /** The head of the candidates tells whether the next size is an anchor. */
  lemma HeadIsAnchor(leq: RootOrder, sths: seq<SthRow>, log: seq<Record>, size: nat, next: seq<Candidate>)
    requires IsTotalOrder(leq) && NextSths(leq, sths, size, next) && size < |log|
    ensures IsAnchor(leq, sths, log, size + 1) <==>
            next != [] && next[0] == Candidate(size + 1, RootOfLog(log[..size + 1]))
  {
    var root := RootOfLog(log[..size + 1]);
    if IsAnchor(leq, sths, log, size + 1) {
      var k :| 0 <= k < |sths| && sths[k].treeSize == size + 1 && sths[k].rootHash == root;
      assert HasCandidate(next, sths[k].treeSize);
      var i :| 0 <= i < |next| && next[i].treeSize == size + 1;
      assert next[0].treeSize <= next[i].treeSize;
      SameLeastRoot(leq, sths, next[0], Candidate(size + 1, root));
    }
  }

  lemma SameLeastRoot(leq: RootOrder, sths: seq<SthRow>, a: Candidate, b: Candidate)
    requires IsTotalOrder(leq) && IsLeastRoot(leq, sths, a) && IsLeastRoot(leq, sths, b)
    requires a.treeSize == b.treeSize
    ensures a == b
  {
    var i :| 0 <= i < |sths| && sths[i].treeSize == a.treeSize && sths[i].rootHash == a.rootHash;
    var j :| 0 <= j < |sths| && sths[j].treeSize == b.treeSize && sths[j].rootHash == b.rootHash;
    assert leq(a.rootHash, sths[j].rootHash) && leq(b.rootHash, sths[i].rootHash);
  }

  // ---- The tables after n records of the log ----

  ghost predicate Stores(db: Db, log: seq<Record>) {
    && |db.records| <= |log|
    && db.records == Rows(log[..|db.records|])
    && db.download == TreeOfLog(log[..|db.records|])
  }

  /** From tables that store a part of the log: those that store its first n records. */
  ghost function Advance(leq: RootOrder, db: Db, log: seq<Record>, n: nat): Db
    requires |db.records| <= n <= |log|
  {
    var anchor := LastAnchor(leq, db.sths, log, |db.records|, n);
    LastAnchorIsLargest(leq, db.sths, log, |db.records|, n);
    db.(records := Rows(log[..n]),
        download := TreeOfLog(log[..n]),
        verified := if anchor.Some? then Some(TreeOfLog(log[..anchor.value])) else db.verified)
  }

  lemma AdvanceNothing(leq: RootOrder, db: Db, log: seq<Record>)
    requires Stores(db, log)
    ensures Advance(leq, db, log, |db.records|) == db
  {
  }

  /** Going on after a stop is the same as not stopping. */
  lemma AdvanceTwice(leq: RootOrder, db: Db, log: seq<Record>, m: nat, n: nat)
    requires |db.records| <= m <= n <= |log|
    ensures Stores(Advance(leq, db, log, m), log)
    ensures |Advance(leq, db, log, m).records| == m && Advance(leq, db, log, m).sths == db.sths
    ensures Advance(leq, Advance(leq, db, log, m), log, n) == Advance(leq, db, log, n)
  {
    LastAnchorSplit(leq, db.sths, log, |db.records|, m, n);
    LastAnchorIsLargest(leq, db.sths, log, m, n);
  }

  /** Committing the records from m to n, when no size strictly between was an anchor. */
  lemma CommitAdvances(leq: RootOrder, db: Db, log: seq<Record>, m: nat, n: nat, verified: bool)
    requires |db.records| <= m <= n <= |log|
    requires forall k :: m < k < n ==> !IsAnchor(leq, db.sths, log, k)
    requires m < n ==> (verified <==> IsAnchor(leq, db.sths, log, n))
    requires verified ==> m < n
    ensures CommitBatch(Advance(leq, db, log, m), Batch(log[..m], log[m..n]), TreeOfLog(log[..n]), verified)
            == Some(Advance(leq, db, log, n))
  {
    assert log[..m] + log[m..n] == log[..n];
    CopyBatch(log[..m], log[m..n]);
    LastAnchorSplit(leq, db.sths, log, |db.records|, m, n);
    LastAnchorIsLargest(leq, db.sths, log, m, n);
  }

  // ---- Crashes ----

  /** How far the stored tree heads ask the ingester to go. */
  function Goal(db: Db): nat {
    MaxSize(db.sths, |db.records|)
  }

  /** What a run of Ingest can do to the tables; `ok` says that it returned no error. */
  ghost predicate IngestOutcome(leq: RootOrder, log: seq<Record>, db: Db, db': Db, ok: bool) {
    && Goal(db) <= |log|
    && exists n :: |db.records| <= n <= Goal(db) && db' == Advance(leq, db, log, n) && (ok ==> n == Goal(db))
  }

  /** Runs of Ingest one after the other, each from where the last one stopped. */
  ghost predicate Runs(leq: RootOrder, log: seq<Record>, dbs: seq<Db>, oks: seq<bool>) {
    && |dbs| == |oks| + 1
    && forall i :: 0 <= i < |oks| ==> IngestOutcome(leq, log, dbs[i], dbs[i + 1], oks[i])
  }

  lemma {:induction false} RunsAdvance(leq: RootOrder, log: seq<Record>, dbs: seq<Db>, oks: seq<bool>, i: nat)
      returns (n: nat)
    requires Runs(leq, log, dbs, oks) && i < |dbs|
    requires Stores(dbs[0], log) && Goal(dbs[0]) <= |log|
    ensures |dbs[0].records| <= n <= Goal(dbs[0]) && dbs[i] == Advance(leq, dbs[0], log, n)
    ensures i > 0 && oks[i - 1] ==> n == Goal(dbs[0])
  {
    hide Advance, MaxSize, Stores;
    if i == 0 {
      n := |dbs[0].records|;
      AdvanceNothing(leq, dbs[0], log);
    } else {
      var m := RunsAdvance(leq, log, dbs, oks, i - 1);
      assert IngestOutcome(leq, log, dbs[i - 1], dbs[i], oks[i - 1]);
      n := OneMoreRun(leq, log, dbs[0], m, dbs[i], oks[i - 1]);
    }
  }

  /** A run that starts where earlier ones stopped goes on towards the same goal. */
  lemma OneMoreRun(leq: RootOrder, log: seq<Record>, db: Db, m: nat, db': Db, ok: bool) returns (n: nat)
    requires Stores(db, log) && Goal(db) <= |log| && |db.records| <= m <= Goal(db)
    requires IngestOutcome(leq, log, Advance(leq, db, log, m), db', ok)
    ensures m <= n <= Goal(db) && db' == Advance(leq, db, log, n) && (ok ==> n == Goal(db))
    ensures Goal(Advance(leq, db, log, m)) == Goal(db)
  {
    hide Advance, MaxSize, Stores;
    var db1 := Advance(leq, db, log, m);
    AdvanceTwice(leq, db, log, m, m);
    n :| |db1.records| <= n <= Goal(db1) && db' == Advance(leq, db1, log, n) && (ok ==> n == Goal(db1));
    GoalReached(db.sths, |db.records|, m);
    AdvanceTwice(leq, db, log, m, n);
  }

  lemma GoalReached(sths: seq<SthRow>, least: nat, m: nat)
    requires least <= m <= MaxSize(sths, least)
    ensures MaxSize(sths, m) == MaxSize(sths, least)
  {
  }

  /**
   Any number of failed runs followed by a successful one end in the same tables as one
   successful run.
   */
  lemma CrashesDoNotMatter(leq: RootOrder, log: seq<Record>, dbs: seq<Db>, oks: seq<bool>, db': Db)
    requires Runs(leq, log, dbs, oks) && Stores(dbs[0], log) && Goal(dbs[0]) <= |log|
    requires |oks| >= 1 && oks[|oks| - 1]
    requires IngestOutcome(leq, log, dbs[0], db', true)
    ensures dbs[|oks|] == db'
  {
    var n := RunsAdvance(leq, log, dbs, oks, |oks|);
  }
}
