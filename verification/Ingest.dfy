/** One ingester at work, statement by statement: internal/records/ingest.go. */
module Ingest {
  import opened Wrappers
  import opened Records
  import opened Merkle
  import opened Database
  import opened Auditor
  import opened Progress
  import opened SqlServer
  import Download

  class IngestState {
    const server: Server
    var address: string
    var tree: CollapsedTree
    var sths: seq<Candidate>
    var tx: bool
    var copyStmt: bool
    var copied: seq<Pending>  // rows sent with COPY in the open transaction
    var pendingRecords: nat

    constructor (server: Server, address: string, tree: CollapsedTree, sths: seq<Candidate>)
      ensures this.server == server && this.address == address && this.tree == tree && this.sths == sths
      ensures !tx && !copyStmt && copied == [] && pendingRecords == 0
    {
      this.server, this.address, this.tree, this.sths := server, address, tree, sths;
      tx, copyStmt, copied, pendingRecords := false, false, [], 0;
    }

    /** A transaction is open and the counter agrees with it. */
    predicate Open()
      reads this, server
    {
      tx && copyStmt && server.locked && pendingRecords == |copied|
    }

    predicate Closed()
      reads this, server
    {
      !tx && !copyStmt && !server.locked && pendingRecords == |copied| == 0
    }

    /** This object as a value, for a run from `begin` to `end`. */
    function View(begin: nat, end: nat): Ingester
      reads this
    {
      Ingester(address, tree, begin, end, sths, copied)
    }

    /** The precondition is that the panic of the source is not reached. */
    method Begin() returns (ok: bool)
      requires Closed()
      modifies this`tx, this`copyStmt, server`fuse, server`locked
      ensures if ok then Open() else Closed()
      ensures ok <==> old(server.fuse) >= 3 && address == server.db.address && tree == server.db.download
      ensures ok ==> server.fuse == old(server.fuse) - 3
    {
      ok := server.Statement();
      if !ok {
        return;
      }
      ok := server.Statement();
      if !ok {
        return;
      }
      server.locked := true;
      if address != server.db.address || tree != server.db.download {
        server.locked := false;
        return false;
      }
      ok := server.Statement();
      if !ok {
        server.locked := false;
        return;
      }
      tx, copyStmt := true, true;
    }

    method Commit(verified: bool) returns (ok: bool)
      requires Open()
      modifies this, server
      ensures address == old(address) && tree == old(tree) && sths == old(sths)
      ensures if ok then Closed() && Some(server.db) == old(CommitBatch(server.db, copied, tree, verified))
              else server.db == old(server.db)
      ensures ok <==> old(server.fuse) >= 4 && old(CommitBatch(server.db, copied, tree, verified)).Some?
      ensures ok ==> server.fuse == old(server.fuse) - 4
      ensures !ok ==> tx && server.locked
    {
      ok := server.Statement();
      if !ok {
        return;
      }
      var rows := server.CopyIn(copied);
      if rows.None? {
        return false;
      }
      ok := server.Statement();
      if !ok {
        return;
      }
      var db := server.db.(records := rows.value, download := tree);
      if verified {
        db := db.(verified := Some(tree));
      }
      ok := server.Statement();
      if !ok {
        return;
      }
      ok := server.Statement();
      if !ok {
        return;
      }
      server.db, server.locked := db, false;
      copied, pendingRecords, copyStmt, tx := [], 0, false, false;
    }

    method Rollback()
      modifies this, server`locked
      ensures !tx && (old(tx) ==> !server.locked) && (!old(tx) ==> server.locked == old(server.locked))
    {
      if tx {
        server.locked := false;
        copied := [];
        tx := false;
      }
    }

    method Checkpoint(verified: bool) returns (ok: bool)
      requires Open() && address == server.db.address
      modifies this, server
      ensures address == old(address) && tree == old(tree) && sths == old(sths)
      ensures if ok then Open() && copied == [] else server.locked ==> tx
      ensures ok ==> Some(server.db) == old(CommitBatch(server.db, copied, tree, verified))
      ensures server.db == old(server.db)
              || Some(server.db) == old(CommitBatch(server.db, copied, tree, verified))
      ensures ok <==> old(server.fuse) >= 7 && old(CommitBatch(server.db, copied, tree, verified)).Some?
      ensures ok ==> server.fuse == old(server.fuse) - 7
    {
      ok := Commit(verified);
      if !ok {
        return;
      }
      ok := Begin();
    }

    method AddRecord(record: Record) returns (ok: bool)
      requires Open() && address == server.db.address && pendingRecords < CHECKPOINT_INTERVAL
      modifies this, server
      ensures address == old(address)
      ensures var (st, checkpoint) := Auditor.AddRecord(old(View(0, 0)), record);
        var db := if checkpoint.Checkpoint?
                  then old(CommitBatch(server.db, st.pending, st.tree, checkpoint.verified))
                  else old(Some(server.db));
        && (Some(server.db) == db || server.db == old(server.db))
        && (ok ==> Some(server.db) == db && View(0, 0) == if checkpoint.Checkpoint? then st.(pending := []) else st)
        && (old(server.fuse) >= 8 && db.Some? ==> ok)
      ensures ok ==> server.fuse >= old(server.fuse) - 8
      ensures if ok then Open() && pendingRecords < 10000 else server.locked ==> tx
    {
      var leafHash := record.Hash();
      var position := tree.size;
      tree := tree.Add(leafHash);
      var rootHash := tree.CalculateRoot();
      ok := server.Statement();
      if !ok {
        return;
      }
      copied := copied + [Pending(position, record, rootHash)];
      pendingRecords := pendingRecords + 1;
      if |sths| > 0 && tree.size == sths[0].treeSize {
        if sths[0].rootHash == rootHash {
          ok := Checkpoint(true);
          if !ok {
            return;
          }
        }
        sths := sths[1..];
      }
      if pendingRecords >= CHECKPOINT_INTERVAL {
        ok := Checkpoint(false);
      }
    }
  }

  /** One record: what addRecord does to a run that has come to position `at`. */
  lemma AddAdvances(leq: RootOrder, db: Db, log: seq<Record>, c: nat, at: nat, st: Ingester)
    requires IsTotalOrder(leq) && |db.records| <= c <= at < |log|
    requires st.tree == TreeOfLog(log[..at]) && st.pending == Batch(log[..c], log[c..at])
    requires NextSths(leq, db.sths, at, st.sths)
    requires forall k :: c < k <= at ==> !IsAnchor(leq, db.sths, log, k)
    ensures var (st', checkpoint) := Auditor.AddRecord(st, log[at]);
      && st'.tree == TreeOfLog(log[..at + 1]) && st'.pending == Batch(log[..c], log[c..at + 1])
      && NextSths(leq, db.sths, at + 1, st'.sths)
      && (checkpoint == Checkpoint(true) <==> IsAnchor(leq, db.sths, log, at + 1))
      && (checkpoint == NoCheckpoint <==> !IsAnchor(leq, db.sths, log, at + 1) && at + 1 - c < 10000)
      && (checkpoint.Checkpoint? ==>
            CommitBatch(Advance(leq, db, log, c), st'.pending, st'.tree, checkpoint.verified)
            == Some(Advance(leq, db, log, at + 1)))
  {
    hide NextSths, IsAnchor, CommitBatch, Advance, Batch, TreeOfLog, RootOfLog, IsTotalOrder;
    var (st', checkpoint) := Auditor.AddRecord(st, log[at]);
    AddOne(log, c, at, st);
    BatchLength(log[..c], log[c..at]);
    PassSize(leq, db.sths, at, st.sths);
    HeadIsAnchor(leq, db.sths, log, at, st.sths);
    if checkpoint.Checkpoint? {
      CommitAdvances(leq, db, log, c, at + 1, checkpoint.verified);
    }
  }

  lemma AddOne(log: seq<Record>, c: nat, at: nat, st: Ingester)
    requires c <= at < |log|
    requires st.tree == TreeOfLog(log[..at]) && st.pending == Batch(log[..c], log[c..at])
    ensures var st' := Auditor.AddRecord(st, log[at]).0;
      && st'.tree == TreeOfLog(log[..at + 1]) && st'.pending == Batch(log[..c], log[c..at + 1])
      && st'.tree.size == at + 1 && st'.tree.CalculateRoot() == RootOfLog(log[..at + 1])
  {
    hide TreeOfLog, RootOfLog, Batch, CollapsedTree.Add, CollapsedTree.CalculateRoot;
    TreeAppend(log[..at], log[at]);
    BatchAppend(log[..c], log[c..at], log[at]);
    assert log[..at] + [log[at]] == log[..at + 1];
    assert log[c..at] + [log[at]] == log[c..at + 1];
    assert log[..c] + log[c..at] == log[..at];
  }

  /** The run has come to position `at` and committed up to c. */
  ghost predicate Follows(leq: RootOrder, db: Db, log: seq<Record>, state: IngestState, c: nat, at: nat)
    reads state, state.server
  {
    && state.Open() && state.pendingRecords < CHECKPOINT_INTERVAL
    && |db.records| <= c <= at <= |log|
    && state.address == db.address && state.server.db == Advance(leq, db, log, c)
    && state.tree == TreeOfLog(log[..at]) && state.copied == Batch(log[..c], log[c..at])
    && NextSths(leq, db.sths, at, state.sths)
    && forall k :: c < k <= at ==> !IsAnchor(leq, db.sths, log, k)
  }

  /** The loop of Ingest over the channel. */
  method ReceiveRecords(state: IngestState, records: seq<Record>, leq: RootOrder, ghost db: Db, ghost log: seq<Record>)
      returns (ok: bool, ghost c: nat)
    requires IsTotalOrder(leq) && |db.records| + |records| == |log| && log[|db.records|..] == records
    requires Follows(leq, db, log, state, |db.records|, |db.records|)
    modifies state, state.server
    ensures |db.records| <= c <= |log| && state.server.db == Advance(leq, db, log, c)
    ensures if ok then Follows(leq, db, log, state, c, |log|) else state.server.locked ==> state.tx
    ensures old(state.server.fuse) >= 8 * |records| ==> ok
    ensures ok ==> state.server.fuse >= old(state.server.fuse) - 8 * |records|
  {
    hide Advance, Batch, RootOfLog, TreeOfLog, NextSths, IsAnchor, IsTotalOrder, CommitBatch, Auditor.AddRecord;
    ghost var k0 := |db.records|;
    c := k0;
    for i := 0 to |records|
      invariant Follows(leq, db, log, state, c, k0 + i)
      invariant state.server.fuse >= old(state.server.fuse) - 8 * i
    {
      AddAdvances(leq, db, log, c, k0 + i, state.View(0, 0));
      ghost var checkpoint := Auditor.AddRecord(state.View(0, 0), records[i]).1;
      AdvanceKeeps(leq, db, log, c);
      assert log[k0 + i] == records[i];
      ok := state.AddRecord(records[i]);
      if checkpoint.Checkpoint? && state.server.db == Advance(leq, db, log, k0 + i + 1) {
        c := k0 + i + 1;
      }
      if !ok {
        return;
      }
      if checkpoint.Checkpoint? {
        assert log[c..c] == [];
        BatchLength(log[..c], []);
      }
    }
    ok := true;
  }

  /** The server's tables before a run: full, and inside SQL's bigint. */
  ghost predicate Startable(server: Server)
    reads server
  {
    !server.locked && Stores(server.db, Log(server.db)) && Goal(server.db) <= MAX_BIGINT
  }

  method LoadIngestState(server: Server, leq: RootOrder) returns (loaded: Option<IngestState>)
    requires Startable(server) && IsTotalOrder(leq)
    modifies server`fuse, server`locked
    ensures loaded.None? ==> !server.locked && old(server.fuse) < 5
    ensures loaded.Some? ==>
      && fresh(loaded.value) && loaded.value.server == server && server.fuse == old(server.fuse) - 5
      && var state, k := loaded.value, |server.db.records|;
      && Follows(leq, server.db, Log(server.db), state, k, k)
      && state.tree.size == k
      && (state.sths != [] ==> Goal(server.db) > k)
      && Goal(server.db) == if state.sths == [] then k else state.sths[|state.sths| - 1].treeSize
  {
    ghost var k := |server.db.records|;
    assert Log(server.db)[..k] == Log(server.db) && Log(server.db)[k..k] == [];
    AdvanceNothing(leq, server.db, Log(server.db));
    BatchLength(Log(server.db), []);
    hide Advance, Batch, RootOfLog;
    var ok := server.Statement();
    if !ok {
      return None;
    }
    var address, tree := server.db.address, server.db.download;
    ok := server.Statement();
    if !ok {
      return None;
    }
    var sths := SelectNextSths(leq, server.db.sths, tree.size);
    SelectMeansNext(leq, server.db.sths, tree.size);
    LastCandidate(leq, server.db.sths, tree.size, sths);
    var state := new IngestState(server, address, tree, sths);
    ok := state.Begin();
    if !ok {
      return None;
    }
    return Some(state);
  }

  /**
   A run of Ingest. `web` is the log's web server; `delivered` is what the download sent
   before it ended or was cancelled.
   */
  method Ingest(server: Server, leq: RootOrder, web: Download.Server, budget: nat, ghost log: seq<Record>)
      returns (progressed: bool, ok: bool, ghost delivered: seq<Record>)
    requires Startable(server) && IsTotalOrder(leq)
    modifies server
    ensures !server.locked
    ensures |old(server.db.records)| + |delivered| <= Goal(old(server.db))
    ensures exists n :: |old(server.db.records)| <= n <= |old(server.db.records)| + |delivered|
              && server.db == Advance(leq, old(server.db), Log(old(server.db)) + delivered, n)
              && (ok ==> n == Goal(old(server.db)))
    ensures ok ==> (progressed <==> Goal(old(server.db)) > |old(server.db.records)|)
    ensures Download.Honest(web, old(server.db.address), log) && Goal(old(server.db)) <= |log| ==>
      var k := |old(server.db.records)|;
      delivered == log[k..k + |delivered|]
    ensures Download.Serves(web, old(server.db.address), log) && Goal(old(server.db)) <= |log| ==>
      var k, goal := |old(server.db.records)|, Goal(old(server.db));
      (old(server.fuse) >= 9 + 8 * (goal - k) && budget > goal - k + Download.TilesTouched(k, goal) ==> ok)
  {
    hide Advance, Stores, Batch, RootOfLog, TreeOfLog, NextSths, IsAnchor, MaxSize, IsTotalOrder;
    hide Download.Honest, Download.Serves, Download.TilesTouched;
    ghost var db0, k0 := server.db, |server.db.records|;
    progressed, delivered := false, [];
    assert Log(db0) + [] == Log(db0) && server.db == Advance(leq, db0, Log(db0), k0) by {
      AdvanceNothing(leq, db0, Log(db0));
    }
    var loaded := LoadIngestState(server, leq);
    if loaded.None? {
      return false, false, [];
    }
    var state := loaded.value;
    if |state.sths| == 0 {
      state.Rollback();
      return false, true, [];
    }
    var downloadBegin, downloadEnd := state.tree.size, state.sths[|state.sths| - 1].treeSize;
    var records, done, _ := Download.DownloadRecords(web, state.address, downloadBegin, downloadEnd, budget, log);
    delivered := records;
    ghost var full, c := Log(db0) + delivered, k0;
    FollowsLonger(leq, db0, Log(db0), full, state);
    ok, c := ReceiveRecords(state, records, leq, db0, full);
    if !ok || !done {
      state.Rollback();
      return false, false, delivered;
    }
    assert CommitBatch(server.db, state.copied, state.tree, false) == Some(Advance(leq, db0, full, |full|)) by {
      CommitAdvances(leq, db0, full, c, |full|, false);
      assert full[..|full|] == full;
    }
    ok := state.Commit(false);
    if !ok {
      state.Rollback();
      return;
    }
    progressed := true;
  }

  lemma FollowsLonger(leq: RootOrder, db: Db, log: seq<Record>, log': seq<Record>, state: IngestState)
    requires log <= log' && Follows(leq, db, log, state, |db.records|, |db.records|)
    ensures Follows(leq, db, log', state, |db.records|, |db.records|)
  {
    var k := |db.records|;
    assert log[..k] == log'[..k] && log[k..k] == log'[k..k];
    AdvanceSame(leq, db, log, log', k);
  }

  /** With an honest web server the run is one of those that crashes do not change. */
  lemma HonestOutcome(leq: RootOrder, log: seq<Record>, db: Db, delivered: seq<Record>, n: nat, db': Db, ok: bool)
    requires Stores(db, log) && Goal(db) <= |log|
    requires |db.records| + |delivered| <= Goal(db) && |db.records| <= n <= |db.records| + |delivered|
    requires delivered == log[|db.records|..|db.records| + |delivered|]
    requires db' == Advance(leq, db, Log(db) + delivered, n) && (ok ==> n == Goal(db))
    ensures IngestOutcome(leq, log, db, db', ok)
  {
    LogOfRows(db, log[..|db.records|]);
    assert Log(db) + delivered <= log;
    AdvanceSame(leq, db, Log(db) + delivered, log, n);
  }

  lemma AdvanceKeeps(leq: RootOrder, db: Db, log: seq<Record>, n: nat)
    requires |db.records| <= n <= |log|
    ensures Advance(leq, db, log, n).address == db.address
  {
  }

  /** Only the records up to n matter. */
  lemma AdvanceSame(leq: RootOrder, db: Db, log: seq<Record>, log': seq<Record>, n: nat)
    requires |db.records| <= n <= |log| && log <= log'
    ensures Advance(leq, db, log, n) == Advance(leq, db, log', n)
  {
    SameLastAnchor(leq, db.sths, log, log', |db.records|, n);
    LastAnchorIsLargest(leq, db.sths, log, |db.records|, n);
    assert forall k :: 0 <= k <= |log| ==> log[..k] == log'[..k];
  }

  lemma {:induction false} SameLastAnchor(leq: RootOrder, sths: seq<SthRow>, log: seq<Record>, log': seq<Record>,
                                          from: nat, to: nat)
    requires to <= |log| && log <= log'
    ensures LastAnchor(leq, sths, log, from, to) == LastAnchor(leq, sths, log', from, to)
  {
    if from < to {
      assert log[..to] == log'[..to];
      SameLastAnchor(leq, sths, log, log', from, to - 1);
    }
  }

  // ---- Run after run ----

  /** What a run meets: after how many statements and requests it fails, and the web server. */
  datatype Attempt = Attempt(fuse: nat, budget: nat, web: Download.Server)

  /** Enough for a run from any position up to `goal`. */
  ghost predicate Suffices(attempt: Attempt, address: string, log: seq<Record>, k: nat, goal: nat)
    requires k <= goal
  {
    && Download.Serves(attempt.web, address, log)
    && attempt.fuse >= 9 + 8 * (goal - k) && attempt.budget > goal - k + Download.TilesTouched(k, goal)
  }

  /**
   Runs of Ingest, each failing where it may, until one succeeds. However many failed, the
   tables are then those that one run without failures leaves.
   */
  method IngestUntilDone(server: Server, leq: RootOrder, attempts: seq<Attempt>, ghost log: seq<Record>)
      returns (ok: bool)
    requires Startable(server) && IsTotalOrder(leq)
    requires Stores(server.db, log) && Goal(server.db) <= |log|
    requires forall i :: 0 <= i < |attempts| ==> Download.Honest(attempts[i].web, server.db.address, log)
    modifies server
    ensures !server.locked
    ensures exists n :: |old(server.db.records)| <= n <= Goal(old(server.db))
              && server.db == Advance(leq, old(server.db), log, n) && (ok ==> n == Goal(old(server.db)))
    ensures forall i :: 0 <= i < |attempts| ==>
      (Suffices(attempts[i], old(server.db.address), log, |old(server.db.records)|, Goal(old(server.db))) ==> ok)
  {
    hide Advance, Stores, MaxSize, IsTotalOrder, Download.Honest, Download.Serves, Download.TilesTouched;
    hide IngestOutcome;
    ghost var db0, n := server.db, |server.db.records|;
    AdvanceNothing(leq, db0, log);
    ok := false;
    for i := 0 to |attempts|
      invariant |db0.records| <= n <= Goal(db0) && server.db == Advance(leq, db0, log, n)
      invariant !server.locked && !ok
      invariant forall j :: 0 <= j < i ==> !Suffices(attempts[j], db0.address, log, |db0.records|, Goal(db0))
    {
      ghost var db := server.db;
      server.fuse := attempts[i].fuse;
      StartsAgain(leq, db0, log, n, server);
      TilesLeft(|db0.records|, n, Goal(db0));
      var progressed, done, delivered := Ingest(server, leq, attempts[i].web, attempts[i].budget, log);
      ghost var m :| |db.records| <= m <= |db.records| + |delivered|
        && server.db == Advance(leq, db, Log(db) + delivered, m) && (done ==> m == Goal(db));
      HonestOutcome(leq, log, db, delivered, m, server.db, done);
      n := OneMoreRun(leq, log, db0, n, server.db, done);
      if done {
        return true;
      }
    }
  }

  /** What a run leaves is something that a run can start with. */
  lemma StartsAgain(leq: RootOrder, db: Db, log: seq<Record>, n: nat, server: Server)
    requires |db.records| <= n <= Goal(db) <= |log| && Goal(db) <= MAX_BIGINT && !server.locked
    requires server.db == Advance(leq, db, log, n)
    ensures Startable(server) && Stores(server.db, log) && |server.db.records| == n
    ensures server.db.address == db.address && Goal(server.db) == Goal(db)
  {
    AdvanceTwice(leq, db, log, n, n);
    LogOfRows(server.db, log[..n]);
    assert log[..n][..n] == log[..n];
    GoalReached(db.sths, |db.records|, n);
  }

  /** A run that starts later touches no more tiles. */
  lemma TilesLeft(k: nat, n: nat, goal: nat)
    requires k <= n <= goal
    ensures Download.TilesTouched(n, goal) <= Download.TilesTouched(k, goal)
  {
  }
}
