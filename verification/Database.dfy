/**
 The tables of the auditor for one checksum database, and what each SQL statement and
 trigger does to them: schema/20-tables.sql, schema/30-triggers.sql,
 internal/sths/insert.go, internal/sths/audit.go and the statements of
 internal/records/ingest.go.
 */
module Database {
  import opened Wrappers
  import opened Records
  import opened Merkle

  const MAX_BIGINT: nat := 0x7FFF_FFFF_FFFF_FFFF

  /** A row of `record`, in the order of insertion. */
  datatype Row = Row(position: nat, record: Record, rootHash: Hash, previous: Option<nat>)

  /** A row of `sth`; `consistent` is None while it is null. */
  datatype SthRow = SthRow(treeSize: nat, rootHash: Hash, consistent: Option<bool>)

  /** A row sent with COPY. */
  datatype Pending = Pending(position: nat, record: Record, rootHash: Hash)

  datatype Candidate = Candidate(treeSize: nat, rootHash: Hash)

  /** The row of `db`, with the rows of the other tables that belong to it. */
  datatype Db = Db(
    address: string,
    download: CollapsedTree,
    verified: Option<CollapsedTree>,
    records: seq<Row>,
    sths: seq<SthRow>)

  /** Before anything ran: both positions are empty objects. */
  function EmptyDb(address: string): Db {
    Db(address, EMPTY_TREE, None, [], [])
  }

  /** The size in `verified_position`, 0 when it has none. */
  function VerifiedSize(db: Db): nat {
    if db.verified.Some? then db.verified.value.size else 0
  }

  // ---- Table `sth` ----

  /** The root hash stored at a position, null when there is no such row. */
  function RootAt(records: seq<Row>, position: nat): Option<Hash> {
    if records == [] then None
    else if records[0].position == position then Some(records[0].rootHash)
    else RootAt(records[1..], position)
  }

  /** Trigger before_sth_insert: the verdict a new row starts with. */
  function InsertVerdict(db: Db, treeSize: nat, rootHash: Hash): Option<bool> {
    if treeSize == 0 then Some(rootHash == HashNothing)
    else if db.verified.Some? && treeSize <= db.verified.value.size then
      match RootAt(db.records, treeSize - 1)
      case Some(root) => Some(rootHash == root)
      case None => None
    else None
  }

  predicate HasSth(sths: seq<SthRow>, treeSize: nat, rootHash: Hash) {
    exists i :: 0 <= i < |sths| && sths[i].treeSize == treeSize && sths[i].rootHash == rootHash
  }

  /** INSERT INTO sth ... ON CONFLICT DO NOTHING, with its trigger. */
  function InsertSth(db: Db, treeSize: nat, rootHash: Hash): Db {
    if HasSth(db.sths, treeSize, rootHash) then db
    else db.(sths := db.sths + [SthRow(treeSize, rootHash, InsertVerdict(db, treeSize, rootHash))])
  }

  /** Whether that insert notifies `new_sth`. */
  predicate InsertNotifies(db: Db, treeSize: nat, rootHash: Hash) {
    !HasSth(db.sths, treeSize, rootHash) && InsertVerdict(db, treeSize, rootHash).None?
  }

  /** A tree head is stored once; a new row is the last, and is notified when it has no verdict. */
  lemma InsertOnce(db: Db, treeSize: nat, rootHash: Hash)
    ensures var sths, db' := db.sths, InsertSth(db, treeSize, rootHash);
      if exists k :: 0 <= k < |sths| && sths[k].treeSize == treeSize && sths[k].rootHash == rootHash then
        db' == db && !InsertNotifies(db, treeSize, rootHash)
      else
        && |db'.sths| == |sths| + 1 && db' == db.(sths := sths + [db'.sths[|sths|]])
        && db'.sths[|sths|].treeSize == treeSize && db'.sths[|sths|].rootHash == rootHash
        && (InsertNotifies(db, treeSize, rootHash) <==> db'.sths[|sths|].consistent.None?)
  {
  }

  function AuditedRow(records: seq<Row>, row: SthRow, verifiedSize: nat): SthRow {
    if row.consistent.None? && 0 < row.treeSize <= verifiedSize then
      match RootAt(records, row.treeSize - 1)
      case Some(root) => row.(consistent := Some(row.rootHash == root))
      case None => row
    else row
  }

  /** The UPDATE of auditStmt, with the size read before. */
  function AuditSths(db: Db, verifiedSize: nat): Db {
    db.(sths := seq(|db.sths|, i requires 0 <= i < |db.sths| =>
      AuditedRow(db.records, db.sths[i], verifiedSize)))
  }

  /**
   SELECT DISTINCT ON (tree_size) ... ORDER BY tree_size, root_hash: the stored sizes above
   `size` in increasing order, each with the least of its roots under the order `leq`.
   */
  ghost predicate NextSths(leq: (Hash, Hash) -> bool, sths: seq<SthRow>, size: nat, next: seq<Candidate>) {
    && (forall i, j :: 0 <= i < j < |next| ==> next[i].treeSize < next[j].treeSize)
    && (forall i :: 0 <= i < |next| ==> next[i].treeSize > size && IsLeastRoot(leq, sths, next[i]))
    && (forall k :: 0 <= k < |sths| && sths[k].treeSize > size ==> HasCandidate(next, sths[k].treeSize))
  }

  ghost predicate IsLeastRoot(leq: (Hash, Hash) -> bool, sths: seq<SthRow>, c: Candidate) {
    && HasSth(sths, c.treeSize, c.rootHash)
    && forall k :: 0 <= k < |sths| && sths[k].treeSize == c.treeSize ==> leq(c.rootHash, sths[k].rootHash)
  }

  predicate HasCandidate(next: seq<Candidate>, treeSize: nat) {
    exists i :: 0 <= i < |next| && next[i].treeSize == treeSize
  }

  // ---- Table `record` ----

  predicate SameModule(a: Record, b: Record) {
    a.modulePath == b.modulePath && a.version == b.version
  }

  /** Trigger before_record_insert: the greatest position with the same module and version. */
  function LatestPosition(records: seq<Row>, record: Record): Option<nat> {
    if records == [] then None
    else
      var last := records[|records| - 1];
      var earlier := LatestPosition(records[..|records| - 1], record);
      if SameModule(last.record, record) && (earlier.None? || earlier.value < last.position)
      then Some(last.position) else earlier
  }

  predicate HasPosition(records: seq<Row>, position: nat) {
    exists i :: 0 <= i < |records| && records[i].position == position
  }

  /** COPY of a batch, row by row; None when a position is already taken. */
  function CopyRows(records: seq<Row>, batch: seq<Pending>): Option<seq<Row>>
    decreases |batch|
  {
    if batch == [] then Some(records)
    else
      var p := batch[0];
      if HasPosition(records, p.position) then None
      else
        var row := Row(p.position, p.record, p.rootHash, LatestPosition(records, p.record));
        CopyRows(records + [row], batch[1..])
  }

  /** The positions of a batch are new to the table and differ from one another. */
  ghost predicate NewPositions(records: seq<Row>, batch: seq<Pending>) {
    && (forall i, k :: 0 <= i < |records| && 0 <= k < |batch| ==> records[i].position != batch[k].position)
    && (forall i, k :: 0 <= i < k < |batch| ==> batch[i].position != batch[k].position)
  }

  /** COPY succeeds exactly for new positions, and appends the rows that were sent. */
  lemma {:induction false} CopyAppends(records: seq<Row>, batch: seq<Pending>)
    ensures CopyRows(records, batch).Some? <==> NewPositions(records, batch)
    ensures CopyRows(records, batch).Some? ==>
      var rows := CopyRows(records, batch).value;
      && |rows| == |records| + |batch| && rows[..|records|] == records
      && forall k :: 0 <= k < |batch| ==>
           var row := rows[|records| + k];
           row.position == batch[k].position && row.record == batch[k].record && row.rootHash == batch[k].rootHash
    decreases |batch|
  {
    hide LatestPosition;
    if batch != [] {
      var p := batch[0];
      var more := records + [Row(p.position, p.record, p.rootHash, LatestPosition(records, p.record))];
      CopyAppends(more, batch[1..]);
      TailPositions(records, batch, more);
      if CopyRows(records, batch).Some? {
        var rows := CopyRows(records, batch).value;
        assert rows[..|records|] == rows[..|more|][..|records|];
        forall k | 0 <= k < |batch|
          ensures var row := rows[|records| + k];
            row.position == batch[k].position && row.record == batch[k].record && row.rootHash == batch[k].rootHash
        {
          if k == 0 {
            assert rows[|records|] == rows[..|more|][|records|];
          } else {
            assert batch[k] == batch[1..][k - 1] && |records| + k == |more| + (k - 1);
          }
        }
      }
    }
  }

  lemma TailPositions(records: seq<Row>, batch: seq<Pending>, more: seq<Row>)
    requires batch != [] && |more| == |records| + 1 && more[..|records|] == records
    requires more[|records|].position == batch[0].position
    ensures NewPositions(records, batch) <==>
            !HasPosition(records, batch[0].position) && NewPositions(more, batch[1..])
  {
    assert forall i :: 0 <= i < |records| ==> more[i] == more[..|records|][i];
    if NewPositions(records, batch) {
      forall i, k | 0 <= i < |more| && 0 <= k < |batch| - 1
        ensures more[i].position != batch[1..][k].position
      {
        assert batch[1..][k] == batch[k + 1];
      }
    }
    if !HasPosition(records, batch[0].position) && NewPositions(more, batch[1..]) {
      forall i, k | 0 <= i < |records| && 0 <= k < |batch|
        ensures records[i].position != batch[k].position
      {
        assert k > 0 ==> batch[1..][k - 1] == batch[k] && more[i] == records[i];
      }
      forall i, k | 0 <= i < k < |batch|
        ensures batch[i].position != batch[k].position
      {
        assert batch[1..][k - 1] == batch[k];
        assert i > 0 ==> batch[1..][i - 1] == batch[i];
      }
    }
  }

  /** The transaction that ingestState.commit ends; None when COPY fails. */
  function CommitBatch(db: Db, batch: seq<Pending>, tree: CollapsedTree, verified: bool): Option<Db> {
    match CopyRows(db.records, batch)
    case None => None
    case Some(records) =>
      Some(db.(records := records, download := tree,
               verified := if verified then Some(tree) else db.verified))
  }

  // ---- What the tables should hold ----

  function RootOfLog(log: seq<Record>): Hash {
    Mth(Formats(log))
  }

  function TreeOfLog(log: seq<Record>): CollapsedTree {
    Collapsed(Formats(log))
  }

  /** The last position before n with the same module and version. */
  function LastBefore(log: seq<Record>, record: Record, n: nat): Option<nat>
    requires n <= |log|
  {
    if n == 0 then None
    else if SameModule(log[n - 1], record) then Some(n - 1)
    else LastBefore(log, record, n - 1)
  }

  function RowAt(log: seq<Record>, i: nat): Row
    requires i < |log|
  {
    Row(i, log[i], RootOfLog(log[..i + 1]), LastBefore(log, log[i], i))
  }

  /** The table `record` for the first |log| records of a log. */
  function Rows(log: seq<Record>): seq<Row> {
    seq(|log|, i requires 0 <= i < |log| => RowAt(log, i))
  }

  /** The records of a table, in order. */
  function Log(db: Db): seq<Record> {
    seq(|db.records|, i requires 0 <= i < |db.records| => db.records[i].record)
  }

  lemma LogOfRows(db: Db, log: seq<Record>)
    requires db.records == Rows(log)
    ensures Log(db) == log
  {
  }

  lemma FormatsAppend(log: seq<Record>, record: Record)
    ensures Formats(log + [record]) == Formats(log) + [record.Format()]
  {
  }

  lemma FormatsPrefix(log: seq<Record>, n: nat)
    requires n <= |log|
    ensures Formats(log[..n]) == Formats(log)[..n]
  {
  }

  lemma {:induction false} LastBeforePrefix(log: seq<Record>, more: seq<Record>, record: Record, n: nat)
    requires n <= |log|
    ensures LastBefore(log + more, record, n) == LastBefore(log, record, n)
  {
    if n > 0 {
      LastBeforePrefix(log, more, record, n - 1);
    }
  }

  /** Rows already stored do not depend on later records. */
  lemma RowsAppend(log: seq<Record>, record: Record)
    ensures Rows(log + [record]) == Rows(log) + [RowAt(log + [record], |log|)]
  {
    var longer := log + [record];
    forall i | 0 <= i < |log|
      ensures RowAt(longer, i) == RowAt(log, i)
    {
      assert longer[..i + 1] == log[..i + 1];
      LastBeforePrefix(log, [record], log[i], i);
    }
  }

  lemma {:induction false} LatestIsLastBefore(log: seq<Record>, record: Record)
    ensures LatestPosition(Rows(log), record) == LastBefore(log, record, |log|)
    decreases |log|
  {
    if log != [] {
      var shorter, last := log[..|log| - 1], log[|log| - 1];
      assert shorter + [last] == log;
      RowsAppend(shorter, last);
      assert Rows(log)[..|log| - 1] == Rows(shorter);
      LatestIsLastBefore(shorter, record);
      LastBeforePrefix(shorter, [last], record, |log| - 1);
      LastBeforeInRange(shorter, record, |log| - 1);
    }
  }

  lemma {:induction false} LastBeforeInRange(log: seq<Record>, record: Record, n: nat)
    requires n <= |log|
    ensures var r := LastBefore(log, record, n); r.Some? ==> r.value < n
  {
    if n > 0 {
      LastBeforeInRange(log, record, n - 1);
    }
  }

  /** In a full table the row of a position carries the root of all records up to it. */
  lemma {:induction false} RootAtIs(log: seq<Record>, position: nat, from: nat)
    requires from <= position < |log|
    ensures RootAt(Rows(log)[from..], position) == Some(RootOfLog(log[..position + 1]))
    decreases position - from
  {
    assert Rows(log)[from..][1..] == Rows(log)[from + 1..];
    if from < position {
      RootAtIs(log, position, from + 1);
    }
  }

  lemma RootAtRows(log: seq<Record>, position: nat)
    requires position < |log|
    ensures RootAt(Rows(log), position) == Some(RootOfLog(log[..position + 1]))
  {
    RootAtIs(log, position, 0);
    assert Rows(log)[0..] == Rows(log);
  }

  // ---- A batch that extends a full table ----

  /** The rows that addRecord sends for records that follow a log. */
  function Batch(log: seq<Record>, added: seq<Record>): seq<Pending> {
    seq(|added|, i requires 0 <= i < |added| =>
      Pending(|log| + i, added[i], RootOfLog(log + added[..i + 1])))
  }

  lemma BatchTail(log: seq<Record>, added: seq<Record>)
    requires added != []
    ensures Batch(log, added)[1..] == Batch(log + [added[0]], added[1..])
    ensures Batch(log, added)[0] == Pending(|log|, added[0], RootOfLog(log + [added[0]]))
  {
    assert added[..1] == [added[0]];
    forall i | 0 <= i < |added| - 1
      ensures Batch(log, added)[1..][i] == Batch(log + [added[0]], added[1..])[i]
    {
      assert log + added[..i + 2] == log + [added[0]] + added[1..][..i + 1];
    }
  }

  /** COPY of one row that follows a full table: the trigger finds the right link. */
  lemma CopyOne(log: seq<Record>, record: Record)
    ensures !HasPosition(Rows(log), |log|)
    ensures Rows(log) + [Row(|log|, record, RootOfLog(log + [record]), LatestPosition(Rows(log), record))]
            == Rows(log + [record])
  {
    RowsAppend(log, record);
    LatestIsLastBefore(log, record);
    LastBeforePrefix(log, [record], record, |log|);
    assert (log + [record])[..|log| + 1] == log + [record];
  }

  /** COPY of a batch that follows a full table gives the full table of the longer log. */
  lemma {:induction false} CopyBatch(log: seq<Record>, added: seq<Record>)
    ensures CopyRows(Rows(log), Batch(log, added)) == Some(Rows(log + added))
    decreases |added|
  {
    hide Rows, Batch, LatestPosition, HasPosition;
    if added == [] {
      assert log + added == log && Batch(log, added) == [] by {
        BatchLength(log, added);
      }
    } else {
      BatchLength(log, added);
      BatchTail(log, added);
      CopyOne(log, added[0]);
      CopyBatch(log + [added[0]], added[1..]);
      assert log + [added[0]] + added[1..] == log + added;
    }
  }

  lemma BatchLength(log: seq<Record>, added: seq<Record>)
    ensures |Batch(log, added)| == |added|
  {
  }

  lemma BatchAppend(log: seq<Record>, added: seq<Record>, record: Record)
    ensures Batch(log, added + [record])
            == Batch(log, added) + [Pending(|log| + |added|, record, RootOfLog(log + added + [record]))]
  {
    var more := added + [record];
    forall i | 0 <= i < |more|
      ensures Batch(log, more)[i] == (Batch(log, added)
              + [Pending(|log| + |added|, record, RootOfLog(log + added + [record]))])[i]
    {
      if i < |added| {
        assert more[..i + 1] == added[..i + 1];
      } else {
        assert more[..i + 1] == more && log + more == log + added + [record];
      }
    }
  }

  /** The tree after one more record, and its root. */
  lemma TreeAppend(log: seq<Record>, record: Record)
    ensures TreeOfLog(log).Add(record.Hash()) == TreeOfLog(log + [record])
    ensures TreeOfLog(log + [record]).CalculateRoot() == RootOfLog(log + [record])
    ensures TreeOfLog(log).size == |log| && TreeOfLog(log + [record]).size == |log| + 1
  {
    FormatsAppend(log, record);
    AddRefines(Formats(log), record.Format());
    RootIsMth(Formats(log + [record]));
  }
}
