/**
 The database server as one client sees it: statements and triggers that change the tables
 in place (schema/30-triggers.sql, internal/sths/insert.go, internal/sths/audit.go).
 */
module SqlServer {
  import opened Wrappers
  import opened Records
  import opened Merkle
  import opened Database

  /**
   `fuse` is the number of statements that still succeed: any value of it is a failure at
   some statement. `locked` says that an open transaction holds the row of `db`.
   */
  class Server {
    var db: Db
    var fuse: nat
    var locked: bool

    constructor (db: Db, fuse: nat)
      ensures this.db == db && this.fuse == fuse && !locked
    {
      this.db, this.fuse, locked := db, fuse, false;
    }

    method Statement() returns (ok: bool)
      modifies this`fuse
      ensures ok == (old(fuse) > 0)
      ensures fuse == if ok then old(fuse) - 1 else 0
    {
      ok := fuse > 0;
      if ok {
        fuse := fuse - 1;
      }
    }

    /** Trigger before_record_insert: scans for the greatest position of the same module. */
    method SelectLatest(records: seq<Row>, record: Record) returns (latest: Option<nat>)
      ensures latest == LatestPosition(records, record)
    {
      latest := None;
      for i := 0 to |records|
        invariant latest == LatestPosition(records[..i], record)
      {
        assert records[..i + 1][..i] == records[..i];
        if SameModule(records[i].record, record) && (latest.None? || latest.value < records[i].position) {
          latest := Some(records[i].position);
        }
      }
      assert records[..|records|] == records;
    }

    /** COPY into `record`; the rows become visible when the transaction commits. */
    method CopyIn(batch: seq<Pending>) returns (rows: Option<seq<Row>>)
      ensures rows == CopyRows(db.records, batch)
    {
      var records := db.records;
      assert batch[0..] == batch;
      for i := 0 to |batch|
        invariant CopyRows(records, batch[i..]) == CopyRows(db.records, batch)
      {
        var p := batch[i];
        assert batch[i..][0] == p && batch[i..][1..] == batch[i + 1..];
        if HasPosition(records, p.position) {
          return None;
        }
        var previous := SelectLatest(records, p.record);
        records := records + [Row(p.position, p.record, p.rootHash, previous)];
      }
      return Some(records);
    }

    method SelectRootAt(position: nat) returns (root: Option<Hash>)
      ensures root == RootAt(db.records, position)
    {
      assert db.records[0..] == db.records;
      for i := 0 to |db.records|
        invariant RootAt(db.records[i..], position) == RootAt(db.records, position)
      {
        assert db.records[i..][1..] == db.records[i + 1..];
        if db.records[i].position == position {
          return Some(db.records[i].rootHash);
        }
      }
      return None;
    }

    /** Trigger before_sth_insert: the value it assigns to NEW.consistent. */
    method BeforeSthInsert(treeSize: nat, rootHash: Hash) returns (consistent: Option<bool>)
      ensures consistent == InsertVerdict(db, treeSize, rootHash)
    {
      consistent := None;
      if treeSize == 0 {
        consistent := Some(rootHash == HashNothing);
      } else if db.verified.Some? && treeSize <= db.verified.value.size {
        var root := SelectRootAt(treeSize - 1);
        if root.Some? {
          consistent := Some(rootHash == root.value);
        }
      }
    }

    /** INSERT INTO sth; a size beyond bigint is refused before the server sees it. */
    method InsertSth(treeSize: nat, rootHash: Hash) returns (ok: bool)
      modifies this`db, this`fuse
      ensures ok <==> treeSize < 0x8000_0000_0000_0000 && old(fuse) > 0
      ensures ok ==> fuse == old(fuse) - 1
      ensures db == if ok then Database.InsertSth(old(db), treeSize, rootHash) else old(db)
    {
      if treeSize > MAX_BIGINT {
        return false;
      }
      ok := Statement();
      if ok {
        var consistent := BeforeSthInsert(treeSize, rootHash);
        if !HasSth(db.sths, treeSize, rootHash) {
          db := db.(sths := db.sths + [SthRow(treeSize, rootHash, consistent)]);
        }
      }
    }

    /** The UPDATE of auditStmt, row by row. */
    method UpdateVerdicts(verifiedSize: nat)
      modifies this`db
      ensures db == AuditSths(old(db), verifiedSize)
    {
      ghost var audited := AuditSths(db, verifiedSize).sths;
      for i := 0 to |db.sths|
        invariant db == old(db).(sths := audited[..i] + old(db).sths[i..])
      {
        var row := db.sths[i];
        assert row == old(db).sths[i];
        if row.consistent.None? && 0 < row.treeSize <= verifiedSize {
          var root := SelectRootAt(row.treeSize - 1);
          if root.Some? {
            row := row.(consistent := Some(row.rootHash == root.value));
          }
        }
        assert row == audited[i];
        db := db.(sths := db.sths[i := row]);
      }
    }

    /** sths.Audit without other clients between its two statements. */
    method Audit() returns (ok: bool)
      modifies this`db, this`fuse
      ensures ok <==> old(fuse) >= 2
      ensures db == if ok then AuditSths(old(db), VerifiedSize(old(db))) else old(db)
    {
      ok := Statement();
      if !ok {
        return;
      }
      var verifiedSize := VerifiedSize(db);
      ok := Statement();
      if ok {
        UpdateVerdicts(verifiedSize);
      }
    }

    /** The row of a stored tree head. */
    method SelectSth(treeSize: nat, rootHash: Hash) returns (found: Option<nat>)
      ensures found.Some? <==> HasSth(db.sths, treeSize, rootHash)
      ensures found.Some? ==> found.value < |db.sths|
                              && db.sths[found.value].treeSize == treeSize
                              && db.sths[found.value].rootHash == rootHash
    {
      for i := 0 to |db.sths|
        invariant forall k :: 0 <= k < i ==> db.sths[k].treeSize != treeSize || db.sths[k].rootHash != rootHash
      {
        if db.sths[i].treeSize == treeSize && db.sths[i].rootHash == rootHash {
          return Some(i);
        }
      }
      return None;
    }
  }
}
