/** The links between records of the same module and version: trigger before_record_insert. */
module Duplicates {
  import opened Records
  import opened Merkle
  import opened Database
  import opened Auditor
  import opened AuditorSafety

  /** The positions found by following `previous_position` from row p. */
  function Chain(records: seq<Row>, p: nat): seq<nat> {
    if p >= |records| then []
    else
      match records[p].previous
      case None => []
      case Some(q) => if q < p then [q] + Chain(records, q) else []
  }

  function CountLinks(records: seq<Row>): nat {
    if records == [] then 0
    else CountLinks(records[..|records| - 1]) + if records[|records| - 1].previous.Some? then 1 else 0
  }

  function Key(record: Record): (string, string) {
    (record.modulePath, record.version)
  }

  /** The modules and versions of the first n records. */
  function Keys(log: seq<Record>, n: nat): set<(string, string)>
    requires n <= |log|
  {
    if n == 0 then {} else Keys(log, n - 1) + {Key(log[n - 1])}
  }

  lemma {:induction false} KeysAre(log: seq<Record>, n: nat, key: (string, string))
    requires n <= |log|
    ensures key in Keys(log, n) <==> exists i :: 0 <= i < n && Key(log[i]) == key
  {
    if n > 0 {
      KeysAre(log, n - 1, key);
    }
  }

  /** LastBefore finds the greatest earlier position of the module, when there is one. */
  lemma {:induction false} LastBeforeIsGreatest(log: seq<Record>, record: Record, n: nat)
    requires n <= |log|
    ensures var r := LastBefore(log, record, n);
      && (r.Some? ==> r.value < n && SameModule(log[r.value], record))
      && forall q :: 0 <= q < n && SameModule(log[q], record) ==> r.Some? && q <= r.value
  {
    if n > 0 {
      LastBeforeIsGreatest(log, record, n - 1);
    }
  }

  lemma {:induction false} ChainListsAll(log: seq<Record>, p: nat)
    requires p < |log|
    ensures var chain := Chain(Rows(log), p);
      && (forall q :: q in chain <==> 0 <= q < p && SameModule(log[q], log[p]))
      && (forall i, j :: 0 <= i < j < |chain| ==> chain[i] > chain[j])
  {
    LastBeforeIsGreatest(log, log[p], p);
    var last := LastBefore(log, log[p], p);
    if last.Some? {
      ChainListsAll(log, last.value);
      var chain, rest := Chain(Rows(log), p), Chain(Rows(log), last.value);
      assert chain == [last.value] + rest;
      forall q
        ensures q in chain <==> 0 <= q < p && SameModule(log[q], log[p])
      {
        assert q in chain <==> q == last.value || q in rest;
      }
      assert forall i :: 0 <= i < |rest| ==> rest[i] in rest;
    }
  }

  lemma {:induction false} LinksCountDuplicates(log: seq<Record>, n: nat)
    requires n <= |log|
    ensures CountLinks(Rows(log)[..n]) + |Keys(log, n)| == n
  {
    if n > 0 {
      hide Rows, RowAt, Keys, CountLinks;
      LinksCountDuplicates(log, n - 1);
      LinkIsRepeat(log, n - 1);
      OneMoreLink(log, n);
      OneMoreKey(log, n);
    }
  }

  lemma OneMoreLink(log: seq<Record>, n: nat)
    requires 0 < n <= |log|
    ensures CountLinks(Rows(log)[..n])
            == CountLinks(Rows(log)[..n - 1]) + if RowAt(log, n - 1).previous.Some? then 1 else 0
  {
    hide RowAt;
    assert Rows(log)[..n][..n - 1] == Rows(log)[..n - 1];
  }

  lemma OneMoreKey(log: seq<Record>, n: nat)
    requires 0 < n <= |log|
    ensures |Keys(log, n)| == |Keys(log, n - 1)| + if Key(log[n - 1]) in Keys(log, n - 1) then 0 else 1
  {
    if Key(log[n - 1]) in Keys(log, n - 1) {
      assert Keys(log, n) == Keys(log, n - 1);
    }
  }

  /** A row has a link exactly when its module and version came before. */
  lemma LinkIsRepeat(log: seq<Record>, i: nat)
    requires i < |log|
    ensures RowAt(log, i).previous.Some? <==> Key(log[i]) in Keys(log, i)
  {
    LastBeforeIsGreatest(log, log[i], i);
    KeysAre(log, i, Key(log[i]));
  }

  lemma RowRecords(log: seq<Record>)
    ensures |Rows(log)| == |log| && forall q :: 0 <= q < |log| ==> Rows(log)[q].record == log[q]
  {
  }

  lemma SameModuleMeans(records: seq<Row>, p: nat)
    requires p < |records|
    ensures forall q :: 0 <= q < p ==>
      (SameModule(records[q].record, records[p].record) <==>
         && records[q].record.modulePath == records[p].record.modulePath
         && records[q].record.version == records[p].record.version)
  {
  }

  /**
   In every state of a run: the links of a row list all earlier rows of its module and
   version, latest first, and the links are as many as the rows that repeat a module and version.
   */
  lemma LinksAreExact(leq: (Hash, Hash) -> bool, run: seq<System>, i: nat, p: nat)
    requires IsRun(leq, run) && i < |run| && p < |run[i].db.records|
    ensures var records := run[i].db.records;
      && (forall q :: q in Chain(records, p) <==>
            && 0 <= q < p && records[q].record.modulePath == records[p].record.modulePath
            && records[q].record.version == records[p].record.version)
      && (forall j, k :: 0 <= j < k < |Chain(records, p)| ==> Chain(records, p)[j] > Chain(records, p)[k])
      && CountLinks(records) + |Keys(Log(run[i].db), |records|)| == |records|
  {
    assert run[i].db.records == Rows(Log(run[i].db)) by {
      RunInv(leq, run, i);
    }
    RowRecords(Log(run[i].db));
    SameModuleMeans(run[i].db.records, p);
    hide IsRun, Rows, Chain, CountLinks, Keys, SameModule;
    ChainListsAll(Log(run[i].db), p);
    LinksCountDuplicates(Log(run[i].db), |run[i].db.records|);
    assert run[i].db.records[..|run[i].db.records|] == run[i].db.records;
  }
}
