/** Receiving tree heads from other monitors: internal/sths/gossip.go. */
module Gossip {
  import opened Wrappers
  import opened Text
  import opened Merkle
  import opened Database
  import opened Auditor
  import opened AuditorSafety
  import opened SqlServer
  import Sths

  datatype Reply = NotFound | BadRequest | ServerError | StillPending | Consistent | Inconsistent

  type Verifier = (seq<byte>, string, seq<byte>) -> bool

  /** The STH that a request carries, when the log's key signed it. */
  function Authentic(body: string, address: string, key: seq<byte>, verify: Verifier): Option<Sths.Sth> {
    match Sths.Meaning(body, address)
    case Ok(sth) => if sth.Authenticate(key, verify).Ok? then Some(sth) else None
    case Err(_) => None
  }

  function VerdictReply(consistent: Option<bool>): Reply {
    match consistent
    case None => StillPending
    case Some(true) => Consistent
    case Some(false) => Inconsistent
  }

  predicate Answers(reply: Reply) {
    reply.StillPending? || reply.Consistent? || reply.Inconsistent?
  }

  function Stored(db: Db, sth: Option<Sths.Sth>, digest: seq<byte> -> Hash): Db {
    if sth.None? then db else InsertSth(db, sth.value.treeSize, digest(sth.value.rootHash))
  }

  /** The reply is the verdict of the stored row of this tree head. */
  ghost predicate RepliesFor(db: Db, sth: Sths.Sth, digest: seq<byte> -> Hash, reply: Reply) {
    exists i :: 0 <= i < |db.sths|
      && db.sths[i].treeSize == sth.treeSize && db.sths[i].rootHash == digest(sth.rootHash)
      && db.sths[i].consistent == match reply {
           case Consistent => Some(true)
           case Inconsistent => Some(false)
           case _ => None
         }
  }

  /** The body is an STH text that carries the log's signature of its size and root. */
  ghost predicate Genuine(body: string, address: string, key: seq<byte>, verify: Verifier, sth: Sths.Sth) {
    Sths.Meaning(body, address) == Ok(sth) && Sths.IsSigned(sth, key, verify)
  }

  lemma AuthenticIsGenuine(body: string, address: string, key: seq<byte>, verify: Verifier)
    ensures var sth := Authentic(body, address, key, verify);
      if sth.Some? then Genuine(body, address, key, verify, sth.value)
      else forall any :: !Genuine(body, address, key, verify, any)
  {
    hide Sths.Meaning, Sths.Sth.Authenticate, Sths.IsSigned;
    var parsed := Sths.Meaning(body, address);
    if parsed.Ok? {
      Sths.AuthenticateMeans(parsed.value, key, verify);
    }
  }

  predicate Publishable(sth: Sths.Sth, address: string) {
    sth.treeSize <= MAX_UINT64 && |sth.rootHash| == 32 && Free(address, '\n')
  }

  /** What the log publishes, when it signed it, is genuine. */
  lemma FormatIsGenuine(sth: Sths.Sth, address: string, key: seq<byte>, verify: Verifier)
    requires Publishable(sth, address) && Sths.IsSigned(sth, key, verify)
    ensures Genuine(sth.Format(address), address, key, verify, sth)
  {
    Sths.ParseFormat(sth, address);
  }

  /** What the three answers say about the records, whoever gave the verdict. */
  ghost predicate ReplyHolds(db: Db, treeSize: nat, rootHash: Hash, reply: Reply) {
    match reply
    case Consistent => treeSize <= |db.records| && rootHash == RootOfLog(Log(db)[..treeSize])
    case Inconsistent => treeSize <= |db.records| && rootHash != RootOfLog(Log(db)[..treeSize])
    case _ => true
  }

  /**
   ReceiveGossip, without other clients between its statements. `digest` gives the hash that
   32 bytes stand for.
   */
  method ReceiveGossip(server: Server, body: string, address: string, key: seq<byte>,
                       verify: Verifier, digest: seq<byte> -> Hash)
      returns (reply: Reply)
    modifies server`db, server`fuse
    ensures reply == NotFound <==> address != server.db.address && old(server.fuse) >= 1
    ensures reply == BadRequest <==>
      && address == server.db.address && old(server.fuse) >= 1
      && forall sth :: !Genuine(body, address, key, verify, sth)
    ensures reply.NotFound? || reply.BadRequest? ==> server.db == old(server.db)
    ensures Answers(reply) ==>
      && address == old(server.db.address) && Authentic(body, address, key, verify).Some?
      && RepliesFor(server.db, Authentic(body, address, key, verify).value, digest, reply)
    ensures Answers(reply) && TablesOk(old(server.db)) ==>
      var sth := Authentic(body, address, key, verify).value;
      && TablesOk(server.db) && ReplyHolds(server.db, sth.treeSize, digest(sth.rootHash), reply)
      && (!HasSth(old(server.db.sths), sth.treeSize, digest(sth.rootHash)) ==>
            (reply.StillPending? <==> sth.treeSize > VerifiedSize(server.db)))
    ensures Answers(reply) || server.db != old(server.db) ==>
      exists sth :: Genuine(body, address, key, verify, sth)
        && server.db == InsertSth(old(server.db), sth.treeSize, digest(sth.rootHash))
    ensures forall sth :: Genuine(body, address, key, verify, sth) ==>
      (HasSth(old(server.db).sths, sth.treeSize, digest(sth.rootHash)) ==> server.db == old(server.db))
    ensures forall sth | Genuine(body, address, key, verify, sth)
        || (body == sth.Format(address) && Publishable(sth, address) && Sths.IsSigned(sth, key, verify)) ::
      address == old(server.db.address) && sth.treeSize <= MAX_BIGINT && old(server.fuse) >= 3 ==> Answers(reply)
    ensures server.db == old(server.db) || Authentic(body, address, key, verify).Some?
    ensures Answers(reply) || server.db != old(server.db) ==>
      server.db == Stored(old(server.db), Authentic(body, address, key, verify), digest)
    ensures address == old(server.db.address) && Authentic(body, address, key, verify).Some? ==>
      (old(server.fuse) >= 3 && Authentic(body, address, key, verify).value.treeSize <= MAX_BIGINT ==> Answers(reply))
  {
    hide Sths.Meaning, Database.InsertSth, Sths.Sth.Authenticate, Sths.IsSigned, TablesOk, ReplyHolds;
    AuthenticIsGenuine(body, address, key, verify);
    if Authentic(body, address, key, verify).Some? {
      var sth := Authentic(body, address, key, verify).value;
      InsertOnce(server.db, sth.treeSize, digest(sth.rootHash));
    }
    forall sth: Sths.Sth | body == sth.Format(address) && Publishable(sth, address) && Sths.IsSigned(sth, key, verify)
      ensures Genuine(body, address, key, verify, sth)
    {
      FormatIsGenuine(sth, address, key, verify);
    }
    var ok := server.Statement();
    if !ok {
      return ServerError;
    }
    if address != server.db.address {
      return NotFound;
    }
    var parsed := Sths.ParseSTH(body, address);
    if parsed.Err? {
      return BadRequest;
    }
    var sth := parsed.value;
    if sth.Authenticate(key, verify).Err? {
      return BadRequest;
    }
    ok := server.InsertSth(sth.treeSize, digest(sth.rootHash));
    if !ok {
      return ServerError;
    }
    ok := server.Statement();
    if !ok {
      return ServerError;
    }
    InsertedIsStored(old(server.db), sth.treeSize, digest(sth.rootHash));
    var found := server.SelectSth(sth.treeSize, digest(sth.rootHash));
    reply := VerdictReply(server.db.sths[found.value].consistent);
    if TablesOk(old(server.db)) {
      StoreTables(old(server.db), sth.treeSize, digest(sth.rootHash));
      ReplyMeaning(server.db, found.value);
      if !HasSth(old(server.db.sths), sth.treeSize, digest(sth.rootHash)) {
        NewVerdict(old(server.db), sth.treeSize, digest(sth.rootHash), found.value);
      }
    }
  }

  lemma InsertedIsStored(db: Db, treeSize: nat, rootHash: Hash)
    ensures HasSth(InsertSth(db, treeSize, rootHash).sths, treeSize, rootHash)
  {
    var db' := InsertSth(db, treeSize, rootHash);
    if !HasSth(db.sths, treeSize, rootHash) {
      assert db'.sths[|db'.sths| - 1].treeSize == treeSize;
    }
  }

  /** For tables that the auditor keeps, the verdict of a row holds. */
  lemma ReplyMeaning(db: Db, i: nat)
    requires TablesOk(db) && i < |db.sths|
    ensures ReplyHolds(db, db.sths[i].treeSize, db.sths[i].rootHash, VerdictReply(db.sths[i].consistent))
  {
    assert VerdictOk(Log(db), VerifiedSize(db), db.sths[i]);
  }

  /** A tree head that was not stored before is decided exactly when its size is verified. */
  lemma NewVerdict(db: Db, treeSize: nat, rootHash: Hash, i: nat)
    requires TablesOk(db) && !HasSth(db.sths, treeSize, rootHash)
    requires var sths := InsertSth(db, treeSize, rootHash).sths;
      i < |sths| && sths[i].treeSize == treeSize && sths[i].rootHash == rootHash
    ensures InsertSth(db, treeSize, rootHash).sths[i].consistent.Some? <==> treeSize <= VerifiedSize(db)
    ensures VerifiedSize(InsertSth(db, treeSize, rootHash)) == VerifiedSize(db)
  {
    InsertVerdictOk(db, treeSize, rootHash);
  }
}
