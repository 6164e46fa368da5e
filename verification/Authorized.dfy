/** The store of signed go.sum lines: internal/modules/authorized.go. */
module Authorized {
  import opened Wrappers
  import opened Text
  import opened Records

  /** The two hash columns of a row. */
  datatype Hashes = Hashes(source: Option<seq<byte>>, gomod: Option<seq<byte>>)

  /** The key of a row: public key, module and version. */
  type RowKey = (seq<byte>, string, string)

  /** The table authorized_record. */
  type Table = map<RowKey, Hashes>

  // ---- Lines and fields ----

  /** unicode.IsSpace. */
  predicate IsSpace(c: char) {
    || '\t' <= c <= '\r' || c == ' ' || c == '\U{85}' || c == '\U{a0}' || c == '\U{1680}'
    || '\U{2000}' <= c <= '\U{200a}' || c == '\U{2028}' || c == '\U{2029}'
    || c == '\U{202f}' || c == '\U{205f}' || c == '\U{3000}'
  }

  predicate NoSpace(s: string) {
    forall i :: 0 <= i < |s| ==> !IsSpace(s[i])
  }

  function WordEnd(s: string): (n: nat)
    ensures n <= |s| && NoSpace(s[..n]) && (n < |s| ==> IsSpace(s[n]))
  {
    if s == [] || IsSpace(s[0]) then 0 else 1 + WordEnd(s[1..])
  }

  /** strings.Fields. */
  function Fields(s: string): seq<string>
    decreases |s|
  {
    if s == [] then []
    else if IsSpace(s[0]) then Fields(s[1..])
    else [s[..WordEnd(s)]] + Fields(s[WordEnd(s)..])
  }

  function DropCR(line: string): string {
    if line != [] && line[|line| - 1] == '\r' then line[..|line| - 1] else line
  }

  /** The lines of bufio.Scanner. */
  function Lines(s: string): seq<string>
    decreases |s|
  {
    if s == [] then []
    else
      match Cut(s, '\n')
      case None => [DropCR(s)]
      case Some((line, rest)) => [DropCR(line)] + Lines(rest)
  }

  /** The white space of Unicode. */
  lemma SpaceMeans(c: char)
    ensures IsSpace(c) <==>
      || c in ['\t', '\n', '\U{b}', '\U{c}', '\r', ' ', '\U{85}', '\U{a0}', '\U{1680}']
      || c in ['\U{2000}', '\U{2001}', '\U{2002}', '\U{2003}', '\U{2004}', '\U{2005}', '\U{2006}', '\U{2007}']
      || c in ['\U{2008}', '\U{2009}', '\U{200a}', '\U{2028}', '\U{2029}', '\U{202f}', '\U{205f}', '\U{3000}']
  {
  }

  /** Each white-space character separates, and a text without any is one field, or none. */
  lemma {:induction false} FieldsMeans(a: string, c: char, b: string)
    requires IsSpace(c)
    ensures Fields(a + [c] + b) == Fields(a) + Fields(b)
    ensures NoSpace(a) ==> Fields(a) == if a == "" then [] else [a]
    decreases |a|
  {
    var s := a + [c] + b;
    if a == "" {
      assert s[1..] == b;
    } else if IsSpace(a[0]) {
      assert s[1..] == a[1..] + [c] + b;
      FieldsMeans(a[1..], c, b);
    } else {
      var n := WordEnd(a);
      assert a == a[..n] + a[n..] && s == a[..n] + (a[n..] + [c] + b);
      WordEndIs(a[..n], a[n..] + [c] + b);
      assert s[..n] == a[..n] && s[n..] == a[n..] + [c] + b;
      FieldsMeans(a[n..], c, b);
      if NoSpace(a) {
        assert a[..n] == a && a[n..] == "" && Fields("") == [];
      }
    }
  }

  /** A newline ends a line, with a CR before it; the last line needs none. */
  lemma LinesMeans(line: string, rest: string)
    requires Free(line, '\n')
    ensures Lines(line + "\n" + rest)
            == [if |line| >= 1 && line[|line| - 1] == '\r' then line[..|line| - 1] else line] + Lines(rest)
    ensures line != "" ==> Lines(line) == Lines(line + "\n")
  {
    CutAt(line, '\n', rest);
    CutAt(line, '\n', "");
    assert line + "\n" + "" == line + "\n";
    assert Lines("") == [];
  }

  // ---- Receiving ----

  function CutSuffix(s: string, suffix: string): Option<string> {
    if |suffix| <= |s| && s[|s| - |suffix|..] == suffix then Some(s[..|s| - |suffix|]) else None
  }

  /** The row of a key after INSERT ... ON CONFLICT DO UPDATE of one column. */
  function Upsert(table: Table, key: RowKey, gomod: bool, hash: seq<byte>): Table {
    var row := if key in table then table[key] else Hashes(None, None);
    table[key := if gomod then row.(gomod := Some(hash)) else row.(source := Some(hash))]
  }

  function ApplyLine(table: Table, pubkey: seq<byte>, line: string): Result<Table> {
    var fields := Fields(line);
    if |fields| != 3 then Err("Invalid go.sum line")
    else
      var hash :- ParseRecordHash(fields[2]);
      var base := CutSuffix(fields[1], GOMOD_SUFFIX);
      if base.Some? then Ok(Upsert(table, (pubkey, fields[0], base.value), true, hash))
      else Ok(Upsert(table, (pubkey, fields[0], fields[1]), false, hash))
  }

  function ApplyLines(table: Table, pubkey: seq<byte>, lines: seq<string>): Result<Table>
    decreases |lines|
  {
    if lines == [] then Ok(table)
    else
      var next :- ApplyLine(table, pubkey, lines[0]);
      ApplyLines(next, pubkey, lines[1..])
  }

  function HashLine(modulePath: string, version: string, hash: Option<seq<byte>>): string {
    if hash.Some? && |hash.value| > 0 then Line([modulePath, version, HashField(hash.value)]) else ""
  }

  /** What a row prints. */
  function RowText(modulePath: string, version: string, row: Hashes): string {
    HashLine(modulePath, version, row.source) + HashLine(modulePath, version + GOMOD_SUFFIX, row.gomod)
  }

  lemma HashLineMeans(modulePath: string, version: string, hash: seq<byte>)
    requires hash != []
    ensures HashLine(modulePath, version, Some(hash))
            == modulePath + " " + version + " h1:" + Base64.Encode(hash) + "\n"
  {
    hide Line, Base64.Encode;
    LineOfThree(modulePath, version, HashField(hash));
    assert " " + SHA256_PREFIX == " h1:";
  }

  lemma GomodLine(front: string, version: string, text: string)
    ensures front + " " + (version + GOMOD_SUFFIX) + " h1:" + text == front + " " + version + "/go.mod h1:" + text
  {
    assert GOMOD_SUFFIX + " h1:" == "/go.mod h1:";
  }

  /** One line for each hash, the source hash first. */
  lemma RowTextMeans(modulePath: string, version: string, row: Hashes)
    requires row.source.Some? ==> row.source.value != []
    requires row.gomod.Some? ==> row.gomod.value != []
    ensures RowText(modulePath, version, row) ==
      (if row.source.Some? then modulePath + " " + version + " h1:" + Base64.Encode(row.source.value) + "\n" else "")
      + (if row.gomod.Some?
         then modulePath + " " + version + "/go.mod h1:" + Base64.Encode(row.gomod.value) + "\n" else "")
  {
    if row.source.Some? {
      HashLineMeans(modulePath, version, row.source.value);
    }
    if row.gomod.Some? {
      HashLineMeans(modulePath, version + GOMOD_SUFFIX, row.gomod.value);
      GomodLine(modulePath, version, Base64.Encode(row.gomod.value));
    }
    hide Line, Base64.Encode;
  }

  function Served(table: Table, pubkey: seq<byte>, keys: seq<(string, string)>): string
    requires forall k :: k in keys ==> (pubkey, k.0, k.1) in table
  {
    if keys == [] then ""
    else
      var (modulePath, version) := keys[0];
      RowText(modulePath, version, table[(pubkey, modulePath, version)]) + Served(table, pubkey, keys[1..])
  }

  datatype Reply = NoContent | Forbidden | BadRequest | ServerError

  class Store {
    var table: Table

    constructor ()
      ensures table == map[]
    {
      table := map[];
    }

    /**
     The transaction works on a copy; a rejected upload leaves the table as it was. `fuse` is
     the number of statements that succeed: any value of it is a failure at some statement,
     of which there are one to begin, one for each line, and the commit.
     */
    method ReceiveAuthorized(pubkey: seq<byte>, goSum: string, signature: seq<byte>,
                             verify: (seq<byte>, string, seq<byte>) -> bool, fuse: nat)
        returns (reply: Reply)
      modifies this
      ensures reply.NoContent? <==>
        && verify(pubkey, goSum, signature) && ApplyLines(old(table), pubkey, Lines(goSum)).Ok?
        && fuse >= |Lines(goSum)| + 2
      ensures reply.Forbidden? <==> !verify(pubkey, goSum, signature)
      ensures reply.BadRequest? ==> ApplyLines(old(table), pubkey, Lines(goSum)).Err?
      ensures reply.ServerError? ==> fuse < |Lines(goSum)| + 2
      ensures table == if reply.NoContent? then ApplyLines(old(table), pubkey, Lines(goSum)).value else old(table)
    {
      if !verify(pubkey, goSum, signature) {
        return Forbidden;
      }
      if fuse == 0 {
        return ServerError;
      }
      var tx, left := table, fuse - 1;
      var lines := Lines(goSum);
      assert lines[0..] == lines;
      for i := 0 to |lines|
        invariant ApplyLines(tx, pubkey, lines[i..]) == ApplyLines(table, pubkey, lines)
        invariant table == old(table) && left >= 0 && left + i + 1 == fuse
      {
        assert lines[i..][0] == lines[i] && lines[i..][1..] == lines[i + 1..];
        var next := ApplyLine(tx, pubkey, lines[i]);
        if next.Err? {
          return BadRequest;
        }
        if left == 0 {
          return ServerError;
        }
        tx, left := next.value, left - 1;
      }
      assert lines[|lines|..] == [];
      if left == 0 {
        return ServerError;
      }
      table := tx;
      return NoContent;
    }

    /** `keys` are the rows of the key in the order of the query. */
    method ServeAuthorized(pubkey: seq<byte>, keys: seq<(string, string)>) returns (text: string)
      requires forall k :: k in keys ==> (pubkey, k.0, k.1) in table
      ensures text == Served(table, pubkey, keys)
    {
      hide HashLine;
      text := "";
      assert keys[0..] == keys;
      for i := 0 to |keys|
        invariant text + Served(table, pubkey, keys[i..]) == Served(table, pubkey, keys)
      {
        assert keys[i..][0] == keys[i] && keys[i..][1..] == keys[i + 1..];
        var (modulePath, version) := keys[i];
        var row := table[(pubkey, modulePath, version)];
        PrintRow(text, HashLine(modulePath, version, row.source),
                 HashLine(modulePath, version + GOMOD_SUFFIX, row.gomod), Served(table, pubkey, keys[i + 1..]));
        text := text + HashLine(modulePath, version, row.source);
        text := text + HashLine(modulePath, version + GOMOD_SUFFIX, row.gomod);
      }
    }
  }

  lemma PrintRow(text: string, source: string, gomod: string, rest: string)
    ensures text + (source + gomod + rest) == text + source + gomod + rest
  {
  }

  // ---- Reachable tables ----

  /** What every stored row satisfies. */
  ghost predicate RowOk(modulePath: string, version: string, row: Hashes) {
    && |modulePath| > 0 && NoSpace(modulePath) && NoSpace(version)
    && (row.source.Some? || row.gomod.Some?)
    && (row.source.Some? ==> |row.source.value| == SHA256_LEN && |version| > 0
                             && CutSuffix(version, GOMOD_SUFFIX).None?)
    && (row.gomod.Some? ==> |row.gomod.value| == SHA256_LEN)
  }

  ghost predicate TableOk(table: Table) {
    forall key :: key in table ==> RowOk(key.1, key.2, table[key])
  }

  lemma {:induction false} FieldsHaveNoSpace(s: string)
    ensures forall i :: 0 <= i < |Fields(s)| ==> |Fields(s)[i]| > 0 && NoSpace(Fields(s)[i])
    decreases |s|
  {
    if s != [] {
      if IsSpace(s[0]) {
        FieldsHaveNoSpace(s[1..]);
      } else {
        FieldsHaveNoSpace(s[WordEnd(s)..]);
      }
    }
  }

  lemma LineKeeps(table: Table, pubkey: seq<byte>, line: string)
    requires TableOk(table) && ApplyLine(table, pubkey, line).Ok?
    ensures TableOk(ApplyLine(table, pubkey, line).value)
  {
    FieldsHaveNoSpace(line);
  }

  /** Whatever is uploaded, a version that ends in /go.mod never gets a source hash. */
  lemma {:induction false} UploadKeeps(table: Table, pubkey: seq<byte>, lines: seq<string>)
    requires TableOk(table) && ApplyLines(table, pubkey, lines).Ok?
    ensures TableOk(ApplyLines(table, pubkey, lines).value)
    decreases |lines|
  {
    if lines != [] {
      LineKeeps(table, pubkey, lines[0]);
      UploadKeeps(ApplyLine(table, pubkey, lines[0]).value, pubkey, lines[1..]);
    }
  }

  // ---- What an upload writes ----

  /** The hash in one of the two columns of a row, if there is one. */
  function Column(table: Table, key: RowKey, gomod: bool): Option<seq<byte>> {
    if key !in table then None else if gomod then table[key].gomod else table[key].source
  }

  predicate EndsInGomod(version: string) {
    |version| >= 7 && version[|version| - 7..] == "/go.mod"
  }

  /** The line has three fields: the module, what names the column of this version, and this hash. */
  ghost predicate Writes(line: string, modulePath: string, version: string, gomod: bool, hash: seq<byte>) {
    var fields := Fields(line);
    && |fields| == 3 && fields[0] == modulePath && ParseRecordHash(fields[2]) == Ok(hash)
    && if gomod then fields[1] == version + "/go.mod" else fields[1] == version && !EndsInGomod(version)
  }

  ghost predicate WritesColumn(line: string, modulePath: string, version: string, gomod: bool) {
    exists hash :: Writes(line, modulePath, version, gomod, hash)
  }

  /** What the column holds after the lines: the hash of the last line that writes it, or what it held. */
  ghost predicate HoldsLast(before: Option<seq<byte>>, lines: seq<string>, modulePath: string, version: string,
                            gomod: bool, now: Option<seq<byte>>) {
    if exists i :: 0 <= i < |lines| && WritesColumn(lines[i], modulePath, version, gomod) then
      exists i :: 0 <= i < |lines|
        && now.Some? && Writes(lines[i], modulePath, version, gomod, now.value)
        && forall j :: i < j < |lines| ==> !WritesColumn(lines[j], modulePath, version, gomod)
    else now == before
  }

  lemma LineWrites(table: Table, pubkey: seq<byte>, line: string, key: RowKey, gomod: bool)
    requires ApplyLine(table, pubkey, line).Ok?
    ensures var now := Column(ApplyLine(table, pubkey, line).value, key, gomod);
      if key.0 == pubkey && WritesColumn(line, key.1, key.2, gomod)
      then now.Some? && Writes(line, key.1, key.2, gomod, now.value)
      else now == Column(table, key, gomod)
  {
    hide Fields, ParseRecordHash;
    var fields := Fields(line);
    var version := fields[1];
    var base := CutSuffix(version, GOMOD_SUFFIX);
    SuffixMeans(version, key.2);
    var hash := ParseRecordHash(fields[2]).value;
    if key == (pubkey, fields[0], if base.Some? then base.value else version) && gomod == base.Some? {
      assert Writes(line, key.1, key.2, gomod, hash);
    }
  }

  lemma SuffixMeans(version: string, other: string)
    ensures CutSuffix(version, GOMOD_SUFFIX).Some? <==> EndsInGomod(version)
    ensures CutSuffix(version, GOMOD_SUFFIX) == Some(other) <==> version == other + "/go.mod"
  {
    assert |GOMOD_SUFFIX| == 7 && GOMOD_SUFFIX == "/go.mod";
    if EndsInGomod(version) {
      assert version == version[..|version| - 7] + "/go.mod";
    }
    if version == other + "/go.mod" {
      assert version[|version| - 7..] == "/go.mod" && version[..|version| - 7] == other;
    }
  }

  /**
   After an accepted upload each column of the key's rows holds the hash of the last line that
   names it, or what it held before when no line does; nothing else changes.
   */
  lemma {:induction false} UploadWrites(table: Table, pubkey: seq<byte>, lines: seq<string>, key: RowKey, gomod: bool)
    requires ApplyLines(table, pubkey, lines).Ok?
    ensures var before, now := Column(table, key, gomod), Column(ApplyLines(table, pubkey, lines).value, key, gomod);
      if key.0 == pubkey then HoldsLast(before, lines, key.1, key.2, gomod, now) else now == before
    decreases |lines|
  {
    hide ApplyLine, Writes, Column;
    if lines != [] {
      var next := ApplyLine(table, pubkey, lines[0]).value;
      LineWrites(table, pubkey, lines[0], key, gomod);
      UploadWrites(next, pubkey, lines[1..], key, gomod);
      var now := Column(ApplyLines(table, pubkey, lines).value, key, gomod);
      if key.0 == pubkey {
        LastOfTail(Column(table, key, gomod), Column(next, key, gomod), lines, key.1, key.2, gomod, now);
      }
    }
  }

  lemma LastOfTail(before: Option<seq<byte>>, next: Option<seq<byte>>, lines: seq<string>, modulePath: string,
                   version: string, gomod: bool, now: Option<seq<byte>>)
    requires lines != [] && HoldsLast(next, lines[1..], modulePath, version, gomod, now)
    requires if WritesColumn(lines[0], modulePath, version, gomod)
             then next.Some? && Writes(lines[0], modulePath, version, gomod, next.value) else next == before
    ensures HoldsLast(before, lines, modulePath, version, gomod, now)
  {
    hide Writes;
    var tail := lines[1..];
    assert forall i :: 0 <= i < |tail| ==> tail[i] == lines[i + 1];
    if i :| 0 <= i < |tail| && WritesColumn(tail[i], modulePath, version, gomod) {
      var k :| 0 <= k < |tail|
        && now.Some? && Writes(tail[k], modulePath, version, gomod, now.value)
        && forall j :: k < j < |tail| ==> !WritesColumn(tail[j], modulePath, version, gomod);
      assert WritesColumn(lines[i + 1], modulePath, version, gomod);
      assert Writes(lines[k + 1], modulePath, version, gomod, now.value);
      forall j | k + 1 < j < |lines|
        ensures !WritesColumn(lines[j], modulePath, version, gomod)
      {
        assert tail[j - 1] == lines[j];
      }
    } else {
      forall j | 0 < j < |lines|
        ensures !WritesColumn(lines[j], modulePath, version, gomod)
      {
        assert tail[j - 1] == lines[j];
      }
    }
  }

  /** Rows appear only where a line put them. */
  lemma {:induction false} UploadAdds(table: Table, pubkey: seq<byte>, lines: seq<string>)
    requires TableOk(table) && ApplyLines(table, pubkey, lines).Ok?
    ensures var table' := ApplyLines(table, pubkey, lines).value;
      forall key :: key in table' <==> Column(table', key, true).Some? || Column(table', key, false).Some?
    ensures forall key: RowKey :: key.0 != pubkey ==>
      var table' := ApplyLines(table, pubkey, lines).value;
      (key in table' <==> key in table) && (key in table ==> table'[key] == table[key])
  {
    hide ApplyLines;
    UploadKeeps(table, pubkey, lines);
    forall key: RowKey | key.0 != pubkey
      ensures var table' := ApplyLines(table, pubkey, lines).value;
        (key in table' <==> key in table) && (key in table ==> table'[key] == table[key])
    {
      UploadWrites(table, pubkey, lines, key, true);
      UploadWrites(table, pubkey, lines, key, false);
    }
  }

  /** A line is accepted when it has three fields, the last of them `h1:` and a hash. */
  ghost predicate GoodLine(line: string) {
    |Fields(line)| == 3 && exists hash :: ParseRecordHash(Fields(line)[2]) == Ok(hash)
  }

  /** An upload is accepted exactly when all its lines are. */
  lemma {:induction false} AcceptedIff(table: Table, pubkey: seq<byte>, lines: seq<string>)
    ensures ApplyLines(table, pubkey, lines).Ok? <==> forall i :: 0 <= i < |lines| ==> GoodLine(lines[i])
    decreases |lines|
  {
    if lines != [] {
      var first := ApplyLine(table, pubkey, lines[0]);
      assert first.Ok? <==> GoodLine(lines[0]);
      hide ApplyLine, GoodLine;
      if first.Ok? {
        AcceptedIff(first.value, pubkey, lines[1..]);
        assert forall i :: 0 < i < |lines| ==> lines[i] == lines[1..][i - 1];
      }
    }
  }

  // ---- Replaying what was served ----

  lemma {:induction false} WordEndIs(word: string, rest: string)
    requires NoSpace(word) && (rest == [] || IsSpace(rest[0]))
    ensures WordEnd(word + rest) == |word|
  {
    if word != [] {
      assert (word + rest)[1..] == word[1..] + rest;
      WordEndIs(word[1..], rest);
    } else {
      assert word + rest == rest;
    }
  }

  lemma FieldsWord(word: string, rest: string)
    requires |word| > 0 && NoSpace(word) && (rest == [] || IsSpace(rest[0]))
    ensures Fields(word + rest) == [word] + Fields(rest)
  {
    WordEndIs(word, rest);
    assert (word + rest)[..|word|] == word && (word + rest)[|word|..] == rest;
  }

  lemma JoinThree(a: string, b: string, c: string)
    ensures Join([a, b, c], " ") == a + (" " + (b + (" " + c)))
  {
    assert [a, b, c][1..] == [b, c] && [b, c][1..] == [c] && Join([c], " ") == c;
    assert Join([b, c], " ") == b + " " + c;
  }

  lemma FieldsOfThree(a: string, b: string, c: string)
    requires |a| > 0 && |b| > 0 && |c| > 0 && NoSpace(a) && NoSpace(b) && NoSpace(c)
    ensures Fields(Join([a, b, c], " ")) == [a, b, c]
  {
    var tail := " " + c;
    var rest := " " + (b + tail);
    JoinThree(a, b, c);
    FieldsWord(a, rest);
    assert rest[1..] == b + tail;
    FieldsWord(b, tail);
    assert tail[1..] == c && c + "" == c;
    FieldsWord(c, "");
  }

  lemma NoSpaceFree(s: string)
    requires NoSpace(s)
    ensures Free(s, '\n') && Free(s, '\r')
  {
  }

  lemma HashFieldWord(hash: seq<byte>)
    ensures |HashField(hash)| > 0 && NoSpace(HashField(hash))
  {
    Base64.EncodedChars(hash);
  }

  /** The first line of a printed text is that line. */
  lemma LinesFirst(a: string, b: string, c: string, rest: string)
    requires NoSpace(a) && NoSpace(b) && NoSpace(c) && |c| > 0
    ensures Lines(Line([a, b, c]) + rest) == [Join([a, b, c], " ")] + Lines(rest)
  {
    var line := Join([a, b, c], " ");
    assert Free(line, '\n') by {
      NoSpaceFree(a);
      NoSpaceFree(b);
      NoSpaceFree(c);
      JoinFree([a, b, c], " ", '\n');
    }
    CutAt(line, '\n', rest);
    JoinThree(a, b, c);
    assert line[|line| - 1] == c[|c| - 1];
  }

  lemma ReplayLine(table: Table, pubkey: seq<byte>, modulePath: string, version: string, hash: seq<byte>, rest: string)
    requires |modulePath| > 0 && |version| > 0 && NoSpace(modulePath) && NoSpace(version) && |hash| == SHA256_LEN
    ensures ApplyLines(table, pubkey, Lines(Line([modulePath, version, HashField(hash)]) + rest)) ==
      var base := CutSuffix(version, GOMOD_SUFFIX);
      ApplyLines(if base.Some? then Upsert(table, (pubkey, modulePath, base.value), true, hash)
                 else Upsert(table, (pubkey, modulePath, version), false, hash), pubkey, Lines(rest))
  {
    hide Lines, Fields, NoSpace, HashField, ParseRecordHash, Upsert, CutSuffix;
    HashFieldWord(hash);
    HashFieldParses(hash);
    LinesFirst(modulePath, version, HashField(hash), rest);
    FieldsOfThree(modulePath, version, HashField(hash));
    var lines := [Join([modulePath, version, HashField(hash)], " ")] + Lines(rest);
    assert lines[1..] == Lines(rest);
  }

  /** The lines of a row put exactly that row in its place. */
  lemma ReplayRow(table: Table, pubkey: seq<byte>, modulePath: string, version: string, row: Hashes, rest: string)
    requires RowOk(modulePath, version, row) && (pubkey, modulePath, version) !in table
    ensures ApplyLines(table, pubkey, Lines(RowText(modulePath, version, row) + rest))
            == ApplyLines(table[(pubkey, modulePath, version) := row], pubkey, Lines(rest))
  {
    hide Lines, ApplyLines;
    var key, gomodVersion := (pubkey, modulePath, version), version + GOMOD_SUFFIX;
    var source, gomod := HashLine(modulePath, version, row.source), HashLine(modulePath, gomodVersion, row.gomod);
    assert source + gomod + rest == source + (gomod + rest);
    assert CutSuffix(gomodVersion, GOMOD_SUFFIX) == Some(version);
    var half := if row.source.Some? then Upsert(table, key, false, row.source.value) else table;
    if row.source.Some? {
      ReplayLine(table, pubkey, modulePath, version, row.source.value, gomod + rest);
    } else {
      assert source + (gomod + rest) == gomod + rest;
    }
    if row.gomod.Some? {
      ReplayLine(half, pubkey, modulePath, gomodVersion, row.gomod.value, rest);
      assert Upsert(half, key, true, row.gomod.value) == table[key := row];
    } else {
      assert gomod + rest == rest && half == table[key := row];
    }
  }

  function RowsOf(table: Table, pubkey: seq<byte>, keys: seq<(string, string)>): Table
    requires forall k :: k in keys ==> (pubkey, k.0, k.1) in table
  {
    map key | key in table && key.0 == pubkey && (key.1, key.2) in keys :: table[key]
  }

  lemma RowsOfFirst(table: Table, pubkey: seq<byte>, done: Table, keys: seq<(string, string)>)
    requires keys != [] && forall k :: k in keys ==> (pubkey, k.0, k.1) in table && (pubkey, k.0, k.1) !in done
    ensures var key := (pubkey, keys[0].0, keys[0].1);
      done[key := table[key]] + RowsOf(table, pubkey, keys[1..]) == done + RowsOf(table, pubkey, keys)
  {
    var (modulePath, version) := keys[0];
    assert keys[0] in keys;
    assert forall k :: k in keys <==> k == (modulePath, version) || k in keys[1..];
  }

  lemma {:induction false} ReplayRows(table: Table, pubkey: seq<byte>, done: Table, keys: seq<(string, string)>)
    requires TableOk(table) && forall k :: k in keys ==> (pubkey, k.0, k.1) in table && (pubkey, k.0, k.1) !in done
    requires forall i, j :: 0 <= i < j < |keys| ==> keys[i] != keys[j]
    ensures ApplyLines(done, pubkey, Lines(Served(table, pubkey, keys)))
            == Ok(done + RowsOf(table, pubkey, keys))
    decreases |keys|
  {
    hide Lines, RowText, RowOk, ApplyLine;
    if keys == [] {
      assert Lines("") == [] by {
        LinesOfNothing();
      }
      assert done + RowsOf(table, pubkey, keys) == done;
    } else {
      var (modulePath, version) := keys[0];
      var key := (pubkey, modulePath, version);
      assert keys[0] in keys;
      ReplayRow(done, pubkey, modulePath, version, table[key], Served(table, pubkey, keys[1..]));
      var next := done[key := table[key]];
      forall k | k in keys[1..]
        ensures (pubkey, k.0, k.1) in table && (pubkey, k.0, k.1) !in next
      {
        assert k in keys && k != keys[0];
      }
      ReplayRows(table, pubkey, next, keys[1..]);
      RowsOfFirst(table, pubkey, done, keys);
    }
  }

  lemma LinesOfNothing()
    ensures Lines("") == []
  {
  }

  /** Serving a key's rows, in any order, and uploading the text into an empty table rebuilds them. */
  lemma ReplayServed(table: Table, pubkey: seq<byte>, keys: seq<(string, string)>)
    requires TableOk(table)
    requires forall m, v :: (m, v) in keys <==> (pubkey, m, v) in table
    requires forall i, j :: 0 <= i < j < |keys| ==> keys[i] != keys[j]
    ensures ApplyLines(map[], pubkey, Lines(Served(table, pubkey, keys)))
            == Ok(map key | key in table && key.0 == pubkey :: table[key])
  {
    hide Lines, ApplyLines, Served, RowOk;
    forall k | k in keys
      ensures (pubkey, k.0, k.1) in table
    {
      assert (k.0, k.1) in keys;
    }
    ReplayRows(table, pubkey, map[], keys);
    AllRows(table, pubkey, keys);
    assert map[] + RowsOf(table, pubkey, keys) == RowsOf(table, pubkey, keys);
  }

  lemma AllRows(table: Table, pubkey: seq<byte>, keys: seq<(string, string)>)
    requires forall k :: k in keys ==> (pubkey, k.0, k.1) in table
    requires forall m, v :: (pubkey, m, v) in table ==> (m, v) in keys
    ensures RowsOf(table, pubkey, keys) == map key | key in table && key.0 == pubkey :: table[key]
  {
    forall key | key in table && key.0 == pubkey
      ensures (key.1, key.2) in keys
    {
      assert (pubkey, key.1, key.2) == key;
    }
  }

  datatype Upload = Upload(pubkey: seq<byte>, goSum: string)

  /** The table after a list of uploads with good signatures; a rejected one changes nothing. */
  function AfterUploads(uploads: seq<Upload>): Table {
    if uploads == [] then map[]
    else
      var before, last := AfterUploads(uploads[..|uploads| - 1]), uploads[|uploads| - 1];
      match ApplyLines(before, last.pubkey, Lines(last.goSum))
      case Ok(table) => table
      case Err(_) => before
  }

  lemma {:induction false} ReachableOk(uploads: seq<Upload>)
    ensures TableOk(AfterUploads(uploads))
  {
    if uploads != [] {
      var before, last := AfterUploads(uploads[..|uploads| - 1]), uploads[|uploads| - 1];
      ReachableOk(uploads[..|uploads| - 1]);
      if ApplyLines(before, last.pubkey, Lines(last.goSum)).Ok? {
        UploadKeeps(before, last.pubkey, Lines(last.goSum));
      }
    }
  }

  /** The same for every table that uploads can build. */
  lemma ReplayReachable(uploads: seq<Upload>, pubkey: seq<byte>, keys: seq<(string, string)>)
    requires var table := AfterUploads(uploads);
      forall m, v :: (m, v) in keys <==> (pubkey, m, v) in table
    requires forall i, j :: 0 <= i < j < |keys| ==> keys[i] != keys[j]
    ensures var table := AfterUploads(uploads);
      && (forall k :: k in keys ==> (pubkey, k.0, k.1) in table)
      && AfterUploads([Upload(pubkey, Served(table, pubkey, keys))])
         == map key | key in table && key.0 == pubkey :: table[key]
  {
    hide Lines, ApplyLines, Served, RowOk;
    var table := AfterUploads(uploads);
    ReachableOk(uploads);
    forall k | k in keys
      ensures (pubkey, k.0, k.1) in table
    {
      assert (k.0, k.1) in keys;
    }
    ReplayServed(table, pubkey, keys);
    var upload := [Upload(pubkey, Served(table, pubkey, keys))];
    assert upload[..0] == [];
  }
}
