/** Downloading records tile by tile: sumdb/download.go. */
module Download {
  import opened Wrappers
  import opened Text
  import opened Records

  const TILE_SIZE: nat := 8
  const RECORDS_PER_TILE: nat := 256

  type uint64 = x: int | 0 <= x <= MAX_UINT64

  // ---- Cutting a data tile in records ----

  predicate BlankAt(s: string, i: nat) {
    i + 2 <= |s| && s[i] == '\n' && s[i + 1] == '\n'
  }

  /** The position of the first empty line, which follows a record. */
  function IndexBlank(s: string): (r: Option<nat>)
    ensures r.Some? ==> BlankAt(s, r.value)
    ensures forall i: nat :: BlankAt(s, i) ==> r.Some? && r.value <= i
  {
    if |s| < 2 then None
    else if BlankAt(s, 0) then Some(0)
    else
      assert forall i: nat :: BlankAt(s, i) ==> i > 0 && BlankAt(s[1..], i - 1);
      match IndexBlank(s[1..])
      case None => None
      case Some(i) => Some(i + 1)
  }

  function RecordTexts(input: string): (r: seq<string>)
    ensures |r| >= 1
    decreases |input|
  {
    match IndexBlank(input)
    case None => [input]
    case Some(i) => [input[..i + 1]] + RecordTexts(input[i + 2..])
  }

  method SplitRecords(data: string) returns (records: seq<string>)
    ensures records == RecordTexts(data)
  {
    records := [];
    var input := data;
    while true
      invariant records + RecordTexts(input) == RecordTexts(data)
      decreases |input|
    {
      var blank := IndexBlank(input);
      if blank.None? {
        records := records + [input];
        break;
      }
      records := records + [input[..blank.value + 1]];
      input := input[blank.value + 2..];
    }
  }

  /** Nothing is lost: the pieces joined again are the tile, whatever it contains. */
  lemma {:induction false} JoinRecordTexts(input: string)
    ensures Join(RecordTexts(input), "\n") == input
    decreases |input|
  {
    var blank := IndexBlank(input);
    if blank.Some? {
      var i := blank.value;
      JoinRecordTexts(input[i + 2..]);
      assert input == input[..i + 1] + "\n" + input[i + 2..];
    }
  }

  /** A text that starts and ends like a record and has no empty line. */
  ghost predicate IsBlock(s: string) {
    && |s| >= 1 && s[0] != '\n' && s[|s| - 1] == '\n'
    && forall i: nat :: !BlankAt(s, i)
  }

  lemma BlankAfterBlock(first: string, rest: string)
    requires IsBlock(first)
    ensures IndexBlank(first + "\n" + rest) == Some(|first| - 1)
  {
    var s, n := first + "\n" + rest, |first| - 1;
    assert BlankAt(s, n);
    forall i: nat | i < n
      ensures !BlankAt(s, i)
    {
      assert s[i] == first[i] && s[i + 1] == first[i + 1] && !BlankAt(first, i);
    }
  }

  lemma {:induction false} SplitBlocks(blocks: seq<string>)
    requires |blocks| >= 1 && forall i :: 0 <= i < |blocks| ==> IsBlock(blocks[i])
    ensures RecordTexts(Join(blocks, "\n")) == blocks
  {
    if |blocks| > 1 {
      var first, rest := blocks[0], Join(blocks[1..], "\n");
      var s, n := first + "\n" + rest, |first| - 1;
      BlankAfterBlock(first, rest);
      assert s[..n + 1] == first && s[n + 2..] == rest;
      SplitBlocks(blocks[1..]);
    }
  }

  lemma FormatIsBlock(r: Record)
    requires WellFormed(r)
    ensures IsBlock(r.Format())
  {
    FormatLines(r);
    var a, b := Join(r.SourceFields(), " "), Join(r.GomodFields(), " ");
    JoinFree(r.SourceFields(), " ", '\n');
    JoinFree(r.GomodFields(), " ", '\n');
    var s := r.Format();
    assert s == a + "\n" + b + "\n";
    assert |a| >= 1 && |b| >= 1;
    forall i: nat | i + 2 <= |s|
      ensures !BlankAt(s, i)
    {
      if i < |a| {
        assert s[i] == a[i];
      } else if i == |a| {
        assert s[i + 1] == b[0];
      } else {
        assert s[i] == b[i - |a| - 1];
      }
    }
    assert s[0] == a[0];
  }

  /** All records of a tile, or the first error. */
  function ParseAll(texts: seq<string>): Result<seq<Record>> {
    if texts == [] then Ok([])
    else
      var first :- ParseRecord(texts[0]);
      var rest :- ParseAll(texts[1..]);
      Ok([first] + rest)
  }

  lemma {:induction false} ParseAllLength(texts: seq<string>)
    requires ParseAll(texts).Ok?
    ensures |ParseAll(texts).value| == |texts|
  {
    if texts != [] {
      ParseAllLength(texts[1..]);
    }
  }

  lemma {:induction false} ParseFormats(records: seq<Record>)
    requires forall i :: 0 <= i < |records| ==> WellFormed(records[i])
    ensures ParseAll(Formats(records)) == Ok(records)
  {
    hide ParseRecord, Record.Format, WellFormed;
    if records != [] {
      var texts := Formats(records);
      assert texts[0] == records[0].Format() && texts[1..] == Formats(records[1..]);
      assert ParseRecord(texts[0]) == Ok(records[0]) by {
        ParseFormat(records[0]);
      }
      assert ParseAll(texts[1..]) == Ok(records[1..]) by {
        ParseFormats(records[1..]);
      }
      assert [records[0]] + records[1..] == records;
    }
  }

  /** A data tile reads back as the records it was made of. */
  lemma TileRoundTrip(records: seq<Record>)
    requires |records| >= 1 && forall i :: 0 <= i < |records| ==> WellFormed(records[i])
    ensures ParseAll(RecordTexts(Join(Formats(records), "\n"))) == Ok(records)
  {
    forall i | 0 <= i < |records|
      ensures IsBlock(Formats(records)[i])
    {
      FormatIsBlock(records[i]);
    }
    SplitBlocks(Formats(records));
    ParseFormats(records);
  }

  // ---- Tile names ----

  function ThreeDigits(n: nat): (s: string)
    requires n < 1000
    ensures |s| == 3
  {
    [Digit(n / 100), Digit(n / 10 % 10), Digit(n % 10)]
  }

  /** The directories of a tile name, most significant first. */
  function Directories(n: nat): string {
    if n == 0 then "" else Directories(n / 1000) + ("x" + ThreeDigits(n % 1000) + "/")
  }

  function TileName(tile: nat): string {
    Directories(tile / 1000) + ThreeDigits(tile % 1000)
  }

  lemma Regroup(a: string, b: string, c: string)
    ensures a + b + c == a + (b + c)
  {
  }

  method FormatTileIndex(index: uint64) returns (str: string)
    ensures str == TileName(index)
  {
    var tile := index;
    str := ThreeDigits(tile % 1000);
    while tile >= 1000
      invariant Directories(tile / 1000) + str == TileName(index)
    {
      tile := tile / 1000;
      Regroup(Directories(tile / 1000), "x" + ThreeDigits(tile % 1000) + "/", str);
      str := "x" + ThreeDigits(tile % 1000) + "/" + str;
    }
  }

  lemma DigitsOf(n: nat)
    requires n < 1000
    ensures var s := ThreeDigits(n);
      && (forall i :: 0 <= i < 3 ==> IsDigit(s[i]))
      && n == 100 * DigitValue(s[0]) + 10 * DigitValue(s[1]) + DigitValue(s[2])
  {
    var s := ThreeDigits(n);
    assert DigitValue(s[0]) == n / 100 && DigitValue(s[1]) == n / 10 % 10 && DigitValue(s[2]) == n % 10;
  }

  lemma ThreeDigitsInjective(a: nat, b: nat)
    requires a < 1000 && b < 1000 && ThreeDigits(a) == ThreeDigits(b)
    ensures a == b
  {
    DigitsOf(a);
    DigitsOf(b);
  }

  lemma {:induction false} DirectoriesInjective(a: nat, b: nat)
    requires Directories(a) == Directories(b)
    ensures a == b
    decreases a
  {
    var s, t := Directories(a), Directories(b);
    if a > 0 && b > 0 {
      var n := |s| - 5;
      assert s[..n] == Directories(a / 1000) && t[..n] == Directories(b / 1000);
      assert s[n + 1..n + 4] == ThreeDigits(a % 1000) && t[n + 1..n + 4] == ThreeDigits(b % 1000);
      ThreeDigitsInjective(a % 1000, b % 1000);
      DirectoriesInjective(a / 1000, b / 1000);
    }
  }

  /** No two tiles share a name. */
  lemma TileNameInjective(a: nat, b: nat)
    requires TileName(a) == TileName(b)
    ensures a == b
  {
    var s, t := TileName(a), TileName(b);
    var n := |s| - 3;
    assert s[..n] == Directories(a / 1000) && t[..n] == Directories(b / 1000);
    assert s[n..] == ThreeDigits(a % 1000) && t[n..] == ThreeDigits(b % 1000);
    ThreeDigitsInjective(a % 1000, b % 1000);
    DirectoriesInjective(a / 1000, b / 1000);
  }

  /** A number of three digits. */
  ghost predicate IsThree(s: string, n: nat) {
    && |s| == 3 && (forall i :: 0 <= i < 3 ==> IsDigit(s[i]))
    && n == 100 * DigitValue(s[0]) + 10 * DigitValue(s[1]) + DigitValue(s[2])
  }

  /**
   The parts of a tile name stand for the digits of its number to the base 1000; each part but
   the last has an `x` before it, and the first of several parts is not zero.
   */
  ghost predicate IsTilePath(parts: seq<string>, digits: seq<nat>) {
    && |parts| == |digits| >= 1
    && IsThree(parts[|parts| - 1], digits[|parts| - 1])
    && (forall i :: 0 <= i < |parts| - 1 ==> |parts[i]| == 4 && parts[i][0] == 'x' && IsThree(parts[i][1..], digits[i]))
    && (|digits| > 1 ==> digits[0] > 0)
  }

  function Base1000(digits: seq<nat>): nat {
    if digits == [] then 0 else Base1000(digits[..|digits| - 1]) * 1000 + digits[|digits| - 1]
  }

  lemma {:induction false} DirectoryParts(n: nat, last: string) returns (parts: seq<string>, digits: seq<nat>)
    requires Free(last, '/')
    ensures |parts| == |digits| && Base1000(digits) == n && (digits != [] ==> digits[0] > 0)
    ensures forall i :: 0 <= i < |parts| ==>
      |parts[i]| == 4 && parts[i][0] == 'x' && Free(parts[i], '/') && IsThree(parts[i][1..], digits[i])
    ensures Directories(n) + last == Join(parts + [last], "/")
  {
    if n == 0 {
      parts, digits := [], [];
      assert Directories(n) + last == last && parts + [last] == [last];
    } else {
      var part := "x" + ThreeDigits(n % 1000);
      DigitsOf(n % 1000);
      assert part[1..] == ThreeDigits(n % 1000) && Free(part, '/') && IsThree(part[1..], n % 1000);
      assert Directories(n) + last == Directories(n / 1000) + part + ("/" + last) by {
        Regroup(Directories(n / 1000), part + "/", last);
        Regroup(Directories(n / 1000), part, "/" + last);
        assert part + "/" + last == part + ("/" + last);
      }
      hide Directories, ThreeDigits, IsThree, Join, Free;
      parts, digits := DirectoryParts(n / 1000, part);
      JoinAppend(parts + [part], "/", last);
      parts, digits := parts + [part], digits + [n % 1000];
      assert digits[..|digits| - 1] + [n % 1000] == digits;
    }
  }

  lemma {:induction false} JoinAppend(fields: seq<string>, separator: string, last: string)
    requires |fields| >= 1
    ensures Join(fields + [last], separator) == Join(fields, separator) + (separator + last)
  {
    if |fields| == 1 {
      assert (fields + [last])[1..] == [last];
    } else {
      assert (fields + [last])[1..] == fields[1..] + [last];
      JoinAppend(fields[1..], separator, last);
    }
  }

  /** The name of a tile, part by part. */
  lemma TileNameMeans(tile: nat) returns (digits: seq<nat>)
    ensures IsTilePath(Split(TileName(tile), '/'), digits) && Base1000(digits) == tile
  {
    var last := ThreeDigits(tile % 1000);
    DigitsOf(tile % 1000);
    var parts;
    parts, digits := DirectoryParts(tile / 1000, last);
    SplitJoin(parts + [last], '/');
    digits := digits + [tile % 1000];
    assert digits[..|digits| - 1] + [tile % 1000] == digits;
  }

  function Url(address: string, tile: nat, count: nat): string {
    "https://" + address + "/tile/" + Decimal(TILE_SIZE) + "/data/" + TileName(tile)
    + if count < RECORDS_PER_TILE then ".p/" + Decimal(count) else ""
  }

  lemma UrlMeans(address: string, tile: nat, count: nat)
    ensures Url(address, tile, count) == "https://" + address + "/tile/8/data/" + TileName(tile)
      + if count < 256 then ".p/" + Decimal(count) else ""
  {
    assert Decimal(8) == "8";
    assert "https://" + address + "/tile/" + "8" + "/data/" == "https://" + address + "/tile/8/data/";
  }

  lemma {:induction false} DirectoriesFree(n: nat)
    ensures Free(Directories(n), '.')
  {
    if n > 0 {
      DirectoriesFree(n / 1000);
    }
  }

  /** Requests for different tiles or different widths go to different addresses. */
  lemma UrlInjective(address: string, tile: nat, count: nat, tile': nat, count': nat)
    requires count <= RECORDS_PER_TILE && count' <= RECORDS_PER_TILE
    requires Url(address, tile, count) == Url(address, tile', count')
    ensures tile == tile' && count == count'
  {
    var front := "https://" + address + "/tile/" + Decimal(TILE_SIZE) + "/data/";
    var name := Url(address, tile, count)[|front|..];
    Suffix(front, tile, count, name);
    Suffix(front, tile', count', name);
    TileNameInjective(tile, tile');
    DecimalValue(count);
    DecimalValue(count');
  }

  lemma Suffix(front: string, tile: nat, count: nat, name: string)
    requires var part := if count < RECORDS_PER_TILE then ".p/" + Decimal(count) else "";
      name == (front + TileName(tile) + part)[|front|..]
    ensures if count < RECORDS_PER_TILE then Cut(name, '.') == Some((TileName(tile), "p/" + Decimal(count)))
            else Cut(name, '.').None? && name == TileName(tile)
    ensures count < RECORDS_PER_TILE ==> ("p/" + Decimal(count))[2..] == Decimal(count)
  {
    DirectoriesFree(tile / 1000);
    assert Free(TileName(tile), '.');
    if count < RECORDS_PER_TILE {
      assert name == TileName(tile) + ['.'] + ("p/" + Decimal(count));
      CutAt(TileName(tile), '.', "p/" + Decimal(count));
    } else {
      assert name == TileName(tile);
    }
  }

  // ---- Fetching one tile ----

  /** How the server answers the n-th request, made for an address; None is a failed request. */
  type Server = (nat, string) -> Option<string>

  /** How many records of its first tile the range [begin, end) needs, from the start of the tile. */
  function TileCount(begin: nat, end: nat): (count: nat)
    requires begin < end
    ensures begin % RECORDS_PER_TILE < count <= RECORDS_PER_TILE
    ensures begin / RECORDS_PER_TILE * RECORDS_PER_TILE + count <= end
  {
    var count := end - begin / RECORDS_PER_TILE * RECORDS_PER_TILE;
    if count > RECORDS_PER_TILE then RECORDS_PER_TILE else count
  }

  /** What an answer is taken for; records before `skip` are counted but not read. */
  function ReadTile(answer: Option<string>, skip: nat, count: nat): Result<seq<Record>>
    requires skip < count
  {
    if answer.None? then Err("request failed")
    else
      var texts := RecordTexts(answer.value);
      if |texts| != count then Err("wrong number of records") else ParseAll(texts[skip..])
  }

  lemma {:induction false} ParseAllMeans(texts: seq<string>)
    ensures ParseAll(texts).Ok? <==> forall i :: 0 <= i < |texts| ==> ParseRecord(texts[i]).Ok?
    ensures ParseAll(texts).Ok? ==>
      && |ParseAll(texts).value| == |texts|
      && forall i :: 0 <= i < |texts| ==> ParseRecord(texts[i]) == Ok(ParseAll(texts).value[i])
  {
    hide ParseRecord;
    if texts != [] {
      ParseAllMeans(texts[1..]);
      assert forall i :: 0 < i < |texts| ==> texts[i] == texts[1..][i - 1];
    }
  }

  /** An answer is accepted when it has as many records as asked for and those from `skip` on parse. */
  lemma ReadTileMeans(answer: Option<string>, skip: nat, count: nat)
    requires skip < count
    ensures var r := ReadTile(answer, skip, count);
      && (r.Ok? <==>
            && answer.Some? && |RecordTexts(answer.value)| == count
            && forall i :: skip <= i < count ==> ParseRecord(RecordTexts(answer.value)[i]).Ok?)
      && (r.Ok? ==>
            && |r.value| == count - skip
            && forall i :: skip <= i < count ==> ParseRecord(RecordTexts(answer.value)[i]) == Ok(r.value[i - skip]))
  {
    hide ParseRecord, RecordTexts, ParseAll;
    if answer.Some? && |RecordTexts(answer.value)| == count {
      var texts := RecordTexts(answer.value);
      ParseAllMeans(texts[skip..]);
      assert forall i :: skip <= i < count ==> texts[i] == texts[skip..][i - skip];
      assert forall i :: 0 <= i < count - skip ==> texts[skip..][i] == texts[skip + i];
    }
  }

  /** What is read from the answer to the n-th request, the one for the records from `at` on. */
  function Answer(server: Server, n: nat, address: string, at: nat, end: nat): Result<seq<Record>>
    requires at < end
  {
    var count := TileCount(at, end);
    ReadTile(server(n, Url(address, at / RECORDS_PER_TILE, count)), at % RECORDS_PER_TILE, count)
  }

  method FetchRecords(server: Server, attempt: nat, address: string, begin: uint64, end: uint64)
      returns (r: Result<seq<Record>>)
    requires begin < end
    ensures r == Answer(server, attempt, address, begin, end)
  {
    var tile: uint64 := begin / RECORDS_PER_TILE;
    var skip: uint64 := begin % RECORDS_PER_TILE;
    var count: uint64 := end - tile * RECORDS_PER_TILE;
    if count > RECORDS_PER_TILE {
      count := RECORDS_PER_TILE;
    }
    var name := FormatTileIndex(tile);
    var url := "https://" + address + "/tile/" + Decimal(TILE_SIZE) + "/data/" + name;
    if count < RECORDS_PER_TILE {
      url := url + ".p/" + Decimal(count);
    }
    assert url == Url(address, tile, count);
    var answer := server(attempt, url);
    if answer.None? {
      return Err("request failed");
    }
    var records := SplitRecords(answer.value);
    if |records| != count {
      return Err("wrong number of records");
    }
    r := ParseRecords(records[skip..]);
  }

  function Prepend(parsed: seq<Record>, rest: Result<seq<Record>>): Result<seq<Record>> {
    if rest.Ok? then Ok(parsed + rest.value) else rest
  }

  lemma PrependNothing(rest: Result<seq<Record>>)
    ensures Prepend([], rest) == rest
  {
    assert rest.Ok? ==> [] + rest.value == rest.value;
  }

  lemma PrependOne(parsed: seq<Record>, texts: seq<string>)
    requires texts != [] && ParseRecord(texts[0]).Ok?
    ensures Prepend(parsed, ParseAll(texts))
            == Prepend(parsed + [ParseRecord(texts[0]).value], ParseAll(texts[1..]))
  {
    var first := ParseRecord(texts[0]).value;
    assert forall rest: seq<Record> :: parsed + ([first] + rest) == parsed + [first] + rest;
  }

  method ParseRecords(texts: seq<string>) returns (r: Result<seq<Record>>)
    ensures r == ParseAll(texts)
  {
    hide ParseRecord;
    var parsed: seq<Record> := [];
    PrependNothing(ParseAll(texts));
    assert texts[0..] == texts;
    for i := 0 to |texts|
      invariant Prepend(parsed, ParseAll(texts[i..])) == ParseAll(texts)
    {
      assert texts[i..][1..] == texts[i + 1..];
      var record := ParseRecord(texts[i]);
      if record.Err? {
        return Err(record.error);
      }
      PrependOne(parsed, texts[i..]);
      parsed := parsed + [record.value];
    }
    assert texts[|texts|..] == [] && parsed + [] == parsed;
    return Ok(parsed);
  }

  // ---- Downloading a range ----

  /** Whatever the server gets accepted is the log's content at that place. */
  ghost predicate Honest(server: Server, address: string, log: seq<Record>) {
    forall n: nat, tile: nat, count: nat, skip: nat |
        skip < count <= RECORDS_PER_TILE && tile * RECORDS_PER_TILE + count <= |log| ::
      var r := ReadTile(server(n, Url(address, tile, count)), skip, count);
      r.Ok? ==> r.value == log[tile * RECORDS_PER_TILE + skip..tile * RECORDS_PER_TILE + count]
  }

  /** The server answers every request with the tile's records, an empty line between them. */
  ghost predicate Serves(server: Server, address: string, log: seq<Record>) {
    && (forall i :: 0 <= i < |log| ==> WellFormed(log[i]))
    && forall n: nat, tile: nat, count: nat |
          0 < count <= RECORDS_PER_TILE && tile * RECORDS_PER_TILE + count <= |log| ::
        server(n, Url(address, tile, count)) ==
          Some(Join(Formats(log[tile * RECORDS_PER_TILE..tile * RECORDS_PER_TILE + count]), "\n"))
  }

  lemma ServedTileReads(log: seq<Record>, tile: nat, skip: nat, count: nat)
    requires skip < count && tile * RECORDS_PER_TILE + count <= |log|
    requires forall i :: 0 <= i < |log| ==> WellFormed(log[i])
    ensures var from := tile * RECORDS_PER_TILE;
            ReadTile(Some(Join(Formats(log[from..from + count]), "\n")), skip, count)
            == Ok(log[from + skip..from + count])
  {
    hide WellFormed, IsBlock, ParseAll, RecordTexts, Join, Record.Format;
    var records := log[tile * RECORDS_PER_TILE..tile * RECORDS_PER_TILE + count];
    forall i | 0 <= i < |records|
      ensures IsBlock(Formats(records)[i])
    {
      FormatIsBlock(records[i]);
    }
    SplitBlocks(Formats(records));
    ParseFormats(records[skip..]);
    assert Formats(records)[skip..] == Formats(records[skip..]);
  }

  lemma ServesIsHonest(server: Server, address: string, log: seq<Record>)
    requires Serves(server, address, log)
    ensures Honest(server, address, log)
  {
    forall n: nat, tile: nat, count: nat, skip: nat |
        skip < count <= RECORDS_PER_TILE && tile * RECORDS_PER_TILE + count <= |log|
      ensures ReadTile(server(n, Url(address, tile, count)), skip, count)
              == Ok(log[tile * RECORDS_PER_TILE + skip..tile * RECORDS_PER_TILE + count])
    {
      ServedTileReads(log, tile, skip, count);
    }
  }

  /** The tiles that [begin, end) touches. */
  function TilesTouched(begin: nat, end: nat): nat {
    if begin >= end then 0
    else (end + RECORDS_PER_TILE - 1) / RECORDS_PER_TILE - begin / RECORDS_PER_TILE
  }

  lemma TilesAre(begin: nat, end: nat)
    ensures begin < end ==> TilesTouched(begin, end) == (end + 255) / 256 - begin / 256
  {
  }

  /** Where the next request starts after a successful one at `at`. */
  function NextAt(at: nat, end: nat): (next: nat)
    requires at < end
    ensures at < next <= end
    ensures next == end || (next % 256 == 0 && next - at <= 256)
  {
    at / RECORDS_PER_TILE * RECORDS_PER_TILE + TileCount(at, end)
  }

  lemma AnswerLength(server: Server, n: nat, address: string, at: nat, end: nat)
    requires at < end && Answer(server, n, address, at, end).Ok?
    ensures |Answer(server, n, address, at, end).value| == NextAt(at, end) - at
  {
    var count := TileCount(at, end);
    var answer := server(n, Url(address, at / RECORDS_PER_TILE, count));
    ParseAllLength(RecordTexts(answer.value)[at % RECORDS_PER_TILE..]);
  }

  lemma HonestAnswer(server: Server, n: nat, address: string, log: seq<Record>, at: nat, end: nat)
    requires Honest(server, address, log) && at < end <= |log|
    ensures var r := Answer(server, n, address, at, end);
            r.Ok? ==> r.value == log[at..NextAt(at, end)]
  {
    hide ReadTile, Url;
    var tile, skip, count := at / RECORDS_PER_TILE, at % RECORDS_PER_TILE, TileCount(at, end);
    var r := ReadTile(server(n, Url(address, tile, count)), skip, count);
    assert r.Ok? ==> r.value == log[tile * RECORDS_PER_TILE + skip..tile * RECORDS_PER_TILE + count];
  }

  lemma ServedAnswer(server: Server, n: nat, address: string, log: seq<Record>, at: nat, end: nat)
    requires Serves(server, address, log) && at < end <= |log|
    ensures Answer(server, n, address, at, end) == Ok(log[at..NextAt(at, end)])
  {
    hide ReadTile, WellFormed, Url, Join;
    var tile, skip, count := at / RECORDS_PER_TILE, at % RECORDS_PER_TILE, TileCount(at, end);
    ServedTileReads(log, tile, skip, count);
    var from := tile * RECORDS_PER_TILE;
    assert server(n, Url(address, tile, count)) == Some(Join(Formats(log[from..from + count]), "\n"));
    assert from + skip == at;
  }

  /** The requests that succeeded when the download of [begin, end) has come to `at`. */
  function FetchedAt(begin: nat, at: nat, end: nat): nat {
    if at <= begin then 0
    else if at == end then TilesTouched(begin, end)
    else at / RECORDS_PER_TILE - begin / RECORDS_PER_TILE
  }

  lemma FetchedEnds(begin: nat, end: nat)
    ensures FetchedAt(begin, begin, end) == 0
    ensures begin < end ==> FetchedAt(begin, end, end) == TilesTouched(begin, end)
    ensures begin >= end ==> TilesTouched(begin, end) == 0
    ensures forall at :: begin <= at <= end ==> FetchedAt(begin, at, end) <= TilesTouched(begin, end)
  {
  }

  lemma FetchedStep(begin: nat, at: nat, end: nat)
    requires begin <= at < end && (at == begin || at % RECORDS_PER_TILE == 0)
    ensures FetchedAt(begin, NextAt(at, end), end) == FetchedAt(begin, at, end) + 1
  {
  }

  method SendAllRecords(values: seq<Record>, budget: nat) returns (sent: seq<Record>, left: nat)
    ensures if |values| <= budget then sent == values && left == budget - |values|
            else sent == values[..budget] && left == 0
  {
    sent, left := [], budget;
    for i := 0 to |values|
      invariant i + left == budget && sent == values[..i]
    {
      if left == 0 {
        return;
      }
      sent := sent + [values[i]];
      left := left - 1;
    }
  }

  /**
   Downloads [begin, end). The context is cancelled once `budget` requests and sends were
   made; `done` says that it was not. `fetched` counts the requests that succeeded.
   */
  method DownloadRecords(server: Server, address: string, begin: uint64, end: uint64, budget: nat,
                         ghost log: seq<Record>)
      returns (sent: seq<Record>, done: bool, ghost fetched: nat)
    ensures begin >= end ==> sent == []
    ensures begin < end ==> |sent| <= end - begin
    ensures done ==> fetched == TilesTouched(begin, end) && begin + |sent| >= end
    ensures done && begin < end ==> fetched == (end + 255) / 256 - begin / 256
    ensures Honest(server, address, log) && begin < end <= |log| ==>
      sent == log[begin..begin + |sent|]
    ensures Serves(server, address, log) && begin <= end <= |log| ==>
      (budget > end - begin + TilesTouched(begin, end) ==> done)
  {
    hide Honest, Serves, Answer, NextAt, FetchedAt, TilesTouched;
    FetchedEnds(begin, end);
    TilesAre(begin, end);
    var at, numRetries, attempt, left := begin, 0, 0, budget;
    sent, fetched := [], 0;
    while at < end && left > 0
      invariant at == begin + |sent| && numRetries <= 8
      invariant if begin < end then at <= end else at == begin
      invariant at == begin || at == end || at % RECORDS_PER_TILE == 0
      invariant fetched == FetchedAt(begin, at, end)
      invariant Honest(server, address, log) && begin < end <= |log| ==> sent == log[begin..at]
      invariant Serves(server, address, log) && end <= |log| ==> left == budget - |sent| - fetched
      decreases left
    {
      left := left - 1;
      var records := FetchRecords(server, attempt, address, at, end);
      if Serves(server, address, log) && end <= |log| {
        ServedAnswer(server, attempt, address, log, at, end);
      }
      if records.Err? {
        if left == 0 {
          return sent, false, fetched;
        }
        if numRetries < 8 {
          numRetries := numRetries + 1;
        }
        attempt := attempt + 1;
        continue;
      }
      numRetries := 0;
      AnswerLength(server, attempt, address, at, end);
      if Honest(server, address, log) && end <= |log| {
        HonestAnswer(server, attempt, address, log, at, end);
      }
      attempt := attempt + 1;
      var batch;
      batch, left := SendAllRecords(records.value, left);
      sent := sent + batch;
      if |batch| < |records.value| {
        return sent, false, fetched;
      }
      FetchedStep(begin, at, end);
      fetched := fetched + 1;
      at := at + |records.value|;
    }
    done := left > 0;
  }
}
