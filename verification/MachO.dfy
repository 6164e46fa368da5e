/** Stripping the code signature of a Mach-O executable: toolchain/darwin.go. */
module MachO {
  import opened Wrappers
  import opened Text

  type Bytes = seq<byte>

  // ---- Little-endian numbers ----

  function Pow256(n: nat): nat {
    if n == 0 then 1 else 256 * Pow256(n - 1)
  }

  const TWO32: nat := 0x1_0000_0000
  const TWO64: nat := 0x1_0000_0000_0000_0000

  lemma Powers()
    ensures Pow256(4) == TWO32 && Pow256(8) == TWO64
  {
    assert Pow256(2) == 0x1_0000 && Pow256(4) == 0x1_0000 * Pow256(2) && Pow256(6) == 0x1_0000 * Pow256(4);
  }

  function Value(b: Bytes): (v: nat)
    ensures v < Pow256(|b|)
  {
    if b == [] then 0 else b[0] + 256 * Value(b[1..])
  }

  /** The n low bytes of v. */
  function Le(v: nat, n: nat): (b: Bytes)
    ensures |b| == n
  {
    if n == 0 then [] else [v % 256] + Le(v / 256, n - 1)
  }

  lemma {:induction false} ValueLe(v: nat, n: nat)
    requires v < Pow256(n)
    ensures Value(Le(v, n)) == v
  {
    if n > 0 {
      ValueLe(v / 256, n - 1);
    }
  }

  lemma {:induction false} LeValue(b: Bytes)
    ensures Le(Value(b), |b|) == b
  {
    hide Pow256;
    if b != [] {
      var rest := b[1..];
      LeValue(rest);
      assert Value(b) % 256 == b[0] && Value(b) / 256 == Value(rest);
      assert b == [b[0]] + rest;
    }
  }

  function U32(d: Bytes, off: nat): (v: nat)
    requires off + 4 <= |d|
    ensures v < TWO32
  {
    Powers();
    Value(d[off..off + 4])
  }

  function U64(d: Bytes, off: nat): (v: nat)
    requires off + 8 <= |d|
    ensures v < TWO64
  {
    Powers();
    Value(d[off..off + 8])
  }

  function Put(d: Bytes, off: nat, b: Bytes): (r: Bytes)
    requires off + |b| <= |d|
    ensures |r| == |d|
  {
    d[..off] + b + d[off + |b|..]
  }

  // ---- Load commands ----

  const HEADER_SIZE: nat := 32
  const MAGIC: Bytes := [0xcf, 0xfa, 0xed, 0xfe]
  const LC_SEGMENT: nat := 0x1
  const LC_SEGMENT_64: nat := 0x19
  const LC_CODE_SIGNATURE: nat := 0x1d
  /** "__LINKEDIT" and the byte that ends it. */
  const LINKEDIT: Bytes := [0x5f, 0x5f, 0x4c, 0x49, 0x4e, 0x4b, 0x45, 0x44, 0x49, 0x54, 0]

  /** A load command that macho.NewFile accepts: its size is its second field. */
  predicate ValidLoad(raw: Bytes) {
    && |raw| >= 8 && U32(raw, 4) == |raw|
    && (U32(raw, 0) == LC_SEGMENT_64 ==> |raw| >= 72)
    && (U32(raw, 0) == LC_SEGMENT ==> |raw| >= 56)
  }

  /** A segment, 32-bit or 64-bit, of that name; both kinds are longer than the name. */
  predicate IsLinkedit(raw: Bytes) {
    && |raw| >= 24
    && (U32(raw, 0) == LC_SEGMENT_64 || U32(raw, 0) == LC_SEGMENT)
    && raw[8..8 + |LINKEDIT|] == LINKEDIT
  }

  function ParseLoads(table: Bytes, n: nat): (r: Option<seq<Bytes>>)
    ensures r.Some? ==> |r.value| == n && forall i :: 0 <= i < n ==> ValidLoad(r.value[i])
  {
    if n == 0 then Some([])
    else if |table| < 8 || U32(table, 4) < 8 || U32(table, 4) > |table| then None
    else
      var raw := table[..U32(table, 4)];
      match ParseLoads(table[|raw|..], n - 1)
      case None => None
      case Some(rest) => if ValidLoad(raw) then Some([raw] + rest) else None
  }

  /** The loads that macho.NewFile finds; `accepts` stands for its checks of their contents. */
  function NewFile(d: Bytes, accepts: Bytes -> bool): (r: Option<seq<Bytes>>)
    ensures r.Some? ==> |d| >= HEADER_SIZE && forall i :: 0 <= i < |r.value| ==> ValidLoad(r.value[i])
  {
    if |d| < HEADER_SIZE || HEADER_SIZE + U32(d, 20) > |d| || !accepts(d) then None
    else ParseLoads(d[HEADER_SIZE..HEADER_SIZE + U32(d, 20)], U32(d, 16))
  }

  /** The load table: the loads one after the other. */
  function Table(loads: seq<Bytes>): Bytes {
    if loads == [] then [] else loads[0] + Table(loads[1..])
  }

  lemma {:induction false} TableAppend(a: seq<Bytes>, b: seq<Bytes>)
    ensures Table(a + b) == Table(a) + Table(b)
  {
    if a == [] {
      assert a + b == b;
    } else {
      TableAppend(a[1..], b);
      assert (a + b)[1..] == a[1..] + b;
    }
  }

  /** The loads before number i, that one and those after it. */
  lemma {:induction false} TableSplit(loads: seq<Bytes>, i: nat)
    requires i < |loads|
    ensures Table(loads) == Table(loads[..i]) + (loads[i] + Table(loads[i + 1..]))
  {
    var before, after := loads[..i], loads[i..];
    TableAppend(before, after);
    assert loads == before + after;
    assert after[0] == loads[i] && after[1..] == loads[i + 1..];
    assert Table(after) == after[0] + Table(after[1..]);
  }

  lemma {:induction false} ParsedTable(table: Bytes, n: nat)
    requires ParseLoads(table, n).Some?
    ensures Table(ParseLoads(table, n).value) <= table
  {
    if n > 0 {
      var raw := table[..U32(table, 4)];
      ParsedTable(table[|raw|..], n - 1);
      var rest := ParseLoads(table[|raw|..], n - 1).value;
      assert ([raw] + rest)[1..] == rest;
      assert table == raw + table[|raw|..];
    }
  }

  lemma Slice(d: Bytes, off: nat, n: nat, k: nat, m: nat)
    requires off + n <= |d| && k + m <= n
    ensures d[off..off + n][k..k + m] == d[off + k..off + k + m]
  {
    var whole := d[off..off + n];
    var a, b := whole[k..k + m], d[off + k..off + k + m];
    forall j | 0 <= j < m
      ensures a[j] == b[j]
    {
      assert a[j] == whole[k + j];
    }
  }

  lemma ParseFirst(raw: Bytes, rest: Bytes, n: nat)
    requires ValidLoad(raw)
    ensures ParseLoads(raw + rest, n + 1) ==
      match ParseLoads(rest, n)
      case None => None
      case Some(loads) => Some([raw] + loads)
  {
    var table := raw + rest;
    assert table[..|raw|] == raw && table[|raw|..] == rest;
    Slice(table, 0, |raw|, 4, 4);
  }

  lemma {:induction false} ParseTable(loads: seq<Bytes>, tail: Bytes)
    requires forall i :: 0 <= i < |loads| ==> ValidLoad(loads[i])
    ensures ParseLoads(Table(loads) + tail, |loads|) == Some(loads)
  {
    hide ValidLoad, U32;
    if loads != [] {
      assert Table(loads) + tail == loads[0] + (Table(loads[1..]) + tail);
      ParseTable(loads[1..], tail);
      ParseFirst(loads[0], Table(loads[1..]) + tail, |loads| - 1);
      assert loads == [loads[0]] + loads[1..];
    }
  }

  /** The file offset of load number i. */
  function Offset(loads: seq<Bytes>, i: nat): nat
    requires i <= |loads|
  {
    HEADER_SIZE + |Table(loads[..i])|
  }

  lemma OffsetNext(loads: seq<Bytes>, i: nat)
    requires i < |loads|
    ensures Offset(loads, i + 1) == Offset(loads, i) + |loads[i]|
  {
    TableAppend(loads[..i], [loads[i]]);
    assert loads[..i + 1] == loads[..i] + [loads[i]];
  }

  lemma LoadInTable(loads: seq<Bytes>, i: nat)
    requires i < |loads|
    ensures var at := |Table(loads[..i])|;
      at + |loads[i]| <= |Table(loads)| && Table(loads)[at..at + |loads[i]|] == loads[i]
  {
    TableSplit(loads, i);
  }

  lemma SliceOfPrefix(d: Bytes, off: nat, table: Bytes, at: nat, n: nat)
    requires at + n <= |table| && off + |table| <= |d| && d[off..off + |table|] == table
    ensures d[off + at..off + at + n] == table[at..at + n]
  {
    Slice(d, off, |table|, at, n);
  }

  /** The load table stands in the file after the header. */
  lemma TableInFile(d: Bytes, accepts: Bytes -> bool)
    requires NewFile(d, accepts).Some?
    ensures var table := Table(NewFile(d, accepts).value);
      && HEADER_SIZE + |table| <= HEADER_SIZE + U32(d, 20) <= |d|
      && d[HEADER_SIZE..HEADER_SIZE + |table|] == table
  {
    var whole := d[HEADER_SIZE..HEADER_SIZE + U32(d, 20)];
    ParsedTable(whole, U32(d, 16));
    var table := Table(NewFile(d, accepts).value);
    assert whole[..|table|] == table;
    assert d[HEADER_SIZE..HEADER_SIZE + |table|] == whole[..|table|];
  }

  /** The loads stand in the file where the offsets say. */
  lemma LoadInFile(d: Bytes, accepts: Bytes -> bool, i: nat)
    requires NewFile(d, accepts).Some? && i < |NewFile(d, accepts).value|
    ensures var loads := NewFile(d, accepts).value; var off := Offset(loads, i);
      off + |loads[i]| <= |d| && d[off..off + |loads[i]|] == loads[i]
  {
    var loads := NewFile(d, accepts).value;
    TableInFile(d, accepts);
    LoadInTable(loads, i);
    SliceOfPrefix(d, HEADER_SIZE, Table(loads), |Table(loads[..i])|, |loads[i]|);
  }

  // ---- Stripping ----

  /** Only binaries in these archive directories are expected to be signed. */
  predicate IsBinaryName(name: string) {
    Contains(name, "/bin/") || Contains(name, "/pkg/tool/")
  }

  predicate Contains(s: string, part: string) {
    exists i: nat :: ContainsAt(s, part, i) && i <= |s|
  }

  predicate ContainsAt(s: string, part: string, i: nat) {
    i + |part| <= |s| && s[i..i + |part|] == part
  }

  /** Reads outside of the file give 0. */
  function At(d: Bytes, off: nat): nat {
    if off + 4 > |d| then 0 else U32(d, off)
  }

  /** The first segment named __LINKEDIT, or the number of loads. */
  function FindLinkedit(loads: seq<Bytes>, from: nat): (r: nat)
    requires from <= |loads|
    ensures from <= r <= |loads| && (r < |loads| ==> IsLinkedit(loads[r]))
    ensures forall i :: from <= i < r ==> !IsLinkedit(loads[i])
    decreases |loads| - from
  {
    if from == |loads| then from
    else if IsLinkedit(loads[from]) then from
    else FindLinkedit(loads, from + 1)
  }

  const NO_BYTES: Bytes := [0, 0, 0, 0, 0, 0, 0, 0, 0, 0, 0, 0, 0, 0, 0, 0]

  /** One load command less in the header. */
  function EditCounts(d: Bytes): (r: Bytes)
    requires |d| >= 24
    ensures |r| == |d|
  {
    var d1 := Put(d, 16, Le((At(d, 16) + TWO32 - 1) % TWO32, 4));
    Put(d1, 20, Le((At(d1, 20) + TWO32 - 16) % TWO32, 4))
  }

  /** Both sizes of a segment become its file size without the signature. */
  function EditSizes(d: Bytes, linkOff: nat, sigSize: nat): (r: Bytes)
    requires linkOff + 32 <= |d| && sigSize < TWO32
    ensures |r| == |d|
  {
    var size := (U64(d, linkOff + 16) + TWO64 - sigSize) % TWO64;
    Put(Put(d, linkOff, Le(size, 8)), linkOff + 16, Le(size, 8))
  }

  /** The edits after the point of no return. */
  function Edit(d: Bytes, sigLoad: nat, linkOff: nat, sigSize: nat): (r: Bytes)
    requires |d| >= 24 && sigLoad + 16 <= |d| && linkOff + 32 <= |d| && sigSize < TWO32
    ensures |r| == |d|
  {
    EditSizes(Put(EditCounts(d), sigLoad, NO_BYTES), linkOff, sigSize)
  }

  /** The file is left alone, or `image` is what its bytes become and `length` how many stay. */
  datatype Outcome = Kept(error: Option<string>) | Stripped(image: Bytes, length: nat)

  function Strip(name: string, d: Bytes, accepts: Bytes -> bool): Outcome {
    if !IsBinaryName(name) then Kept(None)
    else if |d| < 4 || d[..4] != MAGIC then Kept(None)
    else
      var file := NewFile(d, accepts);
      if file.None? then Kept(Some("cannot parse"))
      else
        var loads := file.value;
        if |loads| < 4 then Kept(Some("too few loads"))
        else
          var raw := loads[|loads| - 1];
          if |raw| != 16 || U32(raw, 0) != LC_CODE_SIGNATURE || U32(raw, 4) != 16 then Kept(None)
          else if U32(raw, 8) >= |d| then Kept(Some("invalid signature"))
          else
            var link := FindLinkedit(loads, 0);
            if link == |loads| then Kept(Some("cannot find __LINKEDIT"))
            else
              var off, sigLoad := Offset(loads, link), Offset(loads, |loads| - 1);
              if At(d, off) != LC_SEGMENT_64 || off + 64 > |d| then Kept(Some("confused finding __LINKEDIT"))
              else if sigLoad + 16 > |d| then Kept(Some("confused finding signature load"))
              else Stripped(Edit(d, sigLoad, off + 32, U32(raw, 12)), U32(raw, 8))
  }

  // ---- Which files are stripped ----

  /** The name and the first bytes of a 64-bit Mach-O binary. */
  ghost predicate InScope(name: string, d: Bytes) {
    && (Contains(name, "/bin/") || Contains(name, "/pkg/tool/"))
    && |d| >= 4 && d[..4] == [0xcf, 0xfa, 0xed, 0xfe]
  }

  /** A load command of 16 bytes that begins with LC_CODE_SIGNATURE and its size. */
  ghost predicate IsSignature(raw: Bytes) {
    |raw| == 16 && raw[..4] == [0x1d, 0, 0, 0] && raw[4..8] == [16, 0, 0, 0]
  }

  /** A 32-bit or 64-bit segment with the name __LINKEDIT. */
  ghost predicate NamesLinkedit(raw: Bytes) {
    && |raw| >= 24 && (raw[..4] == [0x19, 0, 0, 0] || raw[..4] == [1, 0, 0, 0])
    && (forall i :: 0 <= i < 10 ==> raw[8 + i] == "__LINKEDIT"[i] as int) && raw[18] == 0
  }

  lemma FourBytes(b: Bytes, v: byte)
    requires |b| == 4
    ensures Value(b) == v <==> b == [v, 0, 0, 0]
  {
    assert b[1..][1..] == b[2..] && b[2..][1..] == b[3..] && b[3..][1..] == [];
    assert Value(b[3..]) == b[3];
    assert Value(b[2..]) == b[2] + 256 * Value(b[3..]);
    assert Value(b[1..]) == b[1] + 256 * Value(b[2..]);
  }

  lemma CommandWord(raw: Bytes)
    requires |raw| >= 8
    ensures U32(raw, 0) == LC_CODE_SIGNATURE <==> raw[..4] == [0x1d, 0, 0, 0]
    ensures U32(raw, 0) == LC_SEGMENT_64 <==> raw[..4] == [0x19, 0, 0, 0]
    ensures U32(raw, 0) == LC_SEGMENT <==> raw[..4] == [1, 0, 0, 0]
    ensures U32(raw, 4) == 16 <==> raw[4..8] == [16, 0, 0, 0]
  {
    assert raw[0..4] == raw[..4];
    FourBytes(raw[..4], 0x1d);
    FourBytes(raw[..4], 0x19);
    FourBytes(raw[..4], 1);
    FourBytes(raw[4..8], 16);
  }

  lemma LinkeditMeans(raw: Bytes)
    ensures IsLinkedit(raw) <==> NamesLinkedit(raw)
  {
    if |raw| >= 24 {
      CommandWord(raw);
      var field := raw[8..8 + |LINKEDIT|];
      assert field == raw[8..19] && forall i :: 0 <= i < 11 ==> field[i] == raw[8 + i];
      assert forall i :: 0 <= i < 10 ==> LINKEDIT[i] == "__LINKEDIT"[i] as int;
      if NamesLinkedit(raw) {
        assert forall i :: 0 <= i < 11 ==> field[i] == LINKEDIT[i];
      }
    }
  }

  /** The first load with that name is a 64-bit segment. */
  ghost predicate FirstLinkeditIs64(loads: seq<Bytes>) {
    exists i :: 0 <= i < |loads| && NamesLinkedit(loads[i]) && loads[i][..4] == [0x19, 0, 0, 0]
      && forall j :: 0 <= j < i ==> !NamesLinkedit(loads[j])
  }

  /** A file in scope is stripped, kept as it is, or refused for the reasons given here. */
  lemma StripWhen(name: string, d: Bytes, accepts: Bytes -> bool)
    ensures var r, file := Strip(name, d, accepts), NewFile(d, accepts);
      if !InScope(name, d) then r == Kept(None)
      else if file.None? || |file.value| < 4 then r.Kept? && r.error.Some?
      else
        var loads := file.value; var last := loads[|loads| - 1];
        if !IsSignature(last) then r == Kept(None)
        else if U32(last, 8) < |d| && FirstLinkeditIs64(loads) then r.Stripped?
        else r.Kept? && r.error.Some?
  {
    hide NewFile, Edit, U32, At, FirstLinkeditIs64, Contains, Offset, FindLinkedit, IsSignature;
    var file := NewFile(d, accepts);
    if InScope(name, d) && file.Some? && |file.value| >= 4 {
      SignatureMeans(file.value[|file.value| - 1]);
      LinkeditFound(d, accepts);
    }
  }

  lemma SignatureMeans(raw: Bytes)
    requires |raw| >= 8
    ensures IsSignature(raw) <==> |raw| == 16 && U32(raw, 0) == LC_CODE_SIGNATURE && U32(raw, 4) == 16
  {
    CommandWord(raw);
  }

  lemma LinkeditFound(d: Bytes, accepts: Bytes -> bool)
    requires NewFile(d, accepts).Some?
    ensures var loads := NewFile(d, accepts).value; var link := FindLinkedit(loads, 0);
      && (FirstLinkeditIs64(loads) <==> link < |loads| && At(d, Offset(loads, link)) == LC_SEGMENT_64)
      && (FirstLinkeditIs64(loads) ==> Offset(loads, link) + 64 <= |d|)
      && (loads != [] && |loads[|loads| - 1]| == 16 ==> Offset(loads, |loads| - 1) + 16 <= |d|)
  {
    if NewFile(d, accepts).value != [] {
      LoadInFile(d, accepts, |NewFile(d, accepts).value| - 1);
    }
    var loads := NewFile(d, accepts).value;
    var link := FindLinkedit(loads, 0);
    forall i | 0 <= i < |loads|
      ensures IsLinkedit(loads[i]) <==> NamesLinkedit(loads[i])
    {
      LinkeditMeans(loads[i]);
    }
    if link < |loads| {
      CommandWord(loads[link]);
      LoadInFile(d, accepts, link);
      Slice(d, Offset(loads, link), |loads[link]|, 0, 4);
    }
  }

  // ---- Safety on every input ----

  predicate InRange(k: nat, off: nat, n: nat) {
    off <= k < off + n
  }

  /** r is d except in the n bytes at off. */
  ghost predicate Same(d: Bytes, r: Bytes, off: nat, n: nat) {
    |d| == |r| && forall k :: 0 <= k < |d| && !InRange(k, off, n) ==> d[k] == r[k]
  }

  lemma PutAt(d: Bytes, off: nat, b: Bytes)
    requires off + |b| <= |d|
    ensures Same(d, Put(d, off, b), off, |b|)
    ensures Put(d, off, b)[off..off + |b|] == b
  {
  }

  lemma Untouched(d: Bytes, r: Bytes, off: nat, n: nat, at: nat, m: nat)
    requires Same(d, r, off, n) && at + m <= |d| && (at + m <= off || off + n <= at)
    ensures d[at..at + m] == r[at..at + m]
  {
  }

  lemma CountsEdited(d: Bytes)
    requires |d| >= 24 && U32(d, 16) >= 1 && U32(d, 20) >= 16
    ensures var r := EditCounts(d);
      Same(d, r, 16, 8) && U32(r, 16) == U32(d, 16) - 1 && U32(r, 20) == U32(d, 20) - 16
  {
    hide Put, Value, Le;
    var ncmds, cmdsz := Le(U32(d, 16) - 1, 4), Le(U32(d, 20) - 16, 4);
    var d1 := Put(d, 16, ncmds);
    var r := Put(d1, 20, cmdsz);
    PutAt(d, 16, ncmds);
    Untouched(d, d1, 16, 4, 20, 4);
    PutAt(d1, 20, cmdsz);
    Untouched(d1, r, 20, 4, 16, 4);
    assert r == EditCounts(d);
    assert TWO32 == Pow256(4) by {
      Powers();
    }
    ValueLe(U32(d, 16) - 1, 4);
    ValueLe(U32(d, 20) - 16, 4);
  }

  lemma SizesEdited(d: Bytes, linkOff: nat, sigSize: nat)
    requires linkOff + 32 <= |d| && sigSize < TWO32
    ensures var r, size := EditSizes(d, linkOff, sigSize), (U64(d, linkOff + 16) + TWO64 - sigSize) % TWO64;
      && |r| == |d|
      && (forall k :: 0 <= k < |d| && !InRange(k, linkOff, 8) && !InRange(k, linkOff + 16, 8) ==> d[k] == r[k])
      && U64(r, linkOff) == U64(r, linkOff + 16) == size
  {
    Powers();
    var size := (U64(d, linkOff + 16) + TWO64 - sigSize) % TWO64;
    var b := Le(size, 8);
    var d1 := Put(d, linkOff, b);
    PutAt(d, linkOff, b);
    PutAt(d1, linkOff + 16, b);
    Untouched(d1, Put(d1, linkOff + 16, b), linkOff + 16, 8, linkOff, 8);
    ValueLe(size, 8);
  }

  /**
   r differs from d only in the two counts of the header, the signature's load command and
   the two sizes of __LINKEDIT, and this is what those five have become.
   */
  ghost predicate OnlyEdited(d: Bytes, r: Bytes, sigLoad: nat, linkOff: nat, sigSize: nat)
    requires 24 <= linkOff && linkOff + 32 <= sigLoad && sigLoad + 16 <= |d|
  {
    && |r| == |d|
    && (forall k :: 0 <= k < |d| ==>
          || InRange(k, 16, 8) || InRange(k, sigLoad, 16)
          || InRange(k, linkOff, 8) || InRange(k, linkOff + 16, 8) || d[k] == r[k])
    && U32(r, 16) == U32(d, 16) - 1 && U32(r, 20) == U32(d, 20) - 16
    && r[sigLoad..sigLoad + 16] == NO_BYTES
    && U64(r, linkOff) == U64(r, linkOff + 16) == (U64(d, linkOff + 16) + TWO64 - sigSize) % TWO64
  }

  lemma EditTouches(d: Bytes, sigLoad: nat, linkOff: nat, sigSize: nat)
    requires 24 <= linkOff && linkOff + 32 <= sigLoad && sigLoad + 16 <= |d| && sigSize < TWO32
    requires U32(d, 16) >= 1 && U32(d, 20) >= 16
    ensures OnlyEdited(d, Edit(d, sigLoad, linkOff, sigSize), sigLoad, linkOff, sigSize)
  {
    hide EditCounts, EditSizes, Put, Value;
    var d1 := EditCounts(d);
    CountsEdited(d);
    Untouched(d, d1, 16, 8, linkOff + 16, 8);
    var d2 := Put(d1, sigLoad, NO_BYTES);
    PutAt(d1, sigLoad, NO_BYTES);
    Untouched(d1, d2, sigLoad, 16, linkOff + 16, 8);
    var r := EditSizes(d2, linkOff, sigSize);
    SizesEdited(d2, linkOff, sigSize);
    assert r[16..20] == d2[16..20] == d1[16..20] && r[20..24] == d2[20..24] == d1[20..24];
    assert r[sigLoad..sigLoad + 16] == d2[sigLoad..sigLoad + 16];
  }

  lemma {:induction false} OffsetsGrow(loads: seq<Bytes>, i: nat, j: nat)
    requires i < j <= |loads|
    ensures Offset(loads, i) + |loads[i]| <= Offset(loads, j)
    decreases j
  {
    OffsetNext(loads, j - 1);
    if i < j - 1 {
      OffsetsGrow(loads, i, j - 1);
    }
  }

  /** Where the loads of a signed file stand: __LINKEDIT before the signature, both inside. */
  lemma SignedLayout(d: Bytes, accepts: Bytes -> bool, link: nat)
    requires NewFile(d, accepts).Some?
    requires var loads := NewFile(d, accepts).value;
      && link < |loads| - 1 && |loads| >= 4 && |loads[|loads| - 1]| == 16
      && IsLinkedit(loads[link]) && At(d, Offset(loads, link)) == LC_SEGMENT_64
    ensures var loads := NewFile(d, accepts).value; var off, sigLoad := Offset(loads, link), Offset(loads, |loads| - 1);
      && HEADER_SIZE <= off && off + 72 <= sigLoad && sigLoad + 16 <= |d|
      && U32(d, 16) == |loads| && U32(d, 20) >= 16 + 72
  {
    var loads := NewFile(d, accepts).value;
    var last := |loads| - 1;
    LoadInFile(d, accepts, link);
    LoadInFile(d, accepts, last);
    var off := Offset(loads, link);
    Slice(d, off, |loads[link]|, 0, 4);
    assert |loads[link]| >= 72;
    OffsetsGrow(loads, link, last);
    OffsetNext(loads, last);
    assert loads[..|loads|] == loads;
    ParsedTable(d[HEADER_SIZE..HEADER_SIZE + U32(d, 20)], U32(d, 16));
  }

  /** The two bounds checks of the source never fail, and nothing is edited out of range. */
  lemma NeverConfusedAboutBounds(name: string, d: Bytes, accepts: Bytes -> bool)
    ensures Strip(name, d, accepts) != Kept(Some("confused finding signature load"))
    ensures Strip(name, d, accepts) == Kept(Some("confused finding __LINKEDIT")) ==>
      var loads := NewFile(d, accepts).value; U32(loads[FindLinkedit(loads, 0)], 0) == LC_SEGMENT
  {
    var file := NewFile(d, accepts);
    if IsBinaryName(name) && |d| >= 4 && file.Some? && |file.value| >= 4 {
      var loads := file.value;
      var link := FindLinkedit(loads, 0);
      if link < |loads| {
        LoadInFile(d, accepts, link);
        LoadInFile(d, accepts, |loads| - 1);
        var off := Offset(loads, link);
        Slice(d, off, |loads[link]|, 0, 4);
      }
    }
  }

  /** What a stripped file is: cut where the signature began, and edited in five places only. */
  lemma StripChangesOnly(name: string, d: Bytes, accepts: Bytes -> bool)
    requires Strip(name, d, accepts).Stripped?
    ensures NewFile(d, accepts).Some? && |NewFile(d, accepts).value| >= 4
    ensures var loads := NewFile(d, accepts).value; var last := |loads| - 1;
      var sigLoad, linkOff := Offset(loads, last), Offset(loads, FindLinkedit(loads, 0)) + 32;
      && |loads[last]| == 16 && loads[last][..4] == [0x1d, 0, 0, 0] && U32(loads[last], 8) < |d|
      && HEADER_SIZE + 32 <= linkOff && linkOff + 32 <= sigLoad && sigLoad + 16 <= |d|
      && Strip(name, d, accepts).length == U32(loads[last], 8)
      && OnlyEdited(d, Strip(name, d, accepts).image, sigLoad, linkOff, U32(loads[last], 12))
  {
    var loads := NewFile(d, accepts).value;
    CommandWord(loads[|loads| - 1]);
    hide OnlyEdited, Edit, U32, Offset, NewFile, IsBinaryName;
    var last, link := |loads| - 1, FindLinkedit(loads, 0);
    assert !IsLinkedit(loads[last]);
    SignedLayout(d, accepts, link);
    EditTouches(d, Offset(loads, last), Offset(loads, link) + 32, U32(loads[last], 12));
  }

  // ---- In place ----

  method PutBytes(data: array<byte>, off: nat, b: Bytes)
    requires off + |b| <= data.Length
    modifies data
    ensures data[..] == Put(old(data[..]), off, b)
  {
    for i := 0 to |b|
      invariant data[..off] == old(data[..off]) && data[off..off + i] == b[..i]
      invariant data[off + i..] == old(data[off + i..])
    {
      data[off + i] := b[i];
    }
    assert data[..] == data[..off] + data[off..off + |b|] + data[off + |b|..];
  }

  /** The walk from the first load to __LINKEDIT, by the sizes that stand in the file. */
  method WalkToLinkedit(d: Bytes, accepts: Bytes -> bool, loads: seq<Bytes>) returns (off: nat, load: nat)
    requires NewFile(d, accepts) == Some(loads)
    ensures load == FindLinkedit(loads, 0) && off == Offset(loads, load)
  {
    off, load := HEADER_SIZE, 0;
    while load < |loads| && !IsLinkedit(loads[load])
      invariant load <= |loads| && off == Offset(loads, load)
      invariant FindLinkedit(loads, load) == FindLinkedit(loads, 0)
    {
      SizeInFile(d, accepts, load);
      off := off + At(d, off + 4);
      load := load + 1;
    }
  }

  /** The walk goes on to the last load. */
  method WalkToLast(d: Bytes, accepts: Bytes -> bool, loads: seq<Bytes>, start: nat, from: nat) returns (off: nat)
    requires NewFile(d, accepts) == Some(loads) && from < |loads| && start == Offset(loads, from)
    ensures off == Offset(loads, |loads| - 1)
  {
    off := start;
    for load := from to |loads| - 1
      invariant off == Offset(loads, load)
    {
      SizeInFile(d, accepts, load);
      off := off + At(d, off + 4);
    }
  }

  lemma SizeInFile(d: Bytes, accepts: Bytes -> bool, i: nat)
    requires NewFile(d, accepts).Some? && i < |NewFile(d, accepts).value|
    ensures var loads := NewFile(d, accepts).value;
      Offset(loads, i) + At(d, Offset(loads, i) + 4) == Offset(loads, i + 1)
  {
    var loads := NewFile(d, accepts).value;
    var off := Offset(loads, i);
    LoadInFile(d, accepts, i);
    OffsetNext(loads, i);
    Slice(d, off, |loads[i]|, 4, 4);
  }

  /** The file is `data[..length]` afterwards. */
  method StripDarwinSig(name: string, data: array<byte>, accepts: Bytes -> bool)
      returns (length: nat, error: Option<string>)
    modifies data
    ensures match Strip(name, old(data[..]), accepts)
      case Kept(e) => error == e && length == data.Length && data[..] == old(data[..])
      case Stripped(image, n) => error == None && length == n <= data.Length && data[..] == image
  {
    var d := data[..];
    if !IsBinaryName(name) {
      return data.Length, None;
    }
    if data.Length < 4 || data[..4] != MAGIC {
      return data.Length, None;
    }
    assert d[..4] == data[..4];
    var h := NewFile(d, accepts);
    if h.None? {
      return data.Length, Some("cannot parse");
    }
    var loads := h.value;
    if |loads| < 4 {
      return data.Length, Some("too few loads");
    }
    var raw := loads[|loads| - 1];
    if |raw| != 16 || U32(raw, 0) != LC_CODE_SIGNATURE || U32(raw, 4) != 16 {
      return data.Length, None;
    }
    var sigOff, sigSize := U32(raw, 8), U32(raw, 12);
    if sigOff >= data.Length {
      return data.Length, Some("invalid signature");
    }
    var off, load := WalkToLinkedit(d, accepts, loads);
    if load >= |loads| {
      return data.Length, Some("cannot find __LINKEDIT");
    }
    if At(d, off) != LC_SEGMENT_64 {
      return data.Length, Some("confused finding __LINKEDIT");
    }
    var linkOff := off + 4 + 4 + 16 + 8;
    if linkOff + 32 > data.Length {
      return data.Length, Some("confused finding __LINKEDIT");
    }
    off := WalkToLast(d, accepts, loads, off, load);
    if off + 16 > data.Length {
      return data.Length, Some("confused finding signature load");
    }
    EditInPlace(data, off, linkOff, sigSize);
    return sigOff, None;
  }

  /** The edits after the point of no return. */
  method EditInPlace(data: array<byte>, off: nat, linkOff: nat, sigSize: nat)
    requires data.Length >= 24 && off + 16 <= data.Length && linkOff + 32 <= data.Length && sigSize < TWO32
    modifies data
    ensures data[..] == Edit(old(data[..]), off, linkOff, sigSize)
  {
    hide Put, Le, Value;
    PutBytes(data, 16, Le((At(data[..], 16) + TWO32 - 1) % TWO32, 4));
    PutBytes(data, 20, Le((At(data[..], 20) + TWO32 - 16) % TWO32, 4));
    assert data[..] == EditCounts(old(data[..]));
    PutBytes(data, off, NO_BYTES);
    var fileSize := (U64(data[..], linkOff + 16) + TWO64 - sigSize) % TWO64;
    PutBytes(data, linkOff, Le(fileSize, 8));
    PutBytes(data, linkOff + 16, Le(fileSize, 8));
  }
}
