/** Stripping undoes signing: toolchain/darwin.go against what a signer writes. */
module MachOSign {
  import opened Wrappers
  import opened Text
  import opened MachO

  /** A file as header, load commands and what follows them. */
  datatype Image = Image(header: Bytes, loads: seq<Bytes>, rest: Bytes) {

    function Bytes(): Bytes {
      header + (Table(loads) + rest)
    }

    ghost predicate Valid() {
      && |header| == HEADER_SIZE && header[..4] == MAGIC
      && (forall i :: 0 <= i < |loads| ==> ValidLoad(loads[i]))
      && U32(header, 16) == |loads| && U32(header, 20) == |Table(loads)|
    }
  }

  // ---- Edits of a file as edits of its parts ----

  lemma PutLeft(a: Bytes, b: Bytes, off: nat, x: Bytes)
    requires off + |x| <= |a|
    ensures Put(a + b, off, x) == Put(a, off, x) + b
  {
  }

  lemma PutRight(a: Bytes, b: Bytes, off: nat, x: Bytes)
    requires off + |x| <= |b|
    ensures Put(a + b, |a| + off, x) == a + Put(b, off, x)
  {
  }

  lemma PutInHeader(m: Image, off: nat, x: Bytes)
    requires off + |x| <= |m.header|
    ensures Put(m.Bytes(), off, x) == m.(header := Put(m.header, off, x)).Bytes()
  {
    PutLeft(m.header, Table(m.loads) + m.rest, off, x);
  }

  lemma PutInTable(loads: seq<Bytes>, i: nat, off: nat, x: Bytes)
    requires i < |loads| && off + |x| <= |loads[i]|
    ensures |Table(loads[..i])| + off + |x| <= |Table(loads)|
    ensures Put(Table(loads), |Table(loads[..i])| + off, x) == Table(loads[i := Put(loads[i], off, x)])
  {
    var changed := loads[i := Put(loads[i], off, x)];
    TableSplit(loads, i);
    TableSplit(changed, i);
    assert changed[..i] == loads[..i] && changed[i + 1..] == loads[i + 1..];
    PutRight(Table(loads[..i]), loads[i] + Table(loads[i + 1..]), off, x);
    PutLeft(loads[i], Table(loads[i + 1..]), off, x);
  }

  lemma PutInLoad(m: Image, i: nat, off: nat, x: Bytes)
    requires |m.header| == HEADER_SIZE && i < |m.loads| && off + |x| <= |m.loads[i]|
    ensures Offset(m.loads, i) + off + |x| <= |m.Bytes()|
    ensures Put(m.Bytes(), Offset(m.loads, i) + off, x)
            == m.(loads := m.loads[i := Put(m.loads[i], off, x)]).Bytes()
  {
    var table, at := Table(m.loads), |Table(m.loads[..i])|;
    PutInTable(m.loads, i, off, x);
    PutRight(m.header, table + m.rest, at + off, x);
    PutLeft(table, m.rest, at + off, x);
  }

  lemma ReadInLoad(m: Image, i: nat, off: nat, n: nat)
    requires |m.header| == HEADER_SIZE && i < |m.loads| && off + n <= |m.loads[i]|
    ensures var at := Offset(m.loads, i) + off;
      at + n <= |m.Bytes()| && m.Bytes()[at..at + n] == m.loads[i][off..off + n]
  {
    TableSplit(m.loads, i);
  }

  /** The sizes of a 64-bit segment: in memory at 32, in the file at 48. */
  function SetSizes(raw: Bytes, memsz: nat, filesz: nat): (r: Bytes)
    requires |raw| >= 72
    ensures |r| == |raw|
  {
    Put(Put(raw, 32, Le(memsz, 8)), 48, Le(filesz, 8))
  }

  function SetCounts(header: Bytes, ncmds: nat, cmdsz: nat): (r: Bytes)
    requires |header| == HEADER_SIZE
    ensures |r| == HEADER_SIZE
  {
    Put(Put(header, 16, Le(ncmds, 4)), 20, Le(cmdsz, 4))
  }

  // ---- Signing ----

  /** The file before it is signed: its __LINKEDIT is number `link`, with room for one more load. */
  ghost predicate Unsigned(m: Image, link: nat) {
    && m.Valid() && link < |m.loads|
    && link == FindLinkedit(m.loads, 0) && U32(m.loads[link], 0) == LC_SEGMENT_64
    && |m.rest| >= 16
    && |m.loads| + 1 < TWO32 && |Table(m.loads)| + 16 < TWO32 && |m.Bytes()| < TWO32
  }

  function SignatureLoad(sigOff: nat, sigSize: nat): (raw: Bytes)
    ensures |raw| == 16
  {
    Le(LC_CODE_SIGNATURE, 4) + (Le(16, 4) + (Le(sigOff, 4) + Le(sigSize, 4)))
  }

  /**
   What a signer makes of the file: one more load, which takes the 16 bytes after the table,
   a larger __LINKEDIT and the signature at the end. The signer chooses memsz.
   */
  function Sign(m: Image, link: nat, sig: Bytes, memsz: nat): Image
    requires |m.header| == HEADER_SIZE && link < |m.loads| && |m.loads[link]| >= 72 && |m.rest| >= 16
  {
    var filesz := (U64(m.loads[link], 48) + |sig|) % TWO64;
    Image(SetCounts(m.header, |m.loads| + 1, |Table(m.loads)| + 16),
          m.loads[link := SetSizes(m.loads[link], memsz, filesz)] + [SignatureLoad(|m.Bytes()|, |sig|)],
          m.rest[16..] + sig)
  }

  lemma FourFields(a: Bytes, b: Bytes, c: Bytes, d: Bytes)
    requires |a| == |b| == |c| == |d| == 4
    ensures var raw := a + (b + (c + d));
      raw[0..4] == a && raw[4..8] == b && raw[8..12] == c && raw[12..16] == d
  {
  }

  lemma SignatureLoadFields(sigOff: nat, sigSize: nat)
    requires sigOff < TWO32 && sigSize < TWO32
    ensures var raw := SignatureLoad(sigOff, sigSize);
      && U32(raw, 0) == LC_CODE_SIGNATURE && U32(raw, 4) == 16
      && U32(raw, 8) == sigOff && U32(raw, 12) == sigSize
  {
    hide Le, Value;
    assert TWO32 == Pow256(4) by {
      Powers();
    }
    FourFields(Le(LC_CODE_SIGNATURE, 4), Le(16, 4), Le(sigOff, 4), Le(sigSize, 4));
    ValueLe(LC_CODE_SIGNATURE, 4);
    ValueLe(16, 4);
    ValueLe(sigOff, 4);
    ValueLe(sigSize, 4);
  }

  lemma SetSizesFields(raw: Bytes, memsz: nat, filesz: nat)
    requires |raw| >= 72 && memsz < TWO64 && filesz < TWO64
    ensures var r := SetSizes(raw, memsz, filesz);
      && r[..32] == raw[..32] && U64(r, 32) == memsz && U64(r, 48) == filesz
  {
    Powers();
    var a := Put(raw, 32, Le(memsz, 8));
    PutAt(raw, 32, Le(memsz, 8));
    PutAt(a, 48, Le(filesz, 8));
    Untouched(a, Put(a, 48, Le(filesz, 8)), 48, 8, 32, 8);
    ValueLe(memsz, 8);
    ValueLe(filesz, 8);
  }

  /** Name, command and size are in the first 32 bytes. */
  lemma SameHead(a: Bytes, b: Bytes)
    requires ValidLoad(a) && |a| == |b| >= 32 && a[..32] == b[..32]
    ensures ValidLoad(b) && (IsLinkedit(a) <==> IsLinkedit(b)) && U32(a, 0) == U32(b, 0)
  {
    assert b[0..4] == b[..32][0..4] == a[0..4];
    assert b[4..8] == b[..32][4..8] == a[4..8];
    assert b[8..19] == b[..32][8..19] == a[8..19];
  }

  lemma {:induction false} SameLinkedit(a: seq<Bytes>, b: seq<Bytes>, from: nat)
    requires from <= |a| <= |b|
    requires forall i :: 0 <= i < |a| ==> (IsLinkedit(a[i]) <==> IsLinkedit(b[i]))
    requires FindLinkedit(a, from) < |a|
    ensures FindLinkedit(b, from) == FindLinkedit(a, from)
    decreases |a| - from
  {
    if from < |a| && !IsLinkedit(a[from]) {
      SameLinkedit(a, b, from + 1);
    }
  }

  /** The counts of a header after they were set, and the bytes around them. */
  lemma SetCountsFields(header: Bytes, ncmds: nat, cmdsz: nat)
    requires |header| == HEADER_SIZE && ncmds < TWO32 && cmdsz < TWO32
    ensures var r := SetCounts(header, ncmds, cmdsz);
      && U32(r, 16) == ncmds && U32(r, 20) == cmdsz && r[..16] == header[..16] && r[24..] == header[24..]
  {
    Powers();
    var a := Put(header, 16, Le(ncmds, 4));
    var r := Put(a, 20, Le(cmdsz, 4));
    PutAt(header, 16, Le(ncmds, 4));
    PutAt(a, 20, Le(cmdsz, 4));
    Untouched(a, r, 20, 4, 16, 4);
    ValueLe(ncmds, 4);
    ValueLe(cmdsz, 4);
  }

  lemma ValidParses(m: Image, accepts: Bytes -> bool)
    requires m.Valid() && accepts(m.Bytes())
    ensures NewFile(m.Bytes(), accepts) == Some(m.loads) && m.Bytes()[..4] == MAGIC
  {
    var d, table := m.Bytes(), Table(m.loads);
    assert d[16..20] == m.header[16..20] && d[20..24] == m.header[20..24];
    assert d[..4] == m.header[..4];
    assert d[HEADER_SIZE..HEADER_SIZE + |table|] == table + [];
    ParseTable(m.loads, []);
  }

  lemma SignedLoads(m: Image, link: nat, sig: Bytes, memsz: nat)
    requires Unsigned(m, link) && |sig| < TWO32 && memsz < TWO64
    ensures var s := Sign(m, link, sig, memsz);
      && (forall i :: 0 <= i < |s.loads| ==> ValidLoad(s.loads[i]))
      && FindLinkedit(s.loads, 0) == link && U32(s.loads[link], 0) == LC_SEGMENT_64
  {
    var s := Sign(m, link, sig, memsz);
    var raw := m.loads[link];
    SetSizesFields(raw, memsz, (U64(raw, 48) + |sig|) % TWO64);
    SameHead(raw, s.loads[link]);
    SignatureLoadFields(|m.Bytes()|, |sig|);
    SameLinkedit(m.loads, s.loads, 0);
  }

  lemma {:induction false} TableLength(a: seq<Bytes>, b: seq<Bytes>)
    requires |a| == |b| && forall i :: 0 <= i < |a| ==> |a[i]| == |b[i]|
    ensures |Table(a)| == |Table(b)|
  {
    if a != [] {
      TableLength(a[1..], b[1..]);
    }
  }

  lemma SignedValid(m: Image, link: nat, sig: Bytes, memsz: nat)
    requires Unsigned(m, link) && |sig| < TWO32 && memsz < TWO64
    ensures Sign(m, link, sig, memsz).Valid()
    ensures |Sign(m, link, sig, memsz).Bytes()| == |m.Bytes()| + |sig|
  {
    hide SetSizes, SetCounts, U64, SignatureLoad, FindLinkedit;
    var s := Sign(m, link, sig, memsz);
    SignedLoads(m, link, sig, memsz);
    var changed, last := s.loads[..|m.loads|], s.loads[|m.loads|];
    TableLength(m.loads, changed);
    TableAppend(changed, [last]);
    assert s.loads == changed + [last] && Table([last]) == last;
    SetCountsFields(m.header, |m.loads| + 1, |Table(m.loads)| + 16);
    assert s.header[..4] == s.header[..16][..4] == m.header[..16][..4];
  }

  // ---- Stripping a file that is given in parts ----

  lemma CountsOfImage(m: Image)
    requires m.Valid() && |m.loads| >= 1 && |Table(m.loads)| >= 16
    ensures EditCounts(m.Bytes()) == m.(header := SetCounts(m.header, |m.loads| - 1, |Table(m.loads)| - 16)).Bytes()
  {
    hide Value, Le, Table;
    var d, h := m.Bytes(), m.header;
    var ncmds, cmdsz := Le(|m.loads| - 1, 4), Le(|Table(m.loads)| - 16, 4);
    assert d[16..20] == h[16..20] && d[20..24] == h[20..24];
    PutInHeader(m, 16, ncmds);
    var m1 := m.(header := Put(h, 16, ncmds));
    PutInHeader(m1, 20, cmdsz);
    PutAt(d, 16, ncmds);
    Untouched(d, Put(d, 16, ncmds), 16, 4, 20, 4);
  }

  lemma SizesOfImage(m: Image, link: nat, sigSize: nat)
    requires |m.header| == HEADER_SIZE && link < |m.loads| && |m.loads[link]| >= 72 && sigSize < TWO32
    ensures Offset(m.loads, link) + 64 <= |m.Bytes()|
    ensures var size := (U64(m.loads[link], 48) + TWO64 - sigSize) % TWO64;
      EditSizes(m.Bytes(), Offset(m.loads, link) + 32, sigSize)
      == m.(loads := m.loads[link := SetSizes(m.loads[link], size, size)]).Bytes()
  {
    hide Value, Le, Table;
    var raw := m.loads[link];
    var size := (U64(raw, 48) + TWO64 - sigSize) % TWO64;
    ReadInLoad(m, link, 48, 8);
    ReadInLoad(m, link, 56, 8);
    PutInLoad(m, link, 32, Le(size, 8));
    var raw1 := Put(raw, 32, Le(size, 8));
    var m1 := m.(loads := m.loads[link := raw1]);
    assert m1.loads[..link] == m.loads[..link];
    PutInLoad(m1, link, 48, Le(size, 8));
    assert m1.loads[link := Put(raw1, 48, Le(size, 8))] == m.loads[link := SetSizes(raw, size, size)];
  }

  lemma ClearInImage(m: Image, last: nat)
    requires |m.header| == HEADER_SIZE && last < |m.loads| && |m.loads[last]| == 16
    ensures Offset(m.loads, last) + 16 <= |m.Bytes()|
    ensures Put(m.Bytes(), Offset(m.loads, last), NO_BYTES) == m.(loads := m.loads[last := NO_BYTES]).Bytes()
  {
    PutInLoad(m, last, 0, NO_BYTES);
    assert Put(m.loads[last], 0, NO_BYTES) == NO_BYTES;
  }

  /** The file after stripping, in parts and before it is cut. */
  function Cleared(m: Image, link: nat, sigSize: nat): Image
    requires |m.header| == HEADER_SIZE && link < |m.loads| - 1 && |m.loads[link]| >= 72 && sigSize < TWO32
    requires |Table(m.loads)| >= 16
  {
    var size := (U64(m.loads[link], 48) + TWO64 - sigSize) % TWO64;
    Image(SetCounts(m.header, |m.loads| - 1, |Table(m.loads)| - 16),
          m.loads[|m.loads| - 1 := NO_BYTES][link := SetSizes(m.loads[link], size, size)],
          m.rest)
  }

  lemma EditOfImage(m: Image, link: nat, sigSize: nat)
    requires m.Valid() && link < |m.loads| - 1 && |m.loads[link]| >= 72 && sigSize < TWO32
    requires |m.loads[|m.loads| - 1]| == 16 && |Table(m.loads)| >= 16
    ensures var sigLoad, linkOff := Offset(m.loads, |m.loads| - 1), Offset(m.loads, link) + 32;
      && sigLoad + 16 <= |m.Bytes()| && linkOff + 32 <= |m.Bytes()|
      && Edit(m.Bytes(), sigLoad, linkOff, sigSize) == Cleared(m, link, sigSize).Bytes()
  {
    hide EditCounts, EditSizes, SetCounts, SetSizes, Table, Put, Image.Bytes;
    var last := |m.loads| - 1;
    CountsOfImage(m);
    var m1 := m.(header := SetCounts(m.header, |m.loads| - 1, |Table(m.loads)| - 16));
    ClearInImage(m1, last);
    var m2 := m1.(loads := m.loads[last := NO_BYTES]);
    assert m2.loads[..link] == m.loads[..link];
    SizesOfImage(m2, link, sigSize);
  }

  // ---- The round trip ----

  /** What is left of a signed file: it depends neither on the signature nor on its memsz. */
  function Normal(m: Image, link: nat): Image
    requires link < |m.loads| && |m.loads[link]| >= 72 && |m.rest| >= 16
  {
    var filesz := U64(m.loads[link], 48);
    Image(m.header, m.loads[link := SetSizes(m.loads[link], filesz, filesz)], NO_BYTES + m.rest[16..])
  }

  lemma CountsRestored(header: Bytes, ncmds: nat, cmdsz: nat)
    requires |header| == HEADER_SIZE && ncmds < TWO32 && cmdsz < TWO32
    ensures SetCounts(SetCounts(header, ncmds, cmdsz), U32(header, 16), U32(header, 20)) == header
  {
    var h1 := SetCounts(header, ncmds, cmdsz);
    var r := SetCounts(h1, U32(header, 16), U32(header, 20));
    SetCountsFields(header, ncmds, cmdsz);
    LeValue(header[16..20]);
    LeValue(header[20..24]);
    assert r == h1[..16] + header[16..20] + header[20..24] + h1[24..];
  }

  lemma SizesOverwritten(raw: Bytes, memsz: nat, filesz: nat, size: nat)
    requires |raw| >= 72
    ensures SetSizes(SetSizes(raw, memsz, filesz), size, size) == SetSizes(raw, size, size)
  {
    var b := Le(size, 8);
    assert SetSizes(raw, size, size) == raw[..32] + b + raw[40..48] + b + raw[56..];
    assert SetSizes(raw, memsz, filesz) == raw[..32] + Le(memsz, 8) + raw[40..48] + Le(filesz, 8) + raw[56..];
  }

  lemma ClearedLoads(m: Image, link: nat, sig: Bytes, memsz: nat)
    requires Unsigned(m, link) && |sig| < TWO32 && memsz < TWO64
    ensures var s := Sign(m, link, sig, memsz);
      && U64(s.loads[link], 48) == (U64(m.loads[link], 48) + |sig|) % TWO64
      && (|Table(s.loads)| >= 16 ==> Cleared(s, link, |sig|).loads == Normal(m, link).loads + [NO_BYTES])
  {
    hide SetSizes, SetCounts, U64, Table, SignatureLoad;
    var s, raw := Sign(m, link, sig, memsz), m.loads[link];
    var filesz := U64(raw, 48);
    SetSizesFields(raw, memsz, (filesz + |sig|) % TWO64);
    SizesOverwritten(raw, memsz, (filesz + |sig|) % TWO64, filesz);
    assert ((filesz + |sig|) % TWO64 + TWO64 - |sig|) % TWO64 == filesz;
  }

  lemma ClearedHeader(m: Image, link: nat, sig: Bytes, memsz: nat)
    requires Unsigned(m, link) && |sig| < TWO32 && memsz < TWO64
    ensures var s := Sign(m, link, sig, memsz);
      |Table(s.loads)| == |Table(m.loads)| + 16 && Cleared(s, link, |sig|).header == m.header
  {
    hide SetSizes, SetCounts;
    SignedValid(m, link, sig, memsz);
    SetCountsFields(m.header, |m.loads| + 1, |Table(m.loads)| + 16);
    CountsRestored(m.header, |m.loads| + 1, |Table(m.loads)| + 16);
  }

  lemma ClearedSigned(m: Image, link: nat, sig: Bytes, memsz: nat)
    requires Unsigned(m, link) && |sig| < TWO32 && memsz < TWO64
    ensures var s := Sign(m, link, sig, memsz);
      |Table(s.loads)| >= 16 && Cleared(s, link, |sig|).Bytes() == Normal(m, link).Bytes() + sig
  {
    hide SetSizes, SetCounts, U64, Image.Bytes;
    ClearedHeader(m, link, sig, memsz);
    ClearedLoads(m, link, sig, memsz);
    ClearedRoom(Cleared(Sign(m, link, sig, memsz), link, |sig|), Normal(m, link), m.rest[16..], sig);
  }

  lemma ClearedRoom(c: Image, n: Image, tail: Bytes, sig: Bytes)
    requires c.header == n.header && c.loads == n.loads + [NO_BYTES]
    requires c.rest == tail + sig && n.rest == NO_BYTES + tail
    ensures c.Bytes() == n.Bytes() + sig
  {
    TableAppend(n.loads, [NO_BYTES]);
    assert Table([NO_BYTES]) == NO_BYTES;
    assert Table(n.loads) + NO_BYTES + c.rest == Table(n.loads) + n.rest + sig;
  }

  /** Strip on a file whose load table ends with a signature. */
  lemma StripReaches(name: string, d: Bytes, accepts: Bytes -> bool, loads: seq<Bytes>, link: nat)
    requires IsBinaryName(name) && |d| >= 4 && d[..4] == MAGIC && NewFile(d, accepts) == Some(loads)
    requires |loads| >= 4 && link < |loads| - 1 && FindLinkedit(loads, 0) == link
    requires var raw := loads[|loads| - 1];
      |raw| == 16 && U32(raw, 0) == LC_CODE_SIGNATURE && U32(raw, 4) == 16 && U32(raw, 8) < |d|
    requires At(d, Offset(loads, link)) == LC_SEGMENT_64
    requires Offset(loads, link) + 64 <= |d| && Offset(loads, |loads| - 1) + 16 <= |d|
    ensures var raw := loads[|loads| - 1];
      Strip(name, d, accepts)
      == Stripped(Edit(d, Offset(loads, |loads| - 1), Offset(loads, link) + 32, U32(raw, 12)), U32(raw, 8))
  {
  }

  /** Stripping a signed file cuts it to the length it had, and leaves its normal form. */
  lemma StripSigned(name: string, m: Image, link: nat, sig: Bytes, memsz: nat, accepts: Bytes -> bool)
    requires Unsigned(m, link) && |m.loads| >= 3 && 0 < |sig| < TWO32 && memsz < TWO64
    requires IsBinaryName(name) && accepts(Sign(m, link, sig, memsz).Bytes())
    ensures Strip(name, Sign(m, link, sig, memsz).Bytes(), accepts)
            == Stripped(Normal(m, link).Bytes() + sig, |m.Bytes()|)
    ensures |Normal(m, link).Bytes()| == |m.Bytes()|
  {
    hide *;
    SignedEdit(m, link, sig, memsz);
    SignedReaches(name, m, link, sig, memsz, accepts);
    NormalLength(m, link);
  }

  /** The stripper gets through all its checks of a signed file. */
  lemma SignedReaches(name: string, m: Image, link: nat, sig: Bytes, memsz: nat, accepts: Bytes -> bool)
    requires Unsigned(m, link) && |m.loads| >= 3 && 0 < |sig| < TWO32 && memsz < TWO64
    requires IsBinaryName(name) && accepts(Sign(m, link, sig, memsz).Bytes())
    ensures var s := Sign(m, link, sig, memsz); var sigLoad := Offset(s.loads, |m.loads|);
      && sigLoad + 16 <= |s.Bytes()| && Offset(s.loads, link) + 64 <= |s.Bytes()|
      && Strip(name, s.Bytes(), accepts)
         == Stripped(Edit(s.Bytes(), sigLoad, Offset(s.loads, link) + 32, |sig|), |m.Bytes()|)
  {
    hide SetSizes, SetCounts, U64, Edit, Cleared, IsBinaryName, Strip, Table, At, Image.Bytes, Offset;
    var s := Sign(m, link, sig, memsz);
    SignedValid(m, link, sig, memsz);
    SignedLoads(m, link, sig, memsz);
    ValidParses(s, accepts);
    SignatureLoadFields(|m.Bytes()|, |sig|);
    SignedEdit(m, link, sig, memsz);
    AtInLoad(s, link);
    StripReaches(name, s.Bytes(), accepts, s.loads, link);
  }

  lemma SignedEdit(m: Image, link: nat, sig: Bytes, memsz: nat)
    requires Unsigned(m, link) && 0 < |sig| < TWO32 && memsz < TWO64
    ensures var s := Sign(m, link, sig, memsz); var sigLoad := Offset(s.loads, |m.loads|);
      && sigLoad + 16 <= |s.Bytes()| && Offset(s.loads, link) + 64 <= |s.Bytes()|
      && Edit(s.Bytes(), sigLoad, Offset(s.loads, link) + 32, |sig|) == Normal(m, link).Bytes() + sig
  {
    hide SetSizes, SetCounts, U64, Edit, Cleared, Normal, Table, Image.Bytes, Offset;
    SignedValid(m, link, sig, memsz);
    ClearedSigned(m, link, sig, memsz);
    EditOfImage(Sign(m, link, sig, memsz), link, |sig|);
  }

  lemma AtInLoad(m: Image, i: nat)
    requires |m.header| == HEADER_SIZE && i < |m.loads| && |m.loads[i]| >= 4
    ensures At(m.Bytes(), Offset(m.loads, i)) == U32(m.loads[i], 0)
  {
    ReadInLoad(m, i, 0, 4);
  }

  lemma NormalLength(m: Image, link: nat)
    requires Unsigned(m, link)
    ensures |Normal(m, link).Bytes()| == |m.Bytes()|
  {
    TableLength(m.loads, Normal(m, link).loads);
  }

  lemma NormalDiffers(m: Image, link: nat)
    requires Unsigned(m, link) && Normal(m, link).Bytes() == m.Bytes()
    ensures m.rest[..16] == NO_BYTES && U64(m.loads[link], 32) == U64(m.loads[link], 48)
  {
    hide SetSizes, U64, U32, Table, FindLinkedit;
    var raw, filesz, n := m.loads[link], U64(m.loads[link], 48), Normal(m, link);
    SetSizesFields(raw, filesz, filesz);
    TableLength(m.loads, n.loads);
    assert n.loads[..link] == m.loads[..link];
    ReadInLoad(m, link, 0, |raw|);
    ReadInLoad(n, link, 0, |raw|);
    assert n.loads[link] == raw;
    var end := HEADER_SIZE + |Table(m.loads)|;
    assert n.Bytes()[end..] == n.rest && m.Bytes()[end..] == m.rest;
    assert n.rest[..16] == NO_BYTES;
  }

  lemma SizesUnchanged(raw: Bytes)
    requires |raw| >= 72 && U64(raw, 32) == U64(raw, 48)
    ensures SetSizes(raw, U64(raw, 48), U64(raw, 48)) == raw
  {
    LeValue(raw[32..40]);
    LeValue(raw[48..56]);
  }

  /** The normal form is the file itself exactly for a file with clear room and equal sizes. */
  lemma NormalIsSame(m: Image, link: nat)
    requires Unsigned(m, link)
    ensures Normal(m, link).Bytes() == m.Bytes() <==>
            m.rest[..16] == NO_BYTES && U64(m.loads[link], 32) == U64(m.loads[link], 48)
  {
    hide SetSizes, U64, U32, Table, FindLinkedit;
    if Normal(m, link).Bytes() == m.Bytes() {
      NormalDiffers(m, link);
    }
    if m.rest[..16] == NO_BYTES && U64(m.loads[link], 32) == U64(m.loads[link], 48) {
      SizesUnchanged(m.loads[link]);
      assert Normal(m, link) == m;
    }
  }

  /** Strip undoes sign, exactly for such files, whatever the signature and its memsz. */
  lemma StripUndoesSign(name: string, m: Image, link: nat, sig: Bytes, memsz: nat, accepts: Bytes -> bool)
    requires Unsigned(m, link) && |m.loads| >= 3 && 0 < |sig| < TWO32 && memsz < TWO64
    requires IsBinaryName(name) && accepts(Sign(m, link, sig, memsz).Bytes())
    ensures var r := Strip(name, Sign(m, link, sig, memsz).Bytes(), accepts);
      && r.Stripped? && r.length <= |r.image|
      && (r.image[..r.length] == m.Bytes() <==>
            m.rest[..16] == NO_BYTES && U64(m.loads[link], 32) == U64(m.loads[link], 48))
  {
    StripSigned(name, m, link, sig, memsz, accepts);
    NormalIsSame(m, link);
    var b := Normal(m, link).Bytes();
    assert (b + sig)[..|b|] == b;
  }

  /** An unsigned file comes back as it is, whatever its last load is: a signature is needed. */
  lemma UnsignedIsKept(name: string, m: Image, accepts: Bytes -> bool)
    requires m.Valid() && |m.loads| >= 4 && m.loads[|m.loads| - 1][..4] != [0x1d, 0, 0, 0]
    requires accepts(m.Bytes())
    ensures Strip(name, m.Bytes(), accepts) == Kept(None)
  {
    ValidParses(m, accepts);
    assert |m.loads[|m.loads| - 1]| >= 8;
    StripWhen(name, m.Bytes(), accepts);
    hide NewFile, Strip, Image.Valid, Image.Bytes, ValidLoad, InScope;
  }

  /** A file of fewer load commands than the source expects stays signed. */
  lemma FewLoadsStaySigned(name: string, m: Image, link: nat, sig: Bytes, memsz: nat, accepts: Bytes -> bool)
    requires Unsigned(m, link) && |m.loads| < 3 && |sig| < TWO32 && memsz < TWO64
    requires IsBinaryName(name) && accepts(Sign(m, link, sig, memsz).Bytes())
    ensures Strip(name, Sign(m, link, sig, memsz).Bytes(), accepts) == Kept(Some("too few loads"))
  {
    SignedValid(m, link, sig, memsz);
    ValidParses(Sign(m, link, sig, memsz), accepts);
  }

  // ---- Files that are not restored ----

  /** A __LINKEDIT of file size 0. */
  function SampleSegment(memsz: nat): (raw: Bytes)
    ensures |raw| == 72
  {
    Le(LC_SEGMENT_64, 4) + Le(72, 4) + LINKEDIT + NO_BYTES[..13] + Le(memsz, 8) + NO_BYTES + NO_BYTES
  }

  function SampleLoad(): (raw: Bytes)
    ensures |raw| == 8
  {
    Le(2, 4) + Le(8, 4)
  }

  /** A file of three loads with `first` in the byte after its table. */
  function Sample(first: byte, memsz: nat): (m: Image)
    ensures |m.header| == HEADER_SIZE && |m.rest| == 16 && |m.loads| == 3 && |m.loads[0]| == 72
  {
    Image(MAGIC + NO_BYTES[..12] + Le(3, 4) + Le(88, 4) + NO_BYTES[..8],
          [SampleSegment(memsz), SampleLoad(), SampleLoad()],
          [first] + NO_BYTES[..15])
  }

  lemma SampleLoads(memsz: nat)
    requires memsz < TWO64
    ensures ValidLoad(SampleLoad()) && !IsLinkedit(SampleLoad())
    ensures var raw := SampleSegment(memsz);
      && |raw| == 72 && ValidLoad(raw) && IsLinkedit(raw) && U32(raw, 0) == LC_SEGMENT_64
      && U64(raw, 32) == memsz && U64(raw, 48) == 0
  {
    hide Le, Value;
    Powers();
    ValueLe(LC_SEGMENT_64, 4);
    ValueLe(72, 4);
    ValueLe(2, 4);
    ValueLe(8, 4);
    ValueLe(memsz, 8);
    Zeros();
    var raw, load := SampleSegment(memsz), SampleLoad();
    assert load[0..4] == Le(2, 4) && load[4..8] == Le(8, 4);
    assert raw[0..4] == Le(LC_SEGMENT_64, 4) && raw[4..8] == Le(72, 4);
    assert raw[8..19] == LINKEDIT && raw[32..40] == Le(memsz, 8) && raw[48..56] == NO_BYTES[..8];
  }

  lemma Zeros()
    ensures Value(NO_BYTES[..8]) == 0
  {
    LeValue(NO_BYTES[..8]);
    assert Le(0, 8) == NO_BYTES[..8];
    ValueLe(0, 8);
  }

  lemma SampleIsUnsigned(first: byte, memsz: nat)
    requires memsz < TWO64
    ensures var m := Sample(first, memsz);
      && Unsigned(m, 0) && U64(m.loads[0], 32) == memsz && U64(m.loads[0], 48) == 0
      && (m.rest[..16] == NO_BYTES <==> first == 0)
  {
    hide Le, Value, SampleSegment, SampleLoad, ValidLoad, IsLinkedit;
    var m := Sample(first, memsz);
    SampleLoads(memsz);
    Powers();
    ValueLe(3, 4);
    ValueLe(88, 4);
    assert m.header[16..20] == Le(3, 4) && m.header[20..24] == Le(88, 4);
    var load: Bytes := SampleLoad();
    var one: seq<Bytes> := [load];
    assert m.loads[1..] == [load, load] && [load, load][1..] == one && one[1..] == [];
    assert Table(one) == load + Table(one[1..]) && Table([load, load]) == load + Table(one);
    assert |Table(m.loads)| == 88;
    assert m.rest[..16] == m.rest && m.rest[0] == first;
  }

  /**
   Such a file comes back exactly when its first byte and its memory size are 0: there are
   files that signing and stripping change, for either reason.
   */
  lemma SampleIsLost(first: byte, size: nat, name: string, sig: Bytes, memsz: nat, accepts: Bytes -> bool)
    requires size < TWO64 && 0 < |sig| < TWO32 && memsz < TWO64 && IsBinaryName(name)
    ensures Unsigned(Sample(first, size), 0)
    ensures var m := Sample(first, size);
      var signed := Sign(m, 0, sig, memsz).Bytes();
      var r := Strip(name, signed, accepts);
      accepts(signed) ==>
        && r.Stripped? && r.length <= |r.image|
        && (r.image[..r.length] == m.Bytes() <==> first == 0 && size == 0)
  {
    hide Strip, Sample, Sign, Image.Bytes, Unsigned, U64, IsBinaryName;
    SampleIsUnsigned(first, size);
    if accepts(Sign(Sample(first, size), 0, sig, memsz).Bytes()) {
      StripUndoesSign(name, Sample(first, size), 0, sig, memsz, accepts);
    }
  }
}
