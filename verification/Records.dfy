/** The go.sum records of the checksum database: sumdb/record.go. */
module Records {
  import opened Wrappers
  import opened Text
  import Base64
  import Merkle

  const SHA256_LEN := 32
  const SHA256_PREFIX := "h1:"
  const GOMOD_SUFFIX := "/go.mod"

  datatype Record = Record(modulePath: string, version: string, source: seq<byte>, gomod: seq<byte>) {

    function SourceFields(): seq<string> {
      [modulePath, version, HashField(source)]
    }

    function GomodFields(): seq<string> {
      [modulePath, version + GOMOD_SUFFIX, HashField(gomod)]
    }

    function Format(): string {
      Line(SourceFields()) + Line(GomodFields())
    }

    function Hash(): Merkle.Hash {
      Merkle.HashLeaf(Format())
    }
  }

  function HashField(hash: seq<byte>): string {
    SHA256_PREFIX + Base64.Encode(hash)
  }

  function Line(fields: seq<string>): string
    requires |fields| >= 1
  {
    Join(fields, " ") + "\n"
  }

  /** The leaf data of a list of records. */
  function Formats(records: seq<Record>): seq<string> {
    seq(|records|, i requires 0 <= i < |records| => records[i].Format())
  }

  function ParseRecordHash(input: string): Result<seq<byte>> {
    if !HasPrefix(input, SHA256_PREFIX) then Err("unrecognized hash type")
    else
      var hash :- Base64.Decode(input[|SHA256_PREFIX|..]);
      if |hash| != SHA256_LEN then Err("SHA-256 hash has wrong length") else Ok(hash)
  }

  /** The fields of the first line, or None when no newline is left, and the rest. */
  function ParseRecordLine(input: string): (Option<seq<string>>, string) {
    match Cut(input, '\n')
    case None => (None, "")
    case Some((line, rest)) => (Some(Split(line, ' ')), rest)
  }

  function ParseRecord(input: string): Result<Record> {
    var (sourceLine, rest) := ParseRecordLine(input);
    var (gomodLine, end) := ParseRecordLine(rest);
    if sourceLine.None? || gomodLine.None? then Err("premature end of go.sum record")
    else if |end| > 0 then Err("garbage at end of go.sum record")
    else ParseFields(sourceLine.value, gomodLine.value)
  }

  function ParseFields(source: seq<string>, gomod: seq<string>): Result<Record> {
    if |source| != 3 || |gomod| != 3 then Err("go.sum line does not have exactly three fields")
    else
      var sourceHash :- ParseRecordHash(source[2]);
      if gomod[0] != source[0] || gomod[1] != source[1] + GOMOD_SUFFIX then
        Err("go.sum source line does not match go.mod line")
      else
        var gomodHash :- ParseRecordHash(gomod[2]);
        Ok(Record(source[0], source[1], sourceHash, gomodHash))
  }

  /** A record that can stand on two go.sum lines. */
  ghost predicate WellFormed(r: Record) {
    && Free(r.modulePath, ' ') && Free(r.modulePath, '\n')
    && Free(r.version, ' ') && Free(r.version, '\n')
    && |r.source| == SHA256_LEN && |r.gomod| == SHA256_LEN
  }

  lemma HashTextParses(text: string, hash: seq<byte>)
    requires Base64.Decode(text) == Ok(hash) && |hash| == SHA256_LEN
    ensures ParseRecordHash(SHA256_PREFIX + text) == Ok(hash)
  {
    assert (SHA256_PREFIX + text)[|SHA256_PREFIX|..] == text;
  }

  /** The hash fields that are read: `h1:` and a base64 text of 32 bytes. */
  lemma ParseRecordHashMeans(input: string, hash: seq<byte>)
    ensures ParseRecordHash(input) == Ok(hash) <==>
            |input| >= 3 && input[..3] == "h1:" && Base64.Decode(input[3..]) == Ok(hash) && |hash| == 32
  {
    if |input| >= 3 {
      assert HasPrefix(input, SHA256_PREFIX) <==> input[..3] == "h1:";
    }
  }

  lemma HashTextFree(text: string)
    requires Free(text, ' ') && Free(text, '\n')
    ensures Free(SHA256_PREFIX + text, ' ') && Free(SHA256_PREFIX + text, '\n')
  {
    FreeConcat(SHA256_PREFIX, text, ' ');
    FreeConcat(SHA256_PREFIX, text, '\n');
  }

  lemma HashFieldParses(hash: seq<byte>)
    requires |hash| == SHA256_LEN
    ensures ParseRecordHash(HashField(hash)) == Ok(hash)
    ensures Free(HashField(hash), ' ') && Free(HashField(hash), '\n')
  {
    Base64.EncodedFree(hash, ' ');
    Base64.EncodedFree(hash, '\n');
    Base64.DecodeEncode(hash);
    HashTextParses(Base64.Encode(hash), hash);
    HashTextFree(Base64.Encode(hash));
  }

  ghost predicate IsLine(fields: seq<string>) {
    |fields| >= 1 && forall i :: 0 <= i < |fields| ==> Free(fields[i], ' ') && Free(fields[i], '\n')
  }

  /** A line followed by anything reads as its fields and what follows. */
  lemma LineParses(fields: seq<string>, rest: string)
    requires IsLine(fields)
    ensures ParseRecordLine(Line(fields) + rest) == (Some(fields), rest)
  {
    JoinFree(fields, " ", '\n');
    CutAt(Join(fields, " "), '\n', rest);
    SplitJoin(fields, ' ');
  }

  /** The other way: what was read is a line of the fields found. */
  lemma LineShape(input: string)
    requires ParseRecordLine(input).0.Some?
    ensures IsLine(ParseRecordLine(input).0.value)
    ensures input == Line(ParseRecordLine(input).0.value) + ParseRecordLine(input).1
  {
    var (line, rest) := Cut(input, '\n').value;
    JoinSplit(line, ' ');
    JoinFree(Split(line, ' '), " ", '\n');
  }

  /** The fields of the two lines of a text that parses. */
  function Fields(input: string): (fields: (seq<string>, seq<string>))
    requires ParseRecord(input).Ok?
    ensures |fields.0| == 3 && |fields.1| == 3
    ensures ParseFields(fields.0, fields.1) == ParseRecord(input)
  {
    var (source, rest) := ParseRecordLine(input);
    (source.value, ParseRecordLine(rest).0.value)
  }

  lemma LinesParse(source: seq<string>, gomod: seq<string>)
    requires IsLine(source) && IsLine(gomod)
    ensures ParseRecord(Line(source) + Line(gomod)) == ParseFields(source, gomod)
    ensures ParseFields(source, gomod).Ok? ==> Fields(Line(source) + Line(gomod)) == (source, gomod)
  {
    LineParses(source, Line(gomod));
    LineParses(gomod, "");
    assert Line(gomod) + "" == Line(gomod);
  }

  lemma LinesShape(input: string)
    requires ParseRecord(input).Ok?
    ensures IsLine(Fields(input).0) && IsLine(Fields(input).1)
    ensures input == Line(Fields(input).0) + Line(Fields(input).1)
  {
    LineShape(input);
    LineShape(ParseRecordLine(input).1);
    assert Line(Fields(input).1) + "" == Line(Fields(input).1);
  }

  lemma FormatLines(r: Record)
    requires WellFormed(r)
    ensures IsLine(r.SourceFields()) && IsLine(r.GomodFields())
  {
    HashFieldParses(r.source);
    HashFieldParses(r.gomod);
    assert Free(r.version + GOMOD_SUFFIX, ' ') by {
      FreeConcat(r.version, GOMOD_SUFFIX, ' ');
    }
    assert Free(r.version + GOMOD_SUFFIX, '\n') by {
      FreeConcat(r.version, GOMOD_SUFFIX, '\n');
    }
  }

  /** Reading back what Format wrote. */
  lemma ParseFormat(r: Record)
    requires WellFormed(r)
    ensures ParseRecord(r.Format()) == Ok(r)
    ensures Fields(r.Format()) == (r.SourceFields(), r.GomodFields())
  {
    FormatLines(r);
    HashFieldParses(r.source);
    HashFieldParses(r.gomod);
    LinesParse(r.SourceFields(), r.GomodFields());
  }

  /** The bytes hashed in the tree determine the record. */
  lemma FormatInjective(a: Record, b: Record)
    requires WellFormed(a) && WellFormed(b) && a.Format() == b.Format()
    ensures a == b
  {
    ParseFormat(a);
    ParseFormat(b);
  }

  /** A parsed record is well formed, so formatting and parsing it again changes nothing. */
  lemma ParseIsFixedPoint(input: string)
    requires ParseRecord(input).Ok?
    ensures WellFormed(ParseRecord(input).value)
    ensures ParseRecord(ParseRecord(input).value.Format()) == ParseRecord(input)
  {
    LinesShape(input);
    ParseFormat(ParseRecord(input).value);
  }

  /** The text that is hashed in the tree. */
  lemma FormatText(r: Record)
    ensures r.Format() ==
      r.modulePath + " " + r.version + " h1:" + Base64.Encode(r.source) + "\n"
      + r.modulePath + " " + r.version + "/go.mod h1:" + Base64.Encode(r.gomod) + "\n"
  {
    var m, s, g := r.modulePath, HashField(r.source), HashField(r.gomod);
    LineOfThree(m, r.version, s);
    LineOfThree(m, r.version + GOMOD_SUFFIX, g);
  }

  lemma LineOfThree(a: string, b: string, c: string)
    ensures Line([a, b, c]) == a + " " + b + " " + c + "\n"
  {
    assert [a, b, c][1..] == [b, c] && [b, c][1..] == [c] && Join([c], " ") == c;
    assert Join([b, c], " ") == b + " " + c;
    assert Join([a, b, c], " ") == a + " " + (b + " " + c);
  }

  /** Two lines in the shape of Format, with base64 texts that read as the hashes of r. */
  ghost predicate Spells(input: string, r: Record, source: string, gomod: string) {
    && input == r.modulePath + " " + r.version + " h1:" + source + "\n"
                + r.modulePath + " " + r.version + "/go.mod h1:" + gomod + "\n"
    && IsLine([r.modulePath, r.version, source, gomod])
    && Base64.Decode(source) == Ok(r.source) && |r.source| == 32
    && Base64.Decode(gomod) == Ok(r.gomod) && |r.gomod| == 32
  }

  lemma SpelledLines(r: Record, source: string, gomod: string)
    ensures r.modulePath + " " + r.version + " h1:" + source + "\n"
            + r.modulePath + " " + r.version + "/go.mod h1:" + gomod + "\n"
            == Line([r.modulePath, r.version, SHA256_PREFIX + source])
               + Line([r.modulePath, r.version + GOMOD_SUFFIX, SHA256_PREFIX + gomod])
  {
    LineOfThree(r.modulePath, r.version, SHA256_PREFIX + source);
    LineOfThree(r.modulePath, r.version + GOMOD_SUFFIX, SHA256_PREFIX + gomod);
    assert " " + SHA256_PREFIX == " h1:" && GOMOD_SUFFIX + " " + SHA256_PREFIX == "/go.mod h1:";
  }

  lemma SpelledIsParsed(input: string, r: Record, source: string, gomod: string)
    requires Spells(input, r, source, gomod)
    ensures ParseRecord(input) == Ok(r)
  {
    var texts := [r.modulePath, r.version, source, gomod];
    assert forall i :: 0 <= i < 4 ==> Free(texts[i], ' ') && Free(texts[i], '\n');
    assert Free(texts[0], ' ') && Free(texts[1], ' ') && Free(texts[2], ' ') && Free(texts[3], ' ');
    assert Free(texts[0], '\n') && Free(texts[1], '\n') && Free(texts[2], '\n') && Free(texts[3], '\n');
    hide ParseRecord, Base64.Decode, Free, ParseRecordHash, Line;
    SpelledLines(r, source, gomod);
    HashTextParses(source, r.source);
    HashTextParses(gomod, r.gomod);
    HashTextFree(source);
    HashTextFree(gomod);
    SuffixFree(r.version);
    LinesParse([r.modulePath, r.version, SHA256_PREFIX + source],
               [r.modulePath, r.version + GOMOD_SUFFIX, SHA256_PREFIX + gomod]);
  }

  lemma SuffixFree(version: string)
    ensures Free(version, ' ') ==> Free(version + GOMOD_SUFFIX, ' ')
    ensures Free(version, '\n') ==> Free(version + GOMOD_SUFFIX, '\n')
  {
    FreeConcat(version, GOMOD_SUFFIX, ' ');
    FreeConcat(version, GOMOD_SUFFIX, '\n');
  }

  lemma ParsedIsSpelled(input: string) returns (source: string, gomod: string)
    requires ParseRecord(input).Ok?
    ensures Spells(input, ParseRecord(input).value, source, gomod)
  {
    var r := ParseRecord(input).value;
    var (a, b) := Fields(input);
    source, gomod := HashText(a), HashText(b);
    LinesShape(input);
    FieldsSpell(a, b, r);
    hide IsLine, ParseRecord, Base64.Decode, Free, Line, ParseFields, HashText, ParseRecordLine;
    SpelledLines(r, source, gomod);
    LineWords(r, a, source, SHA256_PREFIX + source, b, gomod);
  }

  lemma LineWords(r: Record, a: seq<string>, source: string, field: string, b: seq<string>, gomod: string)
    requires IsLine(a) && a == [r.modulePath, r.version, field] && field == SHA256_PREFIX + source
    requires IsLine(b) && |b| == 3 && b[2] == SHA256_PREFIX + gomod
    ensures IsLine([r.modulePath, r.version, source, gomod])
  {
    assert Free(a[0], ' ') && Free(a[1], ' ') && Free(a[2], ' ') && Free(b[2], ' ');
    assert Free(a[0], '\n') && Free(a[1], '\n') && Free(a[2], '\n') && Free(b[2], '\n');
    hide Free;
    TextFree(source);
    TextFree(gomod);
  }

  lemma FieldsSpell(a: seq<string>, b: seq<string>, r: Record)
    requires |a| == 3 && |b| == 3 && ParseFields(a, b) == Ok(r)
    ensures HasPrefix(a[2], SHA256_PREFIX) && HasPrefix(b[2], SHA256_PREFIX)
    ensures a == [r.modulePath, r.version, SHA256_PREFIX + HashText(a)]
    ensures b == [r.modulePath, r.version + GOMOD_SUFFIX, SHA256_PREFIX + HashText(b)]
    ensures Base64.Decode(HashText(a)) == Ok(r.source) && |r.source| == 32
    ensures Base64.Decode(HashText(b)) == Ok(r.gomod) && |r.gomod| == 32
  {
    hide Base64.Decode;
    assert a[2] == SHA256_PREFIX + HashText(a) && b[2] == SHA256_PREFIX + HashText(b);
  }

  lemma TextFree(text: string)
    ensures Free(SHA256_PREFIX + text, ' ') ==> Free(text, ' ')
    ensures Free(SHA256_PREFIX + text, '\n') ==> Free(text, '\n')
  {
    FreeConcat(SHA256_PREFIX, text, ' ');
    FreeConcat(SHA256_PREFIX, text, '\n');
  }

  /** A text is read as a record exactly when it spells it. */
  lemma ParseIff(input: string, r: Record)
    ensures ParseRecord(input) == Ok(r) <==> exists source, gomod :: Spells(input, r, source, gomod)
  {
    if ParseRecord(input) == Ok(r) {
      var source, gomod := ParsedIsSpelled(input);
    }
    forall source, gomod | Spells(input, r, source, gomod)
      ensures ParseRecord(input) == Ok(r)
    {
      SpelledIsParsed(input, r, source, gomod);
    }
  }

  /** The base64 text of a hash field. */
  function HashText(fields: seq<string>): string
    requires |fields| == 3 && HasPrefix(fields[2], SHA256_PREFIX)
  {
    fields[2][|SHA256_PREFIX|..]
  }

  lemma HashFieldCanonical(fields: seq<string>, hash: seq<byte>)
    requires |fields| == 3 && ParseRecordHash(fields[2]) == Ok(hash)
    ensures fields[2] == HashField(hash) <==> Base64.Canonical(HashText(fields))
  {
    Base64.EncodeDecode(HashText(fields));
    assert fields[2] == SHA256_PREFIX + HashText(fields);
    assert HashField(hash)[3..] == Base64.Encode(hash);
  }

  /**
   Formatting a parsed record gives the input back exactly when both base64 texts are
   canonical: no CR, and zero in the two unused bits of the last character.
   */
  lemma FormatParse(input: string)
    requires ParseRecord(input).Ok?
    ensures ParseRecord(input).value.Format() == input <==>
            && Base64.Canonical(HashText(Fields(input).0))
            && Base64.Canonical(HashText(Fields(input).1))
  {
    var r := ParseRecord(input).value;
    var (source, gomod) := Fields(input);
    HashFieldCanonical(source, r.source);
    HashFieldCanonical(gomod, r.gomod);
    SameFields(input, r);
  }

  lemma SameFields(input: string, r: Record)
    requires ParseRecord(input) == Ok(r)
    ensures r.Format() == input <==>
            && Fields(input).0[2] == HashField(r.source)
            && Fields(input).1[2] == HashField(r.gomod)
  {
    if r.Format() == input {
      ParseIsFixedPoint(input);
      ParseFormat(r);
    } else {
      LinesShape(input);
      FieldsDetermined(Fields(input).0, Fields(input).1, r);
    }
  }

  lemma FieldsDetermined(source: seq<string>, gomod: seq<string>, r: Record)
    requires ParseFields(source, gomod) == Ok(r)
    ensures source[2] == HashField(r.source) ==> source == r.SourceFields()
    ensures gomod[2] == HashField(r.gomod) ==> gomod == r.GomodFields()
  {
    assert source == [source[0], source[1], source[2]];
    assert gomod == [gomod[0], gomod[1], gomod[2]];
  }

  lemma CarriageReturnDecodes(hash: seq<byte>)
    ensures Base64.Decode("\r" + Base64.Encode(hash)) == Ok(hash)
    ensures Free("\r" + Base64.Encode(hash), ' ') && Free("\r" + Base64.Encode(hash), '\n')
  {
    assert ("\r" + Base64.Encode(hash))[1..] == Base64.Encode(hash);
    Base64.DecodeEncode(hash);
    Base64.EncodedFree(hash, ' ');
    Base64.EncodedFree(hash, '\n');
  }

  /** The format of a record with another base64 text for its source hash. */
  function FormatWith(r: Record, text: string): string {
    Line([r.modulePath, r.version, SHA256_PREFIX + text]) + Line(r.GomodFields())
  }

  lemma OtherTextIsLost(r: Record, text: string)
    requires WellFormed(r) && Base64.Decode(text) == Ok(r.source) && text != Base64.Encode(r.source)
    requires Free(text, ' ') && Free(text, '\n')
    ensures ParseRecord(FormatWith(r, text)) == Ok(r) && r.Format() != FormatWith(r, text)
  {
    hide Line, ParseRecord, Fields, ParseRecordHash, Record.Format, Base64.Decode, Free;
    var fields := [r.modulePath, r.version, SHA256_PREFIX + text];
    HashTextParses(text, r.source);
    HashTextFree(text);
    FormatLines(r);
    HashFieldParses(r.gomod);
    LinesParse(fields, r.GomodFields());
    SameFields(FormatWith(r, text), r);
    assert fields[2][3..] == text && HashField(r.source)[3..] == Base64.Encode(r.source);
  }

  /** Reading is not one to one: a CR before the base64 text is lost. */
  lemma CarriageReturnIsLost(r: Record)
    requires WellFormed(r)
    ensures var input := FormatWith(r, "\r" + Base64.Encode(r.source));
      ParseRecord(input) == Ok(r) && r.Format() != input
  {
    CarriageReturnDecodes(r.source);
    assert |"\r" + Base64.Encode(r.source)| == |Base64.Encode(r.source)| + 1;
    OtherTextIsLost(r, "\r" + Base64.Encode(r.source));
  }

  /** So is a bit set where the last character carries no data. */
  lemma UnusedBitIsLost(r: Record) returns (text: string)
    requires WellFormed(r)
    ensures |text| == |Base64.Encode(r.source)| && !Base64.HasNewline(text)
    ensures ParseRecord(FormatWith(r, text)) == Ok(r) && r.Format() != FormatWith(r, text)
  {
    hide Base64.SetUnusedBit, Base64.Decode, Base64.HasNewline, Free, FormatWith, Record.Format, ParseRecord;
    Base64.UnusedBitDecodes(r.source);
    text := Base64.SetUnusedBit(Base64.Encode(r.source));
    OtherTextIsLost(r, text);
  }
}
