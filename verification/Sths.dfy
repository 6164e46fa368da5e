/** Signed tree heads of the checksum database: sumdb/sth.go. */
module Sths {
  import opened Wrappers
  import opened Text
  import Base64

  const PREAMBLE := "go.sum database tree"
  const HASH_LEN := 32
  const KEYTYPE_ED25519: byte := 0x01
  /** The em dash U+2014 in UTF-8. */
  const EM_DASH := "\U{e2}\U{80}\U{94}"

  datatype Sth = Sth(treeSize: nat, rootHash: seq<byte>, signature: seq<byte>) {

    /** The text that the log signs. */
    function Message(): string {
      PREAMBLE + "\n" + (Decimal(treeSize) + "\n" + (Base64.Encode(rootHash) + "\n" + ""))
    }

    function Format(address: string): string {
      Message() + "\n" + (SignaturePrefix(address) + Base64.Encode(signature)) + "\n"
    }

    /** `verify(key, message, signature)` stands for Ed25519 verification. */
    function Authenticate(key: seq<byte>, verify: (seq<byte>, string, seq<byte>) -> bool): Result<()> {
      if |key| == 0 then Err("key is too short")
      else if |signature| < 4 then Err("signature is too short")
      else if key[0] != KEYTYPE_ED25519 then Err("unsupported key type")
      else if !verify(key[1..], Message(), signature[4..]) then Err("signature is invalid")
      else Ok(())
    }
  }

  function SignaturePrefix(address: string): string {
    EM_DASH + " " + address + " "
  }

  /** The first line and what follows; without a newline nothing is left to read. */
  function ChompLine(input: string): (Option<string>, string) {
    match Cut(input, '\n')
    case None => (None, "")
    case Some((line, rest)) => (Some(line), rest)
  }

  function LineText(line: Option<string>): string {
    if line.None? then "" else line.value
  }

  /** What follows the prefix on the first line that has it. */
  function FindSignature(input: string, prefix: string): Option<string>
    decreases |input|
  {
    match Cut(input, '\n')
    case None => None
    case Some((line, rest)) =>
      if HasPrefix(line, prefix) then Some(line[|prefix|..]) else FindSignature(rest, prefix)
  }

  /** What an STH text means to a reader that trusts the log at `address`. */
  function Meaning(input: string, address: string): Result<Sth> {
    var (preamble, rest1) := ChompLine(input);
    var (sizeLine, rest2) := ChompLine(rest1);
    var (hashLine, rest3) := ChompLine(rest2);
    var (blankLine, rest4) := ChompLine(rest3);
    if preamble != Some(PREAMBLE) then Err("doesn't look like an STH")
    else
      var treeSize :- ParseUint(LineText(sizeLine));
      var rootHash :- Base64.Decode(LineText(hashLine));
      if |rootHash| != HASH_LEN then Err("root hash has wrong length")
      else if LineText(blankLine) != "" then Err("missing blank line at end of STH")
      else
        var found := FindSignature(rest4, SignaturePrefix(address));
        if found.None? then Err("doesn't have a signature")
        else
          var signature :- Base64.Decode(found.value);
          Ok(Sth(treeSize, rootHash, signature))
  }

  method ParseSTH(text: string, address: string) returns (r: Result<Sth>)
    ensures r == Meaning(text, address)
  {
    var (preamble, input) := ChompLine(text);
    var (sizeLine, input2) := ChompLine(input);
    var (hashLine, input3) := ChompLine(input2);
    var (blankLine, rest) := ChompLine(input3);
    if preamble != Some(PREAMBLE) {
      return Err("doesn't look like an STH");
    }
    var treeSize :- ParseUint(LineText(sizeLine));
    var rootHash :- Base64.Decode(LineText(hashLine));
    if |rootHash| != HASH_LEN {
      return Err("root hash has wrong length");
    }
    if LineText(blankLine) != "" {
      return Err("missing blank line at end of STH");
    }
    var found := LookupSignature(rest, SignaturePrefix(address));
    if found.None? {
      return Err("doesn't have a signature");
    }
    var signature :- Base64.Decode(found.value);
    return Ok(Sth(treeSize, rootHash, signature));
  }

  /** The loop of ParseSTH over the signature lines. */
  method LookupSignature(text: string, prefix: string) returns (signature: Option<string>)
    ensures signature == FindSignature(text, prefix)
  {
    var input := text;
    signature := None;
    while true
      invariant FindSignature(input, prefix) == FindSignature(text, prefix)
      decreases |input|
    {
      var line := Cut(input, '\n');
      if line.None? {
        break;
      }
      if HasPrefix(line.value.0, prefix) {
        return Some(line.value.0[|prefix|..]);
      }
      input := line.value.1;
    }
  }

  // ---- Authenticity ----

  /** What the log signs, spelled out. */
  function SignedText(treeSize: nat, rootHash: seq<byte>): string {
    "go.sum database tree\n" + Decimal(treeSize) + "\n" + Base64.Encode(rootHash) + "\n"
  }

  /**
   The key is the byte 1 and an Ed25519 key, and verification accepts that text with the
   signature after its first four bytes.
   */
  ghost predicate IsSigned(sth: Sth, key: seq<byte>, verify: (seq<byte>, string, seq<byte>) -> bool) {
    && |key| >= 1 && key[0] == 1 && |sth.signature| >= 4
    && verify(key[1..], SignedText(sth.treeSize, sth.rootHash), sth.signature[4..])
  }

  lemma MessageIsSignedText(sth: Sth)
    ensures sth.Message() == SignedText(sth.treeSize, sth.rootHash)
  {
    assert PREAMBLE + "\n" == "go.sum database tree\n";
  }

  lemma AuthenticateMeans(sth: Sth, key: seq<byte>, verify: (seq<byte>, string, seq<byte>) -> bool)
    ensures sth.Authenticate(key, verify).Ok? <==> IsSigned(sth, key, verify)
  {
    MessageIsSignedText(sth);
  }

  /** The text of an STH, spelled out. */
  lemma FormatMeans(sth: Sth, address: string)
    ensures sth.Format(address) == SignedText(sth.treeSize, sth.rootHash) + "\n\U{e2}\U{80}\U{94} " + address + " "
      + Base64.Encode(sth.signature) + "\n"
  {
    MessageIsSignedText(sth);
    assert "\n" + (EM_DASH + " ") == "\n\U{e2}\U{80}\U{94} ";
  }

  // ---- Round trip ----

  /** Lines, each ended by a newline, before some text. */
  function LinesThen(lines: seq<string>, rest: string): string {
    if lines == [] then rest else lines[0] + "\n" + LinesThen(lines[1..], rest)
  }

  lemma {:induction false} FindSignatureAfter(others: seq<string>, prefix: string, text: string, rest: string)
    requires forall i :: 0 <= i < |others| ==> Free(others[i], '\n') && !HasPrefix(others[i], prefix)
    requires Free(prefix + text, '\n')
    ensures FindSignature(LinesThen(others, prefix + text + "\n" + rest), prefix) == Some(text)
  {
    if others == [] {
      CutAt(prefix + text, '\n', rest);
      assert (prefix + text)[|prefix|..] == text;
    } else {
      CutAt(others[0], '\n', LinesThen(others[1..], prefix + text + "\n" + rest));
      FindSignatureAfter(others[1..], prefix, text, rest);
    }
  }

  lemma DecimalFree(n: nat)
    ensures Free(Decimal(n), '\n')
  {
    assert !IsDigit('\n');
  }

  /** Four lines, the last one empty, and any text `rest`. */
  function Header(size: string, hash: string, rest: string): string {
    "go.sum database tree\n" + size + "\n" + hash + "\n" + "\n" + rest
  }

  lemma HeaderLines(size: string, hash: string, rest: string)
    requires Free(size, '\n') && Free(hash, '\n')
    ensures var input := Header(size, hash, rest);
      && ChompLine(input).0 == Some(PREAMBLE)
      && ChompLine(ChompLine(input).1).0 == Some(size)
      && ChompLine(ChompLine(ChompLine(input).1).1).0 == Some(hash)
      && ChompLine(ChompLine(ChompLine(ChompLine(input).1).1).1) == (Some(""), rest)
  {
    var input := Header(size, hash, rest);
    var after3 := "" + "\n" + rest;
    var after2 := hash + "\n" + after3;
    var after1 := size + "\n" + after2;
    assert input == PREAMBLE + "\n" + after1;
    CutAt(PREAMBLE, '\n', after1);
    CutAt(size, '\n', after2);
    CutAt(hash, '\n', after3);
    CutAt("", '\n', rest);
  }

  /** The signed part of an STH, an empty line and any text `rest`. */
  lemma HeaderParses(sth: Sth, rest: string)
    ensures var input := sth.Message() + "\n" + rest;
      && ChompLine(input).0 == Some(PREAMBLE)
      && ChompLine(ChompLine(input).1).0 == Some(Decimal(sth.treeSize))
      && ChompLine(ChompLine(ChompLine(input).1).1).0 == Some(Base64.Encode(sth.rootHash))
      && ChompLine(ChompLine(ChompLine(ChompLine(input).1).1).1) == (Some(""), rest)
  {
    var size, hash := Decimal(sth.treeSize), Base64.Encode(sth.rootHash);
    DecimalFree(sth.treeSize);
    Base64.EncodedFree(sth.rootHash, '\n');
    HeaderLines(size, hash, rest);
    MessageIsSignedText(sth);
    assert sth.Message() + "\n" + rest == Header(size, hash, rest);
  }

  /** An STH text with signature lines of other signers before ours, and anything after it. */
  function Published(sth: Sth, address: string, others: seq<string>, rest: string): string {
    sth.Message() + "\n"
    + LinesThen(others, SignaturePrefix(address) + Base64.Encode(sth.signature) + "\n" + rest)
  }

  lemma ParsePublished(sth: Sth, address: string, others: seq<string>, rest: string)
    requires sth.treeSize <= MAX_UINT64 && |sth.rootHash| == HASH_LEN && Free(address, '\n')
    requires forall i :: 0 <= i < |others| ==>
      Free(others[i], '\n') && !HasPrefix(others[i], SignaturePrefix(address))
    ensures Meaning(Published(sth, address, others, rest), address) == Ok(sth)
  {
    hide ChompLine, ParseUint, Base64.Decode, FindSignature, SignaturePrefix, Sth.Message, Free;
    var prefix, text := SignaturePrefix(address), Base64.Encode(sth.signature);
    HeaderParses(sth, LinesThen(others, prefix + text + "\n" + rest));
    SignatureLineFree(sth, address);
    FindSignatureAfter(others, prefix, text, rest);
    ParseUintDecimal(sth.treeSize);
    Base64.DecodeEncode(sth.rootHash);
    Base64.DecodeEncode(sth.signature);
  }

  lemma SignatureLineFree(sth: Sth, address: string)
    requires Free(address, '\n')
    ensures Free(SignaturePrefix(address) + Base64.Encode(sth.signature), '\n')
  {
    Base64.EncodedFree(sth.signature, '\n');
    FreeConcat(EM_DASH + " " + address, " ", '\n');
    FreeConcat(EM_DASH + " ", address, '\n');
    FreeConcat(SignaturePrefix(address), Base64.Encode(sth.signature), '\n');
  }

  /** Reading back what Format wrote. */
  lemma ParseFormat(sth: Sth, address: string)
    requires sth.treeSize <= MAX_UINT64 && |sth.rootHash| == HASH_LEN && Free(address, '\n')
    ensures Meaning(sth.Format(address), address) == Ok(sth)
  {
    ParsePublished(sth, address, [], "");
    var line := SignaturePrefix(address) + Base64.Encode(sth.signature);
    assert LinesThen([], line + "\n" + "") == line + "\n";
    assert sth.Format(address) == sth.Message() + "\n" + (line + "\n");
  }

  /** The signed text says exactly the tree size and the root. */
  lemma MessageInjective(a: Sth, b: Sth)
    ensures a.Message() == b.Message() <==> a.treeSize == b.treeSize && a.rootHash == b.rootHash
  {
    if a.Message() == b.Message() {
      HeaderParses(a, "");
      HeaderParses(b, "");
      DecimalValue(a.treeSize);
      DecimalValue(b.treeSize);
      Base64.DecodeEncode(a.rootHash);
      Base64.DecodeEncode(b.rootHash);
    }
  }

  // ---- Exactly what is accepted ----

  /**
   The text has the header lines, then lines of other signers, then the line of the log at
   `address` with the base64 text `sig`, then anything; `size` and `hash` read as sth says.
   */
  ghost predicate Shows(input: string, address: string, sth: Sth, size: string, hash: string,
                        others: seq<string>, sig: string, rest: string) {
    var prefix := "\U{e2}\U{80}\U{94} " + address + " ";
    && input == Header(size, hash, LinesThen(others, prefix + sig + "\n" + rest))
    && Free(size, '\n') && Free(hash, '\n') && Free(prefix + sig, '\n')
    && (forall i :: 0 <= i < |others| ==> Free(others[i], '\n') && !(prefix <= others[i]))
    && ParseUint(size) == Ok(sth.treeSize)
    && Base64.Decode(hash) == Ok(sth.rootHash) && |sth.rootHash| == 32
    && Base64.Decode(sig) == Ok(sth.signature)
  }

  lemma PrefixIs(address: string)
    ensures SignaturePrefix(address) == "\U{e2}\U{80}\U{94} " + address + " "
  {
    assert EM_DASH + " " == "\U{e2}\U{80}\U{94} ";
  }

  lemma ShownIsParsed(input: string, address: string, sth: Sth, size: string, hash: string,
                      others: seq<string>, sig: string, rest: string)
    requires Shows(input, address, sth, size, hash, others, sig, rest)
    ensures Meaning(input, address) == Ok(sth)
  {
    hide ChompLine, ParseUint, Base64.Decode, FindSignature, SignaturePrefix, Free, Header;
    var prefix := SignaturePrefix(address);
    PrefixIs(address);
    HeaderLines(size, hash, LinesThen(others, prefix + sig + "\n" + rest));
    FindSignatureAfter(others, prefix, sig, rest);
  }

  lemma {:induction false} FindSignatureShape(input: string, prefix: string)
      returns (others: seq<string>, rest: string)
    requires FindSignature(input, prefix).Some?
    ensures input == LinesThen(others, prefix + FindSignature(input, prefix).value + "\n" + rest)
    ensures Free(prefix + FindSignature(input, prefix).value, '\n')
    ensures forall i :: 0 <= i < |others| ==> Free(others[i], '\n') && !(prefix <= others[i])
    decreases |input|
  {
    var (line, after) := Cut(input, '\n').value;
    if HasPrefix(line, prefix) {
      others, rest := [], after;
      assert line == prefix + line[|prefix|..];
    } else {
      others, rest := FindSignatureShape(after, prefix);
      others := [line] + others;
    }
  }

  lemma ParsedIsShown(input: string, address: string)
      returns (size: string, hash: string, others: seq<string>, sig: string, rest: string)
    requires Meaning(input, address).Ok?
    ensures Shows(input, address, Meaning(input, address).value, size, hash, others, sig, rest)
  {
    hide ParseUint, Base64.Decode, FindSignature, SignaturePrefix, Free;
    var prefix := SignaturePrefix(address);
    PrefixIs(address);
    var (_, rest1) := ChompLine(input);
    var (sizeLine, rest2) := ChompLine(rest1);
    var (hashLine, rest3) := ChompLine(rest2);
    var (blankLine, rest4) := ChompLine(rest3);
    sig := FindSignature(rest4, prefix).value;
    others, rest := FindSignatureShape(rest4, prefix);
    HeadersGiven(input, address);
    size, hash := sizeLine.value, hashLine.value;
    assert input == PREAMBLE + "\n" + (size + "\n" + (hash + "\n" + ("" + "\n" + rest4)));
    assert input == Header(size, hash, rest4);
  }

  /** Nothing is missing before the signature lines: there is one. */
  lemma HeadersGiven(input: string, address: string)
    requires Meaning(input, address).Ok?
    ensures var (preamble, rest1) := ChompLine(input); var (sizeLine, rest2) := ChompLine(rest1);
      var (hashLine, rest3) := ChompLine(rest2); var (blankLine, rest4) := ChompLine(rest3);
      preamble.Some? && sizeLine.Some? && hashLine.Some? && blankLine == Some("")
  {
  }

  /** A text is read as an STH exactly when it shows it. */
  lemma MeaningIff(input: string, address: string, sth: Sth)
    ensures Meaning(input, address) == Ok(sth) <==>
            exists size, hash, others, sig, rest :: Shows(input, address, sth, size, hash, others, sig, rest)
  {
    if Meaning(input, address) == Ok(sth) {
      var size, hash, others, sig, rest := ParsedIsShown(input, address);
    }
    forall size, hash, others, sig, rest | Shows(input, address, sth, size, hash, others, sig, rest)
      ensures Meaning(input, address) == Ok(sth)
    {
      ShownIsParsed(input, address, sth, size, hash, others, sig, rest);
    }
  }

  /** Every STH that the parser accepts is in the range of the round trip. */
  lemma ParsedInRange(input: string, address: string)
    requires Meaning(input, address).Ok?
    ensures var sth := Meaning(input, address).value;
      sth.treeSize <= MAX_UINT64 && |sth.rootHash| == HASH_LEN
  {
  }
}
