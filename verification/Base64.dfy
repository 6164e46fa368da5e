/**
 Standard base64 (section 4 of RFC 4648) as Go's StdEncoding reads and writes it:
 the reader skips CR and LF and ignores the unused low bits of the last character.
 */
module Base64 {
  import opened Wrappers
  import opened Text

  type sextet = x: int | 0 <= x < 64

  function Char64(n: sextet): char {
    if n < 26 then (n + 'A' as int) as char
    else if n < 52 then (n - 26 + 'a' as int) as char
    else if n < 62 then (n - 52 + '0' as int) as char
    else if n == 62 then '+' else '/'
  }

  predicate IsChar64(c: char) {
    'A' <= c <= 'Z' || 'a' <= c <= 'z' || '0' <= c <= '9' || c == '+' || c == '/'
  }

  function Value64(c: char): (n: sextet)
    requires IsChar64(c)
    ensures Char64(n) == c
  {
    if 'A' <= c <= 'Z' then c as int - 'A' as int
    else if 'a' <= c <= 'z' then c as int - 'a' as int + 26
    else if '0' <= c <= '9' then c as int - '0' as int + 52
    else if c == '+' then 62 else 63
  }

  lemma ValueOfChar(n: sextet)
    ensures IsChar64(Char64(n)) && Value64(Char64(n)) == n
  {
  }

  /** The alphabet of section 4 of RFC 4648. */
  lemma Alphabet(n: sextet)
    ensures n < 26 ==> Char64(n) == "ABCDEFGHIJKLMNOPQRSTUVWXYZ"[n]
    ensures 26 <= n < 52 ==> Char64(n) == "abcdefghijklmnopqrstuvwxyz"[n - 26]
    ensures 52 <= n < 62 ==> Char64(n) == "0123456789"[n - 52]
    ensures 62 <= n ==> Char64(n) == "+/"[n - 62]
  {
  }

  /** One to three bytes as four characters. */
  function EncodeBlock(b: seq<byte>): (s: string)
    requires 1 <= |b| <= 3
    ensures |s| == 4
  {
    if |b| == 1 then [Char64(b[0] / 4), Char64(b[0] % 4 * 16), '=', '=']
    else if |b| == 2 then
      [Char64(b[0] / 4), Char64(b[0] % 4 * 16 + b[1] / 16), Char64(b[1] % 16 * 4), '=']
    else
      [Char64(b[0] / 4), Char64(b[0] % 4 * 16 + b[1] / 16),
       Char64(b[1] % 16 * 4 + b[2] / 64), Char64(b[2] % 64)]
  }

  function Encode(b: seq<byte>): string {
    if |b| == 0 then ""
    else if |b| <= 3 then EncodeBlock(b)
    else EncodeBlock(b[..3]) + Encode(b[3..])
  }

  predicate IsNewline(c: char) {
    c == '\n' || c == '\r'
  }

  function DropNewlines(s: string): string {
    if s == [] then []
    else if IsNewline(s[0]) then DropNewlines(s[1..])
    else [s[0]] + DropNewlines(s[1..])
  }

  predicate ValidBlock(s: string)
    requires |s| == 4
  {
    && IsChar64(s[0]) && IsChar64(s[1])
    && (IsChar64(s[2]) || s[2] == s[3] == '=')
    && (IsChar64(s[3]) || s[3] == '=')
  }

  /** Four characters as one to three bytes; padding makes the block the last one. */
  function DecodeBlock(s: string): (b: seq<byte>)
    requires |s| == 4 && ValidBlock(s)
    ensures 1 <= |b| <= 3 && (|b| == 3 <==> s[3] != '=')
  {
    var x := Value64(s[0]) * 4 + Value64(s[1]) / 16;
    if s[2] == '=' then [x]
    else
      var y := Value64(s[1]) % 16 * 16 + Value64(s[2]) / 4;
      if s[3] == '=' then [x, y]
      else [x, y, Value64(s[2]) % 4 * 64 + Value64(s[3])]
  }

  function DecodeQuanta(s: string): Result<seq<byte>> {
    if |s| == 0 then Ok([])
    else if |s| < 4 || !ValidBlock(s[..4]) || (s[3] == '=' && |s| > 4) then Err("illegal base64 data")
    else
      var rest :- DecodeQuanta(s[4..]);
      Ok(DecodeBlock(s[..4]) + rest)
  }

  function Decode(s: string): Result<seq<byte>> {
    DecodeQuanta(DropNewlines(s))
  }

  predicate HasNewline(s: string) {
    exists i :: 0 <= i < |s| && IsNewline(s[i])
  }

  lemma {:induction false} DropNothing(s: string)
    requires !HasNewline(s)
    ensures DropNewlines(s) == s
  {
    if s != [] {
      assert !IsNewline(s[0]);
      assert forall i :: 0 <= i < |s[1..]| ==> s[1..][i] == s[i + 1];
      DropNothing(s[1..]);
    }
  }

  lemma {:induction false} DroppedHasNoNewline(s: string)
    ensures !HasNewline(DropNewlines(s))
  {
    if s != [] {
      DroppedHasNoNewline(s[1..]);
    }
  }

  lemma {:induction false} EncodedChars(b: seq<byte>)
    ensures forall i :: 0 <= i < |Encode(b)| ==> IsChar64(Encode(b)[i]) || Encode(b)[i] == '='
  {
    if |b| > 3 {
      EncodedChars(b[3..]);
    }
  }

  lemma DecodeBlockEncode(b: seq<byte>)
    requires 1 <= |b| <= 3
    ensures ValidBlock(EncodeBlock(b)) && DecodeBlock(EncodeBlock(b)) == b
    ensures EncodeBlock(b)[3] == '=' <==> |b| < 3
  {
    hide Char64, Value64;
    ValueOfChar(b[0] / 4);
    if |b| == 1 {
      ValueOfChar(b[0] % 4 * 16);
    } else {
      ValueOfChar(b[0] % 4 * 16 + b[1] / 16);
      if |b| == 2 {
        ValueOfChar(b[1] % 16 * 4);
      } else {
        ValueOfChar(b[1] % 16 * 4 + b[2] / 64);
        ValueOfChar(b[2] % 64);
      }
    }
  }

  lemma {:induction false} DecodeQuantaEncode(b: seq<byte>)
    ensures DecodeQuanta(Encode(b)) == Ok(b)
  {
    var s := Encode(b);
    if |b| > 3 {
      DecodeBlockEncode(b[..3]);
      assert s[..4] == EncodeBlock(b[..3]) && s[4..] == Encode(b[3..]);
      DecodeQuantaEncode(b[3..]);
      assert b == b[..3] + b[3..];
    } else if |b| > 0 {
      DecodeBlockEncode(b);
      assert s[..4] == s && s[4..] == "" && DecodeQuanta(s[4..]) == Ok([]);
      assert DecodeBlock(s) + [] == b;
    }
  }

  /** The number of a text of characters of the alphabet, the first one in the highest bits. */
  function SextetsValue(s: string): nat
    requires forall i :: 0 <= i < |s| ==> IsChar64(s[i])
  {
    if s == [] then 0 else SextetsValue(s[..|s| - 1]) * 64 + Value64(s[|s| - 1])
  }

  function BytesValue(b: seq<byte>): nat {
    if b == [] then 0 else BytesValue(b[..|b| - 1]) * 256 + b[|b| - 1]
  }

  /** The characters of a block hold the bits of its bytes, then as many zero bits as are missing. */
  lemma BlockValue(b: seq<byte>)
    requires 1 <= |b| <= 3
    ensures var s := EncodeBlock(b);
      && (forall i :: |b| < i < 4 ==> s[i] == '=') && (forall i :: 0 <= i <= |b| ==> IsChar64(s[i]))
      && SextetsValue(s[..|b| + 1]) == BytesValue(b) * if |b| == 1 then 16 else if |b| == 2 then 4 else 1
  {
    var s := EncodeBlock(b);
    BlockSextets(b);
    BytesOf(b);
    SextetsOf(s[..|b| + 1]);
    hide *;
    var x, y, z := b[0], if |b| >= 2 then b[1] else 0, if |b| == 3 then b[2] else 0;
    SixBits(x, y, z);
  }

  lemma SixBits(x: int, y: int, z: int)
    requires 0 <= x < 256 && 0 <= y < 256 && 0 <= z < 256
    ensures x / 4 * 64 + x % 4 * 16 == x * 16
    ensures (x / 4 * 64 + (x % 4 * 16 + y / 16)) * 64 + y % 16 * 4 == (x * 256 + y) * 4
    ensures ((x / 4 * 64 + (x % 4 * 16 + y / 16)) * 64 + (y % 16 * 4 + z / 64)) * 64 + z % 64
            == x * 0x1_0000 + y * 256 + z
  {
    assert x == x / 4 * 4 + x % 4 && y == y / 16 * 16 + y % 16 && z == z / 64 * 64 + z % 64;
  }

  lemma BlockSextets(b: seq<byte>)
    requires 1 <= |b| <= 3
    ensures var s := EncodeBlock(b);
      && (forall i :: |b| < i < 4 ==> s[i] == '=') && (forall i :: 0 <= i <= |b| ==> IsChar64(s[i]))
      && Value64(s[0]) == b[0] / 4
      && Value64(s[1]) == (if |b| == 1 then b[0] % 4 * 16 else b[0] % 4 * 16 + b[1] / 16)
      && (|b| == 2 ==> Value64(s[2]) == b[1] % 16 * 4)
      && (|b| == 3 ==> Value64(s[2]) == b[1] % 16 * 4 + b[2] / 64 && Value64(s[3]) == b[2] % 64)
  {
    hide Char64, Value64, IsChar64;
    ValueOfChar(b[0] / 4);
    if |b| == 1 {
      ValueOfChar(b[0] % 4 * 16);
    } else {
      ValueOfChar(b[0] % 4 * 16 + b[1] / 16);
      if |b| == 2 {
        ValueOfChar(b[1] % 16 * 4);
      } else {
        ValueOfChar(b[1] % 16 * 4 + b[2] / 64);
        ValueOfChar(b[2] % 64);
      }
    }
  }

  lemma BytesOf(b: seq<byte>)
    requires 1 <= |b| <= 3
    ensures BytesValue(b) == if |b| == 1 then b[0] as int else
      if |b| == 2 then (b[0] as int) * 256 + b[1] else (b[0] as int) * 0x1_0000 + (b[1] as int) * 256 + b[2]
  {
    assert b[..1] == [b[0]] && b[..1][..0] == [] && BytesValue(b[..1]) == b[0];
    if |b| == 3 {
      assert b[..2][..1] == b[..1];
      assert BytesValue(b[..2]) == (b[0] as int) * 256 + b[1];
    }
    if |b| == 1 {
      assert b[..1] == b;
    }
  }

  lemma SextetsOf(s: string)
    requires 2 <= |s| <= 4 && forall i :: 0 <= i < |s| ==> IsChar64(s[i])
    ensures SextetsValue(s) == if |s| == 2 then Value64(s[0]) * 64 + Value64(s[1]) else
      if |s| == 3 then (Value64(s[0]) * 64 + Value64(s[1])) * 64 + Value64(s[2])
      else ((Value64(s[0]) * 64 + Value64(s[1])) * 64 + Value64(s[2])) * 64 + Value64(s[3])
  {
    assert s[..1] == [s[0]] && s[..1][..0] == [] && SextetsValue(s[..1]) == Value64(s[0]);
    assert s[..2][..1] == s[..1] && SextetsValue(s[..2]) == SextetsValue(s[..1]) * 64 + Value64(s[1]);
    if |s| >= 3 {
      assert s[..3][..2] == s[..2] && SextetsValue(s[..3]) == SextetsValue(s[..2]) * 64 + Value64(s[2]);
    }
    assert s[..|s|] == s;
  }

  /** After k blocks the text goes on with the encoding of the bytes from 3k on. */
  lemma {:induction false} EncodeFrom(b: seq<byte>, k: nat)
    requires 3 * k <= |b|
    ensures 4 * k <= |Encode(b)| && Encode(b)[4 * k..] == Encode(b[3 * k..])
    decreases k
  {
    if k == 0 {
      assert b[0..] == b;
    } else if |b| == 3 {
      assert b[3..] == [];
    } else {
      var first, rest := EncodeBlock(b[..3]), Encode(b[3..]);
      assert Encode(b) == first + rest;
      EncodeFrom(b[3..], k - 1);
      hide Encode, EncodeBlock;
      assert b[3..][3 * (k - 1)..] == b[3 * k..];
      assert (first + rest)[4 * k..] == rest[4 * (k - 1)..];
    }
  }

  /** Block number k of the text is that of the next three bytes, or of those that are left. */
  lemma EncodeAt(b: seq<byte>, k: nat)
    requires 3 * k < |b|
    ensures 4 * k + 4 <= |Encode(b)|
    ensures var left := b[3 * k..];
      Encode(b)[4 * k..][..4] == EncodeBlock(if |left| <= 3 then left else left[..3])
  {
    EncodeFrom(b, k);
    assert b[3 * k..] != [];
  }

  lemma EncodedFree(b: seq<byte>, c: char)
    requires !IsChar64(c) && c != '='
    ensures Free(Encode(b), c)
  {
    EncodedChars(b);
  }

  lemma DecodeEncode(b: seq<byte>)
    ensures Decode(Encode(b)) == Ok(b)
  {
    EncodedChars(b);
    DropNothing(Encode(b));
    DecodeQuantaEncode(b);
  }

  // ---- Which texts the decoder accepts ----

  /** CR and LF do not matter. */
  lemma {:induction false} DecodeSkips(before: string, c: char, after: string)
    requires c == '\r' || c == '\n'
    ensures Decode(before + [c] + after) == Decode(before + after)
  {
    var s := before + [c] + after;
    if before == [] {
      assert s[1..] == after && before + after == after;
    } else {
      assert s[1..] == before[1..] + [c] + after && (before + after)[1..] == before[1..] + after;
      DropSkips(before[1..], c, after);
    }
  }

  lemma {:induction false} DropSkips(before: string, c: char, after: string)
    requires c == '\r' || c == '\n'
    ensures DropNewlines(before + [c] + after) == DropNewlines(before + after)
  {
    var s := before + [c] + after;
    if before == [] {
      assert s[1..] == after && before + after == after;
    } else {
      assert s[1..] == before[1..] + [c] + after && (before + after)[1..] == before[1..] + after;
      DropSkips(before[1..], c, after);
    }
  }

  // ---- Which texts the encoder produces ----

  /** The bits of the last character that carry no data are zero. */
  predicate TailBitsZero(s: string) {
    var n := |s|;
    n >= 4 && s[n - 1] == '=' ==>
      if s[n - 2] == '=' then IsChar64(s[n - 3]) && Value64(s[n - 3]) % 16 == 0
      else IsChar64(s[n - 2]) && Value64(s[n - 2]) % 4 == 0
  }

  predicate Canonical(s: string) {
    !HasNewline(s) && TailBitsZero(s)
  }

  /** Cutting 24 bits in three bytes or in four sextets. */
  lemma Regroup(p: sextet, q: sextet, r: sextet, t: sextet)
    ensures var x, y, z := p * 4 + q / 16, q % 16 * 16 + r / 4, r % 4 * 64 + t;
      && x / 4 == p && x % 4 * 16 + y / 16 == q && y % 16 * 4 + z / 64 == r && z % 64 == t
      && x % 4 * 16 == q / 16 * 16 && y % 16 * 4 == r / 4 * 4
  {
  }

  lemma EncodeShortest(s: string)
    requires |s| == 4 && ValidBlock(s) && s[2] == '='
    ensures Value64(s[1]) / 16 * 16 < 64
    ensures EncodeBlock(DecodeBlock(s)) == [s[0], Char64(Value64(s[1]) / 16 * 16), '=', '=']
  {
    Regroup(Value64(s[0]), Value64(s[1]), 0, 0);
  }

  lemma EncodeShorter(s: string)
    requires |s| == 4 && ValidBlock(s) && s[2] != '=' && s[3] == '='
    ensures Value64(s[2]) / 4 * 4 < 64
    ensures EncodeBlock(DecodeBlock(s)) == [s[0], s[1], Char64(Value64(s[2]) / 4 * 4), '=']
  {
    Regroup(Value64(s[0]), Value64(s[1]), Value64(s[2]), 0);
  }

  lemma EncodeFull(s: string)
    requires |s| == 4 && ValidBlock(s) && s[3] != '='
    ensures EncodeBlock(DecodeBlock(s)) == s
  {
    Regroup(Value64(s[0]), Value64(s[1]), Value64(s[2]), Value64(s[3]));
    assert s == [s[0], s[1], s[2], s[3]];
  }

  lemma EncodeBlockDecode(s: string)
    requires |s| == 4 && ValidBlock(s)
    ensures EncodeBlock(DecodeBlock(s)) == s <==> TailBitsZero(s)
    ensures s[3] != '=' ==> EncodeBlock(DecodeBlock(s)) == s
  {
    assert s == [s[0], s[1], s[2], s[3]];
    if s[2] == '=' {
      EncodeShortest(s);
      SextetTail(s[1], 16);
    } else if s[3] == '=' {
      EncodeShorter(s);
      SextetTail(s[2], 4);
    } else {
      EncodeFull(s);
    }
  }

  /** Clearing the low bits of a character leaves it alone exactly when they were zero. */
  lemma SextetTail(c: char, unit: nat)
    requires IsChar64(c) && (unit == 4 || unit == 16)
    ensures Value64(c) / unit * unit < 64
    ensures Char64(Value64(c) / unit * unit) == c <==> Value64(c) % unit == 0
  {
    ValueOfChar(Value64(c) / unit * unit);
  }

  lemma {:induction false} EncodeDecodeQuanta(s: string)
    requires DecodeQuanta(s).Ok?
    ensures Encode(DecodeQuanta(s).value) == s <==> TailBitsZero(s)
  {
    hide EncodeBlock, DecodeBlock, ValidBlock;
    if |s| > 4 {
      var rest := DecodeQuanta(s[4..]).value;
      EncodeBlockDecode(s[..4]);
      EncodeDecodeQuanta(s[4..]);
      EncodeAppend(DecodeBlock(s[..4]), rest);
      SameHead(s, Encode(rest));
      assert TailBitsZero(s) == TailBitsZero(s[4..]);
    } else if |s| == 4 {
      assert s[..4] == s && s[4..] == "" && DecodeQuanta(s[4..]) == Ok([]);
      assert DecodeBlock(s) + [] == DecodeBlock(s);
      EncodeBlockDecode(s);
    }
  }

  lemma SameHead(s: string, rest: string)
    requires |s| >= 4
    ensures s[..4] + rest == s <==> rest == s[4..]
  {
    assert s == s[..4] + s[4..];
    assert (s[..4] + rest)[4..] == rest;
  }

  lemma EncodeAppend(block: seq<byte>, rest: seq<byte>)
    requires |block| == 3
    ensures Encode(block + rest) == EncodeBlock(block) + Encode(rest)
  {
    var b := block + rest;
    assert b[..3] == block && b[3..] == rest;
    if rest == [] {
      assert b == block;
    }
  }

  /** Decoding and encoding again gives the text back exactly when it is canonical. */
  lemma EncodeDecode(s: string)
    requires Decode(s).Ok?
    ensures Encode(Decode(s).value) == s <==> Canonical(s)
  {
    var b := Decode(s).value;
    if HasNewline(s) {
      EncodedChars(b);
    } else {
      DropNothing(s);
      EncodeDecodeQuanta(s);
    }
  }

  /** The last but one character with its lowest bit set. */
  function SetUnusedBit(s: string): (t: string)
    requires |s| >= 4 && IsChar64(s[|s| - 2]) && Value64(s[|s| - 2]) % 4 == 0
    ensures |t| == |s| && t != s
  {
    var n := Value64(s[|s| - 2]) + 1;
    ValueOfChar(n);
    s[|s| - 2 := Char64(n)]
  }

  lemma CutTwoBytes(x: byte, y: byte)
    ensures var p, q, r := x / 4, x % 4 * 16 + y / 16, y % 16 * 4 + 1;
      p < 64 && q < 64 && r < 64 && p * 4 + q / 16 == x && q % 16 * 16 + r / 4 == y && (r - 1) % 4 == 0
  {
  }

  lemma SetUnusedBitBlock(b: seq<byte>)
    requires |b| == 2
    ensures var s := EncodeBlock(b); IsChar64(s[2]) && Value64(s[2]) % 4 == 0
    ensures var t := SetUnusedBit(EncodeBlock(b)); ValidBlock(t) && t[3] == '=' && DecodeBlock(t) == b
  {
    hide Char64, Value64, IsChar64;
    CutTwoBytes(b[0], b[1]);
    var p, q, r := b[0] / 4, b[0] % 4 * 16 + b[1] / 16, b[1] % 16 * 4;
    ValueOfChar(p);
    ValueOfChar(q);
    ValueOfChar(r);
    ValueOfChar(r + 1);
    assert SetUnusedBit(EncodeBlock(b)) == [Char64(p), Char64(q), Char64(r + 1), '='];
  }

  /** Of 3n + 2 bytes the reader ignores that bit. */
  lemma {:induction false} UnusedBitIgnored(b: seq<byte>)
    requires |b| % 3 == 2
    ensures var s := Encode(b); |s| >= 4 && IsChar64(s[|s| - 2]) && Value64(s[|s| - 2]) % 4 == 0
    ensures var t := SetUnusedBit(Encode(b));
      DecodeQuanta(t) == Ok(b) && forall i :: 0 <= i < |t| ==> IsChar64(t[i]) || t[i] == '='
  {
    hide EncodeBlock, DecodeBlock, ValidBlock, Char64, Value64;
    if |b| == 2 {
      SetUnusedBitBlock(b);
      var t := SetUnusedBit(Encode(b));
      assert t[..4] == t && t[4..] == "" && DecodeQuanta(t[4..]) == Ok([]);
      assert DecodeBlock(t) + [] == b;
      ValidBlockChars(t);
    } else {
      var block, rest := EncodeBlock(b[..3]), Encode(b[3..]);
      DecodeBlockEncode(b[..3]);
      ValidBlockChars(block);
      UnusedBitIgnored(b[3..]);
      var t := SetUnusedBit(Encode(b));
      assert t == block + SetUnusedBit(rest);
      assert t[..4] == block && t[4..] == SetUnusedBit(rest);
      assert b == b[..3] + b[3..];
    }
  }

  lemma ValidBlockChars(s: string)
    requires |s| == 4 && ValidBlock(s)
    ensures forall i :: 0 <= i < |s| ==> IsChar64(s[i]) || s[i] == '='
  {
  }

  lemma UnusedBitDecodes(b: seq<byte>)
    requires |b| % 3 == 2
    ensures var s := Encode(b); |s| >= 4 && IsChar64(s[|s| - 2]) && Value64(s[|s| - 2]) % 4 == 0
    ensures var t := SetUnusedBit(Encode(b));
      Decode(t) == Ok(b) && !HasNewline(t) && Free(t, ' ') && Free(t, '\n')
  {
    UnusedBitIgnored(b);
    DropNothing(SetUnusedBit(Encode(b)));
  }

  // ---- Exactly which texts read as some bytes ----

  /** The text with the bits of its last character cleared that carry no data. */
  function ClearTail(s: string): (t: string)
    ensures |t| == |s|
  {
    var n := |s|;
    if n >= 4 && s[n - 1] == '=' && s[n - 2] == '=' && IsChar64(s[n - 3]) then
      s[n - 3 := Char64(Value64(s[n - 3]) / 16 * 16)]
    else if n >= 4 && s[n - 1] == '=' && IsChar64(s[n - 2]) then s[n - 2 := Char64(Value64(s[n - 2]) / 4 * 4)]
    else s
  }

  lemma ClearBlock(s: string)
    requires |s| == 4
    ensures var t := ClearTail(s);
      && t[3] == s[3] && (ValidBlock(t) <==> ValidBlock(s))
      && (ValidBlock(s) ==> DecodeBlock(t) == DecodeBlock(s) && TailBitsZero(t))
  {
    hide Char64, Value64, IsChar64;
    NotPadding();
    if s[3] == '=' && s[2] == '=' && IsChar64(s[1]) {
      ValueOfChar(Value64(s[1]) / 16 * 16);
    } else if s[3] == '=' && IsChar64(s[2]) {
      ValueOfChar(Value64(s[2]) / 4 * 4);
    }
  }

  lemma NotPadding()
    ensures !IsChar64('=')
  {
  }

  lemma {:induction false} DecodeCleared(s: string)
    ensures DecodeQuanta(ClearTail(s)) == DecodeQuanta(s)
    ensures DecodeQuanta(s).Ok? ==> TailBitsZero(ClearTail(s))
  {
    hide ValidBlock, DecodeBlock, Char64, Value64, IsChar64;
    var t := ClearTail(s);
    if |s| == 4 {
      ClearBlock(s);
      assert s[..4] == s && t[..4] == t && s[4..] == t[4..] == "";
    } else if 4 < |s| < 8 {
      assert DecodeQuanta(s[4..]).Err? && DecodeQuanta(t[4..]).Err?;
    } else if |s| >= 8 {
      DecodeCleared(s[4..]);
      assert t[..4] == s[..4] && t[4..] == ClearTail(s[4..]);
      assert TailBitsZero(t[4..]) == TailBitsZero(t);
    }
  }

  /** A text without newline characters reads as b exactly when it is its encoding but for unused bits. */
  lemma DecodeMeans(s: string, b: seq<byte>)
    requires !HasNewline(s)
    ensures Decode(s) == Ok(b) <==> ClearTail(s) == Encode(b)
  {
    DropNothing(s);
    DecodeCleared(s);
    DecodeQuantaEncode(b);
    if DecodeQuanta(s).Ok? {
      EncodeDecodeQuanta(ClearTail(s));
    }
  }
}
