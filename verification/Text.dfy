/**
 The few text operations of the Go library that the parsers use. A text is a
 `string` in which every character stands for one byte.
 */
module Text {
  import opened Wrappers

  type byte = x: int | 0 <= x < 256

  /** The text contains no c. */
  predicate Free(s: string, c: char) {
    forall i :: 0 <= i < |s| ==> s[i] != c
  }

  predicate HasPrefix(s: string, prefix: string) {
    prefix <= s
  }

  /** The part of s before the first c, and the part after it. */
  function Cut(s: string, c: char): (r: Option<(string, string)>)
    ensures r.None? <==> Free(s, c)
    ensures r.Some? ==> s == r.value.0 + [c] + r.value.1 && Free(r.value.0, c)
  {
    if s == [] then None
    else if s[0] == c then
      assert s == [] + [c] + s[1..];
      Some(([], s[1..]))
    else
      match Cut(s[1..], c)
      case None => None
      case Some((before, after)) =>
        assert s == [s[0]] + before + [c] + after;
        Some(([s[0]] + before, after))
  }

  lemma {:induction false} CutAt(before: string, c: char, after: string)
    requires Free(before, c)
    ensures Cut(before + [c] + after, c) == Some((before, after))
  {
    var s := before + [c] + after;
    if before == [] {
      assert s[1..] == after;
    } else {
      assert s[1..] == before[1..] + [c] + after && s[0] == before[0];
      CutAt(before[1..], c, after);
      assert before == [before[0]] + before[1..];
    }
  }

  /** The fields of s between separators c; there is always at least one. */
  function Split(s: string, c: char): (r: seq<string>)
    ensures |r| >= 1
    decreases |s|
  {
    match Cut(s, c)
    case None => [s]
    case Some((before, after)) => [before] + Split(after, c)
  }

  function Join(fields: seq<string>, separator: string): string
    requires |fields| >= 1
  {
    if |fields| == 1 then fields[0]
    else fields[0] + separator + Join(fields[1..], separator)
  }

  lemma {:induction false} JoinSplit(s: string, c: char)
    ensures Join(Split(s, c), [c]) == s
    ensures forall i :: 0 <= i < |Split(s, c)| ==> Free(Split(s, c)[i], c)
    decreases |s|
  {
    match Cut(s, c)
    case None =>
    case Some((before, after)) => JoinSplit(after, c);
  }

  lemma {:induction false} SplitJoin(fields: seq<string>, c: char)
    requires |fields| >= 1
    requires forall i :: 0 <= i < |fields| ==> Free(fields[i], c)
    ensures Split(Join(fields, [c]), c) == fields
  {
    if |fields| > 1 {
      CutAt(fields[0], c, Join(fields[1..], [c]));
      SplitJoin(fields[1..], c);
    }
  }

  lemma {:induction false} JoinFree(fields: seq<string>, separator: string, c: char)
    requires |fields| >= 1 && Free(separator, c)
    ensures Free(Join(fields, separator), c) <==> forall i :: 0 <= i < |fields| ==> Free(fields[i], c)
  {
    var s := Join(fields, separator);
    if |fields| > 1 {
      var rest := Join(fields[1..], separator);
      JoinFree(fields[1..], separator, c);
      FreeConcat(fields[0] + separator, rest, c);
      FreeConcat(fields[0], separator, c);
      assert forall i :: 0 < i < |fields| ==> fields[i] == fields[1..][i - 1];
    }
  }

  lemma FreeConcat(a: string, b: string, c: char)
    ensures Free(a + b, c) <==> Free(a, c) && Free(b, c)
  {
    var s := a + b;
    assert forall i :: 0 <= i < |a| ==> s[i] == a[i];
    assert forall i :: 0 <= i < |b| ==> s[|a| + i] == b[i];
  }

  // ---- Decimal numbers ----

  const MAX_UINT64: nat := 0xFFFF_FFFF_FFFF_FFFF

  predicate IsDigit(c: char) {
    '0' <= c <= '9'
  }

  function Digit(n: nat): (c: char)
    requires n < 10
    ensures IsDigit(c)
  {
    (n + '0' as int) as char
  }

  function DigitValue(c: char): (n: nat)
    requires IsDigit(c)
    ensures n < 10
  {
    c as int - '0' as int
  }

  /** The verb %d on an unsigned number. */
  function Decimal(n: nat): (s: string)
    ensures |s| >= 1 && forall i :: 0 <= i < |s| ==> IsDigit(s[i])
  {
    if n < 10 then [Digit(n)] else Decimal(n / 10) + [Digit(n % 10)]
  }

  function DigitsValue(s: string): nat
    requires forall i :: 0 <= i < |s| ==> IsDigit(s[i])
  {
    if s == [] then 0
    else 10 * DigitsValue(s[..|s| - 1]) + DigitValue(s[|s| - 1])
  }

  /** strconv.ParseUint in base 10 with 64 bits. */
  function ParseUint(s: string): Result<nat> {
    if s == [] || exists i :: 0 <= i < |s| && !IsDigit(s[i]) then Err("invalid syntax")
    else if DigitsValue(s) > MAX_UINT64 then Err("value out of range")
    else Ok(DigitsValue(s))
  }

  lemma {:induction false} DecimalValue(n: nat)
    ensures DigitsValue(Decimal(n)) == n
  {
    if n >= 10 {
      var s := Decimal(n);
      assert s[..|s| - 1] == Decimal(n / 10);
      DecimalValue(n / 10);
    }
  }

  /** The digits are the usual ones, and no zero comes first. */
  lemma {:induction false} DecimalShape(n: nat)
    ensures n < 10 ==> Decimal(n) == ["0123456789"[n]]
    ensures n >= 10 ==> Decimal(n) == Decimal(n / 10) + ["0123456789"[n % 10]]
    ensures |Decimal(n)| > 1 ==> Decimal(n)[0] != '0'
  {
    var digits := "0123456789";
    assert Digit(n % 10) == digits[n % 10];
    if n >= 10 {
      DecimalShape(n / 10);
      assert n / 10 < 10 ==> Decimal(n / 10) == [Digit(n / 10)];
    }
  }

  /** n zeros. */
  function Zeros(n: nat): (s: string)
    ensures |s| == n
  {
    seq(n, i => '0')
  }

  lemma {:induction false} DigitsAfterZeros(n: nat, s: string)
    requires forall i :: 0 <= i < |s| ==> IsDigit(s[i])
    ensures forall i :: 0 <= i < n + |s| ==> IsDigit((Zeros(n) + s)[i])
    ensures DigitsValue(Zeros(n) + s) == DigitsValue(s)
    decreases n + |s|
  {
    var t := Zeros(n) + s;
    if s != [] {
      assert t[..|t| - 1] == Zeros(n) + s[..|s| - 1];
      DigitsAfterZeros(n, s[..|s| - 1]);
    } else if n > 0 {
      assert t[..|t| - 1] == Zeros(n - 1) + s;
      DigitsAfterZeros(n - 1, s);
    }
  }

  lemma {:induction false} DigitsShape(s: string) returns (zeros: nat)
    requires s != [] && forall i :: 0 <= i < |s| ==> IsDigit(s[i])
    ensures s == Zeros(zeros) + Decimal(DigitsValue(s))
  {
    var n, before := |s| - 1, s[..|s| - 1];
    if n == 0 {
      zeros := 0;
      assert s == [s[0]] && before == [];
    } else {
      zeros := DigitsShape(before);
      assert s == before + [s[n]];
      if DigitsValue(before) == 0 {
        zeros := zeros + 1;
        assert before == Zeros(zeros - 1) + "0" == Zeros(zeros);
      }
    }
  }

  /** The texts that read as n are its decimal form with any number of zeros before it. */
  lemma ParseUintMeans(s: string, n: nat)
    ensures ParseUint(s) == Ok(n) <==>
            n <= 0xFFFF_FFFF_FFFF_FFFF && exists zeros :: s == Zeros(zeros) + Decimal(n)
  {
    if ParseUint(s) == Ok(n) {
      var zeros := DigitsShape(s);
    }
    if zeros :| n <= MAX_UINT64 && s == Zeros(zeros) + Decimal(n) {
      DecimalValue(n);
      DigitsAfterZeros(zeros, Decimal(n));
    }
  }

  lemma ParseUintDecimal(n: nat)
    requires n <= MAX_UINT64
    ensures ParseUint(Decimal(n)) == Ok(n)
  {
    DecimalValue(n);
  }
}
