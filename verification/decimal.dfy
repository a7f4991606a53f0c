/**
 * Decimal text for integers: what `operator<<` writes for an `int` and
 * what `operator>>` reads back from an `istringstream` (leading white
 * space skipped, an optional sign, then the longest run of digits).
 */
module Decimal {
  import opened Wrappers
  import opened Ascii
  import opened CppInt

  function DigitChar(d: int): (c: char)
    requires 0 <= d < 10
    ensures IsDigit(c) && c as int - '0' as int == d
  {
    ('0' as int + d) as char
  }

  /** True when every character is a decimal digit. */
  predicate AllDigits(s: string) {
    forall i :: 0 <= i < |s| ==> IsDigit(s[i])
  }

  /** The decimal digits of `n`, most significant first, without leading zeros. */
  function Digits(n: nat): (s: string)
    ensures |s| > 0 && AllDigits(s)
    ensures |s| > 1 ==> s[0] != '0'
    decreases n
  {
    if n < 10 then [DigitChar(n)] else Digits(n / 10) + [DigitChar(n % 10)]
  }

  /** `oss << n`: a '-' before the digits of a negative number. */
  function IntToString(n: int): (s: string)
    ensures |s| > 0 && (s[0] == '-' || IsDigit(s[0]))
    ensures s[0] == '-' <==> n < 0
    ensures forall i :: 0 < i < |s| ==> IsDigit(s[i])
  {
    if n < 0 then "-" + Digits(-n) else Digits(n)
  }

  /** The number a string of digits denotes. */
  function ValueOf(s: string): nat
    requires AllDigits(s)
  {
    if |s| == 0 then 0 else ValueOf(s[..|s| - 1]) * 10 + (s[|s| - 1] as int - '0' as int)
  }

  /** Reading the digits of `n` gives back `n`. */
  lemma {:induction false} ValueOfDigits(n: nat)
    ensures ValueOf(Digits(n)) == n
    decreases n
  {
    var s := Digits(n);
    if n < 10 {
      assert s[..0] == [];
    } else {
      assert s[..|s| - 1] == Digits(n / 10);
      ValueOfDigits(n / 10);
    }
  }

  /** The length of the run of digits `s` starts with. */
  function DigitRun(s: string): (k: nat)
    ensures k <= |s| && AllDigits(s[..k])
    ensures k < |s| ==> !IsDigit(s[k])
  {
    if |s| == 0 || !IsDigit(s[0]) then 0
    else
      var k := 1 + DigitRun(s[1..]);
      assert s[..k] == [s[0]] + s[1..][..k - 1];
      k
  }

  /** A run of digits followed by the end or by a non-digit is read whole. */
  lemma {:induction false} DigitRunAppend(t: string, rest: string)
    requires AllDigits(t) && (|rest| == 0 || !IsDigit(rest[0]))
    ensures DigitRun(t + rest) == |t|
  {
    if |t| > 0 {
      assert (t + rest)[1..] == t[1..] + rest;
      DigitRunAppend(t[1..], rest);
    } else {
      assert t + rest == rest;
    }
  }

  /** The position of the first character at or after `pos` that is not white space. */
  function SkipSpaces(s: string, pos: nat): (k: nat)
    requires pos <= |s|
    ensures pos <= k <= |s|
    ensures forall i :: pos <= i < k ==> IsSpace(s[i])
    ensures k < |s| ==> !IsSpace(s[k])
    decreases |s| - pos
  {
    if pos < |s| && IsSpace(s[pos]) then SkipSpaces(s, pos + 1) else pos
  }

  /**
   * The parse an `int` extraction runs from `pos`: the value and the
   * position after it, or `None` when no digits follow the optional sign.
   */
  function ReadInt(s: string, pos: nat): (r: Option<(int, nat)>)
    requires pos <= |s|
    ensures r.Some? ==> pos < r.value.1 <= |s|
  {
    var k := SkipSpaces(s, pos);
    var signed := k < |s| && (s[k] == '-' || s[k] == '+');
    var j := if signed then k + 1 else k;
    var len := DigitRun(s[j..]);
    if len == 0 then None
    else
      var v := ValueOf(s[j..][..len]);
      var value: int := if signed && s[k] == '-' then -(v as int) else v;
      Some((value, j + len))
  }

  /**
   * The three ways `iss >> n` for an `int` can end: a value read, the end
   * of the text reached while skipping white space (the stream fails before
   * any parse, so `n` keeps its value), or a parse that finds no digits
   * (the stream fails and `n` becomes 0).
   */
  datatype Extraction = Read(value: int, next: nat) | AtEnd | Malformed

  /** `iss >> n` for an `int` starting at `pos`. */
  function ExtractInt(s: string, pos: nat): (r: Extraction)
    requires pos <= |s|
    ensures r.AtEnd? <==> SkipSpaces(s, pos) == |s|
    ensures r.Malformed? <==> SkipSpaces(s, pos) < |s| && ReadInt(s, pos).None?
    ensures r.Read? <==> ReadInt(s, pos).Some?
    ensures r.Read? ==> ReadInt(s, pos) == Some((r.value, r.next))
  {
    if SkipSpaces(s, pos) == |s| then AtEnd
    else
      match ReadInt(s, pos)
      case None => Malformed
      case Some((v, p)) => Read(v, p)
  }

  /** `iss >> c` for a `char`: the next character that is not white space. */
  function ReadChar(s: string, pos: nat): (r: Option<(char, nat)>)
    requires pos <= |s|
    ensures r.Some? ==> pos < r.value.1 <= |s| && !IsSpace(r.value.0)
  {
    var k := SkipSpaces(s, pos);
    if k == |s| then None else Some((s[k], k + 1))
  }

  /** The digits written for `n` sit after an optional '-' and before the end or a non-digit. */
  lemma DigitsAfterSign(s: string, pos: nat, n: int, j: nat)
    requires pos + |IntToString(n)| <= |s| && s[pos..pos + |IntToString(n)|] == IntToString(n)
    requires pos + |IntToString(n)| == |s| || !IsDigit(s[pos + |IntToString(n)|])
    requires j == if n < 0 then pos + 1 else pos
    ensures j <= |s| && DigitRun(s[j..]) == pos + |IntToString(n)| - j
    ensures ValueOf(s[j..][..DigitRun(s[j..])]) == Abs(n)
  {
    var text := IntToString(n);
    var end := pos + |text|;
    var digits := if n < 0 then Digits(-n) else Digits(n);
    if n < 0 {
      assert text[1..] == digits;
      assert s[j..end] == s[pos..end][1..];
    }
    assert s[j..end] == digits;
    assert s[j..] == s[j..end] + s[end..];
    DigitRunAppend(digits, s[end..]);
    assert s[j..][..|digits|] == digits;
    ValueOfDigits(Abs(n));
  }

  /** The text `operator<<` writes for `n`, found at `pos` and not followed by a digit, reads back as `n`. */
  lemma ReadIntString(s: string, pos: nat, n: int)
    requires pos + |IntToString(n)| <= |s| && s[pos..pos + |IntToString(n)|] == IntToString(n)
    requires pos + |IntToString(n)| == |s| || !IsDigit(s[pos + |IntToString(n)|])
    ensures ReadInt(s, pos) == Some((n, pos + |IntToString(n)|))
  {
    var text := IntToString(n);
    assert s[pos] == text[0];
    assert SkipSpaces(s, pos) == pos;
    var signed := s[pos] == '-' || s[pos] == '+';
    assert signed <==> n < 0;
    var j := if signed then pos + 1 else pos;
    DigitsAfterSign(s, pos, n, j);
    var len := DigitRun(s[j..]);
    var v := ValueOf(s[j..][..len]);
    assert len > 0 && j + len == pos + |text|;
    assert (if signed && s[pos] == '-' then -(v as int) else v) == n;
  }

  /** The text `operator<<` writes for `n`, filling the rest of `s` from `pos`, reads back as `n`. */
  lemma ReadIntSuffix(s: string, pos: nat, n: int)
    requires pos <= |s| && s[pos..] == IntToString(n)
    ensures ReadInt(s, pos) == Some((n, |s|))
  {
    assert s[pos..pos + |IntToString(n)|] == s[pos..];
    ReadIntString(s, pos, n);
  }

  /** The text `operator<<` writes for `n`, at the front of `s` and followed by a non-digit, reads back as `n`. */
  lemma ReadIntPrefix(s: string, n: int)
    requires |IntToString(n)| < |s| && s[..|IntToString(n)|] == IntToString(n)
    requires !IsDigit(s[|IntToString(n)|])
    ensures ReadInt(s, 0) == Some((n, |IntToString(n)|))
  {
    assert s[0..0 + |IntToString(n)|] == s[..|IntToString(n)|];
    ReadIntString(s, 0, n);
  }
}
