/** The two `java.lang.String`/`java.lang.Integer` services the settings
    dispatch relies on: case-insensitive comparison (`equalsIgnoreCase`) and
    decimal integer parsing (`Integer.parseInt`), together with the
    formatting direction (`Integer.toString`) that parsing inverts. */
module JavaLang {
  import opened Wrappers

  /** The range of a Java `int`. */
  const IntMin: int := -0x8000_0000
  const IntMax: int := 0x7fff_ffff

  predicate InIntRange(n: int) {
    IntMin <= n <= IntMax
  }

  // ---------------------------------------------------------------------------
  // Case-insensitive comparison
  // ---------------------------------------------------------------------------

  /** Upper-case mapping of a character, restricted to the ASCII letters. */
  function ToUpper(c: char): char {
    if 'a' <= c <= 'z' then (c as int - 'a' as int + 'A' as int) as char else c
  }

  /** Lower-case mapping of a character, restricted to the ASCII letters. */
  function ToLower(c: char): char {
    if 'A' <= c <= 'Z' then (c as int - 'A' as int + 'a' as int) as char else c
  }

  /** The per-character test of `String.regionMatches(true, ...)`: the two
      characters are equal, or their upper-case forms are, or the lower-case
      forms of their upper-case forms are. */
  predicate CharsMatchIgnoreCase(a: char, b: char) {
    a == b || ToUpper(a) == ToUpper(b) || ToLower(ToUpper(a)) == ToLower(ToUpper(b))
  }

  /** Two characters match ignoring case exactly when they fold to the same
      lower-case character. */
  lemma CharsMatchIffSameLower(a: char, b: char)
    ensures CharsMatchIgnoreCase(a, b) <==> ToLower(a) == ToLower(b)
  {
  }

  /** The characters of `a` and `b` from index `i` on match pairwise, ignoring case. */
  function RegionMatchesIgnoreCase(a: string, b: string, i: nat): (r: bool)
    requires |a| == |b| && i <= |a|
    ensures r <==> forall j :: i <= j < |a| ==> ToLower(a[j]) == ToLower(b[j])
    decreases |a| - i
  {
    if i == |a| then true
    else
      CharsMatchIffSameLower(a[i], b[i]);
      CharsMatchIgnoreCase(a[i], b[i]) && RegionMatchesIgnoreCase(a, b, i + 1)
  }

  /** `a.equalsIgnoreCase(b)` for non-null strings: equal length and a
      case-insensitive match at every position. */
  function EqualsIgnoreCase(a: string, b: string): (r: bool)
    ensures r <==> |a| == |b| && forall j :: 0 <= j < |a| ==> ToLower(a[j]) == ToLower(b[j])
  {
    a == b || (|a| == |b| && RegionMatchesIgnoreCase(a, b, 0))
  }

  // ---------------------------------------------------------------------------
  // Decimal integers
  // ---------------------------------------------------------------------------

  predicate IsDigit(c: char) {
    '0' <= c <= '9'
  }

  predicate AllDigits(s: string) {
    forall i :: 0 <= i < |s| ==> IsDigit(s[i])
  }

  function DigitValue(c: char): (d: nat)
    requires IsDigit(c)
    ensures d < 10
  {
    c as int - '0' as int
  }

  function DigitChar(d: nat): (c: char)
    requires d < 10
    ensures IsDigit(c) && DigitValue(c) == d
  {
    (d + '0' as int) as char
  }

  /** The value of a string of decimal digits, most significant first. */
  function DigitsValue(s: string): nat
    requires AllDigits(s)
  {
    if |s| == 0 then 0 else DigitsValue(s[..|s| - 1]) * 10 + DigitValue(s[|s| - 1])
  }

  /** `Integer.parseInt(s)` (radix 10): an optional leading `-` or `+`
      followed by at least one decimal digit, whose value fits in an `int`;
      every other string raises `NumberFormatException`, modelled as `None`. */
  function ParseInt(s: string): (r: Option<int>)
    ensures r.Some? ==> InIntRange(r.value)
    ensures r.Some? ==> |s| > 0 && (IsDigit(s[0]) || ((s[0] == '-' || s[0] == '+') && |s| > 1))
    ensures r.Some? ==> forall i :: 0 < i < |s| ==> IsDigit(s[i])
    ensures r.Some? && r.value < 0 ==> s[0] == '-'
  {
    if |s| == 0 then None
    else
      var signed := s[0] == '-' || s[0] == '+';
      var digits := if signed then s[1..] else s;
      if |digits| == 0 || !AllDigits(digits) then None
      else
        var magnitude: int := DigitsValue(digits);
        var n := if s[0] == '-' then -magnitude else magnitude;
        if InIntRange(n) then Some(n) else None
  }

  /** The converse direction of `ParseInt`'s contract: a string made of an
      optional sign and at least one decimal digit is accepted exactly when
      its value fits in an `int`, and then that value is returned. Together
      the two directions give `Integer.parseInt`'s grammar in full. */
  lemma ParseIntSignedDigits(sign: string, digits: string)
    requires sign == "" || sign == "+" || sign == "-"
    requires |digits| > 0 && AllDigits(digits)
    ensures var v := if sign == "-" then -(DigitsValue(digits) as int) else DigitsValue(digits);
            ParseInt(sign + digits) == if InIntRange(v) then Some(v) else None
  {
    if sign == "" {
      assert sign + digits == digits;
      ParseIntUnsigned(digits);
    } else {
      assert sign == [sign[0]];
      ParseIntSigned(sign[0], digits);
    }
  }

  /** A string of digits alone parses to its value when that fits. */
  lemma ParseIntUnsigned(digits: string)
    requires |digits| > 0 && AllDigits(digits)
    ensures ParseInt(digits) == if InIntRange(DigitsValue(digits)) then Some(DigitsValue(digits) as int) else None
  {
    assert IsDigit(digits[0]);
  }

  /** A sign followed by digits parses to the signed value when that fits. */
  lemma ParseIntSigned(sign: char, digits: string)
    requires sign == '+' || sign == '-'
    requires |digits| > 0 && AllDigits(digits)
    ensures var v := if sign == '-' then -(DigitsValue(digits) as int) else DigitsValue(digits);
            ParseInt([sign] + digits) == if InIntRange(v) then Some(v) else None
  {
    var s := [sign] + digits;
    assert s[0] == sign;
    assert s[1..] == digits;
  }

  /** The decimal digits of a natural number, without leading zeros. */
  function NatToString(n: nat): (s: string)
    ensures |s| > 0 && AllDigits(s)
    decreases n
  {
    if n < 10 then [DigitChar(n)] else NatToString(n / 10) + [DigitChar(n % 10)]
  }

  /** `Integer.toString(n)`: a `-` for negative numbers, then the digits of the magnitude. */
  function IntToString(n: int): string {
    if n < 0 then "-" + NatToString(-n) else NatToString(n)
  }

  /** The digits `NatToString` writes are read back as the same number. */
  lemma {:induction false} NatToStringValue(n: nat)
    ensures DigitsValue(NatToString(n)) == n
    decreases n
  {
    var s := NatToString(n);
    if n >= 10 {
      NatToStringValue(n / 10);
      assert s[..|s| - 1] == NatToString(n / 10);
    }
  }

  /** Parsing inverts formatting on the whole `int` range: every Java `int`
      written by `Integer.toString` is read back by `Integer.parseInt`. */
  lemma ParseIntFormatRoundTrip(n: int)
    requires InIntRange(n)
    ensures ParseInt(IntToString(n)) == Some(n)
  {
    var s := IntToString(n);
    if n < 0 {
      NatToStringValue(-n);
      assert s[1..] == NatToString(-n);
    } else {
      NatToStringValue(n);
    }
  }

  /** Every integer outside the `int` range, written in decimal, is rejected. */
  lemma ParseIntRejectsOutOfRange(n: int)
    requires !InIntRange(n)
    ensures ParseInt(IntToString(n)) == None
  {
    var s := IntToString(n);
    if n < 0 {
      NatToStringValue(-n);
      assert s[1..] == NatToString(-n);
    } else {
      NatToStringValue(n);
    }
  }

  /** Examples: a sign is optional, leading zeros are allowed, and a lone
      sign, the empty string or surrounding blanks are rejected. */
  lemma ParseIntExamples()
    ensures ParseInt("-5") == Some(-5)
    ensures ParseInt("+7") == Some(7)
    ensures ParseInt("007") == Some(7)
    ensures ParseInt("") == None
    ensures ParseInt("+") == None
    ensures ParseInt(" 1") == None
    ensures ParseInt("1 ") == None
  {
    assert "-5"[1..] == "5" && DigitsValue("5") == 5;
    assert "+7"[1..] == "7";
    assert "007"[..2] == "00" && "00"[..1] == "0";
    assert !IsDigit(" 1"[0]);
    assert !IsDigit("1 "[1]);
  }

  /** The JDK's own algorithm for `Integer.parseInt(s, 10)`: it accumulates
      the value negatively, so that `Integer.MIN_VALUE` is reachable, and
      rejects an overflow before each multiplication and each subtraction.
      It computes exactly `ParseInt`. */
  method ParseIntAccumulating(s: string) returns (r: Option<int>)
    ensures r == ParseInt(s)
  {
    if |s| == 0 {
      return None;
    }
    var negative := false;
    var limit := -IntMax;
    var i := 0;
    if s[0] < '0' {
      if s[0] == '-' {
        negative := true;
        limit := IntMin;
      } else if s[0] != '+' {
        NonDigitRejected(s, 0, 0);
        return None;
      }
      if |s| == 1 {
        return None;
      }
      i := 1;
    }
    var start := i;
    // Java's `limit / radix` truncates toward zero; `limit` is negative here.
    var multmin := -((-limit) / 10);
    var result := 0;
    while i < |s|
      invariant start <= i <= |s|
      invariant AllDigits(s[start..i])
      invariant result + DigitsValue(s[start..i]) == 0
      invariant limit <= result <= 0
      decreases |s| - i
    {
      assert s[start..i + 1][..i - start] == s[start..i];
      if !IsDigit(s[i]) {
        NonDigitRejected(s, start, i);
        return None;
      }
      var digit := DigitValue(s[i]);
      if result < multmin {
        TooLongRejected(s, start, i, limit);
        return None;
      }
      // Both sides of the next check, and the product, stay within 32 bits.
      assert InIntRange(result * 10) && InIntRange(limit + digit);
      result := result * 10;
      if result < limit + digit {
        TooLongRejected(s, start, i, limit);
        return None;
      }
      result := result - digit;
      i := i + 1;
    }
    assert s[start..i] == (if s[0] == '-' || s[0] == '+' then s[1..] else s);
    r := if negative then Some(result) else Some(-result);
  }

  /** A non-digit after the sign makes `ParseInt` fail. */
  lemma NonDigitRejected(s: string, start: nat, i: nat)
    requires |s| > 0 && start == (if s[0] == '-' || s[0] == '+' then 1 else 0)
    requires start <= i < |s| && !IsDigit(s[i])
    ensures ParseInt(s) == None
  {
  }

  /** A prefix of digits can only grow in value: more digits are at least ten times as large. */
  lemma {:induction false} DigitsValueMonotone(s: string, k: nat)
    requires AllDigits(s) && k <= |s|
    ensures DigitsValue(s[..k]) <= DigitsValue(s)
    decreases |s| - k
  {
    if k < |s| {
      DigitsValueMonotone(s, k + 1);
      assert s[..k + 1][..k] == s[..k];
      assert s[..k + 1][..|s[..k + 1]| - 1] == s[..k];
    } else {
      assert s[..k] == s;
    }
  }

  /** When the digits seen so far, extended by one more, already leave the
      range of the sign's `limit`, the whole string is out of range. */
  lemma TooLongRejected(s: string, start: nat, i: nat, limit: int)
    requires |s| > 0 && start == (if s[0] == '-' || s[0] == '+' then 1 else 0)
    requires limit == (if s[0] == '-' then IntMin else -IntMax)
    requires start <= i < |s| && AllDigits(s[start..i + 1])
    requires DigitsValue(s[start..i + 1]) > -limit
    ensures ParseInt(s) == None
  {
    var digits := s[start..];
    if AllDigits(digits) {
      assert digits[..i + 1 - start] == s[start..i + 1];
      DigitsValueMonotone(digits, i + 1 - start);
    }
  }
}
