/** Fixed-width integers, std::stoi, std::to_string and the ordering of
    std::string.  A string is a sequence of chars, one char per code unit
    of the C++ std::string. */
module Text {
  import opened Wrappers

  type Int16 = x: int | -0x8000 <= x < 0x8000
  type Int32 = x: int | -0x8000_0000 <= x < 0x8000_0000
  type Int64 = x: int | -0x8000_0000_0000_0000 <= x < 0x8000_0000_0000_0000

  const TwoTo32: int := 0x1_0000_0000

  /** The conversion of a wider integer to `int`: the low 32 bits, read as
      two's complement.  The result is the one `int` congruent to `x`. */
  function ToInt32(x: int): (r: Int32)
    ensures (x - r) % TwoTo32 == 0
  {
    var low := x % TwoTo32;
    assert x == TwoTo32 * (x / TwoTo32) + low;
    if low < 0x8000_0000 then low else low - TwoTo32
  }

  /** A value that already fits in `int` is kept. */
  lemma ToInt32Keeps(x: int)
    requires -0x8000_0000 <= x < 0x8000_0000
    ensures ToInt32(x) == x
  {
  }

  // ---------------------------------------------------------------------
  // Decimal digits

  predicate IsDigit(c: char) {
    '0' <= c <= '9'
  }

  /** isspace in the "C" locale */
  predicate IsSpace(c: char) {
    c == ' ' || c == '\t' || c == '\n' || c == '\r' || c == '\U{B}' || c == '\U{C}'
  }

  predicate AllDigits(s: string) {
    forall i | 0 <= i < |s| :: IsDigit(s[i])
  }

  function DigitChar(d: nat): (c: char)
    requires d < 10
    ensures IsDigit(c) && c as int - '0' as int == d
  {
    ('0' as int + d) as char
  }

  /** The value of a run of decimal digits, most significant first. */
  function DigitsValue(ds: string): nat
    requires AllDigits(ds)
  {
    if |ds| == 0 then 0
    else 10 * DigitsValue(ds[..|ds| - 1]) + (ds[|ds| - 1] as int - '0' as int)
  }

  /** std::to_string of a non-negative value: its decimal digits, with no
      leading zero, reading back as the value. */
  function NatDigits(n: nat): (r: string)
    ensures 0 < |r| && AllDigits(r)
    ensures DigitsValue(r) == n
    ensures r[0] == '0' ==> n == 0
    decreases n
  {
    if n < 10 then [DigitChar(n)]
    else
      var init := NatDigits(n / 10);
      var r := init + [DigitChar(n % 10)];
      assert r[..|r| - 1] == init;
      r
  }

  /** std::to_string(int) */
  function ToDecimal(n: int): string {
    if n < 0 then "-" + NatDigits(-n) else NatDigits(n)
  }

  // ---------------------------------------------------------------------
  // std::stoi (base 10): skip leading white space, an optional sign, then
  // the longest run of digits; no digit is invalid_argument, a value
  // outside `int` is out_of_range.  Whatever follows the digits is ignored.

  function SkipSpaces(s: string): (r: string)
    ensures |r| <= |s| && r == s[|s| - |r|..]
    ensures |r| == 0 || !IsSpace(r[0])
  {
    if 0 < |s| && IsSpace(s[0]) then SkipSpaces(s[1..]) else s
  }

  /** The length of the run of digits that starts `s`. */
  function DigitRun(s: string): (n: nat)
    ensures n <= |s| && AllDigits(s[..n])
    ensures n < |s| ==> !IsDigit(s[n])
  {
    if 0 < |s| && IsDigit(s[0]) then
      var n := 1 + DigitRun(s[1..]);
      assert forall i | 1 <= i < n :: s[i] == s[1..][..n - 1][i - 1];
      n
    else 0
  }

  function Stoi(s: string): Result<Int32> {
    StoiSigned(SkipSpaces(s))
  }

  /** std::stoi after the white space: an optional sign, then the digits. */
  function StoiSigned(t: string): Result<Int32> {
    if 0 < |t| && t[0] == '-' then StoiDigits(t[1..], true)
    else if 0 < |t| && t[0] == '+' then StoiDigits(t[1..], false)
    else StoiDigits(t, false)
  }

  /** std::stoi after the sign: the digit run, range-checked against `int`. */
  function StoiDigits(u: string, negative: bool): Result<Int32> {
    var n := DigitRun(u);
    if n == 0 then Err(InvalidArgument)
    else
      var magnitude: int := DigitsValue(u[..n]);
      var value := if negative then -magnitude else magnitude;
      if -0x8000_0000 <= value < 0x8000_0000 then Ok(value) else Err(OutOfRange)
  }

  /** A run of digits followed by a non-digit is read up to the non-digit. */
  lemma {:induction false} DigitRunOfDigits(ds: string, rest: string)
    requires AllDigits(ds)
    requires |rest| == 0 || !IsDigit(rest[0])
    ensures DigitRun(ds + rest) == |ds|
    decreases |ds|
  {
    if |ds| > 0 {
      assert (ds + rest)[1..] == ds[1..] + rest;
      DigitRunOfDigits(ds[1..], rest);
    } else {
      assert ds + rest == rest;
    }
  }

  /** A text whose digit run is `ds` reads as the value of `ds`, range-checked. */
  lemma StoiDigitsOfRun(u: string, ds: string, negative: bool)
    requires 0 < |ds| && AllDigits(ds)
    requires DigitRun(u) == |ds| && u[..|ds|] == ds
    ensures var v: int := if negative then -(DigitsValue(ds) as int) else DigitsValue(ds);
            StoiDigits(u, negative) == if -0x8000_0000 <= v < 0x8000_0000 then Ok(v) else Err(OutOfRange)
  {
  }

  /** The digit run of `ds + rest` is `ds` when `rest` starts with no digit. */
  lemma RunOfDigitsThenRest(ds: string, rest: string)
    requires AllDigits(ds)
    requires |rest| == 0 || !IsDigit(rest[0])
    ensures DigitRun(ds + rest) == |ds| && (ds + rest)[..|ds|] == ds
  {
    DigitRunOfDigits(ds, rest);
  }

  /** The digits of a non-negative value, then a non-digit, read back as the
      value when the sign is `negative`. */
  lemma {:induction false} StoiReadsDigits(m: nat, rest: string, negative: bool)
    requires |rest| == 0 || !IsDigit(rest[0])
    requires m < 0x8000_0000 || (negative && m == 0x8000_0000)
    ensures var r := StoiDigits(NatDigits(m) + rest, negative);
            r.Ok? && r.value == if negative then -(m as int) else m
  {
    var ds := NatDigits(m);
    RunOfDigitsThenRest(ds, rest);
    StoiDigitsOfRun(ds + rest, ds, negative);
  }

  /** A text that starts with a digit is read with no sign. */
  lemma StoiOfDigitFirst(u: string)
    requires 0 < |u| && IsDigit(u[0])
    ensures Stoi(u) == StoiDigits(u, false)
  {
  }

  /** A text that starts with '-' is read negated. */
  lemma StoiOfMinus(u: string)
    ensures Stoi(['-'] + u) == StoiDigits(u, true)
  {
    assert (['-'] + u)[1..] == u;
  }

  lemma {:induction false} StoiReadsNegative(m: nat, rest: string)
    requires 0 < m <= 0x8000_0000 && (|rest| == 0 || !IsDigit(rest[0]))
    ensures Stoi("-" + NatDigits(m) + rest) == Ok(-(m as int))
  {
    var u := NatDigits(m) + rest;
    var s := "-" + NatDigits(m) + rest;
    assert s == ['-'] + u;
    StoiOfMinus(u);
    assert Stoi(s) == StoiDigits(u, true);
    StoiReadsDigits(m, rest, true);
  }

  lemma {:induction false} StoiReadsNonNegative(n: Int32, rest: string)
    requires 0 <= n && (|rest| == 0 || !IsDigit(rest[0]))
    ensures Stoi(ToDecimal(n) + rest) == Ok(n)
  {
    var u := NatDigits(n) + rest;
    assert ToDecimal(n) + rest == u;
    StoiOfDigitFirst(u);
    StoiReadsDigits(n, rest, false);
    var r := StoiDigits(u, false);
    assert r.Ok? && r.value == n;
    assert Stoi(ToDecimal(n) + rest) == r;
  }

  /** std::stoi reads back what std::to_string wrote, whatever non-digit
      text follows it: "200 OK" reads as 200. */
  lemma StoiReadsDecimal(n: Int32, rest: string)
    requires |rest| == 0 || !IsDigit(rest[0])
    ensures Stoi(ToDecimal(n) + rest) == Ok(n)
  {
    if n < 0 {
      var m := -(n as int);
      assert ToDecimal(n) == "-" + NatDigits(m);
      StoiReadsNegative(m, rest);
    } else {
      StoiReadsNonNegative(n, rest);
    }
  }

  /** No digit follows the leading white space and the optional sign. */
  predicate NoLeadingInteger(s: string) {
    var t := SkipSpaces(s);
    var u := if 0 < |t| && (t[0] == '+' || t[0] == '-') then t[1..] else t;
    |u| == 0 || !IsDigit(u[0])
  }

  /** std::stoi throws invalid_argument exactly when no digit follows the
      white space and the sign. */
  lemma StoiRejectsNonNumeric(s: string)
    ensures Stoi(s) == Err(InvalidArgument) <==> NoLeadingInteger(s)
  {
  }

  /** A digit run too wide for `int` throws out_of_range. */
  lemma {:induction false} StoiRejectsWide(m: nat, rest: string)
    requires 0x8000_0000 <= m
    requires |rest| == 0 || !IsDigit(rest[0])
    ensures Stoi(NatDigits(m) + rest) == Err(OutOfRange)
  {
    var ds := NatDigits(m);
    var u := ds + rest;
    RunOfDigitsThenRest(ds, rest);
    StoiDigitsOfRun(u, ds, false);
    StoiOfDigitFirst(u);
  }

  // ---------------------------------------------------------------------
  // Ordering of std::string (std::map iterates its keys in this order)

  /** std::string's operator<: code units compared in turn, a proper prefix first. */
  predicate LexLess(a: string, b: string) {
    0 < |b| && (|a| == 0 || a[0] < b[0] || (a[0] == b[0] && LexLess(a[1..], b[1..])))
  }

  lemma {:induction false} LexLessIrreflexive(a: string)
    ensures !LexLess(a, a)
    decreases |a|
  {
    if 0 < |a| {
      LexLessIrreflexive(a[1..]);
    }
  }

  lemma {:induction false} LexLessTransitive(a: string, b: string, c: string)
    requires LexLess(a, b) && LexLess(b, c)
    ensures LexLess(a, c)
    decreases |a|
  {
    if 0 < |a| && a[0] == b[0] && b[0] == c[0] {
      LexLessTransitive(a[1..], b[1..], c[1..]);
    }
  }

  lemma {:induction false} LexLessTotal(a: string, b: string)
    ensures a == b || LexLess(a, b) || LexLess(b, a)
    decreases |a|
  {
    if 0 < |a| && 0 < |b| && a[0] == b[0] {
      LexLessTotal(a[1..], b[1..]);
      if a[1..] == b[1..] {
        assert a == [a[0]] + a[1..] && b == [b[0]] + b[1..];
      }
    }
  }

  lemma LexLessAsymmetric(a: string, b: string)
    requires LexLess(a, b)
    ensures !LexLess(b, a)
  {
    if LexLess(b, a) {
      LexLessTransitive(a, b, a);
      LexLessIrreflexive(a);
    }
  }
}
