/** The C library text primitives the generator relies on: NUL-terminated strings seen as
    sequences, strtol in base 10 (ISO/IEC 9899:2011 section 7.22.1.4) with the conversion of
    its `long` result to `int`, and the `%d` conversion of printf. `long` is taken to be 64
    bits and `int` 32 bits, as on the LP64 platforms the program targets. */
module CString {
  import opened Wrappers

  const LONG_MAX: int := 0x7FFF_FFFF_FFFF_FFFF
  const LONG_MIN: int := -0x8000_0000_0000_0000
  const INT_MAX: int := 0x7FFF_FFFF
  const INT_MIN: int := -0x8000_0000

  /** A C string holds no NUL before its terminator; the terminator itself is not in the sequence. */
  predicate NoNul(s: string) {
    forall i :: 0 <= i < |s| ==> s[i] != '\0'
  }

  /** `s[i]` in C: position |s| reads the terminating NUL. */
  function CharAt(s: string, i: nat): char {
    if i < |s| then s[i] else '\0'
  }

  /** isspace in the "C" locale. */
  predicate IsSpace(c: char) {
    c == ' ' || c == '\t' || c == '\n' || c == '\U{000B}' || c == '\U{000C}' || c == '\r'
  }

  predicate IsDigit(c: char) {
    '0' <= c <= '9'
  }

  predicate AllDigits(s: string) {
    forall i :: 0 <= i < |s| ==> IsDigit(s[i])
  }

  /** The value of a decimal digit; only ever applied to digits. */
  function DigitValue(c: char): (d: nat)
    ensures d < 10
  {
    if IsDigit(c) then (c as int) - ('0' as int) else 0
  }

  function DigitChar(d: nat): (c: char)
    requires d < 10
    ensures IsDigit(c) && DigitValue(c) == d
  {
    (('0' as int) + d) as char
  }

  /** Index of the first character at or after i that is not white space. */
  function SpaceEnd(s: string, i: nat): (k: nat)
    requires i <= |s|
    ensures i <= k <= |s|
    ensures k < |s| ==> !IsSpace(s[k])
    decreases |s| - i
  {
    if i < |s| && IsSpace(s[i]) then SpaceEnd(s, i + 1) else i
  }

  /** Index of the first character at or after i that is not a decimal digit. */
  function DigitEnd(s: string, i: nat): (k: nat)
    requires i <= |s|
    ensures i <= k <= |s|
    ensures k < |s| ==> !IsDigit(s[k])
    ensures k > i ==> IsDigit(s[k - 1])
    decreases |s| - i
  {
    if i < |s| && IsDigit(s[i]) then DigitEnd(s, i + 1) else i
  }

  /** The number the digits s[i..j] denote, most significant digit first. */
  function DigitsValue(s: string, i: nat, j: nat): nat
    requires i <= j <= |s|
    decreases j - i
  {
    if j == i then 0 else DigitsValue(s, i, j - 1) * 10 + DigitValue(s[j - 1])
  }

  /** What strtol scans, before any range check. */
  datatype Scanned = Scanned(value: int, end: nat)

  /** The subject sequence of strtol in base 10 starting at index i: white space, an optional
      sign and a nonempty run of digits. Gives the (unbounded) value and the index just past
      the last digit, or None when no digit follows the white space and sign. */
  function ScanInt(s: string, i: nat): (r: Option<Scanned>)
    requires i <= |s|
    ensures r.Some? ==> i < r.value.end <= |s| && IsDigit(s[r.value.end - 1])
    ensures r.Some? ==> r.value.end == |s| || !IsDigit(s[r.value.end])
  {
    var k := SpaceEnd(s, i);
    var j := SignEnd(s, k);
    var e := DigitEnd(s, j);
    if e == j then None else Some(Scanned(Signed(Negative(s, k), DigitsValue(s, j, e)), e))
  }

  /** Index just past an optional sign at position i. */
  function SignEnd(s: string, i: nat): (j: nat)
    requires i <= |s|
    ensures i <= j <= |s| && j <= i + 1
  {
    if i < |s| && (s[i] == '+' || s[i] == '-') then i + 1 else i
  }

  function Signed(negative: bool, m: nat): int {
    if negative then 0 - m else m + 0
  }

  predicate Negative(s: string, i: nat) {
    i < |s| && s[i] == '-'
  }

  /** What strtol reports: its `long` value, where `*endptr` points, and whether it set errno to ERANGE. */
  datatype LongResult = LongResult(value: int, end: nat, overflow: bool)

  /** strtol(s + i, &end, 10), with `end` given as an index into s: with no digits the value is
      0 and `end` is the start i; a value outside the range of `long` is replaced by LONG_MAX
      or LONG_MIN and flags ERANGE. */
  function Strtol(s: string, i: nat): (r: LongResult)
    requires i <= |s|
    ensures LONG_MIN <= r.value <= LONG_MAX && i <= r.end <= |s|
    ensures r.overflow ==> r.value == LONG_MAX || r.value == LONG_MIN
    ensures ScanInt(s, i).None? ==> r == LongResult(0, i, false)
    ensures ScanInt(s, i).Some? ==>
              && r.end == ScanInt(s, i).value.end
              && (r.overflow <==> !(LONG_MIN <= ScanInt(s, i).value.value <= LONG_MAX))
              && (!r.overflow ==> r.value == ScanInt(s, i).value.value)
  {
    match ScanInt(s, i)
    case None => LongResult(0, i, false)
    case Some(sc) =>
      if sc.value > LONG_MAX then LongResult(LONG_MAX, sc.end, true)
      else if sc.value < LONG_MIN then LongResult(LONG_MIN, sc.end, true)
      else LongResult(sc.value, sc.end, false)
  }

  /** The conversion `(int)` of a `long`: reduction modulo 2^32 into the range of `int`. */
  function ToInt32(v: int): (r: int)
    ensures INT_MIN <= r <= INT_MAX
    ensures (r - v) % 0x1_0000_0000 == 0
    ensures INT_MIN <= v <= INT_MAX ==> r == v
  {
    var m := v % 0x1_0000_0000;
    if m > INT_MAX then m - 0x1_0000_0000 else m
  }

  /** Decimal digits of a natural number, most significant first, without leading zeros. */
  function NatToDecimal(n: nat): (s: string)
    ensures |s| > 0 && AllDigits(s)
    ensures DigitsValue(s, 0, |s|) == n
    ensures |s| > 1 ==> s[0] != '0'
  {
    if n < 10 then [DigitChar(n)]
    else
      var t := NatToDecimal(n / 10);
      DigitsValueAgree(t + [DigitChar(n % 10)], 0, t, 0, |t|);
      t + [DigitChar(n % 10)]
  }

  /** printf's `%d`: a minus sign for negative numbers, then the decimal digits. */
  function IntToDecimal(n: int): (s: string)
    ensures |s| > 0 && (s[0] == '-' || IsDigit(s[0]))
    ensures NoNul(s)
  {
    if n < 0 then "-" + NatToDecimal(-n) else NatToDecimal(n)
  }

  /** A character at which strtol's scan of white space, sign and digits necessarily stops. */
  predicate StopsScan(c: char) {
    !IsSpace(c) && !IsDigit(c) && c != '+' && c != '-'
  }

  /** Digits that agree position by position have the same value. */
  lemma {:induction false} DigitsValueAgree(s: string, i: nat, t: string, k: nat, len: nat)
    requires i + len <= |s| && k + len <= |t|
    requires s[i..i + len] == t[k..k + len]
    ensures DigitsValue(s, i, i + len) == DigitsValue(t, k, k + len)
  {
    if len > 0 {
      assert s[i..i + len - 1] == s[i..i + len][..len - 1];
      assert t[k..k + len - 1] == t[k..k + len][..len - 1];
      DigitsValueAgree(s, i, t, k, len - 1);
      assert s[i + len - 1] == s[i..i + len][len - 1];
      assert t[k + len - 1] == t[k..k + len][len - 1];
    }
  }

  /** The white-space run from d + i reads only s[d..]. */
  lemma {:induction false} SpaceEndSuffix(s: string, d: nat, i: nat)
    requires d + i <= |s|
    ensures SpaceEnd(s, d + i) == d + SpaceEnd(s[d..], i)
    decreases |s| - d - i
  {
    if d + i < |s| {
      assert s[d..][i] == s[d + i];
      if IsSpace(s[d + i]) { SpaceEndSuffix(s, d, i + 1); }
    }
  }

  /** Likewise for the digit run. */
  lemma {:induction false} DigitEndSuffix(s: string, d: nat, i: nat)
    requires d + i <= |s|
    ensures DigitEnd(s, d + i) == d + DigitEnd(s[d..], i)
    decreases |s| - d - i
  {
    if d + i < |s| {
      assert s[d..][i] == s[d + i];
      if IsDigit(s[d + i]) { DigitEndSuffix(s, d, i + 1); }
    }
  }

  /** And for the value of a digit run. */
  lemma {:induction false} DigitsValueSuffix(s: string, d: nat, j: nat, e: nat)
    requires j <= e && d + e <= |s|
    ensures DigitsValue(s, d + j, d + e) == DigitsValue(s[d..], j, e)
    decreases e - j
  {
    if j < e {
      assert s[d..][e - 1] == s[d + e - 1];
      DigitsValueSuffix(s, d, j, e - 1);
    }
  }

  /** The scan at index d of s is the scan at the start of s[d..], its end shifted by d. */
  lemma ScanIntSuffix(s: string, d: nat)
    requires d <= |s|
    ensures ScanInt(s, d).Some? == ScanInt(s[d..], 0).Some?
    ensures ScanInt(s, d).Some? ==>
              && ScanInt(s, d).value.value == ScanInt(s[d..], 0).value.value
              && ScanInt(s, d).value.end == d + ScanInt(s[d..], 0).value.end
  {
    var t := s[d..];
    SpaceEndSuffix(s, d, 0);
    var i := SpaceEnd(t, 0);
    assert d + i < |s| ==> s[d + i] == t[i];
    var j := SignEnd(t, i);
    DigitEndSuffix(s, d, j);
    var e := DigitEnd(t, j);
    DigitsValueSuffix(s, d, j, e);
  }

  /** strtol at index d of s is strtol at the start of s[d..], its end shifted by d. */
  lemma StrtolSuffix(s: string, d: nat)
    requires d <= |s|
    ensures Strtol(s, d).value == Strtol(s[d..], 0).value
    ensures Strtol(s, d).overflow == Strtol(s[d..], 0).overflow
    ensures Strtol(s, d).end == d + Strtol(s[d..], 0).end
  {
    ScanIntSuffix(s, d);
  }

  /** The white-space run of p + q from i: inside p, or, when it reaches the end of p, continued into q. */
  lemma {:induction false} SpaceEndConcat(p: string, q: string, i: nat)
    requires i <= |p|
    requires q == [] || !IsSpace(q[0])
    ensures SpaceEnd(p + q, i) == SpaceEnd(p, i)
    decreases |p| - i
  {
    if i < |p| {
      assert (p + q)[i] == p[i];
      if IsSpace(p[i]) { SpaceEndConcat(p, q, i + 1); }
    } else if q != [] {
      assert (p + q)[i] == q[0];
    }
  }

  /** Likewise for the digit run. */
  lemma {:induction false} DigitEndConcat(p: string, q: string, i: nat)
    requires i <= |p|
    requires q == [] || !IsDigit(q[0])
    ensures DigitEnd(p + q, i) == DigitEnd(p, i)
    decreases |p| - i
  {
    if i < |p| {
      assert (p + q)[i] == p[i];
      if IsDigit(p[i]) { DigitEndConcat(p, q, i + 1); }
    } else if q != [] {
      assert (p + q)[i] == q[0];
    }
  }

  /** A run of digits is read to its end. */
  lemma {:induction false} DigitEndAll(s: string, i: nat, e: nat)
    requires i <= e <= |s|
    requires forall k :: i <= k < e ==> IsDigit(s[k])
    requires e == |s| || !IsDigit(s[e])
    ensures DigitEnd(s, i) == e
    decreases e - i
  {
    if i < e { DigitEndAll(s, i + 1, e); }
  }

  /** Appending text that begins with a stop character (or nothing) does not change what
      strtol scans: its white space, sign and digit runs all end before the appended part. */
  lemma {:induction false} ScanIntStops(p: string, q: string)
    requires q == [] || StopsScan(q[0])
    ensures ScanInt(p + q, 0) == ScanInt(p, 0)
    ensures Strtol(p + q, 0) == Strtol(p, 0)
  {
    var pq := p + q;
    SpaceEndConcat(p, q, 0);
    var i := SpaceEnd(p, 0);
    assert i < |p| ==> pq[i] == p[i];
    assert i == |p| && q != [] ==> pq[i] == q[0];
    var j := SignEnd(p, i);
    assert SignEnd(pq, i) == j;
    assert Negative(pq, i) == Negative(p, i);
    DigitEndConcat(p, q, j);
    var e := DigitEnd(p, j);
    if e > j {
      DigitsValueAgree(pq, j, p, j, e - j);
    }
  }

  /** printf's `%d` followed by text that does not continue the number is read back by
      strtol's scan: the value, and the end just past the printed digits. */
  lemma {:induction false} ScanIntOfDecimal(n: int, rest: string)
    requires rest == [] || !IsDigit(rest[0])
    ensures ScanInt(IntToDecimal(n) + rest, 0) == Some(Scanned(n, |IntToDecimal(n)|))
  {
    var m: nat := if n < 0 then -n else n;
    var ds := NatToDecimal(m);
    var j := if n < 0 then 1 else 0;
    var s := IntToDecimal(n) + rest;
    assert |IntToDecimal(n)| == j + |ds|;
    assert s[j..j + |ds|] == ds;
    assert SpaceEnd(s, 0) == 0 by {
      assert s[0] == '-' || IsDigit(s[0]);
    }
    assert SignEnd(s, 0) == j;
    assert Negative(s, 0) == (n < 0);
    DigitEndAll(s, j, j + |ds|);
    DigitsValueAgree(s, j, ds, 0, |ds|);
  }

  /** Within the range of `long`, strtol reads back what `%d` printed, without ERANGE. */
  lemma {:induction false} StrtolOfDecimal(n: int, rest: string)
    requires LONG_MIN <= n <= LONG_MAX
    requires rest == [] || !IsDigit(rest[0])
    ensures Strtol(IntToDecimal(n) + rest, 0) == LongResult(n, |IntToDecimal(n)|, false)
  {
    ScanIntOfDecimal(n, rest);
  }
}
