/** The Python string built-ins the modelled code relies on: `str()` of an
    integer (with a parser that inverts it) and `str.strip()`. */
module Text {
  import opened Wrappers
  import opened Seqs

  predicate IsDigit(c: char) {
    '0' <= c <= '9'
  }

  /** Every character of s is a decimal digit. */
  predicate AllDigits(s: string) {
    |s| == 0 || (IsDigit(s[0]) && AllDigits(s[1..]))
  }

  lemma {:induction false} AllDigitsAppend(a: string, b: string)
    ensures AllDigits(a + b) <==> AllDigits(a) && AllDigits(b)
  {
    if |a| > 0 {
      DropFirstAppend(a, b);
      AllDigitsAppend(a[1..], b);
    } else {
      assert a + b == b;
    }
  }

  function DigitChar(d: nat): (c: char)
    requires d < 10
    ensures IsDigit(c) && c as int - '0' as int == d
  {
    "0123456789"[d]
  }

  /** `str(n)` for n >= 0: decimal digits without leading zeros. */
  function NatToString(n: nat): (s: string)
    ensures |s| >= 1
    decreases n
  {
    if n < 10 then [DigitChar(n)] else NatToString(n / 10) + [DigitChar(n % 10)]
  }

  /** `str(n)` is made of digits, and starts with '0' only for zero itself. */
  lemma {:induction false} NatToStringDigits(n: nat)
    ensures AllDigits(NatToString(n))
    ensures NatToString(n)[0] == '0' ==> n == 0
    decreases n
  {
    if n >= 10 {
      NatToStringDigits(n / 10);
      AllDigitsAppend(NatToString(n / 10), [DigitChar(n % 10)]);
    }
  }

  /** `str(i)` for any Python int: a leading '-' for negative values. */
  function IntToString(i: int): (s: string)
    ensures |s| >= 1
  {
    if i < 0 then "-" + NatToString(-i) else NatToString(i)
  }

  /** `str(i)` starts with '-' exactly for negative i, and the rest is digits. */
  lemma IntToStringShape(i: int)
    ensures IntToString(i)[0] == '-' <==> i < 0
    ensures i >= 0 ==> AllDigits(IntToString(i))
    ensures i < 0 ==> |IntToString(i)| >= 2 && AllDigits(IntToString(i)[1..])
  {
    NatToStringDigits(if i < 0 then -i else i);
    if i < 0 {
      assert IntToString(i)[1..] == NatToString(-i);
    }
  }

  /** The value of one decimal digit. */
  function DigitValue(c: char): (v: nat)
    ensures v < 10
  {
    if IsDigit(c) then c as int - '0' as int else 0
  }

  /** The value of a string of decimal digits. */
  function DigitsValue(s: string): nat
  {
    if |s| == 0 then 0 else DigitsValue(s[..|s| - 1]) * 10 + DigitValue(s[|s| - 1])
  }

  lemma {:induction false} DigitsValueOfNatToString(n: nat)
    ensures DigitsValue(NatToString(n)) == n
    decreases n
  {
    if n >= 10 {
      DigitsValueOfNatToString(n / 10);
      var s := NatToString(n);
      assert s[..|s| - 1] == NatToString(n / 10);
    }
  }

  /** The length of the longest prefix of `s` made of digits. */
  function DigitPrefix(s: string): (k: nat)
    ensures k <= |s|
  {
    if |s| == 0 || !IsDigit(s[0]) then 0 else 1 + DigitPrefix(s[1..])
  }

  /** The prefix DigitPrefix measures is all digits and cannot be extended. */
  lemma {:induction false} DigitPrefixMaximal(s: string)
    ensures AllDigits(s[..DigitPrefix(s)])
    ensures DigitPrefix(s) < |s| ==> !IsDigit(s[DigitPrefix(s)])
  {
    if |s| > 0 && IsDigit(s[0]) {
      DigitPrefixMaximal(s[1..]);
      var k := DigitPrefix(s);
      TakeAfterFirst(s, k);
    }
  }

  /** The length of the longest suffix of `s` made of digits. */
  function DigitSuffix(s: string): (k: nat)
    ensures k <= |s|
  {
    if |s| == 0 || !IsDigit(s[|s| - 1]) then 0 else 1 + DigitSuffix(s[..|s| - 1])
  }

  /** The suffix DigitSuffix measures is all digits and cannot be extended. */
  lemma {:induction false} DigitSuffixMaximal(s: string)
    ensures AllDigits(s[|s| - DigitSuffix(s)..])
    ensures DigitSuffix(s) < |s| ==> !IsDigit(s[|s| - DigitSuffix(s) - 1])
  {
    if |s| > 0 && IsDigit(s[|s| - 1]) {
      DigitSuffixMaximal(s[..|s| - 1]);
      var k := DigitSuffix(s);
      DropThenLast(s, |s| - k);
      AllDigitsAppend(s[..|s| - 1][|s| - k..], [s[|s| - 1]]);
    }
  }

  lemma {:induction false} DigitPrefixOf(d: string, t: string)
    requires AllDigits(d)
    requires |t| == 0 || !IsDigit(t[0])
    ensures DigitPrefix(d + t) == |d|
  {
    if |d| > 0 {
      DropFirstAppend(d, t);
      DigitPrefixOf(d[1..], t);
    }
  }

  lemma {:induction false} DigitSuffixOf(t: string, d: string)
    requires AllDigits(d)
    requires |t| == 0 || !IsDigit(t[|t| - 1])
    ensures DigitSuffix(t + d) == |d|
  {
    if |d| > 0 {
      TakeAllButLastAppend(t, d);
      SplitLast(d);
      AllDigitsAppend(d[..|d| - 1], [d[|d| - 1]]);
      DigitSuffixOf(t, d[..|d| - 1]);
    }
  }

  /** Reads an optionally negative decimal integer at the start of `s`:
      its value and the number of characters it spans. */
  function ReadIntPrefix(s: string): (r: Option<(int, nat)>)
    ensures r.Some? ==> 0 < r.value.1 <= |s|
  {
    if |s| > 0 && s[0] == '-' then
      var k := DigitPrefix(s[1..]);
      if k == 0 then None else var v: int := -(DigitsValue(s[1..][..k]) as int); Some((v, k + 1))
    else
      var k := DigitPrefix(s);
      if k == 0 then None else Some((DigitsValue(s[..k]), k))
  }

  /** Reads an optionally negative decimal integer at the end of `s`:
      its value and the number of characters it spans. */
  function ReadIntSuffix(s: string): (r: Option<(int, nat)>)
    ensures r.Some? ==> 0 < r.value.1 <= |s|
  {
    var k := DigitSuffix(s);
    if k == 0 then None
    else if k < |s| && s[|s| - k - 1] == '-' then var v: int := -(DigitsValue(s[|s| - k..]) as int); Some((v, k + 1))
    else Some((DigitsValue(s[|s| - k..]), k))
  }

  /** Digits followed by a non-digit are read back as their value. */
  lemma ReadIntPrefixOfDigits(d: string, t: string)
    requires AllDigits(d) && |d| > 0
    requires |t| == 0 || !IsDigit(t[0])
    ensures ReadIntPrefix(d + t) == Some((DigitsValue(d) as int, |d|))
  {
    DigitPrefixOf(d, t);
    assert (d + t)[0] == d[0];
    SplitAppend(d, t);
  }

  /** '-' and digits followed by a non-digit are read back as the negated value. */
  lemma ReadIntPrefixOfNegative(d: string, t: string)
    requires AllDigits(d) && |d| > 0
    requires |t| == 0 || !IsDigit(t[0])
    ensures ReadIntPrefix("-" + (d + t)) == Some((-(DigitsValue(d) as int), |d| + 1))
  {
    DigitPrefixOf(d, t);
    SplitAppend("-", d + t);
    SplitAppend(d, t);
  }

  /** `str(i)` followed by a non-digit is read back as `i`. */
  lemma ReadIntPrefixOfString(i: int, t: string)
    requires |t| == 0 || !IsDigit(t[0])
    ensures ReadIntPrefix(IntToString(i) + t) == Some((i, |IntToString(i)|))
  {
    var n: nat := if i < 0 then -i else i;
    NatToStringDigits(n);
    DigitsValueOfNatToString(n);
    if i < 0 {
      AppendAssoc("-", NatToString(n), t);
      ReadIntPrefixOfNegative(NatToString(n), t);
    } else {
      assert IntToString(i) == NatToString(n);
      ReadIntPrefixOfDigits(NatToString(n), t);
    }
  }

  /** The digit run at the end of u + d is d, and the character before it is u's last. */
  lemma DigitRunAtEnd(u: string, d: string)
    requires AllDigits(d)
    requires |u| == 0 || !IsDigit(u[|u| - 1])
    ensures DigitSuffix(u + d) == |d|
    ensures DigitsValue((u + d)[|u + d| - |d|..]) == DigitsValue(d)
    ensures |u| > 0 ==> (u + d)[|u + d| - |d| - 1] == u[|u| - 1]
  {
    DigitSuffixOf(u, d);
    SplitAppend(u, d);
  }

  /** The digit run at the end of t + "-" + d is d, with the '-' just before it. */
  lemma NegativeRunAtEnd(t: string, d: string)
    requires AllDigits(d)
    requires |t| == 0 || !IsDigit(t[|t| - 1])
    ensures var s := t + ("-" + d);
            && DigitSuffix(s) == |d|
            && DigitsValue(s[|s| - |d|..]) == DigitsValue(d)
            && s[|s| - |d| - 1] == '-'
  {
    var u := t + "-";
    assert u[|u| - 1] == '-';
    AppendAssoc(t, "-", d);
    DigitRunAtEnd(u, d);
  }

  /** Digits preceded by neither a digit nor '-' are read back from the end as
      their value. */
  lemma ReadIntSuffixOfDigits(u: string, d: string)
    requires AllDigits(d) && |d| > 0
    requires |u| == 0 || (!IsDigit(u[|u| - 1]) && u[|u| - 1] != '-')
    ensures ReadIntSuffix(u + d) == Some((DigitsValue(d) as int, |d|))
  {
    DigitRunAtEnd(u, d);
  }

  /** '-' and digits, preceded by neither a digit nor '-', are read back
      from the end as the negated value. */
  lemma ReadIntSuffixOfNegativeDigits(t: string, d: string)
    requires AllDigits(d) && |d| > 0
    requires |t| == 0 || (!IsDigit(t[|t| - 1]) && t[|t| - 1] != '-')
    ensures ReadIntSuffix(t + ("-" + d)) == Some((-(DigitsValue(d) as int), |d| + 1))
  {
    NegativeRunAtEnd(t, d);
  }

  /** `str(i)` preceded by neither a digit nor '-' is read back from the end as `i`. */
  lemma ReadIntSuffixOfString(t: string, i: int)
    requires |t| == 0 || (!IsDigit(t[|t| - 1]) && t[|t| - 1] != '-')
    ensures ReadIntSuffix(t + IntToString(i)) == Some((i, |IntToString(i)|))
  {
    var n: nat := if i < 0 then -i else i;
    NatToStringDigits(n);
    DigitsValueOfNatToString(n);
    if i < 0 {
      assert IntToString(i) == "-" + NatToString(n);
      ReadIntSuffixOfNegativeDigits(t, NatToString(n));
    } else {
      assert IntToString(i) == NatToString(n);
      ReadIntSuffixOfDigits(t, NatToString(n));
    }
  }

  /** `str` is injective on integers. */
  lemma {:induction false} IntToStringInjective(i: int, j: int)
    requires IntToString(i) == IntToString(j)
    ensures i == j
  {
    ReadIntPrefixOfString(i, "");
    ReadIntPrefixOfString(j, "");
    assert IntToString(i) + "" == IntToString(i);
    assert IntToString(j) + "" == IntToString(j);
  }

  /** Python's `str.isspace` for one character (Unicode White_Space, as CPython defines it). */
  predicate IsSpace(c: char) {
    var n := c as int;
    (9 <= n <= 13) || (28 <= n <= 32) || n == 0x85 || n == 0xA0 || n == 0x1680
    || (0x2000 <= n <= 0x200A) || n == 0x2028 || n == 0x2029 || n == 0x202F
    || n == 0x205F || n == 0x3000
  }

  predicate AllSpace(s: string) {
    forall i :: 0 <= i < |s| ==> IsSpace(s[i])
  }

  /** The number of white-space characters `s` starts with. */
  function LeadingSpace(s: string): (k: nat)
    ensures k <= |s|
  {
    if |s| > 0 && IsSpace(s[0]) then 1 + LeadingSpace(s[1..]) else 0
  }

  /** The number of white-space characters `s` ends with. */
  function TrailingSpace(s: string): (k: nat)
    ensures k <= |s|
  {
    if |s| > 0 && IsSpace(s[|s| - 1]) then 1 + TrailingSpace(s[..|s| - 1]) else 0
  }

  /** The leading run of white space is all white space and cannot be extended. */
  lemma {:induction false} LeadingSpaceMaximal(s: string)
    ensures AllSpace(s[..LeadingSpace(s)])
    ensures LeadingSpace(s) < |s| ==> !IsSpace(s[LeadingSpace(s)])
  {
    if |s| > 0 && IsSpace(s[0]) {
      LeadingSpaceMaximal(s[1..]);
    }
  }

  /** The trailing run of white space is all white space and cannot be extended. */
  lemma {:induction false} TrailingSpaceMaximal(s: string)
    ensures AllSpace(s[|s| - TrailingSpace(s)..])
    ensures TrailingSpace(s) < |s| ==> !IsSpace(s[|s| - TrailingSpace(s) - 1])
  {
    if |s| > 0 && IsSpace(s[|s| - 1]) {
      TrailingSpaceMaximal(s[..|s| - 1]);
    }
  }

  /** Python's `str.strip()` with no argument. */
  function Strip(s: string): string
  {
    var l := s[LeadingSpace(s)..];
    l[..|l| - TrailingSpace(l)]
  }

  /** The stripped text is the slice of `s` between its leading and trailing
      white space. */
  lemma StripSlice(s: string) returns (i: nat, j: nat)
    ensures i <= j <= |s| && Strip(s) == s[i..j]
    ensures AllSpace(s[..i]) && AllSpace(s[j..])
  {
    i := LeadingSpace(s);
    var l := s[i..];
    var m := |l| - TrailingSpace(l);
    j := i + m;
    LeadingSpaceMaximal(s);
    TrailingSpaceMaximal(l);
    SliceOfSlice(s, i, m);
    assert s[j..] == l[m..];
  }

  /** The stripped text neither starts nor ends with white space. */
  lemma StripTrimmed(s: string)
    ensures |Strip(s)| == 0 || (!IsSpace(Strip(s)[0]) && !IsSpace(Strip(s)[|Strip(s)| - 1]))
  {
    var l := s[LeadingSpace(s)..];
    var m := |l| - TrailingSpace(l);
    LeadingSpaceMaximal(s);
    TrailingSpaceMaximal(l);
    if m > 0 {
      assert Strip(s)[0] == l[0] == s[LeadingSpace(s)];
      assert Strip(s)[m - 1] == l[m - 1];
    }
  }

  /** A text strips to nothing exactly when every character is white space,
      which is how `not text.strip()` tests for a blank text. */
  lemma StripBlank(s: string)
    ensures |Strip(s)| == 0 <==> AllSpace(s)
  {
    var i, j := StripSlice(s);
    StripTrimmed(s);
    if |Strip(s)| == 0 {
      assert i == j;
      assert s == s[..i] + s[j..];
    } else {
      assert s[i] == Strip(s)[0];
    }
  }

  /** Stripping twice is stripping once. */
  lemma StripIdempotent(s: string)
    ensures Strip(Strip(s)) == Strip(s)
  {
    var t := Strip(s);
    var i, j := StripSlice(s);
    StripTrimmed(s);
    assert t[0..] == t;
    assert t[..|t|] == t;
  }
}
