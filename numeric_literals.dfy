/**
 * Digit strings and the integer-kind rules of the scanner's numeric literal helpers:
 * the value a run of digits denotes, the leading-zero skip, and the two length-based
 * classifications (hexadecimal and octal) together with proofs of how they relate to
 * the exact value of the literal.
 */
module NumericLiterals {
  import opened Machine
  import opened Chars
  import opened Syntax

  function Pow(b: int, n: nat): int
  {
    if n == 0 then 1 else b * Pow(b, n - 1)
  }

  /** Every character of s[from..to] is a digit below `base`. */
  predicate IsDigitRun(s: seq<char>, from: int, end: int, base: int)
  {
    0 <= from <= end <= |s| && forall k :: from <= k < end ==> AlphaNumericToDigit(s[k]) < base
  }

  /**
   * Length of the maximal run of digits below `base` starting at `from`, bounded only by the
   * end of `s` (the loops of the scanner are bounded by the buffer, not by the token).
   */
  function DigitRun(s: seq<char>, from: nat, base: int): (n: nat)
    ensures n > 0 ==> from + n <= |s|
    ensures from + n < |s| ==> AlphaNumericToDigit(s[from + n]) >= base
    decreases |s| - from
  {
    if from >= |s| || AlphaNumericToDigit(s[from]) >= base then 0
    else 1 + DigitRun(s, from + 1, base)
  }

  /** The run `DigitRun` measures is made of digits below `base`. */
  lemma {:induction false} DigitRunIsRun(s: seq<char>, from: nat, base: int)
    ensures DigitRun(s, from, base) > 0 ==> IsDigitRun(s, from, from + DigitRun(s, from, base), base)
    decreases |s| - from
  {
    if from < |s| && AlphaNumericToDigit(s[from]) < base {
      DigitRunIsRun(s, from + 1, base);
    }
  }

  /** The number a digit string denotes in `base`, most significant digit first. */
  function DigitsValue(ds: seq<char>, base: int): int
  {
    if ds == [] then 0
    else DigitsValue(ds[..|ds| - 1], base) * base + AlphaNumericToDigit(ds[|ds| - 1])
  }

  /** Index of the first character at or after i (and before to) that is not '0'. */
  function SkipZeros(s: seq<char>, i: int, end: int): (j: int)
    requires 0 <= i && end <= |s|
    ensures i <= j
    ensures i < end ==> j <= end
    ensures i >= end ==> j == i
    ensures j < end ==> s[j] != '0'
    decreases |s| - i
  {
    if i < end && s[i] == '0' then SkipZeros(s, i + 1, end) else i
  }

  /** Everything `SkipZeros` skips is a '0'. */
  lemma {:induction false} SkipZerosSkipsZeros(s: seq<char>, i: int, end: int)
    requires 0 <= i && end <= |s|
    ensures forall k :: i <= k < SkipZeros(s, i, end) ==> s[k] == '0'
    decreases |s| - i
  {
    if i < end && s[i] == '0' {
      SkipZerosSkipsZeros(s, i + 1, end);
    }
  }

  /**
   * Kind of a hexadecimal literal whose digits occupy s[from..to]: after the leading zeros,
   * fewer than 16 digits, or exactly 16 whose first is below '8', is an integer.
   */
  function HexKind(s: seq<char>, from: int, end: int): Tokens
    requires 0 <= from && end <= |s|
  {
    var i := SkipZeros(s, from, end);
    if end - i < 16 || (end - i == 16 && s[i] >= '0' && s[i] < '8') then T_LNUMBER else T_DNUMBER
  }

  /**
   * Kind of a decimal or octal literal whose digits occupy s[from..to]. With leading zeros
   * (octal) fewer than 22 remaining digits is an integer; without, the decision is left to
   * the decimal accumulation, which always answers integer.
   */
  function IntegerKind(s: seq<char>, from: int, end: int): Tokens
    requires 0 <= from && end <= |s|
  {
    var i := SkipZeros(s, from, end);
    if i != from then (if end - i < 22 then T_LNUMBER else T_DNUMBER)
    else T_LNUMBER
  }

  lemma {:induction false} PowPositive(b: int, n: nat)
    requires b >= 1
    ensures Pow(b, n) >= 1
  {
    if n > 0 {
      PowPositive(b, n - 1);
    }
  }

  lemma {:induction false} PowMonotone(b: int, m: nat, n: nat)
    requires b >= 1 && m <= n
    ensures Pow(b, m) <= Pow(b, n)
  {
    if m < n {
      PowMonotone(b, m, n - 1);
      PowPositive(b, n - 1);
      assert Pow(b, n) == b * Pow(b, n - 1);
    }
  }

  /** Ring identity used when the leading digit is split off. */
  lemma FrontAlgebra(d0: int, p: int, r: int, b: int, dl: int)
    ensures (d0 * p + r) * b + dl == d0 * (b * p) + (r * b + dl)
  {
  }

  /** One more digit keeps the value below the next power of the base. */
  lemma MulAddBound(v: int, d: int, b: int, p: int)
    requires 0 <= v < p && 0 <= d < b
    ensures 0 <= v * b + d < b * p
  {
    assert v * b <= (p - 1) * b;
  }

  /** A string of digits below `base` denotes a value in [0, base^length). */
  lemma {:induction false} DigitsValueBounds(ds: seq<char>, base: int)
    requires base >= 1
    requires IsDigitRun(ds, 0, |ds|, base)
    ensures 0 <= DigitsValue(ds, base) < Pow(base, |ds|)
  {
    if ds != [] {
      var init := ds[..|ds| - 1];
      assert IsDigitRun(init, 0, |init|, base) by {
        forall k | 0 <= k < |init| ensures AlphaNumericToDigit(init[k]) < base {
          assert init[k] == ds[k];
        }
      }
      DigitsValueBounds(init, base);
      MulAddBound(DigitsValue(init, base), AlphaNumericToDigit(ds[|ds| - 1]), base, Pow(base, |init|));
    }
  }

  /** The leading digit's contribution: V(d0 d1 .. dn-1) == d0 * base^(n-1) + V(d1 .. dn-1). */
  lemma {:induction false} DigitsValueFront(ds: seq<char>, base: int)
    requires |ds| >= 1
    ensures DigitsValue(ds, base)
         == AlphaNumericToDigit(ds[0]) * Pow(base, |ds| - 1) + DigitsValue(ds[1..], base)
  {
    if |ds| == 1 {
      assert ds[..0] == [];
      assert ds[1..] == [];
    } else {
      var init := ds[..|ds| - 1];
      DigitsValueFront(init, base);
      assert init[0] == ds[0];
      assert init[1..] == ds[1..][..|ds| - 2];
      FrontAlgebra(AlphaNumericToDigit(ds[0]), Pow(base, |ds| - 2), DigitsValue(init[1..], base),
                   base, AlphaNumericToDigit(ds[|ds| - 1]));
    }
  }

  /** Leading '0' digits do not change the value. */
  lemma {:induction false} LeadingZerosValue(ds: seq<char>, z: nat, base: int)
    requires z <= |ds|
    requires forall k :: 0 <= k < z ==> ds[k] == '0'
    ensures DigitsValue(ds, base) == DigitsValue(ds[z..], base)
  {
    if z > 0 {
      DigitsValueFront(ds, base);
      assert AlphaNumericToDigit(ds[0]) == 0;
      LeadingZerosValue(ds[1..], z - 1, base);
      assert ds[1..][z - 1..] == ds[z..];
    }
  }

  /** A digit string with a nonzero leading digit is at least base^(length-1) times that digit. */
  lemma LeadingDigitLowerBound(ds: seq<char>, base: int)
    requires base >= 1 && |ds| >= 1
    requires IsDigitRun(ds, 0, |ds|, base)
    ensures DigitsValue(ds, base) >= AlphaNumericToDigit(ds[0]) * Pow(base, |ds| - 1)
    ensures DigitsValue(ds, base) < (AlphaNumericToDigit(ds[0]) + 1) * Pow(base, |ds| - 1)
  {
    DigitsValueFront(ds, base);
    var rest := ds[1..];
    assert IsDigitRun(rest, 0, |rest|, base) by {
      forall k | 0 <= k < |rest| ensures AlphaNumericToDigit(rest[k]) < base {
        assert rest[k] == ds[k + 1];
      }
    }
    DigitsValueBounds(rest, base);
    assert |rest| == |ds| - 1;
    LeadingBound(AlphaNumericToDigit(ds[0]), Pow(base, |ds| - 1), DigitsValue(rest, base));
  }

  lemma LeadingBound(d: int, p: int, r: int)
    requires 0 <= r < p
    ensures d * p <= d * p + r < (d + 1) * p
  {
  }

  /** The digit value of a hexadecimal digit character is below 8 exactly when the character is below '8'. */
  lemma HexDigitBelowEight(c: char)
    requires AlphaNumericToDigit(c) < 16
    ensures (c >= '0' && c < '8') <==> AlphaNumericToDigit(c) < 8
  {
  }

  lemma PowConstants()
    ensures Pow(16, 15) == 0x1000_0000_0000_0000 && Pow(16, 16) == 0x1_0000_0000_0000_0000
    ensures Pow(8, 21) == 0x8000_0000_0000_0000
  {
    assert Pow(16, 1) == 0x10;
    assert Pow(16, 2) == 0x100;
    assert Pow(16, 3) == 0x1000;
    assert Pow(16, 4) == 0x10000;
    assert Pow(16, 5) == 0x100000;
    assert Pow(16, 6) == 0x1000000;
    assert Pow(16, 7) == 0x10000000;
    assert Pow(16, 8) == 0x100000000;
    assert Pow(16, 9) == 0x1000000000;
    assert Pow(16, 10) == 0x10000000000;
    assert Pow(16, 11) == 0x100000000000;
    assert Pow(16, 12) == 0x1000000000000;
    assert Pow(16, 13) == 0x10000000000000;
    assert Pow(16, 14) == 0x100000000000000;
    assert Pow(16, 15) == 0x1000000000000000;
    assert Pow(16, 16) == 0x10000000000000000;
    assert Pow(8, 1) == 0x8;
    assert Pow(8, 2) == 0x40;
    assert Pow(8, 3) == 0x200;
    assert Pow(8, 4) == 0x1000;
    assert Pow(8, 5) == 0x8000;
    assert Pow(8, 6) == 0x40000;
    assert Pow(8, 7) == 0x200000;
    assert Pow(8, 8) == 0x1000000;
    assert Pow(8, 9) == 0x8000000;
    assert Pow(8, 10) == 0x40000000;
    assert Pow(8, 11) == 0x200000000;
    assert Pow(8, 12) == 0x1000000000;
    assert Pow(8, 13) == 0x8000000000;
    assert Pow(8, 14) == 0x40000000000;
    assert Pow(8, 15) == 0x200000000000;
    assert Pow(8, 16) == 0x1000000000000;
    assert Pow(8, 17) == 0x8000000000000;
    assert Pow(8, 18) == 0x40000000000000;
    assert Pow(8, 19) == 0x200000000000000;
    assert Pow(8, 20) == 0x1000000000000000;
    assert Pow(8, 21) == 0x8000000000000000;
  }

  /** The hexadecimal rule on the digits left after the leading zeros. */
  lemma HexStrippedIsExact(ds: seq<char>)
    requires IsDigitRun(ds, 0, |ds|, 16)
    requires |ds| > 0 ==> ds[0] != '0'
    ensures (|ds| < 16 || (|ds| == 16 && ds[0] >= '0' && ds[0] < '8')) <==> DigitsValue(ds, 16) <= INT64_MAX
  {
    var n, v := |ds|, DigitsValue(ds, 16);
    PowConstants();
    if n == 0 {
    } else if n < 16 {
      DigitsValueBounds(ds, 16);
      PowMonotone(16, n, 15);
    } else {
      LeadingDigitLowerBound(ds, 16);
      var d := AlphaNumericToDigit(ds[0]);
      assert 1 <= d < 16;
      if n == 16 {
        HexDigitBelowEight(ds[0]);
        if d < 8 {
          MulMonotone(d + 1, 8, Pow(16, 15));
        } else {
          MulMonotone(8, d, Pow(16, 15));
        }
      } else {
        PowMonotone(16, 16, n - 1);
        MulMonotone(1, d, Pow(16, n - 1));
      }
    }
  }

  lemma MulMonotone(a: int, b: int, p: int)
    requires a <= b && p >= 0
    ensures a * p <= b * p
  {
  }

  /**
   * The hexadecimal length rule is exact: on a run of hexadecimal digits it answers
   * T_LNUMBER precisely when the value fits in a signed 64-bit integer.
   */
  lemma HexKindIsExact(s: seq<char>, from: int, end: int)
    requires IsDigitRun(s, from, end, 16)
    ensures HexKind(s, from, end) == T_LNUMBER <==> DigitsValue(s[from..end], 16) <= INT64_MAX
  {
    var i := SkipZeros(s, from, end);
    SkipZerosSkipsZeros(s, from, end);
    var ds := s[i..end];
    assert DigitsValue(s[from..end], 16) == DigitsValue(ds, 16) by {
      LeadingZerosValue(s[from..end], i - from, 16);
      assert s[from..end][i - from..] == ds;
    }
    assert IsDigitRun(ds, 0, |ds|, 16) by {
      forall k | 0 <= k < |ds| ensures AlphaNumericToDigit(ds[k]) < 16 {
        assert ds[k] == s[i + k];
      }
    }
    assert |ds| > 0 ==> ds[0] == s[i];
    HexStrippedIsExact(ds);
  }

  /** The octal rule on the digits left after the leading zeros. */
  lemma OctalStrippedIsExact(ds: seq<char>)
    requires IsDigitRun(ds, 0, |ds|, 8)
    requires |ds| > 0 ==> ds[0] != '0'
    ensures |ds| < 22 <==> DigitsValue(ds, 8) <= INT64_MAX
  {
    var n := |ds|;
    PowConstants();
    if n == 0 {
    } else if n < 22 {
      DigitsValueBounds(ds, 8);
      PowMonotone(8, n, 21);
    } else {
      LeadingDigitLowerBound(ds, 8);
      PowMonotone(8, 21, n - 1);
      MulMonotone(1, AlphaNumericToDigit(ds[0]), Pow(8, n - 1));
    }
  }

  /**
   * The octal length rule is exact: on a literal with a leading '0' whose digits are all
   * octal it answers T_LNUMBER precisely when the value fits in a signed 64-bit integer.
   */
  lemma OctalKindIsExact(s: seq<char>, from: int, end: int)
    requires IsDigitRun(s, from, end, 8) && from < end && s[from] == '0'
    ensures IntegerKind(s, from, end) == T_LNUMBER <==> DigitsValue(s[from..end], 8) <= INT64_MAX
  {
    var i := SkipZeros(s, from, end);
    SkipZerosSkipsZeros(s, from, end);
    var ds := s[i..end];
    assert DigitsValue(s[from..end], 8) == DigitsValue(ds, 8) by {
      LeadingZerosValue(s[from..end], i - from, 8);
      assert s[from..end][i - from..] == ds;
    }
    assert IsDigitRun(ds, 0, |ds|, 8) by {
      forall k | 0 <= k < |ds| ensures AlphaNumericToDigit(ds[k]) < 8 {
        assert ds[k] == s[i + k];
      }
    }
    assert |ds| > 0 ==> ds[0] == s[i];
    OctalStrippedIsExact(ds);
  }

  /**
   * Without leading zeros the decimal rule never answers T_DNUMBER, even for a literal
   * beyond the 64-bit range, whose value then wraps.
   */
  lemma DecimalKindIgnoresOverflow(s: seq<char>, from: int, end: int)
    requires IsDigitRun(s, from, end, 10) && from < end && s[from] != '0'
    requires DigitsValue(s[from..end], 10) > INT64_MAX
    ensures IntegerKind(s, from, end) == T_LNUMBER
    ensures Wrap64(DigitsValue(s[from..end], 10)) as int != DigitsValue(s[from..end], 10)
  {
  }
}
