/**
 * Digit strings of natural numbers, as the kernel's formatter prints them
 * and its `atoi` reads them: base 10 or 16, most significant digit first,
 * with lower- or upper-case hexadecimal letters.
 */
module Numerals {

  import opened Arith

  /** `b` to the power `k`. */
  function Pow(b: nat, k: nat): (r: nat)
    ensures b >= 1 ==> r >= 1
  {
    if k == 0 then 1
    else
      var p := Pow(b, k - 1);
      if b >= 1 then MulAtLeast(p, b); b * p else b * p
  }

  /** The character for the digit `d`: '0'..'9', then 'a'..'f' or 'A'..'F'. */
  function DigitOf(d: nat, upper: bool): (c: char)
    requires d < 16
    ensures IsDigitOf(c, 16) && DigitValue(c) == d
    ensures d < 10 <==> '0' <= c <= '9'
  {
    if d < 10 then ('0' as int + d) as char
    else if upper then ('A' as int + d - 10) as char
    else ('a' as int + d - 10) as char
  }

  /** `c` is one of '0'..'9', 'a'..'f' and 'A'..'F'. */
  predicate IsHexChar(c: char)
  {
    '0' <= c <= '9' || 'a' <= c <= 'f' || 'A' <= c <= 'F'
  }

  /** `c` is a digit character of base `b` (at most 16). */
  predicate IsDigitOf(c: char, b: nat)
  {
    IsHexChar(c) && DigitValue(c) < b
  }

  /** The value of a digit character, the inverse of `DigitOf`. */
  function DigitValue(c: char): (v: nat)
    ensures IsHexChar(c) ==> v < 16
  {
    if '0' <= c <= '9' then c as int - '0' as int
    else if 'a' <= c <= 'f' then c as int - 'a' as int + 10
    else if 'A' <= c <= 'F' then c as int - 'A' as int + 10
    else 0
  }

  /** `n` in base `b` without leading zeros; empty for zero. */
  function Digits(n: nat, b: nat, upper: bool): (s: string)
    requires 2 <= b <= 16
    decreases n
  {
    if n == 0 then [] else Digits(n / b, b, upper) + [DigitOf(n % b, upper)]
  }

  /** `n` in base `b` as the kernel prints it: its digits, or "0" for zero. */
  function Numeral(n: nat, b: nat, upper: bool): (s: string)
    requires 2 <= b <= 16
    ensures |s| >= 1
  {
    if n == 0 then "0" else Digits(n, b, upper)
  }

  /** The value of a string of base-`b` digits, most significant first. */
  function Value(s: string, b: nat): nat
  {
    if s == [] then 0 else Value(s[..|s| - 1], b) * b + DigitValue(s[|s| - 1])
  }

  /** Every character of `s` is a base-`b` digit. */
  ghost predicate AllDigits(s: string, b: nat)
  {
    forall k :: 0 <= k < |s| ==> IsDigitOf(s[k], b)
  }

  /** The digits of a positive `n` are those of `n / b` followed by the digit for `n % b`. */
  lemma DigitsStep(n: nat, b: nat, upper: bool)
    requires 2 <= b <= 16 && n > 0
    ensures Digits(n, b, upper) == Digits(n / b, b, upper) + [DigitOf(n % b, upper)]
  {
  }

  /** Dividing a positive `n` by `b` >= 2 makes it smaller. */
  lemma DivLess(n: nat, b: nat)
    requires 2 <= b && n > 0
    ensures 0 <= n / b < n
  {
    var q := n / b;
    if q >= 1 {
      MulAtLeast(q, b);
      MulMono(2, b, q);
    }
  }

  /** Dividing `n` by `b` and multiplying back, plus the remainder, gives `n`. */
  lemma DivModBack(n: nat, b: nat)
    requires 2 <= b
    ensures (n / b) * b + n % b == n
  {
  }

  /** The digits of `n` are base-`b` digits. */
  lemma {:induction false} DigitsAreDigits(n: nat, b: nat, upper: bool)
    requires 2 <= b <= 16
    ensures AllDigits(Digits(n, b, upper), b)
    decreases n
  {
    if n > 0 {
      DigitsStep(n, b, upper);
      DivLess(n, b);
      DigitsAreDigits(n / b, b, upper);
      var f := Digits(n / b, b, upper);
      var c := DigitOf(n % b, upper);
      var s := f + [c];
      forall k | 0 <= k < |s|
        ensures IsDigitOf(s[k], b)
      {
        if k < |f| {
          assert s[k] == f[k];
        } else {
          assert s[k] == c;
        }
      }
    }
  }

  /** The digits of `n` denote `n`. */
  lemma {:induction false} DigitsValue(n: nat, b: nat, upper: bool)
    requires 2 <= b <= 16
    ensures Value(Digits(n, b, upper), b) == n
    decreases n
  {
    if n > 0 {
      var f := Digits(n / b, b, upper);
      var s := Digits(n, b, upper);
      DigitsStep(n, b, upper);
      DivLess(n, b);
      DigitsValue(n / b, b, upper);
      assert s[..|s| - 1] == f;
      assert Value(s, b) == Value(f, b) * b + DigitValue(DigitOf(n % b, upper));
      DivModBack(n, b);
    }
  }

  /** The first digit of a positive `n` is not '0'. */
  lemma {:induction false} DigitsLead(n: nat, b: nat, upper: bool)
    requires 2 <= b <= 16 && n > 0
    ensures Digits(n, b, upper)[0] != '0'
    decreases n
  {
    DigitsStep(n, b, upper);
    DivLess(n, b);
    var c := DigitOf(n % b, upper);
    if n / b == 0 {
      DivModBack(n, b);
      assert DigitValue(c) == n % b == n;
      assert Digits(n, b, upper) == [] + [c];
    } else {
      DigitsLead(n / b, b, upper);
      assert Digits(n, b, upper)[0] == Digits(n / b, b, upper)[0];
    }
  }

  /** A printed numeral is made of base-`b` digits and denotes `n`. */
  lemma NumeralValue(n: nat, b: nat, upper: bool)
    requires 2 <= b <= 16
    ensures AllDigits(Numeral(n, b, upper), b)
    ensures Value(Numeral(n, b, upper), b) == n
    ensures |Numeral(n, b, upper)| > 1 ==> Numeral(n, b, upper)[0] != '0'
  {
    DigitsAreDigits(n, b, upper);
    DigitsValue(n, b, upper);
    if n > 0 {
      DigitsLead(n, b, upper);
    } else {
      assert Numeral(n, b, upper) == "0";
      assert Value("0", b) == Value([], b) * b + DigitValue('0');
    }
  }

  /**
   * The number of decimal digits of a positive `n` is the `L` with
   * `10^(L-1) <= n < 10^L`.
   */
  lemma {:induction false} DecimalLength(n: nat)
    requires n > 0
    ensures Pow(10, |Digits(n, 10, false)| - 1) <= n < Pow(10, |Digits(n, 10, false)|)
    decreases n
  {
    var l := |Digits(n, 10, false)|;
    assert l == |Digits(n / 10, 10, false)| + 1;
    if n / 10 > 0 {
      DecimalLength(n / 10);
    }
  }

  /** The last `l` digits of `n` in base `b`, with leading zeros. */
  function Padded(n: nat, l: nat, b: nat, upper: bool): (s: string)
    requires 2 <= b <= 16
    ensures |s| == l
  {
    if l == 0 then [] else Padded(n / b, l - 1, b, upper) + [DigitOf(n % b, upper)]
  }

  /** The number the last `l` digits of `n` in base `b` denote. */
  function Low(n: nat, l: nat, b: nat): (v: nat)
    requires 2 <= b <= 16
  {
    if l == 0 then 0 else Low(n / b, l - 1, b) * b + n % b
  }

  /** The last `l` digits of `n` denote `n` modulo `b^l`. */
  lemma {:induction false} LowMod(n: nat, l: nat, b: nat)
    requires 2 <= b <= 16
    ensures Low(n, l, b) == n % Pow(b, l)
    decreases l
  {
    if l > 0 {
      LowMod(n / b, l - 1, b);
      ModMod(n, b, Pow(b, l - 1));
    }
  }

  /**
   * The padded digits of `n` are zeros followed by the digits of what the
   * last `l` digits denote.
   */
  lemma {:induction false} PaddedSplit(n: nat, l: nat, b: nat, upper: bool)
    requires 2 <= b <= 16
    ensures |Digits(Low(n, l, b), b, upper)| <= l
    ensures Padded(n, l, b, upper) ==
      ZeroRun(l - |Digits(Low(n, l, b), b, upper)|) + Digits(Low(n, l, b), b, upper)
    decreases l
  {
    if l > 0 {
      var q: nat := n / b;
      var dx := Digits(Low(q, l - 1, b), b, upper);
      PaddedSplit(q, l - 1, b, upper);
      LowStep(n, l, b, upper);
      var z := ZeroRun(l - 1 - |dx|);
      var c := DigitOf(n % b, upper);
      assert Padded(n, l, b, upper) == z + dx + [c];
      if Low(n, l, b) == 0 {
        assert ZeroRun(l) == z + ['0'];
      } else {
        AppendAssoc(z, dx, [c]);
      }
    }
  }

  /** The number the last `l` digits denote, written out, from the one for `l - 1`. */
  lemma LowStep(n: nat, l: nat, b: nat, upper: bool)
    requires 2 <= b <= 16 && l > 0
    ensures var x := Low(n / b, l - 1, b);
      if Low(n, l, b) == 0 then x == 0 && n % b == 0
      else Digits(Low(n, l, b), b, upper) == Digits(x, b, upper) + [DigitOf(n % b, upper)]
  {
    var x := Low(n / b, l - 1, b);
    var v := Low(n, l, b);
    ModOfMultiple(v, x, b, n % b);
    if v > 0 {
      DigitsStep(v, b, upper);
    }
  }

  /** Concatenation is associative. */
  lemma AppendAssoc(r: string, s: string, u: string)
    ensures (r + s) + u == r + (s + u)
  {
  }

  /** `k` zero digits. */
  function ZeroRun(k: nat): (s: string)
    ensures |s| == k && forall i :: 0 <= i < k ==> s[i] == '0'
  {
    if k == 0 then [] else ZeroRun(k - 1) + ['0']
  }

  /** The `L` digits of a number below `b^L` with `L` digits are its padded digits. */
  lemma {:induction false} PaddedDigits(n: nat, b: nat, upper: bool)
    requires 2 <= b <= 16
    ensures Padded(n, |Digits(n, b, upper)|, b, upper) == Digits(n, b, upper)
    decreases n
  {
    if n > 0 {
      DivLess(n, b);
      PaddedDigits(n / b, b, upper);
    }
  }

  /** The padded digits of width `l + 1` are the top digit followed by those of width `l`. */
  lemma {:induction false} PaddedCons(n: nat, l: nat, b: nat, upper: bool)
    requires 2 <= b <= 16
    ensures Padded(n, l + 1, b, upper) == [Padded(n, l + 1, b, upper)[0]] + Padded(n, l, b, upper)
    decreases l
  {
    if l > 0 {
      PaddedCons(n / b, l - 1, b, upper);
    }
  }
}
