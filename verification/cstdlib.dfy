/**
 * The kernel's `atoi`, `rand` and `srand`.
 *
 * `atoi` reads an optional '-' and then the longest run of decimal digits,
 * accumulating in a signed 32-bit variable that wraps around. `rand` is the
 * linear congruential generator on the 64-bit static `next`; `srand` sets
 * `next` to the seed.
 */
module CStdlib {

  import opened Base
  import opened Numerals
  import Printk

  /** The bound `rand` reduces its result by. */
  const RAND_MAX: nat := 32767

  /** The multiplier and increment of the generator. */
  const RAND_MUL: nat := 1103515245
  const RAND_INC: nat := 12345

  // ---------------------------------------------------------------------
  // atoi
  // ---------------------------------------------------------------------

  /** `c` is one of '0'..'9'. */
  predicate IsDecimal(c: char)
  {
    '0' <= c <= '9'
  }

  /** The longest prefix of `s` made of decimal digits. */
  function LeadingDigits(s: string): (d: string)
    ensures |d| <= |s| && d == s[..|d|]
    ensures forall j :: 0 <= j < |d| ==> IsDecimal(d[j])
    ensures |d| < |s| ==> !IsDecimal(s[|d|])
  {
    if s == [] || !IsDecimal(s[0]) then []
    else [s[0]] + LeadingDigits(s[1..])
  }

  /**
   * The number `atoi` means for `s`: the value of the digits after an
   * optional '-', negated after a '-'.
   */
  function AtoiValue(s: string): int
  {
    if |s| > 0 && s[0] == '-' then 0 - Value(LeadingDigits(s[1..]), 10)
    else Value(LeadingDigits(s), 10)
  }

  /** Wrapping the accumulator at each step wraps the exact result. */
  lemma WrapStep(v: int, d: int)
    ensures Printk.S32(Printk.S32(Printk.S32(v) * 10) + d) == Printk.S32(v * 10 + d)
  {
    var w := Printk.S32(v);
    var q := (v - w) / U32_MOD;
    assert v - w == q * U32_MOD;
    var x := Printk.S32(w * 10);
    var p := (w * 10 - x) / U32_MOD;
    assert w * 10 - x == p * U32_MOD;
    SameWrap(x + d, v * 10 + d, -(p + 10 * q));
  }

  /** Numbers that differ by a multiple of 2^32 wrap to the same `s32`. */
  lemma SameWrap(a: int, b: int, q: int)
    requires a == b + q * U32_MOD
    ensures Printk.S32(a) == Printk.S32(b)
  {
    Arith.ModOfMultiple(a, b / U32_MOD + q, U32_MOD, b % U32_MOD);
  }

  /**
   * `atoi(str)`: the `s32` the digits after an optional '-' denote, the
   * accumulation wrapping around as 32-bit arithmetic does.
   */
  method Atoi(s: string) returns (r: int)
    ensures r == Printk.S32(AtoiValue(s))
    ensures Printk.INT_MIN <= AtoiValue(s) <= Printk.INT_MAX ==> r == AtoiValue(s)
  {
    var i := 0;
    var negative := false;
    if |s| > 0 && s[i] == '-' {
      negative := true;
      i := i + 1;
    }
    var res := Accumulate(s, i);
    if negative {
      ghost var v := Value(LeadingDigits(s[1..]), 10);
      SameWrap(-res, 0 - v, (v - res) / U32_MOD);
      return Printk.S32(-res);
    }
    return res;
  }

  /**
   * The digit loop of `atoi` from `start`: the wrapped value of the
   * longest run of digits there.
   */
  method Accumulate(s: string, start: nat) returns (res: int)
    requires start <= |s|
    ensures res == Printk.S32(Value(LeadingDigits(s[start..]), 10))
  {
    var i := start;
    res := 0;
    while i < |s| && s[i] != Printk.NUL && IsDecimal(s[i])
      invariant start <= i <= |s|
      invariant forall j :: start <= j < i ==> IsDecimal(s[j])
      invariant res == Printk.S32(Value(s[start..i], 10))
    {
      var d := s[i] as int - '0' as int;
      DigitStep(s, start, i);
      WrapStep(Value(s[start..i], 10), d);
      res := Printk.S32(res * 10);
      res := Printk.S32(res + d);
      i := i + 1;
    }
    LeadingDigitsStop(s[start..i], s[i..]);
    assert s[start..i] + s[i..] == s[start..];
  }

  /** One more digit multiplies the value so far by ten and adds the digit. */
  lemma DigitStep(s: string, start: nat, i: nat)
    requires start <= i < |s| && IsDecimal(s[i])
    ensures Value(s[start..i + 1], 10) == Value(s[start..i], 10) * 10 + (s[i] as int - '0' as int)
  {
    var next := s[start..i + 1];
    assert next[..|next| - 1] == s[start..i] && next[|next| - 1] == s[i];
  }

  /** `atoi` gives 0 for the empty string, a lone '-', and a string not starting with a digit after the '-'. */
  lemma AtoiNoDigits(s: string)
    requires s == [] || s == "-" || (s[0] != '-' && !IsDecimal(s[0])) ||
      (|s| >= 2 && s[0] == '-' && !IsDecimal(s[1]))
    ensures AtoiValue(s) == 0
  {
    if |s| >= 2 && s[0] == '-' {
      assert s[1..][0] == s[1];
    }
  }

  /** `atoi` reads back what `print_int` (the `%d` conversion) prints. */
  lemma AtoiIntText(n: int)
    ensures AtoiValue(Printk.IntText(n)) == n
  {
    Printk.IntTextValue(n);
    var s := Printk.IntText(n);
    var d := if n < 0 then s[1..] else s;
    AllDecimal(d);
    assert LeadingDigits(d) == d;
  }

  /** A string of decimal digits is its own longest digit prefix. */
  lemma {:induction false} AllDecimal(d: string)
    requires AllDigits(d, 10)
    ensures LeadingDigits(d) == d
    decreases |d|
  {
    if d != [] {
      assert IsDigitOf(d[0], 10);
      assert AllDigits(d[1..], 10) by {
        forall k | 0 <= k < |d| - 1
          ensures IsDigitOf(d[1..][k], 10)
        {
          assert d[1..][k] == d[k + 1];
        }
      }
      AllDecimal(d[1..]);
      assert [d[0]] + d[1..] == d;
    }
  }

  /** The digits after the longest digit prefix do not matter. */
  lemma {:induction false} LeadingDigitsStop(d: string, rest: string)
    requires forall j :: 0 <= j < |d| ==> IsDecimal(d[j])
    requires rest == [] || !IsDecimal(rest[0])
    ensures LeadingDigits(d + rest) == d
    decreases |d|
  {
    if d == [] {
      assert d + rest == rest;
    } else {
      assert (d + rest)[0] == d[0] && (d + rest)[1..] == d[1..] + rest;
      LeadingDigitsStop(d[1..], rest);
      assert [d[0]] + d[1..] == d;
    }
  }

  // ---------------------------------------------------------------------
  // rand and srand
  // ---------------------------------------------------------------------

  /** The generator's step: `next * 1103515245 + 12345` on a `u64`. */
  function NextState(next: nat): (n: nat)
    ensures n < Printk.U64_MOD
  {
    (next * RAND_MUL + RAND_INC) % Printk.U64_MOD
  }

  /** What `rand` returns for the state `next`: `(u32)(next / 65536) % RAND_MAX`. */
  function Output(next: nat): (r: nat)
    ensures r < RAND_MAX
  {
    ((next / 65536) % U32_MOD) % RAND_MAX
  }

  /** Every value below `RAND_MAX` is returned for some state, and `RAND_MAX` itself for none. */
  lemma OutputRange(r: nat)
    requires r < RAND_MAX
    ensures Output(r * 65536) == r
    ensures Output(r * 65536) != RAND_MAX
  {
    Arith.ModOfMultiple(r * 65536, r, 65536, 0);
  }

  /** The static `next` of `rand` and `srand`. */
  class Generator {
    var next: nat

    /** `next` lies in `u64`. */
    predicate Valid()
      reads this
    {
      next < Printk.U64_MOD
    }

    /** The generator before any `srand`: `next` starts at 1. */
    constructor ()
      ensures next == 1 && Valid()
    {
      next := 1;
    }

    /** `rand()`: steps `next` and returns the bits 16 and up of the new `next`, reduced. */
    method Rand() returns (r: int)
      requires Valid()
      modifies this
      ensures next == NextState(old(next)) && Valid()
      ensures r == Output(next) && 0 <= r < RAND_MAX
    {
      next := (next * RAND_MUL + RAND_INC) % Printk.U64_MOD;
      r := ((next / 65536) % U32_MOD) % RAND_MAX;
    }

    /** `srand(seed)`: restarts the sequence at `seed`. */
    method Srand(seed: nat)
      requires seed < U32_MOD
      modifies this
      ensures next == seed && Valid()
    {
      next := seed;
    }
  }
}
