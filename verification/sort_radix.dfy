/**
 * The radix sort `qsort` uses for 4-byte elements: `__count_sort` stably
 * sorts the values by the decimal digit `(v / exp) % 10`, and
 * `__radix_sort` runs it for `exp` = 1, 10, 100, ... while the largest
 * value still has a digit at `exp`. Values are non-negative, where C's
 * truncating `/` and `%` agree with Dafny's.
 *
 * A stable sort by digit is specified by ranks: the value at index `i`
 * belongs behind every value of a smaller digit and behind the values of
 * its own digit that come before it.
 */
module RadixSort {

  import opened Arith

  /** Every value is non-negative. */
  ghost predicate NonNeg(s: seq<int>)
  {
    forall k :: 0 <= k < |s| ==> 0 <= s[k]
  }

  /** The values are in ascending order. */
  ghost predicate Ascending(s: seq<int>)
  {
    forall i, j :: 0 <= i < j < |s| ==> s[i] <= s[j]
  }

  /** The values are in ascending order of their remainders modulo `m`. */
  ghost predicate SortedMod(s: seq<int>, m: int)
    requires 1 <= m
  {
    forall i, j :: 0 <= i < j < |s| ==> s[i] % m <= s[j] % m
  }

  /**
   * The digit `(v / e) % 10` that `__count_sort` sorts by. For the
   * non-negative values the sort is given, Dafny's `/` and `%` are C's.
   */
  function Digit(v: int, e: int): (d: int)
    requires 1 <= e
    ensures 0 <= d < 10
  {
    (v / e) % 10
  }

  /** `(h 10 + d) e` regrouped as `h (10 e) + d e`. */
  lemma Regroup(h: int, d: int, e: int)
    ensures (h * 10 + d) * e == h * (10 * e) + d * e
  {
  }

  /** `c e + e <= d e` for `c < d` and positive `e`. */
  lemma MulGap(c: int, d: int, e: int)
    requires c < d && 1 <= e
    ensures c * e + e <= d * e
  {
    MulAtLeast(d - c, e);
    assert (d - c) * e == d * e - c * e;
  }

  /** The remainder modulo `10 e` is the digit at `e` followed by the remainder modulo `e`. */
  lemma DigitSplit(v: int, e: int)
    requires 0 <= v && 1 <= e
    ensures v % (10 * e) == Digit(v, e) * e + v % e
  {
    var q, r := v / e, v % e;
    var d, h := q % 10, q / 10;
    assert v == q * e + r && 0 <= r < e;
    assert q == h * 10 + d && 0 <= d <= 9;
    Regroup(h, d, e);
    MulGap(d, 10, e);
    ModOfMultiple(v, h, 10 * e, d * e + r);
  }

  // ---------------------------------------------------------------------
  // Counting digits

  /** How many of the first `n` values of `s` have the digit `d` at `e`. */
  function Count(s: seq<int>, e: int, n: nat, d: int): (c: nat)
    requires 1 <= e && n <= |s|
    ensures c <= n
  {
    if n == 0 then 0 else Count(s, e, n - 1, d) + (if Digit(s[n - 1], e) == d then 1 else 0)
  }

  /** Counting over a longer prefix counts at least as many. */
  lemma {:induction false} CountMono(s: seq<int>, e: int, m: nat, n: nat, d: int)
    requires 1 <= e && m <= n <= |s|
    ensures Count(s, e, m, d) <= Count(s, e, n, d)
    decreases n - m
  {
    if m < n {
      CountMono(s, e, m, n - 1, d);
    }
  }

  /** A value of digit `d` at `i` is counted by every prefix past it and by none up to it. */
  lemma CountHit(s: seq<int>, e: int, i: nat, n: nat)
    requires 1 <= e && i < n <= |s|
    ensures Count(s, e, i, Digit(s[i], e)) < Count(s, e, n, Digit(s[i], e))
  {
    CountMono(s, e, i + 1, n, Digit(s[i], e));
  }

  /** How many of the first `n` values of `s` have a digit at `e` below `d`. */
  function Below(s: seq<int>, e: int, n: nat, d: nat): (c: nat)
    requires 1 <= e && n <= |s| && d <= 10
  {
    if d == 0 then 0 else Below(s, e, n, d - 1) + Count(s, e, n, d - 1)
  }

  /** `Below` grows with the digit. */
  lemma {:induction false} BelowMono(s: seq<int>, e: int, n: nat, c: nat, d: nat)
    requires 1 <= e && n <= |s| && c <= d <= 10
    ensures Below(s, e, n, c) <= Below(s, e, n, d)
    decreases d - c
  {
    if c < d {
      BelowMono(s, e, n, c, d - 1);
    }
  }

  /** Counting one more value adds one below every digit above its own. */
  lemma {:induction false} BelowStep(s: seq<int>, e: int, n: nat, d: nat)
    requires 1 <= e && n < |s| && d <= 10
    ensures Below(s, e, n + 1, d) == Below(s, e, n, d) + (if Digit(s[n], e) < d then 1 else 0)
  {
    if d > 0 {
      BelowStep(s, e, n, d - 1);
    }
  }

  /** No value counts below any digit in an empty prefix. */
  lemma {:induction false} BelowNone(s: seq<int>, e: int, d: nat)
    requires 1 <= e && d <= 10
    ensures Below(s, e, 0, d) == 0
  {
    if d > 0 {
      BelowNone(s, e, d - 1);
    }
  }

  /** Every value has a digit below 10. */
  lemma {:induction false} BelowAll(s: seq<int>, e: int, n: nat)
    requires 1 <= e && n <= |s|
    ensures Below(s, e, n, 10) == n
  {
    if n == 0 {
      BelowNone(s, e, 10);
    } else {
      BelowAll(s, e, n - 1);
      BelowStep(s, e, n - 1, 10);
    }
  }

  // ---------------------------------------------------------------------
  // Ranks: the stable sort by digit

  /**
   * Where a stable sort by the digit at `e` puts `s[i]`: behind every
   * value of a smaller digit and behind the values of its own digit that
   * come before it.
   */
  function Rank(s: seq<int>, e: int, i: nat): (p: nat)
    requires 1 <= e && i < |s|
  {
    Below(s, e, |s|, Digit(s[i], e)) + Count(s, e, i, Digit(s[i], e))
  }

  /** A rank lies inside the run of its digit, which lies inside the sequence. */
  lemma RankBounds(s: seq<int>, e: int, i: nat)
    requires 1 <= e && i < |s|
    ensures Below(s, e, |s|, Digit(s[i], e)) <= Rank(s, e, i) < Below(s, e, |s|, Digit(s[i], e) + 1) <= |s|
  {
    CountHit(s, e, i, |s|);
    BelowMono(s, e, |s|, Digit(s[i], e) + 1, 10);
    BelowAll(s, e, |s|);
  }

  /**
   * Stability: of two values, the one ranked first has the smaller digit,
   * or the same digit and the smaller index.
   */
  lemma RankOrder(s: seq<int>, e: int, i: nat, j: nat)
    requires 1 <= e && i < |s| && j < |s| && i != j
    ensures Rank(s, e, i) != Rank(s, e, j)
    ensures Rank(s, e, i) < Rank(s, e, j) <==>
      Digit(s[i], e) < Digit(s[j], e) || (Digit(s[i], e) == Digit(s[j], e) && i < j)
  {
    var di, dj := Digit(s[i], e), Digit(s[j], e);
    RankBounds(s, e, i);
    RankBounds(s, e, j);
    if di == dj {
      if i < j {
        CountHit(s, e, i, j);
      } else {
        CountHit(s, e, j, i);
      }
    } else if di < dj {
      BelowMono(s, e, |s|, di + 1, dj);
    } else {
      BelowMono(s, e, |s|, dj + 1, di);
    }
  }

  /** The `k`-th value of digit `d` among the first `m`. */
  function Nth(s: seq<int>, e: int, m: nat, d: int, k: nat): (i: nat)
    requires 1 <= e && m <= |s| && k < Count(s, e, m, d)
    ensures i < m && Digit(s[i], e) == d && Count(s, e, i, d) == k
    decreases m
  {
    if Count(s, e, m - 1, d) > k then Nth(s, e, m - 1, d, k) else m - 1
  }

  /** The digit whose run of ranks holds `p`, searching from `d`. */
  function RunFrom(s: seq<int>, e: int, p: nat, d: nat): (c: nat)
    requires 1 <= e && d < 10 && Below(s, e, |s|, d) <= p < |s|
    ensures d <= c < 10 && Below(s, e, |s|, c) <= p < Below(s, e, |s|, c + 1)
    decreases 10 - d
  {
    if p < Below(s, e, |s|, d + 1) then d
    else
      BelowAll(s, e, |s|);
      RunFrom(s, e, p, d + 1)
  }

  /** The index whose rank is `p`: every position is some value's rank. */
  function Source(s: seq<int>, e: int, p: nat): (i: nat)
    requires 1 <= e && p < |s|
    ensures i < |s| && Rank(s, e, i) == p
  {
    var c := RunFrom(s, e, p, 0);
    Nth(s, e, |s|, c, p - Below(s, e, |s|, c))
  }

  /** `t` holds every value of `s` at its rank: `s` stably sorted by the digit at `e`. */
  ghost predicate ByDigit(s: seq<int>, e: int, t: seq<int>)
    requires 1 <= e
  {
    |t| == |s| && forall i :: 0 <= i < |s| ==> Rank(s, e, i) < |t| && t[Rank(s, e, i)] == s[i]
  }

  /** The ranks determine the sorted sequence: two sequences with every value at its rank are equal. */
  lemma ByDigitUnique(s: seq<int>, e: int, t: seq<int>, u: seq<int>)
    requires 1 <= e && ByDigit(s, e, t) && ByDigit(s, e, u)
    ensures t == u
  {
    forall p | 0 <= p < |t|
      ensures t[p] == u[p]
    {
      var i := Source(s, e, p);
    }
  }

  /** A sequence holding each value of `s` at a position of its own is a rearrangement of `s`. */
  lemma {:induction false} PermByIndex(s: seq<int>, t: seq<int>, f: seq<nat>)
    requires |f| == |s| == |t|
    requires forall i :: 0 <= i < |s| ==> f[i] < |t| && t[f[i]] == s[i]
    requires forall i, j :: 0 <= i < j < |s| ==> f[i] != f[j]
    ensures multiset(t) == multiset(s)
    decreases |s|
  {
    if |s| > 0 {
      var n := |s| - 1;
      var p := f[n];
      var t' := t[..p] + t[p + 1..];
      var f' := seq(n, i requires 0 <= i < n => if f[i] <= p then f[i] else f[i] - 1);
      forall i | 0 <= i < n
        ensures f'[i] < |t'| && t'[f'[i]] == s[..n][i]
      {
        assert f[i] != p;
      }
      PermByIndex(s[..n], t', f');
      assert t == t[..p] + [t[p]] + t[p + 1..];
      assert s == s[..n] + [s[n]];
    }
  }

  /** `__count_sort` only rearranges the values. */
  lemma ByDigitPerm(s: seq<int>, e: int, t: seq<int>)
    requires 1 <= e && ByDigit(s, e, t)
    ensures multiset(t) == multiset(s)
  {
    var f := seq(|s|, i requires 0 <= i < |s| => Rank(s, e, i));
    forall i, j | 0 <= i < j < |s|
      ensures f[i] != f[j]
    {
      RankOrder(s, e, i, j);
    }
    PermByIndex(s, t, f);
  }

  /** A smaller digit at `e`, or the same digit and no larger remainder modulo `e`, means no larger remainder modulo `10 e`. */
  lemma DigitOrder(x: int, y: int, e: int)
    requires 0 <= x && 0 <= y && 1 <= e
    requires Digit(x, e) < Digit(y, e) || (Digit(x, e) == Digit(y, e) && x % e <= y % e)
    ensures x % (10 * e) <= y % (10 * e)
  {
    DigitSplit(x, e);
    DigitSplit(y, e);
    if Digit(x, e) < Digit(y, e) {
      MulGap(Digit(x, e), Digit(y, e), e);
    }
  }

  /**
   * The radix step: values in order of their remainders modulo `e`, stably
   * sorted by the digit at `e`, are in order of their remainders modulo
   * `10 e`.
   */
  lemma RadixStep(s: seq<int>, e: int, t: seq<int>)
    requires 1 <= e && NonNeg(s) && SortedMod(s, e) && ByDigit(s, e, t)
    ensures SortedMod(t, 10 * e)
  {
    forall p, q | 0 <= p < q < |t|
      ensures t[p] % (10 * e) <= t[q] % (10 * e)
    {
      var i, j := Source(s, e, p), Source(s, e, q);
      RankOrder(s, e, i, j);
      assert t[p] == s[i] && t[q] == s[j];
      if Digit(s[i], e) == Digit(s[j], e) {
        assert i < j;
        assert s[i] % e <= s[j] % e;
      }
      DigitOrder(s[i], s[j], e);
    }
  }

  /** A rearrangement keeps every value's bounds. */
  lemma PermBounded(s: seq<int>, t: seq<int>, max: int)
    requires multiset(t) == multiset(s)
    requires forall k :: 0 <= k < |s| ==> 0 <= s[k] <= max
    ensures forall k :: 0 <= k < |t| ==> 0 <= t[k] <= max
  {
    forall k | 0 <= k < |t|
      ensures 0 <= t[k] <= max
    {
      assert t[k] in multiset(s);
      var j :| 0 <= j < |s| && s[j] == t[k];
    }
  }

  /** Values below `m` in order of their remainders modulo `m` are in ascending order. */
  lemma SortedModAscending(s: seq<int>, m: int)
    requires 1 <= m && SortedMod(s, m)
    requires forall k :: 0 <= k < |s| ==> 0 <= s[k] < m
    ensures Ascending(s)
  {
    forall i, j | 0 <= i < j < |s|
      ensures s[i] <= s[j]
    {
      ModOfMultiple(s[i], 0, m, s[i]);
      ModOfMultiple(s[j], 0, m, s[j]);
    }
  }

  // ---------------------------------------------------------------------
  // __count_sort

  /** The first loop of `__count_sort`: `count[d]` is how many values have digit `d`. */
  method CountDigits(arr: array<int>, exp: int) returns (count: array<int>)
    requires 1 <= exp
    ensures fresh(count) && count.Length == 10
    ensures forall d :: 0 <= d < 10 ==> count[d] == Count(arr[..], exp, arr.Length, d)
  {
    count := new int[10](_ => 0);
    for i := 0 to arr.Length
      invariant forall d :: 0 <= d < 10 ==> count[d] == Count(arr[..], exp, i, d)
    {
      var d := Digit(arr[i], exp);
      count[d] := count[d] + 1;
    }
  }

  /** The second loop of `__count_sort`: running sums turn `count[d]` into how many values have a digit up to `d`. */
  method PrefixSums(count: array<int>, ghost s: seq<int>, exp: int)
    requires count.Length == 10 && 1 <= exp
    requires forall d :: 0 <= d < 10 ==> count[d] == Count(s, exp, |s|, d)
    modifies count
    ensures forall d :: 0 <= d < 10 ==> count[d] == Below(s, exp, |s|, d + 1)
  {
    for i := 1 to 10
      invariant forall d :: 0 <= d < i ==> count[d] == Below(s, exp, |s|, d + 1)
      invariant forall d :: i <= d < 10 ==> count[d] == Count(s, exp, |s|, d)
    {
      count[i] := count[i] + count[i - 1];
    }
  }

  /**
   * What the third loop of `__count_sort` keeps, having placed the values
   * from index `m` on: `count[d]` is where the run of digit `d` ends that
   * is still to fill ...
   */
  ghost predicate Counted(s: seq<int>, e: int, m: nat, count: seq<int>)
    requires 1 <= e && m <= |s|
  {
    |count| == 10 && forall d :: 0 <= d < 10 ==> count[d] == Below(s, e, |s|, d) + Count(s, e, m, d)
  }

  /** ... and every value from index `m` on sits at its rank in `o`. */
  ghost predicate PlacedFrom(s: seq<int>, e: int, m: nat, o: seq<int>)
    requires 1 <= e
  {
    |o| == |s| && forall j :: m <= j < |s| ==> Rank(s, e, j) < |o| && o[Rank(s, e, j)] == s[j]
  }

  /** Placing `s[i]` at `count[d] - 1` and counting it off keeps both. */
  lemma PlaceStep(s: seq<int>, e: int, i: nat, count: seq<int>, o: seq<int>)
    requires 1 <= e && i < |s| && Counted(s, e, i + 1, count) && PlacedFrom(s, e, i + 1, o)
    ensures count[Digit(s[i], e)] - 1 == Rank(s, e, i) < |o|
    ensures Counted(s, e, i, count[Digit(s[i], e) := count[Digit(s[i], e)] - 1])
    ensures PlacedFrom(s, e, i, o[Rank(s, e, i) := s[i]])
  {
    RankBounds(s, e, i);
    forall j | i < j < |s|
      ensures Rank(s, e, j) != Rank(s, e, i)
    {
      RankOrder(s, e, i, j);
    }
  }

  /** The body of the third loop of `__count_sort`: `v` goes to `count[d] - 1`, and `count[d]` counts it off. */
  method Put(output: array<int>, count: array<int>, d: int, v: int)
    requires output != count && 0 <= d < count.Length && 0 < count[d] <= output.Length
    modifies output, count
    ensures output[..] == old(output[..])[old(count[d]) - 1 := v]
    ensures count[..] == old(count[..])[d := old(count[d]) - 1]
  {
    output[count[d] - 1] := v;
    count[d] := count[d] - 1;
  }

  /**
   * The third loop of `__count_sort`: each value, from the last, goes to
   * the end of what is left of its digit's run, which is its rank.
   */
  method Place(arr: array<int>, count: array<int>, exp: int) returns (output: array<int>)
    requires count.Length == 10 && count != arr && 1 <= exp
    requires forall d :: 0 <= d < 10 ==> count[d] == Below(arr[..], exp, arr.Length, d + 1)
    modifies count
    ensures fresh(output) && ByDigit(arr[..], exp, output[..])
  {
    ghost var s := arr[..];
    var n := arr.Length;
    output := new int[n];
    var i: int := n - 1;
    while i >= 0
      invariant -1 <= i < n && arr[..] == s && output != count
      invariant Counted(s, exp, i + 1, count[..])
      invariant PlacedFrom(s, exp, i + 1, output[..])
    {
      ghost var c, o := count[..], output[..];
      var d := Digit(arr[i], exp);
      PlaceStep(s, exp, i, c, o);
      Put(output, count, d, arr[i]);
      i := i - 1;
    }
  }

  /**
   * `__count_sort(arr, nmemb, exp)`: counts the digits, sums the counts,
   * places the values from the last into a scratch array, and copies it
   * back, leaving the values stably sorted by digit.
   */
  method CountSort(arr: array<int>, exp: int)
    requires 1 <= exp && NonNeg(arr[..])
    modifies arr
    ensures ByDigit(old(arr[..]), exp, arr[..])
  {
    ghost var s := arr[..];
    var count := CountDigits(arr, exp);
    PrefixSums(count, arr[..], exp);
    var output := Place(arr, count, exp);
    ghost var o := output[..];
    for i := 0 to arr.Length
      invariant output[..] == o
      invariant forall p :: 0 <= p < i ==> arr[p] == o[p]
    {
      arr[i] := output[i];
    }
    assert arr[..] == o;
  }

  // ---------------------------------------------------------------------
  // __radix_sort

  /** `max / exp > 0` exactly when `exp <= max`. */
  lemma DivPositive(max: int, exp: int)
    requires 0 <= max && 1 <= exp
    ensures max / exp > 0 <==> exp <= max
  {
    var q, r := max / exp, max % exp;
    assert max == q * exp + r && 0 <= r < exp;
    if q >= 1 {
      MulAtLeast(q, exp);
    } else if q <= -1 {
      MulAtLeast(-q, exp);
    }
  }

  /** The first loop of `__radix_sort`: the largest value. */
  method Largest(arr: array<int>) returns (max: int)
    requires arr.Length >= 1 && NonNeg(arr[..])
    ensures 0 <= max && forall k :: 0 <= k < arr.Length ==> arr[k] <= max
    ensures max in arr[..]
  {
    max := arr[0];
    for i := 1 to arr.Length
      invariant 0 <= max && forall k :: 0 <= k < i ==> arr[k] <= max
      invariant max in arr[..i]
    {
      if arr[i] > max {
        max := arr[i];
      }
    }
  }

  /**
   * `__radix_sort(arr, nmemb)` for `nmemb` >= 1 non-negative values: finds
   * the largest value, then count-sorts by the digit at `exp` = 1, 10, ...
   * while the largest value has one, which leaves the values ascending.
   */
  method RadixSort(arr: array<int>)
    requires arr.Length >= 1 && NonNeg(arr[..])
    modifies arr
    ensures Ascending(arr[..]) && multiset(arr[..]) == multiset(old(arr[..]))
  {
    var max := Largest(arr);
    var exp := 1;
    DivPositive(max, exp);
    while max / exp > 0
      invariant 1 <= exp
      invariant multiset(arr[..]) == multiset(old(arr[..]))
      invariant forall k :: 0 <= k < arr.Length ==> 0 <= arr[k] <= max
      invariant SortedMod(arr[..], exp)
      invariant max / exp > 0 <==> exp <= max
      decreases max - exp
    {
      ghost var s := arr[..];
      CountSort(arr, exp);
      ByDigitPerm(s, exp, arr[..]);
      RadixStep(s, exp, arr[..]);
      PermBounded(s, arr[..], max);
      ghost var e := exp;
      exp := exp * 10;
      assert exp == 10 * e;
      DivPositive(max, exp);
    }
    SortedModAscending(arr[..], exp);
  }
}
