/**
 * The kernel's sorting library: the vocabulary shared by its sorts, the
 * element swap `__swap` and the insertion sort.
 *
 * The comparison sorts work on elements of any type through a comparator
 * `cmp(x, y)` whose sign orders them. The model takes the comparator as a
 * key function `key`: `cmp(x, y)` is negative, zero or positive as
 * `key(x)` is below, equal to or above `key(y)`. Element copies are
 * whole-element moves; see `SwapBytesAsWritten` for what the byte-wise
 * copies of the source do instead.
 */
module Sort {

  import CString

  /** `s` is in non-decreasing order of `key`. */
  ghost predicate Sorted<T>(s: seq<T>, key: T -> int)
  {
    forall i, j :: 0 <= i < j < |s| ==> key(s[i]) <= key(s[j])
  }

  /** Every element of `s` has a key of at most `v`. */
  ghost predicate AllAtMost<T>(s: seq<T>, v: int, key: T -> int)
  {
    forall k :: 0 <= k < |s| ==> key(s[k]) <= v
  }

  /** Every element of `s` has a key of at least `v`. */
  ghost predicate AllAtLeast<T>(s: seq<T>, v: int, key: T -> int)
  {
    forall k :: 0 <= k < |s| ==> v <= key(s[k])
  }

  /** A bound on the keys of a sequence holds for every rearrangement of it. */
  lemma PermBounds<T>(s: seq<T>, t: seq<T>, v: int, key: T -> int)
    requires multiset(s) == multiset(t)
    ensures AllAtMost(t, v, key) ==> AllAtMost(s, v, key)
    ensures AllAtLeast(t, v, key) ==> AllAtLeast(s, v, key)
  {
    forall k | 0 <= k < |s|
      ensures exists r :: 0 <= r < |t| && t[r] == s[k]
    {
      assert s[k] in multiset(s);
      assert s[k] in t;
    }
  }

  /**
   * `t` is `s` with the range `[lo, hi)` rearranged and everything outside
   * it unchanged: the two hold the same elements and agree outside the range.
   */
  ghost predicate PermWithin<T>(t: seq<T>, s: seq<T>, lo: nat, hi: nat)
  {
    |t| == |s| && lo <= hi <= |s| &&
    multiset(t) == multiset(s) && t[..lo] == s[..lo] && t[hi..] == s[hi..]
  }

  /** Leaving a sequence as it is rearranges every range of it. */
  lemma PermWithinRefl<T>(s: seq<T>, lo: nat, hi: nat)
    requires lo <= hi <= |s|
    ensures PermWithin(s, s, lo, hi)
  {
  }

  /** Two rearrangements of a range make one. */
  lemma PermWithinTrans<T>(s: seq<T>, t: seq<T>, u: seq<T>, lo: nat, hi: nat)
    requires PermWithin(t, s, lo, hi) && PermWithin(u, t, lo, hi)
    ensures PermWithin(u, s, lo, hi)
  {
  }

  /** A rearrangement of `[p, q)` is one of every range around it. */
  lemma PermWithinWiden<T>(s: seq<T>, t: seq<T>, lo: nat, p: nat, q: nat, hi: nat)
    requires PermWithin(t, s, p, q) && lo <= p && q <= hi <= |s|
    ensures PermWithin(t, s, lo, hi)
  {
    assert t[..lo] == t[..p][..lo] && s[..lo] == s[..p][..lo];
    assert t[hi..] == t[q..][hi - q..] && s[hi..] == s[q..][hi - q..];
  }

  /** A rearrangement of `[lo, hi)` holds in that range the elements `s` held there. */
  lemma PermWithinRange<T>(s: seq<T>, t: seq<T>, lo: nat, hi: nat)
    requires PermWithin(t, s, lo, hi)
    ensures multiset(t[lo..hi]) == multiset(s[lo..hi])
  {
    assert t == t[..lo] + t[lo..hi] + t[hi..];
    assert s == s[..lo] + s[lo..hi] + s[hi..];
    assert multiset(t) == multiset(t[..lo]) + multiset(t[lo..hi]) + multiset(t[hi..]);
    assert multiset(s) == multiset(s[..lo]) + multiset(s[lo..hi]) + multiset(s[hi..]);
    assert multiset(t[lo..hi]) == multiset(t) - multiset(t[..lo]) - multiset(t[hi..]);
    assert multiset(s[lo..hi]) == multiset(s) - multiset(s[..lo]) - multiset(s[hi..]);
  }

  /** A rearrangement of `[lo, hi)` keeps each element outside it and each bound on the keys inside it. */
  lemma PermWithinKeeps<T>(s: seq<T>, t: seq<T>, lo: nat, hi: nat, v: int, key: T -> int)
    requires PermWithin(t, s, lo, hi)
    ensures forall p :: 0 <= p < |s| && (p < lo || hi <= p) ==> t[p] == s[p]
    ensures AllAtMost(s[lo..hi], v, key) ==> AllAtMost(t[lo..hi], v, key)
    ensures AllAtLeast(s[lo..hi], v, key) ==> AllAtLeast(t[lo..hi], v, key)
  {
    PermWithinRange(s, t, lo, hi);
    PermBounds(t[lo..hi], s[lo..hi], v, key);
    forall p | 0 <= p < |s| && (p < lo || hi <= p)
      ensures t[p] == s[p]
    {
      if p < lo {
        assert t[..lo][p] == s[..lo][p];
      } else {
        assert t[hi..][p - hi] == s[hi..][p - hi];
      }
    }
  }

  /** Two sorted runs whose keys do not overlap make a sorted whole. */
  lemma SortedConcat<T>(s: seq<T>, t: seq<T>, v: int, key: T -> int)
    requires Sorted(s, key) && Sorted(t, key)
    requires AllAtMost(s, v, key) && AllAtLeast(t, v, key)
    ensures Sorted(s + t, key)
  {
    var st := s + t;
    forall i, j | 0 <= i < j < |st|
      ensures key(st[i]) <= key(st[j])
    {
      if j < |s| {
        assert st[i] == s[i] && st[j] == s[j];
      } else if i >= |s| {
        assert st[i] == t[i - |s|] && st[j] == t[j - |s|];
      } else {
        assert st[i] == s[i] && st[j] == t[j - |s|];
      }
    }
  }

  // ---------------------------------------------------------------------
  // __swap

  /** `memcpy(dest, src, n)` on values: it copies the bytes of `src` up to the first zero byte or `n` bytes. */
  function MemcpyBytes(dest: seq<bv8>, src: seq<bv8>, n: nat): (r: seq<bv8>)
    requires n <= |src| && n <= |dest|
    ensures |r| == |dest|
  {
    var k := CString.CopyLen(src, n);
    src[..k] + dest[k..]
  }

  /**
   * `__swap` as written: the three `memcpy` calls through the scratch
   * buffer `temp`, whose contents before the call are `scratch`. Returns the
   * new contents of the two elements.
   */
  function SwapBytesAsWritten(p1: seq<bv8>, p2: seq<bv8>, scratch: seq<bv8>): (r: (seq<bv8>, seq<bv8>))
    requires |p1| == |p2| == |scratch|
    ensures |r.0| == |p1| && |r.1| == |p1|
  {
    var size := |p1|;
    var temp := MemcpyBytes(scratch, p1, size);
    (MemcpyBytes(p1, p2, size), MemcpyBytes(p2, temp, size))
  }

  /** For elements without a zero byte the swap as written does exchange them. */
  lemma SwapBytesWithoutZeros(p1: seq<bv8>, p2: seq<bv8>, scratch: seq<bv8>)
    requires |p1| == |p2| == |scratch|
    requires 0 !in p1 && 0 !in p2
    ensures SwapBytesAsWritten(p1, p2, scratch) == (p2, p1)
  {
    var size := |p1|;
    assert p1[..size] == p1 && p2[..size] == p2;
    CString.CopyLenAll(p1, size);
    CString.CopyLenAll(p2, size);
    assert p1[size..] == [] && p2[size..] == [] && scratch[size..] == [];
    var temp := MemcpyBytes(scratch, p1, size);
    assert temp == p1;
    assert MemcpyBytes(p1, p2, size) == p2;
    assert MemcpyBytes(p2, temp, size) == p1;
  }

  /**
   * Swapping the one-byte elements 5 and 0 leaves 5 in both: the copy of the
   * zero element stops before its first byte, so the 0 is lost.
   */
  lemma SwapBytesLosesZero(scratch: seq<bv8>)
    requires |scratch| == 1
    ensures SwapBytesAsWritten([5], [0], scratch) == ([5], [5])
  {
    var five: seq<bv8> := [5];
    var zero: seq<bv8> := [0];
    assert CString.CopyLen(five, 1) == 1 by {
      assert five[1..] == [];
    }
    assert CString.CopyLen(zero, 1) == 0;
    var temp := MemcpyBytes(scratch, five, 1);
    assert temp == five;
    assert MemcpyBytes(five, zero, 1) == five;
    assert MemcpyBytes(zero, temp, 1) == five;
  }

  /** `__swap`, exchanging the elements at `i` and `j` whole. */
  method Swap<T>(a: array<T>, i: nat, j: nat)
    requires i < a.Length && j < a.Length
    modifies a
    ensures a[..] == old(a[..])[i := old(a[..])[j]][j := old(a[..])[i]]
  {
    var temp := a[i];
    a[i] := a[j];
    a[j] := temp;
  }

  /** A swap inside `[lo, hi)` rearranges that range and leaves the rest alone. */
  lemma SwappedPerm<T>(s: seq<T>, i: nat, j: nat, lo: nat, hi: nat)
    requires lo <= i < hi && lo <= j < hi && hi <= |s|
    ensures PermWithin(s[i := s[j]][j := s[i]], s, lo, hi)
  {
    var t := s[i := s[j]][j := s[i]];
    assert t[..lo] == s[..lo] && t[hi..] == s[hi..];
  }

  /** A swap inside `[lo, hi)` of a rearrangement of `orig` is still one. */
  lemma SwappedPermFrom<T>(s: seq<T>, orig: seq<T>, i: nat, j: nat, lo: nat, hi: nat)
    requires lo <= i < hi && lo <= j < hi && PermWithin(s, orig, lo, hi)
    ensures PermWithin(s[i := s[j]][j := s[i]], orig, lo, hi)
  {
    SwappedPerm(s, i, j, lo, hi);
    PermWithinTrans(orig, s, s[i := s[j]][j := s[i]], lo, hi);
  }

  // ---------------------------------------------------------------------
  // __insertion_sort

  /**
   * One step of the insertion sort: `x` goes behind the last element of `s`
   * whose key is not above its own, every element after that moving up.
   */
  function Insert<T>(s: seq<T>, x: T, key: T -> int): (r: seq<T>)
    ensures |r| == |s| + 1
  {
    if |s| == 0 || key(s[|s| - 1]) <= key(x) then s + [x]
    else Insert(s[..|s| - 1], x, key) + [s[|s| - 1]]
  }

  /** What the insertion sort leaves: every element inserted in turn. */
  function InsertionSorted<T>(s: seq<T>, key: T -> int): (r: seq<T>)
    ensures |r| == |s|
  {
    if |s| == 0 then [] else Insert(InsertionSorted(s[..|s| - 1], key), s[|s| - 1], key)
  }

  /** Inserting keeps the elements and adds `x`. */
  lemma {:induction false} InsertPerm<T>(s: seq<T>, x: T, key: T -> int)
    ensures multiset(Insert(s, x, key)) == multiset(s) + multiset{x}
  {
    if |s| > 0 && key(s[|s| - 1]) > key(x) {
      var f := s[..|s| - 1];
      InsertPerm(f, x, key);
      assert s == f + [s[|s| - 1]];
    }
  }

  /** Inserting into a sorted sequence gives a sorted sequence. */
  lemma {:induction false} InsertSorted<T>(s: seq<T>, x: T, key: T -> int)
    requires Sorted(s, key)
    ensures Sorted(Insert(s, x, key), key)
  {
    if |s| == 0 {
    } else if key(s[|s| - 1]) <= key(x) {
      SortedConcat(s, [x], key(x), key);
    } else {
      var f := s[..|s| - 1];
      var last := s[|s| - 1];
      InsertSorted(f, x, key);
      InsertPerm(f, x, key);
      assert AllAtMost(f, key(last), key);
      assert multiset(Insert(f, x, key)) == multiset(f + [x]);
      assert AllAtMost(f + [x], key(last), key);
      PermBounds(Insert(f, x, key), f + [x], key(last), key);
      SortedConcat(Insert(f, x, key), [last], key(last), key);
    }
  }

  /** The insertion sort's result is sorted and holds the same elements. */
  lemma {:induction false} InsertionSortedSpec<T>(s: seq<T>, key: T -> int)
    ensures Sorted(InsertionSorted(s, key), key)
    ensures multiset(InsertionSorted(s, key)) == multiset(s)
  {
    if |s| > 0 {
      var f := s[..|s| - 1];
      InsertionSortedSpec(f, key);
      InsertSorted(InsertionSorted(f, key), s[|s| - 1], key);
      InsertPerm(InsertionSorted(f, key), s[|s| - 1], key);
      assert s == f + [s[|s| - 1]];
    }
  }

  /**
   * Where `Insert` puts `x`: behind the first `j` elements when every later
   * element has a key above `key(x)` and the element before them does not.
   */
  lemma {:induction false} InsertSplit<T>(s: seq<T>, x: T, j: nat, key: T -> int)
    requires j <= |s|
    requires forall k :: j <= k < |s| ==> key(x) < key(s[k])
    requires j == 0 || key(s[j - 1]) <= key(x)
    ensures Insert(s, x, key) == s[..j] + [x] + s[j..]
  {
    if j < |s| {
      var f := s[..|s| - 1];
      InsertSplit(f, x, j, key);
      assert f[..j] == s[..j] && f[j..] + [s[|s| - 1]] == s[j..];
    } else {
      assert s[..j] == s && s[j..] == [];
    }
  }

  /**
   * The shifting loop of `__insertion_sort`: from `i` down, each element
   * before the gap whose key is above `key(tmp)` moves up one place.
   * Returns where the gap stopped.
   */
  method ShiftUp<T>(a: array<T>, i: nat, tmp: T, key: T -> int) returns (j: nat)
    requires i < a.Length
    modifies a
    ensures j <= i
    ensures forall k :: 0 <= k < j ==> a[k] == old(a[k])
    ensures forall k :: j < k <= i ==> a[k] == old(a[k - 1])
    ensures forall k :: i < k < a.Length ==> a[k] == old(a[k])
    ensures forall k :: j <= k < i ==> key(tmp) < key(old(a[k]))
    ensures j == 0 || key(a[j - 1]) <= key(tmp)
  {
    j := i;
    while j > 0 && key(a[j - 1]) > key(tmp)
      invariant j <= i
      invariant forall k :: 0 <= k < j ==> a[k] == old(a[k])
      invariant forall k :: j < k <= i ==> a[k] == old(a[k - 1])
      invariant forall k :: i < k < a.Length ==> a[k] == old(a[k])
      invariant forall k :: j <= k < i ==> key(tmp) < key(old(a[k]))
    {
      a[j] := a[j - 1];
      j := j - 1;
    }
  }

  /**
   * One round of `__insertion_sort`: the element at `i` is taken out, the
   * larger elements before it move up and it goes into the gap.
   */
  method InsertLast<T>(a: array<T>, i: nat, key: T -> int)
    requires i < a.Length
    modifies a
    ensures a[..i + 1] == Insert(old(a[..i]), old(a[i]), key)
    ensures a[i + 1..] == old(a[i + 1..])
  {
    ghost var s := a[..i];
    var tmp := a[i];
    var j := ShiftUp(a, i, tmp, key);
    InsertSplit(s, tmp, j, key);
    a[j] := tmp;
    assert a[..i + 1] == s[..j] + [tmp] + s[j..];
  }

  /** `__insertion_sort`: the array ends up as `InsertionSorted` of its old contents. */
  method InsertionSort<T>(a: array<T>, key: T -> int)
    modifies a
    ensures a[..] == InsertionSorted(old(a[..]), key)
  {
    ghost var s := a[..];
    var i := 1;
    while i < a.Length
      invariant a.Length == 0 || (1 <= i <= a.Length && a[..i] == InsertionSorted(s[..i], key) && a[i..] == s[i..])
    {
      InsertLast(a, i, key);
      assert s[..i + 1][..i] == s[..i];
      i := i + 1;
    }
    if a.Length > 0 {
      assert a[..] == a[..i] && s == s[..i];
    }
  }
}
