/**
 * The quick sort of the kernel's sorting library: the middle element is
 * copied as the pivot, two indices walk towards each other swapping
 * out-of-place pairs, and the two sides are sorted recursively. The model
 * sorts the `n` elements from index `lo` of an array, the source's
 * `base` pointer being `lo`.
 */
module QuickSort {

  import opened Sort

  /**
   * The first inner loop of `__quick_sort`: `i` moves up past elements
   * whose keys are below the pivot's. An element at `si` whose key is not
   * below keeps it inside the range.
   */
  method ScanUp<T>(a: array<T>, lo: nat, i: nat, kp: int, key: T -> int, ghost si: nat) returns (i1: nat)
    requires i <= si && lo + si < a.Length && kp <= key(a[lo + si])
    ensures i <= i1 <= si && kp <= key(a[lo + i1])
    ensures forall p :: lo + i <= p < lo + i1 ==> key(a[p]) < kp
  {
    i1 := i;
    while key(a[lo + i1]) < kp
      invariant i <= i1 <= si
      invariant forall p :: lo + i <= p < lo + i1 ==> key(a[p]) < kp
      decreases si - i1
    {
      i1 := i1 + 1;
    }
  }

  /**
   * The second inner loop of `__quick_sort`: `j` moves down past elements
   * whose keys are above the pivot's. An element at `sj` whose key is not
   * above keeps it from passing below `sj`.
   */
  method ScanDown<T>(a: array<T>, lo: nat, j: nat, kp: int, key: T -> int, ghost sj: nat) returns (j1: nat)
    requires sj <= j && lo + j < a.Length && key(a[lo + sj]) <= kp
    ensures sj <= j1 <= j && key(a[lo + j1]) <= kp
    ensures forall p :: lo + j1 < p <= lo + j ==> kp < key(a[p])
  {
    j1 := j;
    while key(a[lo + j1]) > kp
      invariant sj <= j1 <= j
      invariant forall p :: lo + j1 < p <= lo + j ==> kp < key(a[p])
      decreases j1
    {
      j1 := j1 - 1;
    }
  }

  /**
   * The state of the partition loop on the `n` elements from `lo`, with
   * pivot key `kp`: keys before `i` are not above `kp`, keys after `j` not
   * below it. Until the first swap (`i` = 0) `j` is still at the end and the
   * pivot's element in the middle; after it `j` has moved.
   */
  ghost predicate Parted<T>(s: seq<T>, lo: nat, n: nat, kp: int, key: T -> int, i: nat, j: nat)
  {
    2 <= n && lo + n <= |s| && i <= n && j < n &&
    (i == 0 ==> j == n - 1 && key(s[lo + n / 2]) == kp) &&
    (i > 0 ==> j < n - 1) &&
    (forall p :: lo <= p < lo + i ==> key(s[p]) <= kp) &&
    (forall p :: lo + j < p < lo + n ==> kp <= key(s[p]))
  }

  /**
   * The two scans of a round of the partition loop: `i` moves up past keys
   * below `kp`, then `j` moves down past keys above it. Neither leaves the
   * range: in the first round the pivot's element stops both, later the
   * elements already swapped do.
   */
  method Scans<T>(a: array<T>, lo: nat, n: nat, kp: int, key: T -> int, i0: nat, j0: nat) returns (i: nat, j: nat)
    requires Parted(a[..], lo, n, kp, key, i0, j0) && i0 <= j0
    ensures Scanned(a[..], lo, n, kp, key, i0, j0, i, j)
  {
    ghost var si := if i0 == 0 then n / 2 else j0 + 1;
    i := ScanUp(a, lo, i0, kp, key, si);
    ghost var sj := if i == 0 then n / 2 else if i - 1 <= j0 then i - 1 else j0;
    j := ScanDown(a, lo, j0, kp, key, sj);
  }

  /** The scans of a round stopped at `i` and `j`, having passed only keys below, respectively above, `kp`. */
  ghost predicate Scanned<T>(s: seq<T>, lo: nat, n: nat, kp: int, key: T -> int, i0: nat, j0: nat, i: nat, j: nat)
    requires lo + n <= |s|
  {
    i0 <= i < n && j <= j0 < n && kp <= key(s[lo + i]) && key(s[lo + j]) <= kp &&
    (forall p :: lo + i0 <= p < lo + i ==> key(s[p]) < kp) &&
    (forall p :: lo + j < p <= lo + j0 ==> kp < key(s[p])) &&
    (i0 == 0 ==> i <= n / 2 <= j)
  }

  /** When the scans cross the round ends the loop in a partitioned state. */
  lemma StopParted<T>(s: seq<T>, lo: nat, n: nat, kp: int, key: T -> int, i0: nat, j0: nat, i: nat, j: nat)
    requires Parted(s, lo, n, kp, key, i0, j0) && i0 <= j0
    requires Scanned(s, lo, n, kp, key, i0, j0, i, j) && j < i
    ensures Parted(s, lo, n, kp, key, i, j)
  {
  }

  /** When the scans have not crossed, swapping the pair they stopped at and stepping past it keeps the state partitioned. */
  lemma SwapParted<T>(s: seq<T>, lo: nat, n: nat, kp: int, key: T -> int, i0: nat, j0: nat, i: nat, j: nat)
    requires Parted(s, lo, n, kp, key, i0, j0) && i0 <= j0
    requires Scanned(s, lo, n, kp, key, i0, j0, i, j) && i <= j
    ensures 0 < j && Parted(s[lo + i := s[lo + j]][lo + j := s[lo + i]], lo, n, kp, key, i + 1, j - 1)
  {
    var t := s[lo + i := s[lo + j]][lo + j := s[lo + i]];
    assert key(t[lo + i]) <= kp && kp <= key(t[lo + j]);
  }

  /**
   * The swap of a round of the partition loop: the elements the scans
   * stopped at change places, which keeps the range a rearrangement of
   * `orig` and the state partitioned once both indices step past them.
   */
  method SwapPair<T>(a: array<T>, lo: nat, n: nat, kp: int, key: T -> int, ghost i0: nat, ghost j0: nat, i: nat, j: nat, ghost orig: seq<T>)
    requires Parted(a[..], lo, n, kp, key, i0, j0) && i0 <= j0
    requires Scanned(a[..], lo, n, kp, key, i0, j0, i, j) && i <= j
    requires PermWithin(a[..], orig, lo, lo + n)
    modifies a
    ensures 0 < j && Parted(a[..], lo, n, kp, key, i + 1, j - 1)
    ensures PermWithin(a[..], orig, lo, lo + n)
  {
    SwapParted(a[..], lo, n, kp, key, i0, j0, i, j);
    SwappedPermFrom(a[..], orig, lo + i, lo + j, lo, lo + n);
    Swap(a, lo + i, lo + j);
  }

  /**
   * What the partition loop leaves for the `n` elements from `lo`: the
   * indices have crossed inside the range, the keys up to `i` are not above
   * `kp` and those after `j` not below it.
   */
  ghost predicate Split<T>(s: seq<T>, lo: nat, n: nat, kp: int, key: T -> int, i: nat, j: nat)
  {
    lo + n <= |s| && 0 < i <= n && j < n - 1 && j < i &&
    (forall p :: lo <= p < lo + i ==> key(s[p]) <= kp) &&
    (forall p :: lo + j < p < lo + n ==> kp <= key(s[p]))
  }

  /**
   * The partition loop of `__quick_sort` on `n` >= 2 elements with the
   * pivot taken from the middle. It stops with `j` < `i`; the keys before
   * `i` are not above the pivot's, those after `j` not below it, and
   * neither index leaves the range, so the `usize` decrement of `j` never
   * wraps. Both sides are shorter than `n`.
   */
  method Partition<T>(a: array<T>, lo: nat, n: nat, pivot: T, key: T -> int) returns (i: nat, j: nat)
    requires 2 <= n && lo + n <= a.Length && a[lo + n / 2] == pivot
    modifies a
    ensures Split(a[..], lo, n, key(pivot), key, i, j)
    ensures PermWithin(a[..], old(a[..]), lo, lo + n)
  {
    var kp := key(pivot);
    i, j := 0, n - 1;
    while i <= j
      invariant Parted(a[..], lo, n, kp, key, i, j)
      invariant PermWithin(a[..], old(a[..]), lo, lo + n)
      decreases j - i + 1
    {
      ghost var i0, j0 := i, j;
      i, j := Scans(a, lo, n, kp, key, i, j);
      if i <= j {
        SwapPair(a, lo, n, kp, key, i0, j0, i, j, old(a[..]));
        i := i + 1;
        j := j - 1;
      } else {
        StopParted(a[..], lo, n, kp, key, i0, j0, i, j);
      }
    }
  }

  /**
   * The pieces after the two recursive calls: `[lo, lo + j]` sorted with
   * keys not above `kp`, `(lo + j, lo + i)` all with key `kp` and
   * `[lo + i, lo + n)` sorted with keys not below `kp` make a sorted range.
   */
  lemma JoinSorted<T>(r: seq<T>, lo: nat, n: nat, i: nat, j: nat, kp: int, key: T -> int)
    requires j < i <= n && lo + n <= |r|
    requires Sorted(r[lo..lo + j + 1], key) && AllAtMost(r[lo..lo + j + 1], kp, key)
    requires forall p :: lo + j < p < lo + i ==> key(r[p]) == kp
    requires Sorted(r[lo + i..lo + n], key) && AllAtLeast(r[lo + i..lo + n], kp, key)
    ensures Sorted(r[lo..lo + n], key)
  {
    var left, mid, right := r[lo..lo + j + 1], r[lo + j + 1..lo + i], r[lo + i..lo + n];
    assert AllAtLeast(mid, kp, key) && AllAtMost(mid, kp, key);
    SortedConcat(mid, right, kp, key);
    assert AllAtLeast(mid + right, kp, key);
    SortedConcat(left, mid + right, kp, key);
    assert r[lo..lo + n] == left + (mid + right);
  }

  /**
   * `__quick_sort(base + lo, n, size, cmp)`: sorts the `n` elements from
   * `lo` and changes nothing else. It recurses on `[0, j]` when `j` > 0 and
   * on `[i, n)` when `i` < `n`.
   */
  method QuickSort<T>(a: array<T>, lo: nat, n: nat, key: T -> int)
    requires lo + n <= a.Length
    modifies a
    ensures Sorted(a[lo..lo + n], key)
    ensures PermWithin(a[..], old(a[..]), lo, lo + n)
    decreases n
  {
    if n <= 1 {
      return;
    }
    var pivot := a[lo + n / 2];
    var i, j := Partition(a, lo, n, pivot, key);
    ghost var m := a[..];
    if j > 0 {
      QuickSort(a, lo, j + 1, key);
      assert lo + (j + 1) == lo + j + 1;
      assert Sorted(a[lo..lo + j + 1], key);
    } else {
      PermWithinRefl(m, lo, lo + 1);
      assert Sorted(a[lo..lo + j + 1], key);
    }
    assert PermWithin(a[..], m, lo, lo + j + 1);
    ghost var l := a[..];
    if i < n {
      QuickSort(a, lo + i, n - i, key);
      assert lo + i + (n - i) == lo + n;
      assert Sorted(a[lo + i..lo + n], key);
    } else {
      PermWithinRefl(l, lo + n, lo + n);
      assert a[lo + i..lo + n] == [];
    }
    assert PermWithin(a[..], l, lo + i, lo + n);
    QuickJoinSorted(m, l, a[..], lo, n, i, j, key(pivot), key);
    QuickJoinPerm(old(a[..]), m, l, a[..], lo, n, i, j);
  }

  /**
   * The two recursive calls finish the job: after the partition, sorting
   * `[lo, lo + j]` and `[lo + i, lo + n)` in place leaves `[lo, lo + n)`
   * sorted.
   */
  lemma QuickJoinSorted<T>(m: seq<T>, l: seq<T>, r: seq<T>, lo: nat, n: nat, i: nat, j: nat, kp: int, key: T -> int)
    requires Split(m, lo, n, kp, key, i, j)
    requires PermWithin(l, m, lo, lo + j + 1) && Sorted(l[lo..lo + j + 1], key)
    requires PermWithin(r, l, lo + i, lo + n) && Sorted(r[lo + i..lo + n], key)
    ensures Sorted(r[lo..lo + n], key)
  {
    assert AllAtMost(m[lo..lo + j + 1], kp, key);
    PermWithinKeeps(m, l, lo, lo + j + 1, kp, key);
    PermWithinKeeps(l, r, lo + i, lo + n, kp, key);
    assert AllAtLeast(l[lo + i..lo + n], kp, key) by {
      forall p | lo + i <= p < lo + n
        ensures l[p] == m[p]
      {
      }
    }
    JoinFacts(m, l, r, lo, n, i, j, kp, key);
    JoinSorted(r, lo, n, i, j, kp, key);
  }

  /** The partition and the two recursive calls each rearrange `[lo, lo + n)`, so together they do. */
  lemma QuickJoinPerm<T>(o: seq<T>, m: seq<T>, l: seq<T>, r: seq<T>, lo: nat, n: nat, i: nat, j: nat)
    requires j < i <= n && lo + n <= |o|
    requires PermWithin(m, o, lo, lo + n)
    requires PermWithin(l, m, lo, lo + j + 1) && PermWithin(r, l, lo + i, lo + n)
    ensures PermWithin(r, o, lo, lo + n)
  {
    PermWithinWiden(m, l, lo, lo, lo + j + 1, lo + n);
    PermWithinWiden(l, r, lo, lo + i, lo + n, lo + n);
    PermWithinTrans(o, m, l, lo, lo + n);
    PermWithinTrans(o, l, r, lo, lo + n);
  }

  /** What the two recursive calls leave in place: the left piece untouched by the right call, and the middle by both. */
  lemma JoinFacts<T>(m: seq<T>, l: seq<T>, r: seq<T>, lo: nat, n: nat, i: nat, j: nat, kp: int, key: T -> int)
    requires j < i <= n && lo + n <= |m| == |l| == |r|
    requires forall p :: 0 <= p < |m| && (p < lo || lo + j + 1 <= p) ==> l[p] == m[p]
    requires forall p :: 0 <= p < |l| && (p < lo + i || lo + n <= p) ==> r[p] == l[p]
    requires forall p :: lo <= p < lo + i ==> key(m[p]) <= kp
    requires forall p :: lo + j < p < lo + n ==> kp <= key(m[p])
    ensures r[lo..lo + j + 1] == l[lo..lo + j + 1]
    ensures forall p :: lo + j < p < lo + i ==> key(r[p]) == kp
  {
    assert forall p :: lo <= p < lo + j + 1 ==> r[p] == l[p];
  }
}
