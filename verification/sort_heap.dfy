/**
 * The heap sort of the kernel's sorting library: `__heapify` sifts an
 * element down a binary max-heap laid out in the array (the children of
 * node `i` are `2i + 1` and `2i + 2`), and `__heap_sort` builds the heap and
 * then repeatedly moves its root behind the shrinking heap.
 */
module HeapSort {

  import opened Sort

  /** The parent of node `k` > 0. */
  function Parent(k: nat): (p: nat)
    requires k > 0
    ensures 2 * p + 1 == k || 2 * p + 2 == k
  {
    (k - 1) / 2
  }

  /**
   * The first `n` elements of `s` satisfy the max-heap order at every node
   * from `lo` on: no child has a key above its parent's.
   */
  ghost predicate HeapFrom<T>(s: seq<T>, n: nat, lo: nat, key: T -> int)
    requires n <= |s|
  {
    forall k :: 0 < k < n && lo <= Parent(k) ==> key(s[k]) <= key(s[Parent(k)])
  }

  /**
   * What `__heapify(i)` may assume: the heap order holds at every node from
   * `lo` on except `i`, and `i`'s parent, when it is one of those nodes, is
   * not below `i`'s children.
   */
  ghost predicate HeapBut<T>(s: seq<T>, n: nat, lo: nat, i: nat, key: T -> int)
    requires n <= |s|
  {
    (forall k :: 0 < k < n && lo <= Parent(k) && Parent(k) != i ==> key(s[k]) <= key(s[Parent(k)])) &&
    (0 < i < n && lo <= Parent(i) ==>
      forall k :: 0 < k < n && Parent(k) == i ==> key(s[k]) <= key(s[Parent(i)]))
  }

  /** The root of a heap has the largest key. */
  lemma {:induction false} RootIsMax<T>(s: seq<T>, n: nat, k: nat, key: T -> int)
    requires n <= |s| && HeapFrom(s, n, 0, key) && k < n
    ensures key(s[k]) <= key(s[0])
    decreases k
  {
    if k > 0 {
      RootIsMax(s, n, Parent(k), key);
    }
  }

  /**
   * With `c` the child of `i` whose key is largest, and not below `i`'s own,
   * swapping the two leaves the heap order broken at most at `c`.
   */
  lemma SiftStep<T>(s: seq<T>, n: nat, lo: nat, i: nat, c: nat, key: T -> int)
    requires n <= |s| && lo <= i < c < n && Parent(c) == i
    requires HeapBut(s, n, lo, i, key)
    requires key(s[i]) <= key(s[c])
    requires forall k :: 0 < k < n && Parent(k) == i ==> key(s[k]) <= key(s[c])
    ensures HeapBut(s[i := s[c]][c := s[i]], n, lo, c, key)
  {
    var t := s[i := s[c]][c := s[i]];
    forall k | 0 < k < n && lo <= Parent(k) && Parent(k) != c
      ensures key(t[k]) <= key(t[Parent(k)])
    {
      var p := Parent(k);
      if p == i {
        assert t[p] == s[c];
        if k != c {
          assert t[k] == s[k];
        }
      } else if k == i {
        assert t[k] == s[c] && t[p] == s[p];
      } else {
        assert t[k] == s[k] && t[p] == s[p];
      }
    }
    forall k | 0 < k < n && Parent(k) == c
      ensures key(t[k]) <= key(t[Parent(c)])
    {
      assert t[k] == s[k] && t[i] == s[c];
    }
  }

  /** Where `i` is not below its children the heap order holds everywhere from `lo` on. */
  lemma SiftDone<T>(s: seq<T>, n: nat, lo: nat, i: nat, key: T -> int)
    requires n <= |s| && i < n && HeapBut(s, n, lo, i, key)
    requires forall k :: 0 < k < n && Parent(k) == i ==> key(s[k]) <= key(s[i])
    ensures HeapFrom(s, n, lo, key)
  {
  }

  /** The node among `i` and its children inside the first `n` elements with the largest key, the first of them on a tie. */
  function Largest<T>(a: array<T>, n: nat, i: nat, key: T -> int): (largest: nat)
    reads a
    requires n <= a.Length && i < n
    ensures largest < n && (largest == i || (i < largest && Parent(largest) == i))
    ensures key(a[i]) <= key(a[largest])
    ensures forall k :: 0 < k < n && Parent(k) == i ==> key(a[k]) <= key(a[largest])
  {
    var left := 2 * i + 1;
    var right := 2 * i + 2;
    var l := if left < n && key(a[left]) > key(a[i]) then left else i;
    if right < n && key(a[right]) > key(a[l]) then right else l
  }

  /**
   * `__heapify(base, nmemb, size, cmp, i)`: sifts the element at `i` down
   * until neither child has a larger key, restoring the heap order from
   * `lo` on within the first `n` elements and moving only those.
   */
  method Heapify<T>(a: array<T>, n: nat, i: nat, key: T -> int, ghost lo: nat)
    requires n <= a.Length && lo <= i < n
    requires HeapBut(a[..], n, lo, i, key)
    modifies a
    ensures HeapFrom(a[..], n, lo, key)
    ensures multiset(a[..n]) == multiset(old(a[..n])) && a[n..] == old(a[n..])
    decreases n - i
  {
    var largest := Largest(a, n, i, key);
    if largest != i {
      ghost var s := a[..];
      SiftStep(s, n, lo, i, largest, key);
      SwappedPerm(s, i, largest, 0, n);
      PermWithinRange(s, s[i := s[largest]][largest := s[i]], 0, n);
      Swap(a, i, largest);
      ghost var t := a[..];
      Heapify(a, n, largest, key, lo);
      assert multiset(a[..n]) == multiset(t[..n]) == multiset(s[..n]);
    } else {
      SiftDone(a[..], n, lo, i, key);
    }
  }

  /**
   * `__heap_sort` for at least one element: builds the heap from the last
   * parent down to the root, then swaps the root behind the heap and
   * sifts the new root down, shrinking the heap by one each time.
   */
  method HeapSort<T>(a: array<T>, key: T -> int)
    requires a.Length >= 1
    modifies a
    ensures Sorted(a[..], key) && multiset(a[..]) == multiset(old(a[..]))
  {
    var n := a.Length;
    var i: int := n / 2 - 1;
    while i >= 0
      invariant -1 <= i < n
      invariant HeapFrom(a[..], n, i + 1, key)
      invariant multiset(a[..]) == multiset(old(a[..]))
    {
      ghost var before := a[..];
      Heapify(a, n, i, key, i);
      assert a[..] == a[..n] && before == before[..n];
      i := i - 1;
    }
    i := n - 1;
    while i > 0
      invariant 0 <= i < n
      invariant HeapFrom(a[..], i + 1, 0, key)
      invariant Sorted(a[i + 1..], key)
      invariant forall q :: i < q < n ==> AllAtMost(a[..i + 1], key(a[q]), key)
      invariant multiset(a[..]) == multiset(old(a[..]))
    {
      ExtractMax(a, i, key);
      i := i - 1;
    }
    assert a[..] == a[..1] + a[1..];
    SortedConcat(a[..1], a[1..], key(a[0]), key);
  }

  /** Swapping the root of the heap `[0, i]` with its last element leaves a heap `[0, i)` broken at most at the root. */
  lemma SwapRoot<T>(s: seq<T>, i: nat, key: T -> int)
    requires 0 < i < |s| && HeapFrom(s, i + 1, 0, key)
    ensures HeapBut(s[0 := s[i]][i := s[0]], i, 0, 0, key)
  {
    var t := s[0 := s[i]][i := s[0]];
    forall k | 0 < k < i && Parent(k) != 0
      ensures key(t[k]) <= key(t[Parent(k)])
    {
      assert t[k] == s[k] && t[Parent(k)] == s[Parent(k)];
    }
  }

  /** The root of the heap `[0, i]` has the largest key of that range. */
  lemma RootBoundsHeap<T>(s: seq<T>, i: nat, key: T -> int)
    requires i < |s| && HeapFrom(s, i + 1, 0, key)
    ensures AllAtMost(s[..i + 1], key(s[0]), key)
  {
    forall k | 0 <= k <= i
      ensures key(s[k]) <= key(s[0])
    {
      RootIsMax(s, i + 1, k, key);
    }
  }

  /**
   * After a round no key left in the heap `[0, i)` is above a key of the
   * sorted part `[i, |u|)`: the heap holds the old heap's elements but its
   * root, and the old root, now at `i`, was the largest of them.
   */
  lemma ExtractBound<T>(s: seq<T>, t: seq<T>, u: seq<T>, i: nat, key: T -> int)
    requires 0 < i < |s| && t == s[0 := s[i]][i := s[0]] && |u| == |s|
    requires AllAtMost(s[..i + 1], key(s[0]), key)
    requires forall q :: i < q < |s| ==> AllAtMost(s[..i + 1], key(s[q]), key)
    requires multiset(u[..i]) == multiset(t[..i]) && u[i..] == t[i..]
    ensures forall q :: i <= q < |u| ==> AllAtMost(u[..i], key(u[q]), key)
  {
    SwappedPerm(s, 0, i, 0, i + 1);
    PermWithinRange(s, t, 0, i + 1);
    assert t[..i + 1] == t[..i] + [t[i]];
    forall q | i <= q < |u|
      ensures AllAtMost(u[..i], key(u[q]), key)
    {
      assert u[q] == t[q];
      assert AllAtMost(s[..i + 1], key(u[q]), key);
      PermBounds(t[..i + 1], s[..i + 1], key(u[q]), key);
      PermBounds(u[..i], t[..i], key(u[q]), key);
    }
  }

  /** After a round the sorted part grows by the old root in front. */
  lemma ExtractSorted<T>(s: seq<T>, u: seq<T>, i: nat, key: T -> int)
    requires 0 < i < |s| == |u| && u[i] == s[0] && u[i + 1..] == s[i + 1..]
    requires Sorted(s[i + 1..], key)
    requires forall q :: i < q < |s| ==> AllAtMost(s[..i + 1], key(s[q]), key)
    ensures Sorted(u[i..], key)
  {
    forall q | i < q < |s|
      ensures key(u[i]) <= key(s[q])
    {
      assert s[..i + 1][0] == s[0];
    }
    assert AllAtLeast(u[i + 1..], key(u[i]), key);
    assert u[i..] == [u[i]] + u[i + 1..];
    SortedConcat([u[i]], u[i + 1..], key(u[i]), key);
  }

  /** A swap followed by a rearrangement of the front keeps the elements. */
  lemma ExtractPerm<T>(s: seq<T>, t: seq<T>, u: seq<T>, i: nat)
    requires 0 < i < |s| && t == s[0 := s[i]][i := s[0]] && |u| == |s|
    requires multiset(u[..i]) == multiset(t[..i]) && u[i..] == t[i..]
    ensures multiset(u) == multiset(s)
  {
    SwappedPerm(s, 0, i, 0, |s|);
    assert u == u[..i] + u[i..] && t == t[..i] + t[i..];
    assert s[0..|s|] == s && t[0..|s|] == t;
  }

  /** One round of the second loop of `__heap_sort`: the root goes to `i` and the heap shrinks to `[0, i)`. */
  method ExtractMax<T>(a: array<T>, i: nat, key: T -> int)
    requires 0 < i < a.Length
    requires HeapFrom(a[..], i + 1, 0, key)
    requires Sorted(a[i + 1..], key)
    requires forall q :: i < q < a.Length ==> AllAtMost(a[..i + 1], key(a[q]), key)
    modifies a
    ensures HeapFrom(a[..], i, 0, key)
    ensures Sorted(a[i..], key)
    ensures forall q :: i <= q < a.Length ==> AllAtMost(a[..i], key(a[q]), key)
    ensures multiset(a[..]) == multiset(old(a[..]))
  {
    ghost var s := a[..];
    SwapRoot(s, i, key);
    Swap(a, 0, i);
    ghost var t := a[..];
    Heapify(a, i, 0, key, 0);
    ghost var u := a[..];
    assert u[i..] == t[i..];
    assert u[i] == t[i] == s[0];
    assert u[i + 1..] == t[i + 1..] == s[i + 1..];
    RootBoundsHeap(s, i, key);
    ExtractBound(s, t, u, i, key);
    ExtractSorted(s, u, i, key);
    ExtractPerm(s, t, u, i);
  }
}
