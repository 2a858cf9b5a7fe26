/**
 * `qsort`, the kernel's sorting entry point: arrays of 4-byte elements go
 * to the radix sort, which orders them as signed 32-bit values and never
 * calls the comparator; any other element size is sorted by the comparator
 * with the insertion sort for at most `QSORT_THRESHOLD` elements, else with
 * the heap sort when the depth limit is zero, else with the quick sort.
 *
 * Elements are modelled by their integer values, which the radix sort
 * compares directly and the other sorts compare through `key`.
 */
module QSort {

  import Sort
  import HeapSort
  import QuickSort
  import RadixSort

  /** Arrays of at most this many elements are insertion sorted. */
  const QSORT_THRESHOLD: nat := 16

  /** The size in bytes of an `s32`, the element size the radix sort handles. */
  const S32_SIZE: nat := 4

  /**
   * `qsort(base, nmemb, size, cmp)`. `depthLimitZero` says whether
   * `2 * log(size)` came out as zero. Every branch keeps the elements; the
   * radix branch sorts by value, the others by `key`, and the insertion
   * branch is the stable insertion sort.
   */
  method QSort(a: array<int>, size: nat, key: int -> int, depthLimitZero: bool)
    requires size == S32_SIZE ==> a.Length >= 1 && RadixSort.NonNeg(a[..])
    modifies a
    ensures multiset(a[..]) == multiset(old(a[..]))
    ensures size == S32_SIZE ==> RadixSort.Ascending(a[..])
    ensures size != S32_SIZE ==> Sort.Sorted(a[..], key)
    ensures size != S32_SIZE && a.Length <= QSORT_THRESHOLD ==>
      a[..] == Sort.InsertionSorted(old(a[..]), key)
  {
    if size == S32_SIZE {
      RadixSort.RadixSort(a);
      return;
    }
    if a.Length <= QSORT_THRESHOLD {
      ghost var s := a[..];
      Sort.InsertionSort(a, key);
      Sort.InsertionSortedSpec(s, key);
      return;
    }
    if depthLimitZero {
      HeapSort.HeapSort(a, key);
      return;
    }
    QuickSort.QuickSort(a, 0, a.Length, key);
    assert a[..] == a[0..0 + a.Length];
  }
}
