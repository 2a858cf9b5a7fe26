/**
 * The kernel's freestanding string and memory routines (`kstd`).
 *
 * Memory is a byte array. A C string is a byte sequence that holds a NUL
 * (0) byte; its content is the bytes before the first NUL. `char` is a
 * signed byte on the kernel's target, so character comparisons and
 * differences use the signed value of a byte, while `memcmp` compares
 * unsigned bytes. `usize` is 32 bits wide.
 */
module CString {

  import opened Base

  /** Whether `s` holds a terminating NUL. */
  predicate Terminated(s: seq<bv8>)
  {
    0 in s
  }

  /** The value of a `char` byte: bytes from 0x80 up are negative. */
  function SChar(b: bv8): (r: int)
    ensures -128 <= r < 128
    ensures r < 0 <==> b >= 0x80
    ensures r % 256 == b as int
  {
    if b < 0x80 then b as int else b as int - 256
  }

  /** Distinct bytes are distinct `char`s. */
  lemma SCharInjective(a: bv8, b: bv8)
    requires a != b
    ensures SChar(a) != SChar(b)
  {
  }

  /** A value converted to `u8`, as `static_cast<u8>` does. */
  function U8(c: int): bv8
  {
    (c % 256) as bv8
  }

  /** The index of the first NUL of `s`: the length of the C string. */
  function Len(s: seq<bv8>): (n: nat)
    requires Terminated(s)
    ensures n < |s| && s[n] == 0
    ensures forall i :: 0 <= i < n ==> s[i] != 0
  {
    if s[0] == 0 then 0
    else
      assert 0 in s[1..] by {
        var z :| 0 <= z < |s| && s[z] == 0;
        assert s[1..][z - 1] == 0;
      }
      1 + Len(s[1..])
  }

  /** The first `n` characters of the content of `s` (all of it when shorter). */
  function Prefix(s: seq<bv8>, n: nat): (r: seq<bv8>)
    requires Terminated(s)
    ensures |r| == Min(n, Len(s)) && r == s[..|r|]
    ensures 0 !in r
  {
    s[..Min(n, Len(s))]
  }

  // ---- Memory routines ---------------------------------------------------

  /** `bzero`: the first `n` bytes of `s` become 0, the rest stay as they were. */
  method Bzero(s: array<bv8>, n: nat)
    requires n <= s.Length
    modifies s
    ensures forall i :: 0 <= i < s.Length ==> s[i] == if i < n then 0 else old(s[i])
  {
    var i := 0;
    while i < n
      invariant i <= n
      invariant forall k :: 0 <= k < s.Length ==> s[k] == if k < i then 0 else old(s[k])
    {
      s[i] := 0;
      i := i + 1;
    }
  }

  /** `memset`: the first `n` bytes of `s` become `c` converted to `u8`, the rest stay. */
  method Memset(s: array<bv8>, c: int, n: nat)
    requires n <= s.Length
    modifies s
    ensures forall i :: 0 <= i < s.Length ==> s[i] == if i < n then U8(c) else old(s[i])
  {
    var cc := U8(c);
    var i := 0;
    while i < n
      invariant i <= n
      invariant forall k :: 0 <= k < s.Length ==> s[k] == if k < i then cc else old(s[k])
    {
      s[i] := cc;
      i := i + 1;
    }
  }

  /**
   * How many bytes `memcpy` copies: it stops after `n` bytes or at the first
   * zero byte of `src`, whichever comes first.
   */
  function CopyLen(src: seq<bv8>, n: nat): (k: nat)
    requires n <= |src| || Terminated(src)
    ensures k <= n && k <= |src|
    ensures forall i :: 0 <= i < k ==> src[i] != 0
    ensures k == n || src[k] == 0
    ensures (n < |src| || Terminated(src)) ==> k < |src|
  {
    if n == 0 || src[0] == 0 then 0
    else
      assert n - 1 <= |src[1..]| || Terminated(src[1..]) by {
        if !(n <= |src|) {
          var z :| 0 <= z < |src| && src[z] == 0;
          assert src[1..][z - 1] == 0;
        }
      }
      1 + CopyLen(src[1..], n - 1)
  }

  /** `memcpy` copies all `n` bytes exactly when none of them is zero. */
  lemma {:induction false} CopyLenAll(src: seq<bv8>, n: nat)
    requires n <= |src|
    ensures CopyLen(src, n) == n <==> 0 !in src[..n]
  {
    if n > 0 && src[0] != 0 {
      CopyLenAll(src[1..], n - 1);
      assert src[..n] == [src[0]] + src[1..][..n - 1];
    }
  }

  /** With a zero as its second byte, a three-byte copy stops after one byte. */
  lemma CopyStopsAtZero()
    ensures CopyLen([1, 0, 2], 3) == 1
  {
    var s: seq<bv8> := [1, 0, 2];
    assert s[1..] == [0, 2];
  }

  /**
   * `memcpy` as written: copies bytes of `src` into `dest` until `n` bytes
   * are copied or a zero byte of `src` is reached; nothing is copied for
   * `n` = 0. The zero test is made before the count test, so `src` must be
   * readable one byte past a full copy.
   */
  method Memcpy(dest: array<bv8>, src: seq<bv8>, n: nat)
    requires n == 0 || n < |src| || Terminated(src)
    requires CopyLen(src, n) <= dest.Length
    modifies dest
    ensures dest[..CopyLen(src, n)] == src[..CopyLen(src, n)]
    ensures dest[CopyLen(src, n)..] == old(dest[CopyLen(src, n)..])
  {
    if n == 0 {
      return;
    }
    var k := CopyLen(src, n);
    var i := 0;
    var m := n;
    while src[i] != 0 && m > 0
      invariant i + m == n && i <= k
      decreases m
      invariant forall p :: 0 <= p < i ==> dest[p] == src[p]
      invariant forall p :: i <= p < dest.Length ==> dest[p] == old(dest[p])
    {
      dest[i] := src[i];
      m := m - 1;
      i := i + 1;
    }
    assert dest[..i] == src[..i];
  }

  /**
   * `memmove` within one memory `mem`: the `n` bytes at `dst` become the
   * `n` bytes that were at `src`, even when the two ranges overlap; it
   * copies forwards when `src` is above `dst` and backwards otherwise.
   */
  method Memmove(mem: array<bv8>, dst: nat, src: nat, n: nat)
    requires dst + n <= mem.Length && src + n <= mem.Length
    modifies mem
    ensures forall i :: dst <= i < dst + n ==> mem[i] == old(mem[i - dst + src])
    ensures forall i :: 0 <= i < mem.Length && !(dst <= i < dst + n) ==> mem[i] == old(mem[i])
  {
    if src > dst {
      var k := 0;
      while k < n
        invariant k <= n
        invariant forall i :: dst <= i < dst + k ==> mem[i] == old(mem[i - dst + src])
        invariant forall i :: 0 <= i < mem.Length && !(dst <= i < dst + k) ==> mem[i] == old(mem[i])
      {
        mem[dst + k] := mem[src + k];
        k := k + 1;
      }
    } else {
      var k := n;
      while k > 0
        invariant 0 <= k <= n
        invariant forall i :: dst + k <= i < dst + n ==> mem[i] == old(mem[i - dst + src])
        invariant forall i :: 0 <= i < mem.Length && !(dst + k <= i < dst + n) ==> mem[i] == old(mem[i])
      {
        mem[dst + k - 1] := mem[src + k - 1];
        k := k - 1;
      }
    }
  }

  /**
   * `memcmp`: 0 exactly when the first `n` bytes agree; otherwise the
   * difference of the first pair of unequal bytes, taken as unsigned.
   */
  method Memcmp(s1: seq<bv8>, s2: seq<bv8>, n: nat) returns (r: int)
    requires n <= |s1| && n <= |s2|
    ensures r == 0 <==> s1[..n] == s2[..n]
    ensures r != 0 ==> exists i :: 0 <= i < n && s1[..i] == s2[..i] && r == s1[i] as int - s2[i] as int
  {
    var i := 0;
    while i < n
      invariant i <= n && s1[..i] == s2[..i]
    {
      if s1[i] != s2[i] {
        assert s1[..n][i] != s2[..n][i];
        return s1[i] as int - s2[i] as int;
      }
      assert s1[..i + 1] == s1[..i] + [s1[i]] && s2[..i + 1] == s2[..i] + [s2[i]];
      i := i + 1;
    }
    return 0;
  }

  // ---- String routines ---------------------------------------------------

  /** `strlen`: the index of the first NUL. */
  method Strlen(s: seq<bv8>) returns (n: nat)
    requires Terminated(s)
    ensures n == Len(s)
  {
    n := 0;
    while s[n] != 0
      invariant n <= Len(s)
      decreases Len(s) - n
    {
      n := n + 1;
    }
  }

  /**
   * `strncmp`: 0 exactly when the contents agree on their first `n`
   * characters; otherwise the difference of the first pair of unequal
   * characters, taken as signed `char`s.
   */
  method Strncmp(s1: seq<bv8>, s2: seq<bv8>, n: nat) returns (r: int)
    requires Terminated(s1) && Terminated(s2)
    ensures r == 0 <==> Prefix(s1, n) == Prefix(s2, n)
    ensures r != 0 ==> exists i :: 0 <= i < n && i < |s1| && i < |s2| && s1[..i] == s2[..i] && s1[i] != s2[i] &&
                                 r == SChar(s1[i]) - SChar(s2[i])
  {
    var i := 0;
    while i < n && (s1[i] != 0 || s2[i] != 0)
      invariant i <= n && i <= Len(s1) && i <= Len(s2)
      invariant forall k :: 0 <= k < i ==> s1[k] == s2[k]
    {
      if s1[i] != s2[i] {
        PrefixesDiffer(s1, s2, n, i);
        SCharInjective(s1[i], s2[i]);
        assert s1[..i] == s2[..i];
        return SChar(s1[i]) - SChar(s2[i]);
      }
      i := i + 1;
    }
    assert Prefix(s1, n) == s1[..i] && Prefix(s2, n) == s2[..i];
    return 0;
  }

  /** Strings that first differ at index i < n differ in their first n characters. */
  lemma PrefixesDiffer(s1: seq<bv8>, s2: seq<bv8>, n: nat, i: nat)
    requires Terminated(s1) && Terminated(s2)
    requires i < n && i <= Len(s1) && i <= Len(s2) && s1[i] != s2[i]
    ensures Prefix(s1, n) != Prefix(s2, n)
  {
    var p1, p2 := Prefix(s1, n), Prefix(s2, n);
    assert |p1| != |p2| || p1[i] != p2[i];
  }

  /**
   * `strncpy`: copies the content of `src`, cut to `size` characters, into
   * `dest`, writes a NUL after it and returns the number of characters
   * copied; `dest` then holds that prefix as a C string.
   */
  method Strncpy(dest: array<bv8>, src: seq<bv8>, size: nat) returns (n: nat)
    requires Terminated(src) && Min(size, Len(src)) < dest.Length
    modifies dest
    ensures n == Min(size, Len(src))
    ensures dest[..n] == Prefix(src, size) && dest[n] == 0
    ensures dest[n + 1..] == old(dest[n + 1..])
    ensures Terminated(dest[..]) && Len(dest[..]) == n
  {
    n := 0;
    while src[n] != 0 && n < size
      invariant n <= Min(size, Len(src))
      invariant forall i :: 0 <= i < n ==> dest[i] == src[i]
      invariant forall i :: n <= i < dest.Length ==> dest[i] == old(dest[i])
      decreases size - n
    {
      dest[n] := src[n];
      n := n + 1;
    }
    dest[n] := 0;
    assert dest[..n] == src[..n];
    assert dest[n + 1..] == old(dest[n + 1..]);
    assert dest[..][n] == 0;
    assert forall i :: 0 <= i < n ==> dest[..][i] == dest[..n][i];
  }

  /**
   * `strncat`. With a null argument it returns 0. When `size` is at most
   * the length of `src` it returns `size` plus that length (in `usize`)
   * and appends nothing. Otherwise it appends the content of `src` to the
   * C string in `dest`, at most `size - strlen(dest)` characters (a `usize`
   * difference, which wraps when `dest` is longer than `size`), writes a
   * NUL after it and returns the sum of the two lengths.
   */
  method Strncat(dest: Option<array<bv8>>, src: Option<seq<bv8>>, size: nat) returns (r: nat)
    requires dest.Some? ==> Terminated(dest.value[..])
    requires src.Some? ==> Terminated(src.value)
    requires dest.Some? && src.Some? && size > Len(src.value) ==>
      Len(dest.value[..]) + Min(Len(src.value), U32(size - Len(dest.value[..]))) < dest.value.Length
    modifies if dest.Some? then {dest.value} else {}
    ensures dest.None? || src.None? ==> r == 0
    ensures dest.Some? && src.Some? && size <= Len(src.value) ==>
      r == U32(size + Len(src.value)) && dest.value[..] == old(dest.value[..])
    ensures dest.Some? && src.Some? && size > Len(src.value) ==>
      var d, s := old(Len(dest.value[..])), Len(src.value);
      var m := Min(s, U32(size - d));
      r == d + s && dest.value[..d] == old(dest.value[..d]) &&
      dest.value[d..d + m] == src.value[..m] && dest.value[d + m] == 0 &&
      dest.value[d + m + 1..] == old(dest.value[d + m + 1..])
  {
    if dest.None? || src.None? {
      return 0;
    }
    var a, s := dest.value, src.value;
    var destLen := Strlen(a[..]);
    var srcLen := Strlen(s);
    if size <= srcLen {
      return U32(size + srcLen);
    }
    AppendChars(a, destLen, s, U32(size - destLen));
    return destLen + srcLen;
  }

  /**
   * The appending half of `strncat`: copies the content of `src`, at most
   * `bound` characters, behind the `at` characters of `a` and writes a NUL
   * after it.
   */
  method AppendChars(a: array<bv8>, at: nat, src: seq<bv8>, bound: nat)
    requires Terminated(src) && at + Min(Len(src), bound) < a.Length
    modifies a
    ensures var m := Min(Len(src), bound);
      a[..at] == old(a[..at]) && a[at..at + m] == src[..m] && a[at + m] == 0 &&
      a[at + m + 1..] == old(a[at + m + 1..])
  {
    var i := CopyChars(a, at, src, bound);
    ghost var copied := a[..];
    a[at + i] := 0;
    assert a[..at + i] == copied[..at + i];
    assert a[at + i + 1..] == copied[at + i + 1..];
    assert a[..at] == copied[..at] && a[at..at + i] == copied[at..at + i];
  }

  /**
   * The copy loop of `strncat`: copies characters of `src` into `a` from
   * index `at` until the NUL of `src` or `bound` characters; returns how
   * many it copied.
   */
  method CopyChars(a: array<bv8>, at: nat, src: seq<bv8>, bound: nat) returns (i: nat)
    requires Terminated(src) && at + Min(Len(src), bound) <= a.Length
    modifies a
    ensures i == Min(Len(src), bound)
    ensures a[..at] == old(a[..at]) && a[at..at + i] == src[..i] && a[at + i..] == old(a[at + i..])
  {
    i := 0;
    while src[i] != 0 && i < bound
      invariant i <= Min(Len(src), bound)
      invariant forall p :: 0 <= p < at ==> a[p] == old(a[p])
      invariant forall k :: 0 <= k < i ==> a[at + k] == src[k]
      invariant forall p :: at + i <= p < a.Length ==> a[p] == old(a[p])
      decreases bound - i
    {
      a[at + i] := src[i];
      i := i + 1;
    }
    assert a[at..at + i] == src[..i];
  }

  /**
   * `strchr`: the first index, up to and including the terminating NUL,
   * whose character equals `c`; `None` for the null pointer.
   */
  method Strchr(s: seq<bv8>, c: int) returns (r: Option<nat>)
    requires Terminated(s)
    ensures r.Some? ==> r.value <= Len(s) && SChar(s[r.value]) == c &&
                        forall j :: 0 <= j < r.value ==> SChar(s[j]) != c
    ensures r.None? ==> forall j :: 0 <= j <= Len(s) ==> SChar(s[j]) != c
  {
    var i := 0;
    while s[i] != 0
      invariant i <= Len(s)
      invariant forall j :: 0 <= j < i ==> SChar(s[j]) != c
      decreases Len(s) - i
    {
      if SChar(s[i]) == c {
        return Some(i);
      }
      i := i + 1;
    }
    if SChar(s[i]) == c {
      return Some(i);
    }
    return None;
  }

  /**
   * `strrchr`: the last index, up to and including the terminating NUL,
   * whose character equals `c`; `None` for the null pointer.
   */
  method Strrchr(s: seq<bv8>, c: int) returns (r: Option<nat>)
    requires Terminated(s)
    ensures r.Some? ==> r.value <= Len(s) && SChar(s[r.value]) == c &&
                        forall j :: r.value < j <= Len(s) ==> SChar(s[j]) != c
    ensures r.None? ==> forall j :: 0 <= j <= Len(s) ==> SChar(s[j]) != c
  {
    var n := Strlen(s);
    if SChar(s[n]) == c {
      return Some(n);
    }
    var i: int := n;
    while i >= 0
      invariant -1 <= i <= n
      invariant forall j :: i < j <= n ==> SChar(s[j]) != c
    {
      if SChar(s[i]) == c {
        return Some(i);
      }
      i := i - 1;
    }
    return None;
  }

  /** Whether the (non-empty) content of `little` occurs in the content of `big` at index `i`. */
  predicate MatchAt(big: seq<bv8>, little: seq<bv8>, i: nat)
    requires Terminated(big) && Terminated(little)
  {
    Len(little) > 0 && i + Len(little) <= Len(big) && big[i..i + Len(little)] == little[..Len(little)]
  }

  /** A match at `i` begins with the first character of `little`. */
  lemma MatchStart(big: seq<bv8>, little: seq<bv8>, i: nat)
    requires Terminated(big) && Terminated(little)
    ensures MatchAt(big, little, i) ==> big[i] == little[0]
  {
    if MatchAt(big, little, i) {
      assert big[i..i + Len(little)][0] == little[..Len(little)][0];
    }
  }

  /** The inner loop of `strnstr`: how many characters of `little` match `big` from index `i` on. */
  method MatchLength(big: seq<bv8>, little: seq<bv8>, i: nat) returns (j: nat)
    requires Terminated(big) && Terminated(little) && i < Len(big)
    ensures j <= Len(little)
    ensures j == Len(little) <==> i + Len(little) <= Len(big) && big[i..i + Len(little)] == little[..Len(little)]
  {
    j := 0;
    while little[j] != 0
      invariant j <= Len(little) && i + j <= Len(big)
      invariant forall k :: 0 <= k < j ==> big[i + k] == little[k]
      decreases Len(little) - j
    {
      if big[i + j] != little[j] {
        if i + Len(little) <= Len(big) {
          assert big[i..i + Len(little)][j] != little[..Len(little)][j];
        }
        return;
      }
      j := j + 1;
    }
    assert big[i..i + j] == little[..j];
  }

  /**
   * `strnstr`: the first index below `len` at which the content of `little`
   * occurs in the content of `big`. A null `big` or `len` = 0 gives null, a
   * null `little` gives index 0, and an empty `little` is never found.
   * Only the start of the match is bounded by `len`.
   */
  method Strnstr(big: Option<seq<bv8>>, little: Option<seq<bv8>>, len: nat) returns (r: Option<nat>)
    requires big.Some? ==> Terminated(big.value)
    requires little.Some? ==> Terminated(little.value)
    ensures big.None? || len == 0 ==> r.None?
    ensures big.Some? && len > 0 && little.None? ==> r == Some(0)
    ensures big.Some? && len > 0 && little.Some? && r.Some? ==>
      r.value < len && MatchAt(big.value, little.value, r.value) &&
      forall i :: 0 <= i < r.value ==> !MatchAt(big.value, little.value, i)
    ensures big.Some? && len > 0 && little.Some? && r.None? ==>
      forall i :: 0 <= i < len ==> !MatchAt(big.value, little.value, i)
  {
    if big.None? || len == 0 {
      return None;
    }
    if little.None? {
      return Some(0);
    }
    var b, l := big.value, little.value;
    var littleLen := Strlen(l);
    var i := 0;
    while b[i] != 0 && i < len
      invariant i <= Len(b)
      invariant forall k :: 0 <= k < i ==> !MatchAt(b, l, k)
      decreases Len(b) - i
    {
      MatchStart(b, l, i);
      if b[i] == l[0] {
        var j := MatchLength(b, l, i);
        if j == littleLen {
          return Some(i);
        }
      }
      i := i + 1;
    }
    return None;
  }
}
