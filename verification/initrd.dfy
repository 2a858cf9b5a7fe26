/**
 * The initial ramdisk: a table of at most 16 in-memory files, each with a
 * name, 1 KiB of data, a size, permission bits, a descriptor, a state and
 * the flags it was opened with, together with one shared 1 KiB buffer
 * through which an opened file is read and written.
 *
 * Names are kept as their content (the bytes before the NUL); a path is a
 * C string, `None` standing for the null pointer. A freshly allocated
 * table slot is taken to be an empty file in state 0 (neither opened nor
 * closed).
 */
module Initrd {

  import opened Base
  import opened Stat
  import CString

  const INITRD_MAX_NAME_SIZE: nat := 64
  const INITRD_MAX_FILES: nat := 16
  const INITRD_FILE_SIZE: nat := 1024

  // File states.
  const INITRD_FILE_OPENED: nat := 1
  const INITRD_FILE_CLOSED: nat := 2

  /** One file of the table. */
  datatype File = File(name: seq<bv8>, data: seq<bv8>, size: nat, mode: bv32, fd: int,
                       state: nat, fileType: bv32, flags: bv32)

  /** What `stat` reports about a file. */
  datatype StatInfo = StatInfo(name: seq<bv8>, size: nat, mode: bv32, fd: int, fileType: bv32)

  /** The shape every slot keeps: a NUL-free name of at most 64 bytes, 1 KiB of data ending in a zero byte. */
  predicate WellFormed(f: File)
  {
    0 !in f.name && |f.name| <= INITRD_MAX_NAME_SIZE && |f.data| == INITRD_FILE_SIZE && f.data[INITRD_FILE_SIZE - 1] == 0
  }

  /** A stored name as the C string the routines compare. */
  function CName(name: seq<bv8>): (s: seq<bv8>)
    requires 0 !in name
    ensures CString.Terminated(s) && CString.Len(s) == |name| && s[..|name|] == name
  {
    var s := name + [0];
    assert s[|name|] == 0;
    s
  }

  /**
   * The bytes `strncmp` reads from a file's `name` field. A name shorter
   * than 64 bytes is followed by the NUL `strncpy` wrote after it. A 64-byte
   * name fills the array, and `strncpy` put its NUL at `name[64]`, the first
   * byte of `data`, which follows `name` in the record; so the bytes read
   * run on into the file's data. (The final zero is never reached: the
   * comparison stops after 1024 bytes, inside `data`.)
   */
  function NameBytes(f: File): (s: seq<bv8>)
    ensures CString.Terminated(s)
  {
    var s := f.name + (if |f.name| == INITRD_MAX_NAME_SIZE then f.data else []) + [0];
    assert s[|s| - 1] == 0;
    s
  }

  /**
   * Whether `get_index` takes a file for `path`:
   * `strncmp(name, path, INITRD_FILE_SIZE) == 0`, that is, the first 1024
   * bytes read from the name field equal those of the path.
   */
  predicate NameIs(f: File, path: seq<bv8>)
    requires CString.Terminated(path)
  {
    0 !in f.name && |f.name| <= INITRD_MAX_NAME_SIZE &&
    CString.Prefix(NameBytes(f), INITRD_FILE_SIZE) == CString.Prefix(path, INITRD_FILE_SIZE)
  }

  /** The C-string length of a NUL-free `a` followed by `b` is |a| plus that of `b`. */
  lemma LenAppend(a: seq<bv8>, b: seq<bv8>)
    requires 0 !in a && CString.Terminated(b)
    ensures CString.Terminated(a + b) && CString.Len(a + b) == |a| + CString.Len(b)
  {
    assert (a + b)[|a| + CString.Len(b)] == 0;
  }

  /** Extending a terminated string after its terminator keeps its C-string length. */
  lemma LenExtend(a: seq<bv8>, b: seq<bv8>)
    requires CString.Terminated(a)
    ensures CString.Terminated(a + b) && CString.Len(a + b) == CString.Len(a)
  {
    assert (a + b)[CString.Len(a)] == 0;
  }

  /** A 64-byte name runs on into the data, read up to its first zero. */
  lemma FullNamePrefix(name: seq<bv8>, data: seq<bv8>)
    requires 0 !in name && |name| == INITRD_MAX_NAME_SIZE
    requires |data| == INITRD_FILE_SIZE && data[INITRD_FILE_SIZE - 1] == 0
    ensures CString.Terminated(name + data + [0])
    ensures CString.Prefix(name + data + [0], INITRD_FILE_SIZE) ==
            name + CString.Prefix(data, INITRD_FILE_SIZE - INITRD_MAX_NAME_SIZE)
  {
    var s := name + data + [0];
    LenExtend(data, [0]);
    assert s == name + (data + [0]);
    LenAppend(name, data + [0]);
    var m := Min(INITRD_FILE_SIZE - INITRD_MAX_NAME_SIZE, CString.Len(data));
    assert s[..INITRD_MAX_NAME_SIZE + m] == name + data[..m];
  }

  /**
   * The first 1024 bytes `strncmp` reads from the name field, up to its
   * first zero: a short name alone, and a 64-byte name followed by the
   * file's data up to its first zero byte.
   */
  lemma NameBytesPrefix(f: File)
    requires WellFormed(f)
    ensures CString.Prefix(NameBytes(f), INITRD_FILE_SIZE) ==
            if |f.name| == INITRD_MAX_NAME_SIZE
            then f.name + CString.Prefix(f.data, INITRD_FILE_SIZE - INITRD_MAX_NAME_SIZE)
            else f.name
  {
    if |f.name| == INITRD_MAX_NAME_SIZE {
      FullNamePrefix(f.name, f.data);
    } else {
      LenAppend(f.name, [0]);
    }
  }

  /**
   * What the comparison of `get_index` amounts to. A name shorter than 64
   * bytes is taken for exactly the paths whose first 1024 bytes are the
   * name. A 64-byte name is taken for exactly the paths whose first 1024
   * bytes are the name followed by the file's data up to its first zero
   * byte, so once the data is not empty the name alone no longer finds the
   * file.
   */
  lemma NameIsStrncmp(f: File, path: seq<bv8>)
    requires CString.Terminated(path) && WellFormed(f)
    ensures |f.name| < INITRD_MAX_NAME_SIZE ==> (NameIs(f, path) <==> f.name == CString.Prefix(path, INITRD_FILE_SIZE))
    ensures |f.name| == INITRD_MAX_NAME_SIZE ==>
      (NameIs(f, path) <==> f.name + CString.Prefix(f.data, INITRD_FILE_SIZE - INITRD_MAX_NAME_SIZE) ==
                             CString.Prefix(path, INITRD_FILE_SIZE))
  {
    NameBytesPrefix(f);
  }

  /** The first live file from index `from` on named `path`, or -1: what `get_index` finds. */
  function FindName(fs: seq<File>, count: nat, path: seq<bv8>, from: nat): (k: int)
    requires count <= |fs| && CString.Terminated(path)
    ensures k == -1 || (from <= k < count && NameIs(fs[k], path))
    ensures forall i :: from <= i < count && (k == -1 || i < k) ==> !NameIs(fs[i], path)
    decreases count - from
  {
    if from >= count then -1
    else if NameIs(fs[from], path) then from
    else FindName(fs, count, path, from + 1)
  }

  /** Descriptors of the live files are non-negative, below `next`, and increase along the table. */
  predicate FdsIncreasing(fs: seq<File>, count: nat, next: int)
    requires count <= |fs|
  {
    0 <= next &&
    (forall i, j {:trigger fs[i].fd, fs[j].fd} :: 0 <= i < j < count ==> fs[i].fd < fs[j].fd) &&
    forall i {:trigger fs[i].fd} :: 0 <= i < count ==> 0 <= fs[i].fd < next
  }

  /** Replacing a file by one with the same descriptor keeps descriptors increasing. */
  lemma FdsSameFd(fs: seq<File>, count: nat, next: int, k: nat, g: File)
    requires count <= |fs| && FdsIncreasing(fs, count, next) && k < |fs| && g.fd == fs[k].fd
    ensures FdsIncreasing(fs[k := g], count, next)
  {
    var gs := fs[k := g];
    assert forall i :: 0 <= i < |fs| ==> gs[i].fd == fs[i].fd;
  }

  /** Increasing descriptors are unique. */
  lemma FdsUnique(fs: seq<File>, count: nat, next: int, i: nat, j: nat)
    requires count <= |fs| && FdsIncreasing(fs, count, next)
    requires i < count && j < count && fs[i].fd == fs[j].fd
    ensures i == j
  {
  }

  /** Appending a file with descriptor `next` keeps descriptors increasing, now below `next + 1`. */
  lemma FdsAppend(fs: seq<File>, count: nat, next: int, f: File)
    requires count < |fs| && FdsIncreasing(fs, count, next) && f.fd == next
    ensures FdsIncreasing(fs[count := f], count + 1, next + 1)
  {
    var gs := fs[count := f];
    assert forall i :: 0 <= i < count ==> gs[i] == fs[i];
  }

  /** The file `creat` writes into a slot whose state was `state`: the state is not reset. */
  function NewFile(path: seq<bv8>, mode: bv32, fd: int, state: nat): (f: File)
    requires CString.Terminated(path)
    ensures WellFormed(f) && f.size == 0 && f.data == Repeat(0, INITRD_FILE_SIZE) && f.fd == fd
    ensures f.name == CString.Prefix(path, INITRD_MAX_NAME_SIZE)
    ensures CString.Len(path) <= INITRD_MAX_NAME_SIZE ==> NameIs(f, path)
  {
    var f := File(CString.Prefix(path, INITRD_MAX_NAME_SIZE), Repeat(0, INITRD_FILE_SIZE), 0, mode, fd,
                  state, S_IFREG, 0);
    assert f.data[INITRD_FILE_SIZE - 1] == 0;
    NameIsStrncmp(f, path);
    assert f.data[0] == 0;
    f
  }

  /** What the shared buffer holds after `open`: zeros, then as much of `data` as `memcpy` copies of `size` bytes. */
  function Loaded(data: seq<bv8>, size: nat): (b: seq<bv8>)
    requires |data| == INITRD_FILE_SIZE && data[INITRD_FILE_SIZE - 1] == 0
    ensures |b| == INITRD_FILE_SIZE && b[INITRD_FILE_SIZE - 1] == 0
    ensures var k := CString.CopyLen(data, size);
      b[..k] == data[..k] && forall i :: k <= i < INITRD_FILE_SIZE ==> b[i] == 0
  {
    assert CString.Terminated(data);
    var k := CString.CopyLen(data, size);
    data[..k] + Repeat(0, INITRD_FILE_SIZE - k)
  }

  /** The first zero byte of `s` at or after `from`. */
  function ZeroFrom(s: seq<bv8>, from: nat): (z: nat)
    requires from < |s| && s[|s| - 1] == 0
    ensures from <= z < |s| && s[z] == 0
    ensures forall i :: from <= i < z ==> s[i] != 0
    decreases |s| - from
  {
    if s[from] == 0 then from else ZeroFrom(s, from + 1)
  }

  /** The shared buffer after writing the first `m` bytes of `src` at index `start`. */
  function Written(b: seq<bv8>, start: nat, src: seq<bv8>, m: nat): (r: seq<bv8>)
    requires start + m <= |b| && m <= |src|
    ensures |r| == |b| && r[start..start + m] == src[..m]
    ensures forall i :: 0 <= i < |b| && !(start <= i < start + m) ==> r[i] == b[i]
  {
    b[..start] + src[..m] + b[start + m..]
  }

  /**
   * Writing `m` > 0 bytes none of which is zero over a cleared buffer makes
   * `write` record size m - 1, and opening the file again then brings back
   * only m - 1 of those bytes.
   */
  lemma {:induction false} WriteSizeDropsLastByte(src: seq<bv8>, m: nat)
    requires 0 < m < INITRD_FILE_SIZE && m <= |src| && 0 !in src[..m]
    ensures var b := Written(Repeat(0, INITRD_FILE_SIZE), 0, src, m);
      ZeroFrom(b, m) == m &&
      CString.CopyLen(b, ZeroFrom(b, m) - 1) == m - 1 &&
      Loaded(b, ZeroFrom(b, m) - 1)[..m] == src[..m - 1] + [0]
  {
    var b := Written(Repeat(0, INITRD_FILE_SIZE), 0, src, m);
    assert b[m] == 0;
    assert b[..m] == src[..m];
    assert 0 !in b[..m - 1] by {
      assert b[..m - 1] == src[..m][..m - 1];
    }
    CString.CopyLenAll(b, m - 1);
    var l := Loaded(b, m - 1);
    assert l[..m] == l[..m - 1] + [l[m - 1]];
  }

  /** `creat` rejects a name already present, so once a short name is created `get_index` finds the new slot. */
  lemma CreatThenFind(fs: seq<File>, count: nat, path: seq<bv8>, f: File)
    requires count < |fs| && CString.Terminated(path) && NameIs(f, path)
    requires FindName(fs, count, path, 0) == -1
    ensures FindName(fs[count := f], count + 1, path, 0) == count
  {
    var gs := fs[count := f];
    assert gs[count] == f;
    assert forall i :: 0 <= i < count ==> gs[i] == fs[i];
  }

  /** A file created for a 64-byte path `p`, and the same file after `close` stored "xyz" as its data. */
  function FullNameFile(p: seq<bv8>, stored: bool): (f: File)
    requires |p| == INITRD_MAX_NAME_SIZE && 0 !in p
    ensures WellFormed(f) && f.name == p
  {
    LenAppend(p, [0]);
    var f := NewFile(p + [0], 0, 0, INITRD_FILE_OPENED);
    if stored then
      XyzData();
      f.(data := [0x78, 0x79, 0x7a] + Repeat(0, INITRD_FILE_SIZE - 3), state := INITRD_FILE_CLOSED)
    else f
  }

  /**
   * A 64-byte name stops finding its file once `close` stores data: create
   * `p` (64 bytes) and `get_index(p)` finds it; after a close whose buffer
   * holds "xyz", `get_index(p)` gives -1 and `get_index(p + "xyz")` finds it.
   */
  lemma FullNameRunsIntoData(p: seq<bv8>)
    requires |p| == INITRD_MAX_NAME_SIZE && 0 !in p
    ensures CString.Terminated(p + [0]) && CString.Terminated(p + [0x78, 0x79, 0x7a, 0])
    ensures FindName([FullNameFile(p, false)], 1, p + [0], 0) == 0
    ensures FindName([FullNameFile(p, true)], 1, p + [0], 0) == -1
    ensures FindName([FullNameFile(p, true)], 1, p + [0x78, 0x79, 0x7a, 0], 0) == 0
  {
    FullNameBefore(p);
    FullNameAfter(p);
  }

  /** Before any data is stored, the 64-byte path finds its file. */
  lemma FullNameBefore(p: seq<bv8>)
    requires |p| == INITRD_MAX_NAME_SIZE && 0 !in p
    ensures CString.Terminated(p + [0]) && NameIs(FullNameFile(p, false), p + [0])
  {
    LenAppend(p, [0]);
  }

  /** After "xyz" is stored, the path no longer finds the file and the path followed by "xyz" does. */
  lemma FullNameAfter(p: seq<bv8>)
    requires |p| == INITRD_MAX_NAME_SIZE && 0 !in p
    ensures CString.Terminated(p + [0]) && CString.Terminated(p + [0x78, 0x79, 0x7a, 0])
    ensures !NameIs(FullNameFile(p, true), p + [0])
    ensures NameIs(FullNameFile(p, true), p + [0x78, 0x79, 0x7a, 0])
  {
    var q := p + [0x78, 0x79, 0x7a, 0];
    LenAppend(p, [0]);
    assert q == p + ([0x78, 0x79, 0x7a] + [0]);
    LenAppend(p, [0x78, 0x79, 0x7a] + [0]);
    var g := FullNameFile(p, true);
    XyzData();
    NameIsStrncmp(g, p + [0]);
    NameIsStrncmp(g, q);
    assert CString.Prefix(q, INITRD_FILE_SIZE) == p + [0x78, 0x79, 0x7a];
  }

  /** The data `close` stores from a buffer holding "xyz": its first 960 bytes up to a zero are "xyz". */
  lemma XyzData()
    ensures var d: seq<bv8> := [0x78, 0x79, 0x7a] + Repeat(0, INITRD_FILE_SIZE - 3);
      CString.Terminated(d) && d[INITRD_FILE_SIZE - 1] == 0 &&
      CString.Prefix(d, INITRD_FILE_SIZE - INITRD_MAX_NAME_SIZE) == [0x78, 0x79, 0x7a]
  {
    var d: seq<bv8> := [0x78, 0x79, 0x7a] + Repeat(0, INITRD_FILE_SIZE - 3);
    assert d[3] == 0;
    LenAppend([0x78, 0x79, 0x7a], Repeat(0, INITRD_FILE_SIZE - 3));
  }

  /**
   * The comparison `get_index` evidently intends: the stored name, read as
   * the NUL-terminated string `CName` gives, against the path.
   */
  predicate IntendedNameIs(f: File, path: seq<bv8>)
    requires CString.Terminated(path)
  {
    0 !in f.name && CString.Prefix(CName(f.name), INITRD_FILE_SIZE) == CString.Prefix(path, INITRD_FILE_SIZE)
  }

  /**
   * With the intended comparison a file created for a path that fits is
   * found by exactly the paths that agree with it, whatever data is later
   * stored in it.
   */
  lemma IntendedNameKept(path: seq<bv8>, mode: bv32, fd: int, state: nat, d: seq<bv8>)
    requires CString.Terminated(path) && CString.Len(path) <= INITRD_MAX_NAME_SIZE
    ensures forall q :: CString.Terminated(q) ==>
      (IntendedNameIs(NewFile(path, mode, fd, state).(data := d), q) <==>
       CString.Prefix(q, INITRD_FILE_SIZE) == CString.Prefix(path, INITRD_FILE_SIZE))
  {
    var name := NewFile(path, mode, fd, state).name;
    assert CString.Prefix(CName(name), INITRD_FILE_SIZE) == name;
    assert name == CString.Prefix(path, INITRD_FILE_SIZE);
  }

  /** A file as `unlink` leaves it before the gap is closed: closed if it was open, its data cleared. */
  function Discarded(f: File): File
  {
    f.(state := if f.state == INITRD_FILE_OPENED then INITRD_FILE_CLOSED else f.state,
       data := Repeat(0, INITRD_FILE_SIZE))
  }

  /** The table after the shift loop of `unlink` closes the gap at `k`; slot `count - 1` keeps its contents. */
  function Shifted(s: seq<File>, count: nat, k: nat): (r: seq<File>)
    requires k < count <= |s|
    ensures |r| == |s|
    ensures forall i :: 0 <= i < k ==> r[i] == s[i]
    ensures forall i :: k <= i < count - 1 ==> r[i] == s[i + 1]
    ensures forall i :: count - 1 <= i < |s| ==> r[i] == s[i]
  {
    s[..k] + s[k + 1..count] + s[count - 1..]
  }

  /** Closing the gap keeps descriptors increasing over the one fewer live files. */
  lemma ShiftedFds(s: seq<File>, count: nat, next: int, k: nat)
    requires k < count <= |s| && FdsIncreasing(s, count, next)
    ensures FdsIncreasing(Shifted(s, count, k), count - 1, next)
  {
    var r := Shifted(s, count, k);
    forall i, j | 0 <= i < j < count - 1
      ensures r[i].fd < r[j].fd
    {
      var i' := if i < k then i else i + 1;
      var j' := if j < k then j else j + 1;
      assert r[i] == s[i'] && r[j] == s[j'] && i' < j';
    }
  }

  /** After `unlink` of the only live file named `path`, `get_index` no longer finds the name. */
  lemma {:induction false} UnlinkThenFind(fs: seq<File>, count: nat, path: seq<bv8>, g: File)
    requires count <= |fs| && CString.Terminated(path)
    requires FindName(fs, count, path, 0) != -1
    requires forall i :: FindName(fs, count, path, 0) < i < count ==> !NameIs(fs[i], path)
    ensures var k := FindName(fs, count, path, 0);
      FindName(Shifted(fs[k := g], count, k), count - 1, path, 0) == -1
  {
    var k := FindName(fs, count, path, 0);
    var r := Shifted(fs[k := g], count, k);
    forall i | 0 <= i < count - 1
      ensures !NameIs(r[i], path)
    {
      if i < k {
        assert r[i] == fs[i];
      } else {
        assert r[i] == fs[i + 1];
      }
    }
  }

  /** Whether a file's flags and mode let `read` through. */
  predicate CanRead(f: File)
  {
    f.flags & O_WRONLY == 0 && f.mode & S_IRUSR != 0
  }

  /** Whether a file's flags and mode let `write` through: `flags | O_RDONLY` is non-zero and the owner may write. */
  predicate CanWrite(f: File)
  {
    f.flags | O_RDONLY != 0 && f.mode & S_IWUSR != 0
  }

  /** Whether the file was opened for appending. */
  predicate Appends(f: File)
  {
    f.flags & O_APPEND != 0
  }

  /**
   * How many bytes `write` copies of the `n` asked for, starting at index
   * `start` of the shared buffer. Without O_APPEND it is bounded by the
   * room before the last byte; with O_APPEND both indices advance while
   * their sum is checked, so only about half that room can be used.
   */
  function WriteCount(append: bool, start: nat, n: nat): (m: nat)
    requires start < INITRD_FILE_SIZE
    ensures m <= n && start + m <= INITRD_FILE_SIZE - 1
    ensures !append ==> m == n || start + m == INITRD_FILE_SIZE - 1
    ensures append ==> m == n || INITRD_FILE_SIZE - 1 <= start + 2 * m <= INITRD_FILE_SIZE
  {
    if append then Min(n, (INITRD_FILE_SIZE - start) / 2) else Min(n, INITRD_FILE_SIZE - 1 - start)
  }

  /** The table with the size of file `k` set to `size`. */
  function Resized(fs: seq<File>, k: nat, size: nat): (r: seq<File>)
    requires k < |fs|
  {
    fs[k := fs[k].(size := size)]
  }

  /** Where `write` starts copying: at the end of the buffer's content with O_APPEND, at its start without. */
  function WriteStart(append: bool, b: seq<bv8>): (start: nat)
    requires |b| == INITRD_FILE_SIZE && b[INITRD_FILE_SIZE - 1] == 0
    ensures start < INITRD_FILE_SIZE && (append ==> b[start] == 0)
  {
    if append then ZeroFrom(b, 0) else 0
  }

  /** The shared buffer after the copy loops of `write`. */
  function AfterWrite(append: bool, b: seq<bv8>, src: seq<bv8>, n: nat): (r: seq<bv8>)
    requires |b| == INITRD_FILE_SIZE && b[INITRD_FILE_SIZE - 1] == 0 && |src| >= Min(n, INITRD_FILE_SIZE - 1)
    ensures |r| == INITRD_FILE_SIZE && r[INITRD_FILE_SIZE - 1] == 0
  {
    var start := WriteStart(append, b);
    Written(b, start, src, WriteCount(append, start, n))
  }

  /** The first zero byte of the buffer from the end of the copied bytes on: one more than what `write` returns. */
  function WriteEnd(append: bool, b: seq<bv8>, src: seq<bv8>, n: nat): (z: nat)
    requires |b| == INITRD_FILE_SIZE && b[INITRD_FILE_SIZE - 1] == 0 && |src| >= Min(n, INITRD_FILE_SIZE - 1)
    ensures z < INITRD_FILE_SIZE
  {
    var start := WriteStart(append, b);
    ZeroFrom(AfterWrite(append, b, src, n), start + WriteCount(append, start, n))
  }

  /** Appending 20 bytes behind 1000 bytes of content copies only 12 of them, though 23 would fit. */
  lemma AppendUsesHalfTheRoom()
    ensures WriteCount(true, 1000, 20) == 12 && WriteCount(false, 1000, 20) == 20
  {
  }

  /** Bytes written from the start without a zero among them read back: the content reaches at least their end. */
  lemma WrittenReadsBack(b: seq<bv8>, src: seq<bv8>, m: nat)
    requires |b| == INITRD_FILE_SIZE && b[INITRD_FILE_SIZE - 1] == 0
    requires m < INITRD_FILE_SIZE && m <= |src| && 0 !in src[..m]
    ensures var w := Written(b, 0, src, m);
      m <= ZeroFrom(w, 0) && w[..m] == src[..m]
  {
    var w := Written(b, 0, src, m);
    assert forall i :: 0 <= i < m ==> w[i] == src[..m][i];
  }

  /** The ramdisk: the file table, the live count, the next descriptor and the shared buffer. */
  class Ramdisk {
    var files: array<File>
    var count: nat
    var nextFd: int
    var buffer: array<bv8>

    /** The table has 16 well-formed slots and at most 16 live files whose descriptors increase. */
    ghost predicate TableValid()
      reads this, files
    {
      files.Length == INITRD_MAX_FILES && count <= INITRD_MAX_FILES &&
      (forall k {:trigger WellFormed(files[k])} :: 0 <= k < files.Length ==> WellFormed(files[k])) &&
      FdsIncreasing(files[..], count, nextFd)
    }

    /** A valid table, and a 1 KiB shared buffer whose last byte is zero, so every scan for a NUL stops inside it. */
    ghost predicate Valid()
      reads this, files, buffer
    {
      TableValid() && buffer.Length == INITRD_FILE_SIZE && buffer[INITRD_FILE_SIZE - 1] == 0
    }

    /** `init`: an empty table, descriptors from 0. */
    constructor ()
      ensures Valid() && fresh(files) && fresh(buffer)
      ensures count == 0 && nextFd == 0
    {
      files := new File[INITRD_MAX_FILES](_ => File([], Repeat(0, INITRD_FILE_SIZE), 0, 0, 0, 0, 0, 0));
      buffer := new bv8[INITRD_FILE_SIZE](_ => 0);
      count := 0;
      nextFd := 0;
    }

    /** What the shared buffer holds once slot `k` is opened. */
    ghost function LoadedFile(k: nat): seq<bv8>
      requires TableValid() && k < files.Length
      reads this, files
    {
      assert WellFormed(files[k]);
      Loaded(files[k].data, files[k].size)
    }

    /** `set_fd`: hands out the next descriptor. */
    method SetFd() returns (fd: int)
      modifies this
      ensures fd == old(nextFd) && nextFd == old(nextFd) + 1
      ensures files == old(files) && count == old(count) && buffer == old(buffer)
    {
      fd := nextFd;
      nextFd := nextFd + 1;
    }

    /** An assignment to slot `k` that keeps its descriptor. */
    method Store(k: nat, f: File)
      requires TableValid() && k < files.Length && WellFormed(f) && f.fd == files[k].fd
      modifies files
      ensures TableValid() && files[..] == old(files[..])[k := f]
    {
      FdsSameFd(files[..], count, nextFd, k, f);
      files[k] := f;
    }

    /** `get_index`: the first live file named `path`, or -1 (also for the null path). */
    method GetIndex(path: Option<seq<bv8>>) returns (r: int)
      requires TableValid() && (path.Some? ==> CString.Terminated(path.value))
      ensures path.None? ==> r == -1
      ensures path.Some? ==> r == FindName(files[..], count, path.value, 0)
    {
      if path.None? {
        return -1;
      }
      var i := 0;
      while i < count
        invariant i <= count
        invariant FindName(files[..], count, path.value, 0) == FindName(files[..], count, path.value, i)
      {
        assert WellFormed(files[i]);
        var c := CString.Strncmp(NameBytes(files[i]), path.value, INITRD_FILE_SIZE);
        if c == 0 {
          return i;
        }
        i := i + 1;
      }
      return -1;
    }

    /** `get_index_by_fd`: the live file with descriptor `fd`, or -1 (always for -1). */
    method GetIndexByFd(fd: int) returns (r: int)
      requires TableValid()
      ensures r == FindFd(files[..], count, fd)
      ensures r != -1 ==> 0 <= r < count && files[r].fd == fd
    {
      if fd == -1 {
        return -1;
      }
      var i := 0;
      while i < count
        invariant i <= count
        invariant forall k :: 0 <= k < i ==> files[k].fd != fd
      {
        if files[i].fd == fd {
          FindFdIs(files[..], count, nextFd, fd, i);
          return i;
        }
        i := i + 1;
      }
      FindFdIs(files[..], count, nextFd, fd, -1);
      return -1;
    }

    /**
     * `creat`: fails with -1 and no change when the table is full, the
     * path is null or a live file already has the name; otherwise fills
     * slot `count` (keeping that slot's state), hands out the next
     * descriptor, and returns it.
     */
    method Creat(path: Option<seq<bv8>>, mode: bv32) returns (fd: int)
      requires TableValid() && (path.Some? ==> CString.Terminated(path.value))
      modifies this, files
      ensures TableValid() && files == old(files) && buffer == old(buffer)
      ensures old(count) + 1 > INITRD_MAX_FILES || path.None? || old(FindName(files[..], count, path.value, 0)) != -1 ==>
        fd == -1 && files[..] == old(files[..]) && count == old(count) && nextFd == old(nextFd)
      ensures !(old(count) + 1 > INITRD_MAX_FILES || path.None? || old(FindName(files[..], count, path.value, 0)) != -1) ==>
        fd == old(nextFd) && nextFd == old(nextFd) + 1 && count == old(count) + 1 &&
        files[..] == old(files[..])[old(count) := NewFile(path.value, mode, old(nextFd), old(files[count].state))]
    {
      if count + 1 > INITRD_MAX_FILES {
        return -1;
      }
      var k := GetIndex(path);
      if path.None? || k != -1 {
        return -1;
      }
      var newFd := SetFd();
      var f := NewFile(path.value, mode, newFd, files[count].state);
      FdsAppend(files[..], count, newFd, f);
      files[count] := f;
      count := count + 1;
      return newFd;
    }

    /**
     * `close`: -1 for an unknown descriptor or a closed file; otherwise
     * copies the shared buffer into the file's data and marks it closed.
     */
    method Close(fd: int) returns (r: int)
      requires Valid()
      modifies files
      ensures Valid()
      ensures var k := old(FindFd(files[..], count, fd));
        (r == -1 <==> k == -1 || old(files[k].state) == INITRD_FILE_CLOSED) &&
        (r == -1 ==> files[..] == old(files[..])) &&
        (r != -1 ==> r == 0 && files[..] == old(files[..])[k := old(files[k]).(state := INITRD_FILE_CLOSED, data := buffer[..])])
    {
      var k := GetIndexByFd(fd);
      if k == -1 || files[k].state == INITRD_FILE_CLOSED {
        return -1;
      }
      assert WellFormed(files[k]);
      var data := CopyBuffer(files[k].data);
      Store(k, files[k].(state := INITRD_FILE_CLOSED, data := data));
      return 0;
    }

    /** The copy loop of `close`: `data` overwritten byte by byte with the shared buffer. */
    method CopyBuffer(data: seq<bv8>) returns (r: seq<bv8>)
      requires |data| == INITRD_FILE_SIZE && buffer.Length == INITRD_FILE_SIZE
      ensures r == buffer[..]
    {
      r := data;
      var i := 0;
      while i < INITRD_FILE_SIZE
        invariant i <= INITRD_FILE_SIZE && |r| == INITRD_FILE_SIZE
        invariant r[..i] == buffer[..i]
      {
        r := r[i := buffer[i]];
        i := i + 1;
      }
    }

    /**
     * `unlink`: -1 and no change for a null path, an empty table or an
     * unknown name; otherwise closes the file if it is open, clears its
     * data, shifts the later files down over it and drops the live count.
     */
    method Unlink(path: Option<seq<bv8>>) returns (r: int)
      requires Valid() && (path.Some? ==> CString.Terminated(path.value))
      modifies this, files
      ensures Valid() && files == old(files) && buffer == old(buffer) && nextFd == old(nextFd)
      ensures path.None? || old(count) == 0 || old(FindName(files[..], count, path.value, 0)) == -1 ==>
        r == -1 && files[..] == old(files[..]) && count == old(count)
      ensures !(path.None? || old(count) == 0 || old(FindName(files[..], count, path.value, 0)) == -1) ==>
        var k := old(FindName(files[..], count, path.value, 0));
        r == 0 && count == old(count) - 1 &&
        files[..] == Shifted(old(files[..])[k := Discarded(old(files[k]))], old(count), k)
    {
      if path.None? || count == 0 {
        return -1;
      }
      var k := GetIndex(path);
      if k == -1 {
        return -1;
      }
      r := UnlinkAt(k);
    }

    /** `unlink` once the file is found at slot `k`. */
    method UnlinkAt(k: nat) returns (r: int)
      requires Valid() && k < count
      modifies this, files
      ensures Valid() && files == old(files) && buffer == old(buffer) && nextFd == old(nextFd)
      ensures r == 0 && count == old(count) - 1
      ensures files[..] == Shifted(old(files[..])[k := Discarded(old(files[k]))], old(count), k)
    {
      DiscardAt(k);
      r := RemoveSlot(k);
    }

    /** The body of `unlink` before the shift: close the file if it is open, then zero its data. */
    method DiscardAt(k: nat)
      requires Valid() && k < count
      modifies files
      ensures Valid() && files[..] == old(files[..])[k := Discarded(old(files[k]))]
    {
      ghost var before := files[..];
      if files[k].state == INITRD_FILE_OPENED {
        FindFdIs(files[..], count, nextFd, files[k].fd, k);
        var closed := Close(files[k].fd);
      }
      assert WellFormed(files[k]);
      Store(k, files[k].(data := Repeat(0, INITRD_FILE_SIZE)));
      assert files[..] == before[k := Discarded(before[k])];
    }

    /** The shift loop of `unlink` followed by the decrement of the live count. */
    method RemoveSlot(k: nat) returns (r: int)
      requires TableValid() && k < count
      modifies this, files
      ensures TableValid() && files == old(files) && buffer == old(buffer) && nextFd == old(nextFd)
      ensures r == 0 && count == old(count) - 1 && files[..] == Shifted(old(files[..]), old(count), k)
    {
      ShiftedFds(files[..], count, nextFd, k);
      ShiftDown(k);
      count := count - 1;
      return 0;
    }

    /** The shift loop of `unlink`: each file after slot `k` moves down one slot. */
    method ShiftDown(k: nat)
      requires k < count <= files.Length
      modifies files
      ensures files[..] == Shifted(old(files[..]), count, k)
    {
      var j := k;
      while j < count - 1
        invariant k <= j <= count - 1
        invariant forall i :: 0 <= i < k ==> files[i] == old(files[i])
        invariant forall i :: k <= i < j ==> files[i] == old(files[i + 1])
        invariant forall i :: j <= i < files.Length ==> files[i] == old(files[i])
      {
        files[j] := files[j + 1];
        j := j + 1;
      }
      assert files[..] == Shifted(old(files[..]), count, k);
    }

    /**
     * `open`: -1 for a null path; for an unknown name, `creat` with mode 0
     * when the flags are exactly O_CREAT | O_EXCL and -1 otherwise; the
     * descriptor alone for a file already open; otherwise marks the file
     * open with `flags` and loads its data into the shared buffer.
     */
    method Open(path: Option<seq<bv8>>, flags: bv32) returns (fd: int)
      requires Valid() && (path.Some? ==> CString.Terminated(path.value))
      modifies this, files, buffer
      ensures Valid() && files == old(files) && buffer == old(buffer)
      ensures path.None? ==> fd == -1 && files[..] == old(files[..]) && count == old(count) && nextFd == old(nextFd)
      ensures path.Some? && old(FindName(files[..], count, path.value, 0)) == -1 ==>
        buffer[..] == old(buffer[..]) &&
        if flags != O_CREAT | O_EXCL || old(count) + 1 > INITRD_MAX_FILES then
          fd == -1 && files[..] == old(files[..]) && count == old(count) && nextFd == old(nextFd)
        else
          fd == old(nextFd) && nextFd == old(nextFd) + 1 && count == old(count) + 1 &&
          files[..] == old(files[..])[old(count) := NewFile(path.value, 0, old(nextFd), old(files[count].state))]
      ensures path.Some? && old(FindName(files[..], count, path.value, 0)) != -1 ==>
        var k := old(FindName(files[..], count, path.value, 0));
        fd == old(files[k].fd) && count == old(count) && nextFd == old(nextFd) &&
        if old(files[k].state) == INITRD_FILE_OPENED then
          files[..] == old(files[..]) && buffer[..] == old(buffer[..])
        else
          files[..] == old(files[..])[k := old(files[k]).(state := INITRD_FILE_OPENED, flags := flags)] &&
          buffer[..] == old(LoadedFile(k))
    {
      if path.None? {
        return -1;
      }
      var k := GetIndex(path);
      if k == -1 {
        fd := OpenMissing(path.value, flags);
        return;
      }
      fd := OpenAt(k, flags);
    }

    /** `open` of a name no file has: created with mode 0 under O_CREAT | O_EXCL exactly, else -1. */
    method OpenMissing(path: seq<bv8>, flags: bv32) returns (fd: int)
      requires Valid() && CString.Terminated(path) && FindName(files[..], count, path, 0) == -1
      modifies this, files
      ensures Valid() && files == old(files) && buffer == old(buffer) && buffer[..] == old(buffer[..])
      ensures if flags != O_CREAT | O_EXCL || old(count) + 1 > INITRD_MAX_FILES then
          fd == -1 && files[..] == old(files[..]) && count == old(count) && nextFd == old(nextFd)
        else
          fd == old(nextFd) && nextFd == old(nextFd) + 1 && count == old(count) + 1 &&
          files[..] == old(files[..])[old(count) := NewFile(path, 0, old(nextFd), old(files[count].state))]
    {
      if flags == O_CREAT | O_EXCL {
        fd := Creat(Some(path), 0);
      } else {
        fd := -1;
      }
    }

    /** `open` once the file is found at slot `k`. */
    method OpenAt(k: nat, flags: bv32) returns (fd: int)
      requires Valid() && k < count
      modifies files, buffer
      ensures Valid() && fd == old(files[k].fd)
      ensures old(files[k].state) == INITRD_FILE_OPENED ==>
        files[..] == old(files[..]) && buffer[..] == old(buffer[..])
      ensures old(files[k].state) != INITRD_FILE_OPENED ==>
        files[..] == old(files[..])[k := old(files[k]).(state := INITRD_FILE_OPENED, flags := flags)] &&
        buffer[..] == old(LoadedFile(k))
    {
      if files[k].state == INITRD_FILE_OPENED {
        return files[k].fd;
      }
      var f := files[k].(state := INITRD_FILE_OPENED, flags := flags);
      assert WellFormed(files[k]);
      Store(k, f);
      Load(f.data, f.size);
      return f.fd;
    }

    /** The loading step of `open`: the shared buffer cleared, then `size` bytes of `data` copied in by `memcpy`. */
    method Load(data: seq<bv8>, size: nat)
      requires buffer.Length == INITRD_FILE_SIZE && |data| == INITRD_FILE_SIZE && data[INITRD_FILE_SIZE - 1] == 0
      modifies buffer
      ensures buffer[..] == Loaded(data, size)
    {
      assert data[INITRD_FILE_SIZE - 1] == 0;
      CString.Bzero(buffer, INITRD_FILE_SIZE);
      CString.Memcpy(buffer, data, size);
      assert buffer[..] == Loaded(data, size);
    }

    /**
     * `read`: -1 for an unknown descriptor, a closed file, a null buffer or
     * a file without read access; otherwise copies the shared buffer's
     * content, at most `n` and at most 1024 bytes, into `buf`, terminates
     * it with a NUL and returns how many bytes it copied.
     */
    method Read(fd: int, buf: Option<array<bv8>>, n: nat) returns (r: int)
      requires Valid()
      requires buf.Some? ==> buf.value != buffer && buf.value.Length > Min(n, INITRD_FILE_SIZE - 1)
      modifies if buf.Some? then {buf.value} else {}
      ensures var k := old(FindFd(files[..], count, fd));
        var fails := k == -1 || old(files[k].state) == INITRD_FILE_CLOSED || fd < 0 || buf.None? || !CanRead(old(files[k]));
        (fails ==> r == -1 && (buf.Some? ==> buf.value[..] == old(buf.value[..]))) &&
        (!fails ==>
          var m := Min(ZeroFrom(buffer[..], 0), Min(n, INITRD_FILE_SIZE));
          r == m && buf.value[..m] == buffer[..m] && buf.value[m] == 0 &&
          buf.value[m + 1..] == old(buf.value[m + 1..]))
    {
      var k := GetIndexByFd(fd);
      if k == -1 || files[k].state == INITRD_FILE_CLOSED || fd < 0 || buf.None? || !CanRead(files[k]) {
        return -1;
      }
      var limit := n;
      if limit >= INITRD_FILE_SIZE {
        limit := INITRD_FILE_SIZE;
      }
      r := CopyOut(buf.value, limit);
    }

    /** The copy loop of `read`: the buffer's content, at most `limit` bytes, then a NUL. */
    method CopyOut(out: array<bv8>, limit: nat) returns (i: nat)
      requires buffer.Length == INITRD_FILE_SIZE && buffer[INITRD_FILE_SIZE - 1] == 0
      requires out != buffer && out.Length > Min(limit, INITRD_FILE_SIZE - 1)
      modifies out
      ensures i == Min(ZeroFrom(buffer[..], 0), limit)
      ensures out[..i] == buffer[..i] && out[i] == 0 && out[i + 1..] == old(out[i + 1..])
    {
      ghost var z := ZeroFrom(buffer[..], 0);
      i := 0;
      while buffer[i] != 0 && i < limit
        invariant i <= z && i <= limit
        invariant forall p :: 0 <= p < i ==> out[p] == buffer[p]
        invariant forall p :: i <= p < out.Length ==> out[p] == old(out[p])
        decreases limit - i
      {
        out[i] := buffer[i];
        i := i + 1;
      }
      out[i] := 0;
      assert out[..i] == buffer[..i];
      assert out[i + 1..] == old(out[i + 1..]);
    }

    /**
     * `write`: -1 for an unknown descriptor, a closed file, a null source
     * or a file without write access; otherwise copies `WriteCount` bytes
     * of `src` into the shared buffer, from its content's end with O_APPEND
     * and from its start without, then records as the file's size (a u32)
     * and returns (an s32) one less than the index of the first zero byte
     * from the end of the copied bytes on.
     */
    method Write(fd: int, src: Option<seq<bv8>>, n: nat) returns (r: int)
      requires Valid()
      requires src.Some? ==> |src.value| >= Min(n, INITRD_FILE_SIZE - 1)
      modifies files, buffer
      ensures Valid()
      ensures var k := old(FindFd(files[..], count, fd));
        var fails := k == -1 || old(files[k].state) == INITRD_FILE_CLOSED || src.None? || !CanWrite(old(files[k]));
        (fails ==> r == -1 && files[..] == old(files[..]) && buffer[..] == old(buffer[..])) &&
        (!fails ==>
          var append := Appends(old(files[k]));
          buffer[..] == AfterWrite(append, old(buffer[..]), src.value, n) &&
          r == WriteEnd(append, old(buffer[..]), src.value, n) - 1 &&
          files[..] == Resized(old(files[..]), k, U32(r)))
    {
      var k := GetIndexByFd(fd);
      if k == -1 || files[k].state == INITRD_FILE_CLOSED || src.None? || !CanWrite(files[k]) {
        return -1;
      }
      r := WriteAt(k, src.value, n);
    }

    /** `write` once the file is found at slot `k` and may be written. */
    method WriteAt(k: nat, src: seq<bv8>, n: nat) returns (r: int)
      requires Valid() && k < count && |src| >= Min(n, INITRD_FILE_SIZE - 1)
      modifies files, buffer
      ensures TableValid() && buffer[INITRD_FILE_SIZE - 1] == 0
      ensures buffer[..] == AfterWrite(Appends(old(files[k])), old(buffer[..]), src, n)
      ensures r == WriteEnd(Appends(old(files[k])), old(buffer[..]), src, n) - 1
      ensures files[..] == Resized(old(files[..]), k, U32(r))
    {
      ghost var table := files[..];
      var z := WriteBuffer(Appends(files[k]), src, n);
      assert files[..] == table;
      ghost var written := buffer[..];
      var size := z as int - 1;
      SetSize(k, U32(size));
      assert buffer[..] == written && buffer[INITRD_FILE_SIZE - 1] == 0;
      return size;
    }

    /** The size update of `write`. */
    method SetSize(k: nat, size: nat)
      requires TableValid() && k < files.Length
      modifies files
      ensures TableValid() && files[..] == Resized(old(files[..]), k, size)
    {
      assert WellFormed(files[k]);
      Store(k, files[k].(size := size));
    }

    /** The buffer part of `write`: the copy loops, the scan for the end of the content and its terminating NUL. */
    method WriteBuffer(append: bool, src: seq<bv8>, n: nat) returns (z: nat)
      requires buffer.Length == INITRD_FILE_SIZE && buffer[INITRD_FILE_SIZE - 1] == 0
      requires |src| >= Min(n, INITRD_FILE_SIZE - 1)
      modifies buffer
      ensures buffer[INITRD_FILE_SIZE - 1] == 0
      ensures buffer[..] == AfterWrite(append, old(buffer[..]), src, n)
      ensures z == WriteEnd(append, old(buffer[..]), src, n)
    {
      ghost var b := buffer[..];
      var i := CopyIn(append, src, n);
      z := ScanZero(i);
      buffer[z] := 0;
      assert buffer[..] == AfterWrite(append, b, src, n);
    }

    /** The copy loops of `write`: returns the index just past the copied bytes. */
    method CopyIn(append: bool, src: seq<bv8>, n: nat) returns (i: nat)
      requires buffer.Length == INITRD_FILE_SIZE && buffer[INITRD_FILE_SIZE - 1] == 0
      requires |src| >= Min(n, INITRD_FILE_SIZE - 1)
      modifies buffer
      ensures buffer[..] == AfterWrite(append, old(buffer[..]), src, n)
      ensures var start := WriteStart(append, old(buffer[..]));
        i == start + WriteCount(append, start, n)
    {
      if append {
        var start := ScanZero(0);
        i := AppendCopy(start, src, n);
      } else {
        i := OverwriteCopy(src, n);
      }
    }

    /** A scan `while (initrd_buffer[i]) i++` from `from`: the first zero byte at or after it. */
    method ScanZero(from: nat) returns (z: nat)
      requires buffer.Length == INITRD_FILE_SIZE && buffer[INITRD_FILE_SIZE - 1] == 0 && from < INITRD_FILE_SIZE
      ensures z == ZeroFrom(buffer[..], from)
    {
      ghost var target := ZeroFrom(buffer[..], from);
      z := from;
      while buffer[z] != 0
        invariant from <= z <= target
        decreases target - z
      {
        z := z + 1;
      }
    }

    /** The O_APPEND copy loop of `write`, from index `start` of the shared buffer. */
    method AppendCopy(start: nat, src: seq<bv8>, n: nat) returns (i: nat)
      requires buffer.Length == INITRD_FILE_SIZE && start < INITRD_FILE_SIZE
      requires |src| >= Min(n, INITRD_FILE_SIZE - 1)
      modifies buffer
      ensures var m := WriteCount(true, start, n);
        i == start + m && buffer[..] == Written(old(buffer[..]), start, src, m)
    {
      ghost var m := WriteCount(true, start, n);
      i := start;
      var j := 0;
      while j < n && i + j < INITRD_FILE_SIZE - 1
        invariant j <= m && i == start + j
        invariant forall p :: 0 <= p < INITRD_FILE_SIZE && !(start <= p < start + j) ==> buffer[p] == old(buffer[p])
        invariant forall p :: start <= p < start + j ==> buffer[p] == src[p - start]
      {
        buffer[i] := src[j];
        i := i + 1;
        j := j + 1;
      }
      assert buffer[..] == Written(old(buffer[..]), start, src, m);
    }

    /** The copy loop of `write` without O_APPEND, from the start of the shared buffer. */
    method OverwriteCopy(src: seq<bv8>, n: nat) returns (i: nat)
      requires buffer.Length == INITRD_FILE_SIZE
      requires |src| >= Min(n, INITRD_FILE_SIZE - 1)
      modifies buffer
      ensures var m := WriteCount(false, 0, n);
        i == m && buffer[..] == Written(old(buffer[..]), 0, src, m)
    {
      ghost var m := WriteCount(false, 0, n);
      i := 0;
      while i < n && i < INITRD_FILE_SIZE - 1
        invariant i <= m
        invariant forall p :: i <= p < INITRD_FILE_SIZE ==> buffer[p] == old(buffer[p])
        invariant forall p :: 0 <= p < i ==> buffer[p] == src[p]
      {
        buffer[i] := src[i];
        i := i + 1;
      }
      assert buffer[..] == Written(old(buffer[..]), 0, src, m);
    }

    /** `stat`: -1 and nothing for a null path or an unknown name; otherwise 0 and the file's name, size, mode, descriptor and type. */
    method Stat(path: Option<seq<bv8>>) returns (r: int, sb: Option<StatInfo>)
      requires TableValid() && (path.Some? ==> CString.Terminated(path.value))
      ensures path.None? || FindName(files[..], count, path.value, 0) == -1 ==> r == -1 && sb.None?
      ensures path.Some? && FindName(files[..], count, path.value, 0) != -1 ==>
        var f := files[FindName(files[..], count, path.value, 0)];
        r == 0 && sb == Some(StatInfo(f.name, f.size, f.mode, f.fd, f.fileType))
    {
      if path.None? {
        return -1, None;
      }
      var k := GetIndex(path);
      if k == -1 {
        return -1, None;
      }
      var f := files[k];
      assert WellFormed(f);
      var name := CString.Prefix(CName(f.name), INITRD_MAX_NAME_SIZE);
      assert name == f.name;
      return 0, Some(StatInfo(name, f.size, f.mode, f.fd, f.fileType));
    }
  }

  /** The index of the live file with descriptor `fd`, or -1: what `get_index_by_fd` finds. */
  function FindFd(fs: seq<File>, count: nat, fd: int): (k: int)
    requires count <= |fs|
    ensures -1 <= k < count
    ensures k == -1 <==> fd == -1 || forall i :: 0 <= i < count ==> fs[i].fd != fd
    ensures k != -1 ==> fs[k].fd == fd
  {
    if fd == -1 || count == 0 then -1
    else if fs[count - 1].fd == fd then count - 1
    else FindFd(fs, count - 1, fd)
  }

  /** With unique descriptors, any live index holding `fd` is the one `FindFd` names. */
  lemma FindFdIs(fs: seq<File>, count: nat, next: int, fd: int, k: int)
    requires count <= |fs| && FdsIncreasing(fs, count, next)
    requires k == -1 <==> fd == -1 || forall i :: 0 <= i < count ==> fs[i].fd != fd
    requires k != -1 ==> 0 <= k < count && fs[k].fd == fd
    ensures FindFd(fs, count, fd) == k
  {
    var f := FindFd(fs, count, fd);
    if k != -1 {
      FdsUnique(fs, count, next, f, k);
    }
  }
}
