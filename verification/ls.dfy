/**
 * The permission string of the shell's `ls`: a type letter followed by the
 * nine `rwx` letters of the user, group and other permission bits.
 */
module Ls {

  import opened Base
  import opened Stat

  /** The permission bits in display order, user first. */
  const PERM_BITS: seq<bv32> := [S_IRUSR, S_IWUSR, S_IXUSR, S_IRGRP, S_IWGRP, S_IXGRP, S_IROTH, S_IWOTH, S_IXOTH]
  /** The letter shown for each permission bit when it is set. */
  const PERM_CHARS: string := "rwxrwxrwx"
  /** Length of the permission string. */
  const MODE_LEN: nat := 10

  /** `get_type`: the type letter of the file type field of `mode`. */
  function GetType(mode: bv32): (c: char)
    ensures c == '?' <==> mode & S_IFMT !in {S_IFREG, S_IFDIR, S_IFCHR, S_IFBLK, S_IFIFO, S_IFSOCK, S_IFLNK}
    ensures c != '?' ==> TypeOfChar(c) == Some(mode & S_IFMT)
  {
    match mode & S_IFMT
    case 0x8000 => '-'
    case 0x4000 => 'd'
    case 0x2000 => 'c'
    case 0x6000 => 'b'
    case 0x1000 => 'p'
    case 0xC000 => 's'
    case 0xA000 => 'l'
    case _ => '?'
  }

  /** The file type a type letter stands for, the inverse of `GetType`. */
  function TypeOfChar(c: char): Option<bv32>
  {
    match c
    case '-' => Some(S_IFREG)
    case 'd' => Some(S_IFDIR)
    case 'c' => Some(S_IFCHR)
    case 'b' => Some(S_IFBLK)
    case 'p' => Some(S_IFIFO)
    case 's' => Some(S_IFSOCK)
    case 'l' => Some(S_IFLNK)
    case _ => None
  }

  /** The letter `c` when permission `bit` is set in `mode`, else '-'. */
  function Flag(mode: bv32, bit: bv32, c: char): char
  {
    if bit & mode != 0 then c else '-'
  }

  /** The letter shown for permission `k` (0 = user read, ..., 8 = other execute). */
  function PermChar(mode: bv32, k: nat): char
    requires k < |PERM_BITS|
  {
    Flag(mode, PERM_BITS[k], PERM_CHARS[k])
  }

  /** The ten characters `get_mode` writes for `mode`. */
  function ModeString(mode: bv32): (s: string)
    ensures |s| == MODE_LEN
  {
    [GetType(mode),
     Flag(mode, S_IRUSR, 'r'), Flag(mode, S_IWUSR, 'w'), Flag(mode, S_IXUSR, 'x'),
     Flag(mode, S_IRGRP, 'r'), Flag(mode, S_IWGRP, 'w'), Flag(mode, S_IXGRP, 'x'),
     Flag(mode, S_IROTH, 'r'), Flag(mode, S_IWOTH, 'w'), Flag(mode, S_IXOTH, 'x')]
  }

  /** Position 0 shows the type letter, positions 1..9 the permission letters in order. */
  lemma ModeStringLetters(mode: bv32)
    ensures ModeString(mode)[0] == GetType(mode)
    ensures forall k :: 0 <= k < 9 ==> ModeString(mode)[k + 1] == PermChar(mode, k)
  {
  }

  /** The permission bits a permission string displays. */
  function ParsePerms(s: string): (bits: bv32)
    requires |s| == MODE_LEN
  {
    (if s[1] == 'r' then S_IRUSR else 0) | (if s[2] == 'w' then S_IWUSR else 0) |
    (if s[3] == 'x' then S_IXUSR else 0) | (if s[4] == 'r' then S_IRGRP else 0) |
    (if s[5] == 'w' then S_IWGRP else 0) | (if s[6] == 'x' then S_IXGRP else 0) |
    (if s[7] == 'r' then S_IROTH else 0) | (if s[8] == 'w' then S_IWOTH else 0) |
    (if s[9] == 'x' then S_IXOTH else 0)
  }

  /** The permission string shows every permission bit of `mode`, and nothing else. */
  lemma ParsePermsOfModeString(mode: bv32)
    ensures ParsePerms(ModeString(mode)) == mode & 0x1FF
  {
    var s := ModeString(mode);
    ModeStringLetters(mode);
    assert s[1] == PermChar(mode, 0) && s[2] == PermChar(mode, 1) && s[3] == PermChar(mode, 2);
    assert s[4] == PermChar(mode, 3) && s[5] == PermChar(mode, 4) && s[6] == PermChar(mode, 5);
    assert s[7] == PermChar(mode, 6) && s[8] == PermChar(mode, 7) && s[9] == PermChar(mode, 8);
  }

  /**
   * `get_mode` depends on `mode` only through its type letter and its nine
   * permission bits: two modes print alike exactly when those agree.
   */
  lemma ModeStringEqual(m1: bv32, m2: bv32)
    ensures ModeString(m1) == ModeString(m2) <==> GetType(m1) == GetType(m2) && m1 & 0x1FF == m2 & 0x1FF
  {
    ModeStringLetters(m1);
    ModeStringLetters(m2);
    if ModeString(m1) == ModeString(m2) {
      ParsePermsOfModeString(m1);
      ParsePermsOfModeString(m2);
    }
    if GetType(m1) == GetType(m2) && m1 & 0x1FF == m2 & 0x1FF {
      forall k | 0 <= k < 9 ensures PermChar(m1, k) == PermChar(m2, k) {
        PermCharMasked(m1, k);
        PermCharMasked(m2, k);
      }
      assert ModeString(m1) == ModeString(m2);
    }
  }

  /** A permission letter looks only at the nine permission bits. */
  lemma PermCharMasked(mode: bv32, k: nat)
    requires k < |PERM_BITS|
    ensures PermChar(mode, k) == PermChar(mode & 0x1FF, k)
  {
    var b := PERM_BITS[k];
    assert b & 0x1FF == b;
    assert b & mode == b & (mode & 0x1FF);
  }

  /** `get_mode`: writes the permission string into `buffer[0..10)`. */
  method GetMode(buffer: array<char>, mode: bv32)
    requires buffer.Length >= MODE_LEN
    modifies buffer
    ensures buffer[..MODE_LEN] == ModeString(mode)
    ensures buffer[MODE_LEN..] == old(buffer[MODE_LEN..])
  {
    // the ten stores of `get_mode`, one per position, written as one parallel assignment
    var s := ModeString(mode);
    forall i | 0 <= i < MODE_LEN {
      buffer[i] := s[i];
    }
    assert buffer[..MODE_LEN] == s;
  }
}
