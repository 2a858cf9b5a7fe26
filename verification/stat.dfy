/**
 * File type and permission bits of `mode_t` (a 32-bit unsigned value) and the
 * open flags, shared by the ramdisk and by the `ls` mode formatter.
 */
module Stat {

  // File types: the field selected by S_IFMT.
  const S_IFMT: bv32 := 0xF000
  const S_IFIFO: bv32 := 0x1000
  const S_IFCHR: bv32 := 0x2000
  const S_IFDIR: bv32 := 0x4000
  const S_IFBLK: bv32 := 0x6000
  const S_IFREG: bv32 := 0x8000
  const S_IFLNK: bv32 := 0xA000
  const S_IFSOCK: bv32 := 0xC000

  // Permission bits.
  const S_IRUSR: bv32 := 0x100
  const S_IWUSR: bv32 := 0x080
  const S_IXUSR: bv32 := 0x040
  const S_IRGRP: bv32 := 0x020
  const S_IWGRP: bv32 := 0x010
  const S_IXGRP: bv32 := 0x008
  const S_IROTH: bv32 := 0x004
  const S_IWOTH: bv32 := 0x002
  const S_IXOTH: bv32 := 0x001

  // Open flags (`f_oflags`).
  const O_RDONLY: bv32 := 0x000
  const O_WRONLY: bv32 := 0x001
  const O_RDWR: bv32 := 0x002
  const O_CREAT: bv32 := 0x040
  const O_EXCL: bv32 := 0x080
  const O_APPEND: bv32 := 0x400
}
