/**
 * Page directory / page table index and entry macros of 32-bit paging
 * (section 4.3 of the Intel SDM Vol. 3A): a linear address splits into a
 * 10-bit directory index, a 10-bit table index and a 12-bit offset; an entry
 * holds a frame address in its upper bits and attribute flags below.
 */
module Vmm {

  const TABLES_PER_DIR: nat := 1024
  const PAGES_PER_TABLE: nat := 1024
  const PAGE_SIZE: nat := 4096

  // Page table entry flags.
  const PTE_PRESENT: bv32 := 0x01
  const PTE_READ_WRITE: bv32 := 0x02
  const PTE_USER: bv32 := 0x04
  const PTE_WRITE_THROUGH: bv32 := 0x08
  const PTE_CACHE_DISABLE: bv32 := 0x10
  const PTE_ACCESSED: bv32 := 0x20
  const PTE_DIRTY: bv32 := 0x40
  const PTE_PAT: bv32 := 0x80
  const PTE_GLOBAL: bv32 := 0x100
  const PTE_FRAME: bv32 := 0x7FFF_F000

  // Page directory entry flags.
  const PDE_PRESENT: bv32 := 0x01
  const PDE_READ_WRITE: bv32 := 0x02
  const PDE_USER: bv32 := 0x04
  const PDE_WRITE_THROUGH: bv32 := 0x08
  const PDE_CACHE_DISABLE: bv32 := 0x10
  const PDE_ACCESSED: bv32 := 0x20
  const PDE_DIRTY: bv32 := 0x40
  const PDE_PAGE_SIZE: bv32 := 0x80
  const PDE_GLOBAL: bv32 := 0x100
  const PDE_PAT: bv32 := 0x2000
  const PDE_FRAME: bv32 := 0x7FFF_F000

  /** `PD_INDEX`: the directory slot of a linear address. */
  function PdIndex(addr: bv32): (r: bv32)
    ensures r < TABLES_PER_DIR as bv32
    ensures (r << 22) | (PtIndex(addr) << 12) | (addr & 0xFFF) == addr
  {
    addr >> 22
  }

  /** `PT_INDEX`: the table slot of a linear address. */
  function PtIndex(addr: bv32): (r: bv32)
    ensures r < PAGES_PER_TABLE as bv32
  {
    (addr >> 12) & 0x3FF
  }

  /** `PAGE_PADDRESS`: the entry with its low twelve (flag) bits cleared. */
  function PageAddress(entry: bv32): (r: bv32)
    ensures r & 0xFFF == 0
    ensures r | (entry & 0xFFF) == entry
  {
    entry & !0xFFF
  }

  /** `TEST_ATTRIBUTE`: the bits of `attr` that are set in the entry. */
  function TestAttribute(entry: bv32, attr: bv32): (r: bv32)
    ensures r & !attr == 0
    ensures r & !entry == 0
  {
    entry & attr
  }

  /** `SET_ATTRIBUTE`: sets the bits of `attr` and only those. */
  function SetAttribute(entry: bv32, attr: bv32): (r: bv32)
    ensures TestAttribute(r, attr) == attr
    ensures r & !attr == entry & !attr
  {
    entry | attr
  }

  /** `CLEAR_ATTRIBUTE`: clears the bits of `attr` and only those. */
  function ClearAttribute(entry: bv32, attr: bv32): (r: bv32)
    ensures TestAttribute(r, attr) == 0
    ensures r & !attr == entry & !attr
  {
    entry & !attr
  }

  /** `SET_FRAME`: replaces bits 12..30 of the entry with a frame address. */
  function SetFrame(entry: bv32, addr: bv32): (r: bv32)
    ensures addr & 0x8000_0FFF == 0 ==> r & 0x8000_0FFF == entry & 0x8000_0FFF
    ensures addr & 0x8000_0FFF == 0 ==> r & PTE_FRAME == addr
  {
    (entry & !0x7FFF_F000) | addr
  }

  /**
   * The mask of `SET_FRAME` leaves bit 31 of the old entry in place, so the
   * page address read back carries that bit along with the new frame.
   */
  lemma SetFramePageAddress(entry: bv32, addr: bv32)
    requires addr & 0x8000_0FFF == 0
    ensures PageAddress(SetFrame(entry, addr)) == addr | (entry & 0x8000_0000)
  {
  }

  /** `SET_ATTRIBUTE` on the entry stored at `table[i]`. */
  method SetAttributeAt(table: array<bv32>, i: nat, attr: bv32)
    requires i < table.Length
    modifies table
    ensures table[..] == old(table[..])[i := SetAttribute(old(table[i]), attr)]
  {
    table[i] := table[i] | attr;
  }

  /** `CLEAR_ATTRIBUTE` on the entry stored at `table[i]`. */
  method ClearAttributeAt(table: array<bv32>, i: nat, attr: bv32)
    requires i < table.Length
    modifies table
    ensures table[..] == old(table[..])[i := ClearAttribute(old(table[i]), attr)]
  {
    table[i] := table[i] & !attr;
  }

  /** `SET_FRAME` on the entry stored at `table[i]`. */
  method SetFrameAt(table: array<bv32>, i: nat, addr: bv32)
    requires i < table.Length
    modifies table
    ensures table[..] == old(table[..])[i := SetFrame(old(table[i]), addr)]
  {
    table[i] := (table[i] & !0x7FFF_F000) | addr;
  }
}
