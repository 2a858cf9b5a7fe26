/**
 * The Global Descriptor Table: packing of a segment descriptor (section 3.4.5
 * of the Intel SDM Vol. 3A) and the fixed seven-entry flat table the kernel
 * installs, together with the GDT pointer that describes it.
 */
module Gdt {

  import opened Base

  /** A segment descriptor, field by field in its packed memory order. */
  datatype Entry = Entry(limit: bv16, baseLow: bv16, baseMid: bv8, access: bv8, flags: bv8, baseHigh: bv8)

  /** The GDT pointer loaded by `lgdt`: table size minus one, and its linear address. */
  datatype Pointer = Pointer(size: bv16, offset: bv32)

  const NULL_ENTRY := Entry(0, 0, 0, 0, 0, 0)

  /** Physical address at which the GDT pointer lives. */
  const GDT_BASE: bv32 := 0x800
  const GDT_ENTRIES: nat := 7
  /** `size_of::<Entry>()`: the packed descriptor is eight bytes. */
  const ENTRY_SIZE: nat := 8

  // Access bytes of the six non-null segments.
  const KERNEL_CODE: bv8 := 0x9A
  const KERNEL_DATA: bv8 := 0x93
  const KERNEL_STACK: bv8 := 0x97
  const USER_CODE: bv8 := 0xFA
  const USER_DATA: bv8 := 0xF2
  const USER_STACK: bv8 := 0xF7

  /** Access bytes of table entries 1..6, in table order. */
  const SEGMENT_ACCESS: seq<bv8> := [KERNEL_CODE, KERNEL_DATA, KERNEL_STACK, USER_CODE, USER_DATA, USER_STACK]

  // 32-bit protected mode flat segment parameters.
  const FLAT_FLAGS: bv8 := 0xCF
  const FLAT_BASE: bv32 := 0
  const FLAT_LIMIT: bv32 := 0xFFFF_FFFF

  /** The 32-bit base scattered over the three base fields. */
  function BaseOf(e: Entry): bv32
  {
    (e.baseLow as bv32) | ((e.baseMid as bv32) << 16) | ((e.baseHigh as bv32) << 24)
  }

  /** The 20-bit limit: the limit field plus the low nibble of the flags byte. */
  function LimitOf(e: Entry): bv32
  {
    (e.limit as bv32) | (((e.flags & 0x0F) as bv32) << 16)
  }

  /** `Entry::new`: splits base and limit over the descriptor fields. */
  function NewEntry(base: bv32, limit: bv32, access: bv8, flags: bv8): (e: Entry)
    ensures BaseOf(e) == base
    ensures LimitOf(e) == limit & 0xF_FFFF
    ensures e.flags & 0xF0 == flags & 0xF0
    ensures e.access == access
  {
    var entryFlags := ((limit >> 16) & 0x0F) as bv8;
    Entry(limit := (limit & 0xFFFF) as bv16,
          baseLow := (base & 0xFFFF) as bv16,
          baseMid := ((base >> 16) & 0xFF) as bv8,
          access := access,
          flags := entryFlags | (flags & 0xF0),
          baseHigh := ((base >> 24) & 0xFF) as bv8)
  }

  /** The eight bytes of a descriptor as laid out in memory (`repr(C, packed)`). */
  function Encode(e: Entry): (b: seq<bv8>)
    ensures |b| == ENTRY_SIZE
    ensures Decode(b) == e
  {
    [(e.limit & 0xFF) as bv8, (e.limit >> 8) as bv8,
     (e.baseLow & 0xFF) as bv8, (e.baseLow >> 8) as bv8,
     e.baseMid, e.access, e.flags, e.baseHigh]
  }

  /** Reads a descriptor back from its eight bytes. */
  function Decode(b: seq<bv8>): Entry
    requires |b| == ENTRY_SIZE
  {
    Entry((b[0] as bv16) | ((b[1] as bv16) << 8), (b[2] as bv16) | ((b[3] as bv16) << 8),
          b[4], b[5], b[6], b[7])
  }

  /** The table `set_entries` builds: the null descriptor, then six flat segments. */
  function FlatTable(): (t: seq<Entry>)
    ensures |t| == GDT_ENTRIES
    ensures t[0] == NULL_ENTRY
    ensures forall i :: 1 <= i < GDT_ENTRIES ==>
      BaseOf(t[i]) == 0 && LimitOf(t[i]) == 0xF_FFFF && t[i].flags == FLAT_FLAGS &&
      t[i].access == SEGMENT_ACCESS[i - 1]
  {
    [NULL_ENTRY] + seq(6, k requires 0 <= k < 6 => NewEntry(FLAT_BASE, FLAT_LIMIT, SEGMENT_ACCESS[k], FLAT_FLAGS))
  }

  /** `access_to_str`: the segment name printed for an access byte. */
  function AccessToStr(access: bv8): (s: string)
    ensures s == "Unknown" <==> access !in {0x00, KERNEL_CODE, KERNEL_DATA, KERNEL_STACK, USER_CODE, USER_DATA, USER_STACK}
    ensures s != "Unknown" ==> AccessOfName(s) == Some(access)
  {
    match access
    case 0x00 => "Null"
    case 0x9A => "Kernel code"
    case 0x93 => "Kernel data"
    case 0x97 => "Kernel stack"
    case 0xFA => "User code"
    case 0xF2 => "User data"
    case 0xF7 => "User stack"
    case _ => "Unknown"
  }

  /** The access byte a segment name stands for, the inverse of `AccessToStr`. */
  function AccessOfName(s: string): Option<bv8>
  {
    if s == "Null" then Some(0x00)
    else if s == "Kernel code" then Some(KERNEL_CODE)
    else if s == "Kernel data" then Some(KERNEL_DATA)
    else if s == "Kernel stack" then Some(KERNEL_STACK)
    else if s == "User code" then Some(USER_CODE)
    else if s == "User data" then Some(USER_DATA)
    else if s == "User stack" then Some(USER_STACK)
    else None
  }

  /** Every entry of the installed table has a name of its own. */
  lemma TableNamesDistinct()
    ensures forall i, j :: 0 <= i < j < GDT_ENTRIES ==>
      AccessToStr(FlatTable()[i].access) != AccessToStr(FlatTable()[j].access)
    ensures forall i :: 0 <= i < GDT_ENTRIES ==> AccessToStr(FlatTable()[i].access) != "Unknown"
  {
    var t := FlatTable();
    forall i, j | 0 <= i < j < GDT_ENTRIES
      ensures AccessToStr(t[i].access) != AccessToStr(t[j].access)
    {
      var ai, aj := t[i].access, t[j].access;
      assert ai != aj;
      assert AccessOfName(AccessToStr(ai)) == Some(ai);
      assert AccessOfName(AccessToStr(aj)) == Some(aj);
    }
  }

  /** The static `GDT` array together with the pointer record at `GDT_BASE`. */
  class Table {
    var entries: array<Entry>
    var pointer: Pointer

    ghost predicate Valid()
      reads this
    {
      entries.Length == GDT_ENTRIES
    }

    /** The boot state: seven null descriptors. */
    constructor ()
      ensures Valid() && fresh(entries)
      ensures forall i :: 0 <= i < GDT_ENTRIES ==> entries[i] == NULL_ENTRY
    {
      entries := new Entry[GDT_ENTRIES](_ => NULL_ENTRY);
      pointer := Pointer(0, 0);
    }

    /** `set_entries`. */
    method SetEntries()
      requires Valid()
      modifies entries
      ensures entries[..] == FlatTable()
    {
      var nullEntry := NULL_ENTRY;
      var kernCode := NewEntry(FLAT_BASE, FLAT_LIMIT, KERNEL_CODE, FLAT_FLAGS);
      var kernData := NewEntry(FLAT_BASE, FLAT_LIMIT, KERNEL_DATA, FLAT_FLAGS);
      var kernStack := NewEntry(FLAT_BASE, FLAT_LIMIT, KERNEL_STACK, FLAT_FLAGS);
      var userCode := NewEntry(FLAT_BASE, FLAT_LIMIT, USER_CODE, FLAT_FLAGS);
      var userData := NewEntry(FLAT_BASE, FLAT_LIMIT, USER_DATA, FLAT_FLAGS);
      var userStack := NewEntry(FLAT_BASE, FLAT_LIMIT, USER_STACK, FLAT_FLAGS);
      entries[0] := nullEntry;
      entries[1] := kernCode;
      entries[2] := kernData;
      entries[3] := kernStack;
      entries[4] := userCode;
      entries[5] := userData;
      entries[6] := userStack;
    }

    /**
     * `set_pointer`: `tableAddress` is the linear address of the `GDT` array,
     * which the source takes from the linker.
     */
    method SetPointer(tableAddress: bv32)
      modifies this`pointer
      ensures pointer.size as int == ENTRY_SIZE * GDT_ENTRIES - 1
      ensures pointer.offset == tableAddress
    {
      pointer := Pointer((ENTRY_SIZE * GDT_ENTRIES - 1) as bv16, tableAddress);
    }

    /** `init` without the `gdt_flush` instruction sequence. */
    method Init(tableAddress: bv32)
      requires Valid()
      modifies entries, this`pointer
      ensures entries[..] == FlatTable()
      ensures pointer == Pointer(55, tableAddress)
    {
      SetEntries();
      SetPointer(tableAddress);
    }
  }
}
