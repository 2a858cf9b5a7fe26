/**
 * Processor identification through the CPUID instruction (Intel SDM Vol. 2A,
 * "CPUID"): vendor string, family/model/stepping, brand string and the
 * hypervisor leaves. The instruction itself is the parameter `cpuid`, the
 * register quadruple it returns for a leaf.
 */
module Cpu {

  import opened Base

  /** `CpuidResult`: EAX, EBX, ECX and EDX after executing CPUID. */
  datatype Regs = Regs(eax: bv32, ebx: bv32, ecx: bv32, edx: bv32)

  const VENDOR_ID_SIZE: nat := 32
  const BRAND_SIZE: nat := 64

  const LEAF_VENDOR: bv32 := 0
  const LEAF_FEATURES: bv32 := 1
  /** The three brand string leaves, 0x80000002..=0x80000004. */
  const BRAND_LEAVES: seq<bv32> := [0x8000_0002, 0x8000_0003, 0x8000_0004]
  const LEAF_HYPERVISOR: bv32 := 0x4000_0000

  // Bit fields of EAX for leaf 1.
  function BaseStepping(eax: bv32): bv32 { eax & 0x0F }
  function BaseModel(eax: bv32): bv32 { (eax >> 4) & 0x0F }
  function BaseFamily(eax: bv32): bv32 { (eax >> 8) & 0x0F }
  function ExtModel(eax: bv32): bv32 { (eax >> 16) & 0x0F }
  function ExtFamily(eax: bv32): bv32 { (eax >> 20) & 0xFF }

  /** The model number `set_cpuid_processor_info` stores. */
  function DisplayModel(eax: bv32): bv32
  {
    var model := BaseModel(eax);
    var family := BaseFamily(eax);
    if family == 6 || family == 15 then (ExtModel(eax) << 4) + model else model
  }

  /** The family number `set_cpuid_processor_info` stores. */
  function DisplayFamily(eax: bv32): bv32
  {
    var family := BaseFamily(eax);
    if family == 15 then family + ExtFamily(eax) else family
  }

  /** The stepping `set_cpuid_processor_info` stores. */
  function Stepping(eax: bv32): bv32
  {
    BaseStepping(eax)
  }

  /**
   * The model is below 256; its low nibble is the base model and its high
   * nibble the extended model exactly for families 6 and 15.
   */
  lemma DisplayModelFields(eax: bv32)
    ensures DisplayModel(eax) < 256
    ensures DisplayModel(eax) & 0x0F == BaseModel(eax)
    ensures DisplayModel(eax) >> 4 == if BaseFamily(eax) == 6 || BaseFamily(eax) == 15 then ExtModel(eax) else 0
  {
  }

  /** The family adds the extended family exactly when the base family is 15. */
  lemma DisplayFamilyFields(eax: bv32)
    ensures DisplayFamily(eax) as int == BaseFamily(eax) as int + if BaseFamily(eax) == 15 then ExtFamily(eax) as int else 0
    ensures DisplayFamily(eax) < 15 + 256
  {
  }

  /** The stepping is the low nibble: below 16, and the rest of EAX is untouched by it. */
  lemma SteppingFields(eax: bv32)
    ensures Stepping(eax) < 16
    ensures eax == (eax & !0x0F) | Stepping(eax)
  {
  }

  /** A processor signature decodes as documented for the extended model field. */
  lemma SignatureExample()
    ensures DisplayFamily(0x0001_06A5) == 6
    ensures DisplayModel(0x0001_06A5) == 0x1A
    ensures Stepping(0x0001_06A5) == 5
  {
  }

  /** The sixteen bytes of one brand leaf: EAX, EBX, ECX, EDX, each little-endian. */
  function LeafBytes(r: Regs): (b: seq<bv8>)
    ensures |b| == 16
  {
    LeBytes(r.eax) + LeBytes(r.ebx) + LeBytes(r.ecx) + LeBytes(r.edx)
  }

  /** Register `i` of the quadruple, in the order EAX, EBX, ECX, EDX. */
  function Reg(r: Regs, i: nat): bv32
    requires i < 4
  {
    [r.eax, r.ebx, r.ecx, r.edx][i]
  }

  /** Byte `j` of the brand string: brand leaves fill 0..48, the rest is zero. */
  function BrandByte(cpuid: bv32 -> Regs, j: nat): bv8
    requires j < BRAND_SIZE
  {
    if j < 48 then LeBytes(Reg(cpuid(BRAND_LEAVES[j / 16]), (j % 16) / 4))[j % 4] else 0
  }

  /** The 64-byte brand buffer `set_cpuid_brand` builds. */
  function BrandBytes(cpuid: bv32 -> Regs): (b: seq<bv8>)
    ensures |b| == BRAND_SIZE
  {
    seq(BRAND_SIZE, j requires 0 <= j < BRAND_SIZE => BrandByte(cpuid, j))
  }

  /** Byte `t` of a leaf's sixteen bytes is byte `t % 4` of register `t / 4`. */
  lemma LeafBytesAt(r: Regs, t: nat)
    requires t < 16
    ensures LeafBytes(r)[t] == LeBytes(Reg(r, t / 4))[t % 4]
  {
    var a, b, c, d := LeBytes(r.eax), LeBytes(r.ebx), LeBytes(r.ecx), LeBytes(r.edx);
    assert LeafBytes(r) == a + b + c + d;
    if t < 4 {
      assert Reg(r, t / 4) == r.eax;
    } else if t < 8 {
      assert Reg(r, t / 4) == r.ebx;
    } else if t < 12 {
      assert Reg(r, t / 4) == r.ecx;
    } else {
      assert Reg(r, t / 4) == r.edx;
    }
  }

  /** Brand bytes 16k..16k+16 hold the bytes of leaf 0x80000002+k. */
  lemma BrandLayout(cpuid: bv32 -> Regs, k: nat)
    requires k < 3
    ensures BrandBytes(cpuid)[16 * k .. 16 * k + 16] == LeafBytes(cpuid(BRAND_LEAVES[k]))
  {
    var b := BrandBytes(cpuid);
    var leaf := LeafBytes(cpuid(BRAND_LEAVES[k]));
    var lo := 16 * k;
    assert lo + 16 <= |b|;
    var slice := b[lo .. lo + 16];
    forall t | 0 <= t < 16 ensures slice[t] == leaf[t] {
      BrandByteAt(cpuid, k, t);
    }
    assert slice == leaf;
  }

  /** Brand byte 16k+t is byte t of leaf 0x80000002+k. */
  lemma BrandByteAt(cpuid: bv32 -> Regs, k: nat, t: nat)
    requires k < 3 && t < 16
    ensures BrandByte(cpuid, 16 * k + t) == LeafBytes(cpuid(BRAND_LEAVES[k]))[t]
  {
    SplitIndex(k, t);
    LeafBytesAt(cpuid(BRAND_LEAVES[k]), t);
  }

  /** Index 16k+t of the brand buffer lies in leaf k at offset t. */
  lemma SplitIndex(k: nat, t: nat)
    requires t < 16
    ensures (16 * k + t) / 16 == k && (16 * k + t) % 16 == t
  {
  }

  /** The brand buffer's last sixteen bytes are never written. */
  lemma BrandTailZero(cpuid: bv32 -> Regs)
    ensures BrandBytes(cpuid)[48..] == Repeat(0, 16)
  {
  }

  /** The vendor identifier as read from leaf 0 registers, over `old` bytes 12..32. */
  function VendorBytes(r: Regs, rest: seq<bv8>): (v: seq<bv8>)
    requires |rest| == VENDOR_ID_SIZE
    ensures |v| == VENDOR_ID_SIZE
    ensures FromLeBytes(v[0..4]) == r.ebx && FromLeBytes(v[4..8]) == r.edx && FromLeBytes(v[8..12]) == r.ecx
    ensures v[12..] == rest[12..]
  {
    LeBytes(r.ebx) + LeBytes(r.edx) + LeBytes(r.ecx) + rest[12..]
  }

  /** `is_support_virtualization`: the VMX feature flag, bit 5 of ECX of leaf 1. */
  predicate IsSupportVirtualization(cpuid: bv32 -> Regs)
  {
    cpuid(LEAF_FEATURES).ecx & (1 << 5) != 0
  }

  /** `is_hypervisor_present`: bit 31 of ECX of leaf 1. */
  predicate IsHypervisorPresent(cpuid: bv32 -> Regs)
  {
    cpuid(LEAF_FEATURES).ecx & (1 << 31) != 0
  }

  /** The two feature predicates read the single ECX bits they name. */
  lemma FeatureBits(cpuid: bv32 -> Regs)
    ensures IsSupportVirtualization(cpuid) <==> (cpuid(LEAF_FEATURES).ecx >> 5) & 1 == 1
    ensures IsHypervisorPresent(cpuid) <==> cpuid(LEAF_FEATURES).ecx >= 0x8000_0000
  {
  }

  /**
   * `get_hypervisor_id`: nothing on bare hardware; otherwise EBX, ECX, EDX of
   * leaf 0x40000000, little-endian, in a zeroed 32-byte buffer.
   */
  function GetHypervisorId(cpuid: bv32 -> Regs): (id: Option<seq<bv8>>)
    ensures id.None? <==> !IsHypervisorPresent(cpuid)
    ensures id.Some? ==> |id.value| == VENDOR_ID_SIZE
    ensures id.Some? ==> FromLeBytes(id.value[0..4]) == cpuid(LEAF_HYPERVISOR).ebx
    ensures id.Some? ==> FromLeBytes(id.value[4..8]) == cpuid(LEAF_HYPERVISOR).ecx
    ensures id.Some? ==> FromLeBytes(id.value[8..12]) == cpuid(LEAF_HYPERVISOR).edx
    ensures id.Some? ==> id.value[12..] == Repeat(0, 20)
  {
    if !IsHypervisorPresent(cpuid) then None
    else
      var r := cpuid(LEAF_HYPERVISOR);
      Some(LeBytes(r.ebx) + LeBytes(r.ecx) + LeBytes(r.edx) + Repeat(0, 20))
  }

  /** `CPUInfo`, filled field by field by the `set_cpuid_*` routines. */
  class CpuInfo {
    var vendorId: seq<bv8>
    var brand: seq<bv8>
    var family: bv32
    var model: bv32
    var stepping: bv32
    var features: bv32
    var maxCpuid: bv32

    ghost predicate Valid()
      reads this
    {
      |vendorId| == VENDOR_ID_SIZE && |brand| == BRAND_SIZE
    }

    /** `CPUInfo::default`: every byte and number zero. */
    constructor ()
      ensures Valid()
      ensures vendorId == Repeat(0, VENDOR_ID_SIZE) && brand == Repeat(0, BRAND_SIZE)
      ensures family == 0 && model == 0 && stepping == 0 && features == 0 && maxCpuid == 0
    {
      vendorId := Repeat(0, VENDOR_ID_SIZE);
      brand := Repeat(0, BRAND_SIZE);
      family, model, stepping, features, maxCpuid := 0, 0, 0, 0, 0;
    }

    /** `set_cpuid_basic_info`: vendor bytes 0..12 and the highest basic leaf. */
    method SetBasicInfo(cpuid: bv32 -> Regs)
      requires Valid()
      modifies this`vendorId, this`maxCpuid
      ensures Valid()
      ensures vendorId == VendorBytes(cpuid(LEAF_VENDOR), old(vendorId))
      ensures maxCpuid == cpuid(LEAF_VENDOR).eax
    {
      var r := cpuid(LEAF_VENDOR);
      vendorId := LeBytes(r.ebx) + LeBytes(r.edx) + LeBytes(r.ecx) + vendorId[12..];
      maxCpuid := r.eax;
    }

    /** `set_cpuid_processor_info`: signature fields and the EDX feature flags. */
    method SetProcessorInfo(cpuid: bv32 -> Regs)
      modifies this`family, this`model, this`stepping, this`features
      ensures stepping == Stepping(cpuid(LEAF_FEATURES).eax)
      ensures features == cpuid(LEAF_FEATURES).edx
      ensures model == DisplayModel(cpuid(LEAF_FEATURES).eax)
      ensures family == DisplayFamily(cpuid(LEAF_FEATURES).eax)
    {
      var r := cpuid(LEAF_FEATURES);
      var baseModel := BaseModel(r.eax);
      var baseFamily := BaseFamily(r.eax);
      var extModel := ExtModel(r.eax);
      var extFamily := ExtFamily(r.eax);
      stepping := BaseStepping(r.eax);
      features := r.edx;
      model := if baseFamily == 6 || baseFamily == 15 then (extModel << 4) + baseModel else baseModel;
      family := baseFamily;
      if baseFamily == 15 {
        family := family + extFamily;
      }
    }

    /** `set_cpuid_brand`: copies the three brand leaves into a zeroed buffer. */
    method SetBrand(cpuid: bv32 -> Regs)
      modifies this`brand
      ensures brand == BrandBytes(cpuid)
    {
      var b := new bv8[BRAND_SIZE](_ => 0);
      // k is the leaf's distance from 0x80000002.
      var k := 0;
      while k < |BRAND_LEAVES|
        invariant 0 <= k <= |BRAND_LEAVES|
        invariant forall j :: 0 <= j < k * 16 ==> b[j] == BrandByte(cpuid, j)
        invariant forall j :: k * 16 <= j < BRAND_SIZE ==> b[j] == 0
      {
        var r := cpuid(BRAND_LEAVES[k]);
        var part := [r.eax, r.ebx, r.ecx, r.edx];
        var start := k * 16;
        var i := 0;
        while i < 4
          invariant 0 <= i <= 4
          invariant forall j :: 0 <= j < start + i * 4 ==> b[j] == BrandByte(cpuid, j)
          invariant forall j :: start + i * 4 <= j < BRAND_SIZE ==> b[j] == 0
        {
          var offset := start + i * 4;
          CopyWord(b, offset, part[i]);
          forall j | offset <= j < offset + 4 ensures b[j] == BrandByte(cpuid, j) {
            assert j / 16 == k && (j % 16) / 4 == i && j % 4 == j - offset;
          }
          i := i + 1;
        }
        k := k + 1;
      }
      brand := b[..];
    }
  }

  /** `ptr::copy_nonoverlapping` of the four bytes of a `u32` into `b[offset..offset+4]`. */
  method CopyWord(b: array<bv8>, offset: nat, value: bv32)
    requires offset + 4 <= b.Length
    modifies b
    ensures b[..] == old(b[..offset]) + LeBytes(value) + old(b[offset + 4..])
  {
    var bytes := LeBytes(value);
    b[offset] := bytes[0];
    b[offset + 1] := bytes[1];
    b[offset + 2] := bytes[2];
    b[offset + 3] := bytes[3];
  }

  /**
   * `get_cpu_info`: a default record filled by the basic, processor and brand
   * routines in that order.
   */
  method GetCpuInfo(cpuid: bv32 -> Regs) returns (info: CpuInfo)
    ensures fresh(info) && info.Valid()
    ensures info.vendorId == VendorBytes(cpuid(LEAF_VENDOR), Repeat(0, VENDOR_ID_SIZE))
    ensures info.maxCpuid == cpuid(LEAF_VENDOR).eax
    ensures info.stepping == Stepping(cpuid(LEAF_FEATURES).eax)
    ensures info.features == cpuid(LEAF_FEATURES).edx
    ensures info.model == DisplayModel(cpuid(LEAF_FEATURES).eax)
    ensures info.family == DisplayFamily(cpuid(LEAF_FEATURES).eax)
    ensures info.brand == BrandBytes(cpuid)
  {
    info := new CpuInfo();
    info.SetBasicInfo(cpuid);
    info.SetProcessorInfo(cpuid);
    info.SetBrand(cpuid);
  }
}
