/** Memory-map constants of the kernel (include/mm.h) and the GPU bus-address
    conversion of include/mem.h.  Addresses are 64-bit words; the C macro's
    mask `~0xC0000000` is an `unsigned int` constant, so it is widened with
    zeros and clears every bit above bit 31 as well. */
module Mem {

  // include/mm.h
  const PageShift: nat := 12
  const TableShift: nat := 9
  const SectionShift: nat := PageShift + TableShift
  const PageSize: nat := 0x1000          // 1 << PageShift
  const SectionSize: nat := 0x20_0000    // 1 << SectionShift
  const GraphStartMemory: nat := 2 * SectionSize
  const LowMemory: nat := 32 * 1024 * 1024
  const HighMemory: nat := 0x4000_0000

  // include/mem.h
  const GpuCachedBase: bv64 := 0x4000_0000
  const GpuUncachedBase: bv64 := 0xC000_0000
  const GpuMemBase: bv64 := GpuUncachedBase

  /** The C expression `~0xC0000000`: a 32-bit complement, widened with zeros. */
  const LowMask: bv64 := (!(0xC000_0000 as bv32)) as bv64

  /** `BUS_ADDRESS(addr)`: the alias of `addr` through the GPU's uncached window.
      Bits 30 and 31 are set, bits 0-29 are those of `addr`, and nothing above
      bit 31 survives. */
  function BusAddress(addr: bv64): (r: bv64)
    ensures r & 0xC000_0000 == 0xC000_0000
    ensures r & 0x3FFF_FFFF == addr & 0x3FFF_FFFF
    ensures r >> 32 == 0
  {
    (addr & LowMask) | GpuMemBase
  }

  /** The mask `~0xC0000000` keeps exactly bits 0-29. */
  lemma LowMaskValue()
    ensures LowMask == 0x3FFF_FFFF
  {
  }

  /** Converting an address that is already a bus address changes nothing. */
  lemma {:induction false} BusAddressIdempotent(addr: bv64)
    ensures BusAddress(BusAddress(addr)) == BusAddress(addr)
  {
    LowMaskValue();
  }

  /** The GPU window used is the uncached alias, not the cached one. */
  lemma GpuWindowIsUncached()
    ensures GpuMemBase == 0xC000_0000 && GpuMemBase != GpuCachedBase
  {
  }

  /** The section arithmetic of mm.h: a section is 2 MB, so the graphics
      region begins at 4 MB. */
  lemma SectionArithmetic()
    ensures SectionShift == 21 && SectionSize == 2 * 1024 * 1024
    ensures GraphStartMemory == 4 * 1024 * 1024
  {
  }
}
