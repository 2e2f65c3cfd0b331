/** ZAddressSpaceLimit: how much of the address space the Z heap may
    reserve. The heap reserves a MaxVirtMemFraction share of the process's
    reservable memory, rounded up to whole granules; the limit is logged as
    unlimited or as the number reported by the OS.

    os::reserve_memory_limit() is a parameter. */
module ZAddressSpaceLimit {
  import opened MachineWords

  /** ZAddressSpaceLimit::heap(): `align_up(limit / MaxVirtMemFraction, ZGranuleSize)`. */
  function Heap(reserveMemoryLimit: u64, maxVirtMemFraction: u64, granuleSize: u64): (h: u64)
    requires maxVirtMemFraction >= 1 && granuleSize >= 1
    ensures h % granuleSize == 0
  {
    AlignUp64(reserveMemoryLimit / maxVirtMemFraction, granuleSize)
  }

  /** The heap limit covers the fraction of the address space, exceeds it by
      less than one granule, and equals it when it is already whole granules;
      this holds whenever rounding up does not pass the top of size_t. */
  lemma HeapCoversFraction(reserveMemoryLimit: u64, maxVirtMemFraction: u64, granuleSize: u64)
    requires maxVirtMemFraction >= 1 && granuleSize >= 1
    requires reserveMemoryLimit / maxVirtMemFraction + granuleSize - 1 < TwoTo64
    ensures var q := reserveMemoryLimit / maxVirtMemFraction;
            var h := Heap(reserveMemoryLimit, maxVirtMemFraction, granuleSize);
            q <= h < q + granuleSize
            && (q % granuleSize == 0 ==> h == q)
  {
    AlignUpExact(reserveMemoryLimit / maxVirtMemFraction, granuleSize);
  }

  /** With the default fraction of 2, the quotient is at most half of size_t,
      so the heap limit never wraps around for a granule of up to 2^63. */
  lemma HalfAddressSpaceDoesNotWrap(reserveMemoryLimit: u64, granuleSize: u64)
    requires 1 <= granuleSize <= TwoTo63
    ensures reserveMemoryLimit / 2 + granuleSize - 1 < TwoTo64
    ensures var h := Heap(reserveMemoryLimit, 2, granuleSize);
            reserveMemoryLimit / 2 <= h < reserveMemoryLimit / 2 + granuleSize
  {
    HeapCoversFraction(reserveMemoryLimit, 2, granuleSize);
  }

  /** An unlimited address space (SIZE_MAX) with MaxVirtMemFraction 1 and a
      2M granule rounds up past the top of size_t, to zero. */
  lemma WholeUnlimitedSpaceWraps()
    ensures Heap(MaxUintx, 1, 0x20_0000) == 0
  {
    assert Wrap64(MaxUintx + 0x20_0000 - 1) == 0x20_0000 - 2;
  }

  /** The line print_limits logs. */
  datatype LimitsLine = Unlimited | Limited(size: u64)

  /** ZAddressSpaceLimit::print_limits() without the logging: which line it logs. */
  function PrintLimits(reserveMemoryLimit: u64): (line: LimitsLine)
    ensures line.Unlimited? <==> reserveMemoryLimit == MaxUintx
    ensures line.Limited? ==> line.size == reserveMemoryLimit
  {
    if reserveMemoryLimit == MaxUintx then Unlimited else Limited(reserveMemoryLimit)
  }
}
