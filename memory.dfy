/**
 * `usedMemory`: the pages the virtual-memory statistics count as active,
 * inactive or wired, times a fixed 16 KiB page size. The Mach statistics call
 * is an input: its result code and the three page counts it fills in.
 */
module Memory {

  type UInt32 = x: int | 0 <= x < 0x1_0000_0000
  type UInt64 = x: int | 0 <= x < 0x1_0000_0000_0000_0000

  /** The page size the probe multiplies by (that of arm64 hosts). */
  const PageSize: nat := 16384

  /** `KERN_SUCCESS`. */
  const KernSuccess: int := 0

  /** The three counters of `vm_statistics64` that the probe reads. */
  datatype VmStatistics = VmStatistics(activeCount: UInt32, inactiveCount: UInt32, wireCount: UInt32)

  function PageTotal(stats: VmStatistics): nat
  {
    stats.activeCount + stats.inactiveCount + stats.wireCount
  }

  /**
   * Used memory in bytes: 0 when the statistics call fails; otherwise a whole
   * number of 16 KiB pages, namely the active, inactive and wired pages. The
   * three counts are added as `UInt32`, which traps on overflow, so a
   * successful call requires their sum to fit in 32 bits; the product then
   * always fits in a `UInt64`.
   */
  function UsedMemory(result: int, stats: VmStatistics): (used: UInt64)
    requires result == KernSuccess ==> PageTotal(stats) < 0x1_0000_0000
    ensures result != KernSuccess ==> used == 0
    ensures result == KernSuccess ==> used % PageSize == 0 && used / PageSize == PageTotal(stats)
    ensures used < 0x1_0000_0000 * PageSize
  {
    if result != KernSuccess then 0
    else
      var pages: UInt32 := stats.activeCount + stats.inactiveCount + stats.wireCount;
      pages * 16384
  }

  /** More pages in use never means less memory reported. */
  lemma UsedMemoryMonotone(a: VmStatistics, b: VmStatistics)
    requires PageTotal(a) <= PageTotal(b) < 0x1_0000_0000
    ensures UsedMemory(KernSuccess, a) <= UsedMemory(KernSuccess, b)
  {
  }
}
