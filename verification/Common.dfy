/** What several of the modules share: optional results, the ranges of the C
    integer types, the size of a DMA descriptor, and runs of unset flags. */
module Common {

  datatype Option<T> = None | Some(value: T)

  const INT_MAX: nat := 0x7FFF_FFFF
  const U32: nat := 0x1_0000_0000
  const U64: nat := 0x1_0000_0000_0000_0000

  /** sizeof(struct dma_ch_desc): a slot of a channel's descriptor table */
  const SLOT_SIZE: nat := 32

  /** The n flags from `s` on are not set. */
  predicate FreeRun(used: seq<bool>, s: nat, n: nat) {
    s + n <= |used| && forall k :: s <= k < s + n ==> !used[k]
  }
}
