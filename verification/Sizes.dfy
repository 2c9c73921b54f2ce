/** The sizes the program is built around. */
module Sizes {
  /** A registration is mapped in segments of at most 1 GiB. */
  const SEGMENT: nat := 0x4000_0000

  /** A large transfer is cut into sub-I/Os of 256 KiB. */
  const SUB_IO: nat := 0x4_0000

  /** The submission queue has this many slots. */
  const QUEUE_DEPTH: nat := 256

  /** 255 sub-I/Os, which always fit one batch. */
  const FULL_BATCH: nat := 0x3FC_0000

  /** 256 sub-I/Os, the most a batch can hold. */
  const LONG_BATCH: nat := 0x400_0000

  const GPU_PAGE: nat := 0x1_0000
  const CPU_PAGE: nat := 0x1000

  const TWO_64: nat := 0x1_0000_0000_0000_0000

  /** Unsigned 64-bit wrap-around. */
  function U64(x: int): (r: nat)
    ensures 0 <= x < TWO_64 ==> r == x
    ensures r < TWO_64
  {
    x % TWO_64
  }
}
