/** The size arithmetic of `Invoker::execute`: the length of the generated
    code rounded up to whole 4096-byte pages before it is mapped. The
    page size is written out as `0x1000` and the mask as `0xFFF`. */
module Invoker {

  /** Rust's `usize` on x86-64. */
  type usize = bv64

  /** `(len + psize - 1) & !(psize - 1)` with `psize = 4096`. A slice holds
      at most `isize::MAX` bytes, so the addition cannot wrap. */
  function MappedSize(len: usize): (csize: usize)
    requires len <= 0x7FFF_FFFF_FFFF_FFFF
    ensures csize % 0x1000 == 0
    ensures len <= csize
    ensures csize - len < 0x1000
  {
    (len + 0x1000 - 1) & !(0x1000 - 1)
  }

  /** Only empty code maps zero bytes. */
  lemma MappedSizeZero(len: usize)
    requires len <= 0x7FFF_FFFF_FFFF_FFFF
    ensures (MappedSize(len) == 0) == (len == 0)
  {
  }
}
