/** The ranges of the C integer types whose arithmetic wraps in the model. */
module Limits {

  /** 2^32: the range of uint32_t and unsigned int. */
  const U32: int := 0x1_0000_0000
  /** 2^64: the range of uint64_t and size_t. */
  const U64: int := 0x1_0000_0000_0000_0000
}
