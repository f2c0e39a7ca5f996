/**
 * The sizing arithmetic of init_pool and mpool_align, on size_t: unsigned
 * 64-bit values that wrap.
 */
module PoolSizing {

  /** POINTER_OFFSET: the alignment unit, and the payload offset counted in headers. */
  const PointerOffset: nat := 8
  /** sizeof(struct entry_s): size (4) + is_use (1) + reserved (3) + ptr (8). */
  const EntrySize: nat := 16
  /** sizeof(struct entry_s) as a size_t. */
  const EntryBytes: bv64 := 16

  /** mpool_align: round up to a multiple of POINTER_OFFSET. */
  function Align(siz: bv64): (r: bv64)
    ensures r % 8 == 0
    ensures siz <= 0xFFFF_FFFF_FFFF_FFF8 ==> siz <= r && r - siz < 8
  {
    (siz + 7) & !7
  }

  /** Rounding up twice is rounding up once. */
  lemma AlignIdempotent(siz: bv64)
    ensures Align(Align(siz)) == Align(siz)
  {
  }

  ghost predicate IsPowerOfTwo(x: bv64) {
    x != 0 && x & (x - 1) == 0
  }

  /** The body of the round-up bit trick: the top set bit of p smeared into the 32 bits below it. */
  function Smear(p: bv64): bv64 {
    var p1 := p | (p >> 1);
    var p2 := p1 | (p1 >> 2);
    var p3 := p2 | (p2 >> 4);
    var p4 := p3 | (p3 >> 8);
    p4 | (p4 >> 16)
  }

  lemma SmearGivesPower(x: bv64)
    requires 1 <= x <= 0x1_0000_0000
    ensures IsPowerOfTwo(Smear(x - 1) + 1)
  {
  }

  lemma SmearCovers(x: bv64)
    requires 1 <= x <= 0x1_0000_0000
    ensures x <= Smear(x - 1) + 1 <= 0x1_0000_0000
  {
  }

  lemma SmearTight(x: bv64)
    requires 1 <= x <= 0x1_0000_0000
    ensures (Smear(x - 1) + 1) >> 1 < x
  {
  }

  /**
   * The next highest power of two by the bit trick of init_pool. For
   * 1 <= x <= 2^32 it is the smallest power of two not below x; its shifts
   * stop at 16, so the promise ends at 2^32.
   */
  function NextPowerOfTwo(x: bv64): (r: bv64)
    ensures 1 <= x <= 0x1_0000_0000 ==> IsPowerOfTwo(r) && x <= r <= 0x1_0000_0000 && r >> 1 < x
  {
    if 1 <= x <= 0x1_0000_0000 then
      SmearGivesPower(x);
      SmearCovers(x);
      SmearTight(x);
      Smear(x - 1) + 1
    else
      Smear(x - 1) + 1
  }

  /** Above 2^32 the bit trick no longer yields a power of two. */
  lemma NextPowerOfTwoStopsAt32Bits()
    ensures NextPowerOfTwo(0x1_0000_0001) == 0x1_FFFF_FFFF
    ensures !IsPowerOfTwo(NextPowerOfTwo(0x1_0000_0001))
  {
  }

  /** padded_size: the power of two covering a block and its header. */
  function PaddedSize(ptrSize: bv64): (r: bv64)
    ensures ptrSize <= 0xFFFF_FFF0 ==>
      IsPowerOfTwo(r) && ptrSize + EntryBytes <= r <= 0x1_0000_0000 && r >> 1 < ptrSize + EntryBytes
  {
    if ptrSize <= 0xFFFF_FFF0 then
      HeaderFits(ptrSize);
      NextPowerOfTwo(ptrSize + EntryBytes)
    else
      NextPowerOfTwo(ptrSize + EntryBytes)
  }

  lemma HeaderFits(ptrSize: bv64)
    requires ptrSize <= 0xFFFF_FFF0
    ensures 1 <= ptrSize + EntryBytes <= 0x1_0000_0000
  {
  }

  /** total_size: padding, one block, and one header per entry, aligned. */
  function TotalSize(ptrSize: bv64, amountEntries: bv32): (r: bv64)
    ensures r % 8 == 0
    ensures ptrSize <= 0xFFFF_FFF0 ==> r != 0
  {
    Align(PaddedSize(ptrSize) + ptrSize + EntryBytes * (amountEntries as bv64))
  }
}
