/** Address decoding of the translation simulator (part2.c): a logical address is a
    C `int`; its low 10 bits are the offset inside a 1024-byte page and the next 10
    bits the logical page number. The C code extracts both with masks on the
    two's-complement bit pattern; on integers that is the Euclidean remainder and
    quotient by powers of two, which is how Decode is written here. BitMasksAgree
    shows, on 32-bit words, that the masks and the remainder/quotient agree. */
module AddressCodec {

  const OFFSET_BITS: nat := 10
  const PAGE_SIZE: nat := 1024
  /** Number of logical pages (and page-table entries). */
  const PAGES: nat := 1024
  const PAGE_MASK: bv32 := 0xFFC00
  const OFFSET_MASK: bv32 := 0x3FF

  /** The range of the C `int` that `atoi` produces. */
  type Int32 = x: int | -0x8000_0000 <= x < 0x8000_0000

  datatype Decoded = Decoded(page: int, offset: int)

  /** `offset = addr & OFFSET_MASK; page = (addr & PAGE_MASK) >> OFFSET_BITS`. Both
      fields are in range for every address, negative ones included, and together
      they give back the low 20 bits of the address. */
  function Decode(addr: Int32): (d: Decoded)
    ensures 0 <= d.page < PAGES && 0 <= d.offset < PAGE_SIZE
    ensures d.page * PAGE_SIZE + d.offset == addr % 0x10_0000
  {
    Decoded((addr % 0x10_0000) / PAGE_SIZE, addr % PAGE_SIZE)
  }

  /** The address a (page, offset) pair stands for: `(page << OFFSET_BITS) | offset`,
      which is a sum because the offset fits in the low OFFSET_BITS bits. */
  function Compose(page: nat, offset: nat): (a: nat)
    requires offset < PAGE_SIZE
    ensures a / PAGE_SIZE == page && a % PAGE_SIZE == offset
  {
    page * PAGE_SIZE + offset
  }

  /** Decoding then composing keeps exactly the low 20 bits of the address, and
      composing then decoding gives the pair back. */
  lemma DecodeComposeRoundTrip(addr: Int32, page: nat, offset: nat)
    requires page < PAGES && offset < PAGE_SIZE
    ensures Compose(Decode(addr).page, Decode(addr).offset) == addr % 0x10_0000
    ensures Decode(Compose(page, offset)) == Decoded(page, offset)
  {
  }

  /** On the 32-bit pattern the C code works with, the page mask and shift give the
      quotient of the low 20 bits by the page size, the offset mask gives the
      remainder, and `(page << 10) | offset` restores `addr & 0xFFFFF`. */
  lemma BitMasksAgree(w: bv32)
    ensures (w & OFFSET_MASK) == w % 1024
    ensures (w & PAGE_MASK) >> 10 == (w % 0x10_0000) / 1024
    ensures (w & PAGE_MASK) >> 10 < 1024
    ensures (((w & PAGE_MASK) >> 10) << 10) | (w & OFFSET_MASK) == w & 0xFFFFF
  {
  }
}
