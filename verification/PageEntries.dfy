// Page-table entries: the bits of vmm.h and what vmm.c stores in them.

module PageEntries {

  const PRESENT: bv64 := 0x1
  const WRITABLE: bv64 := 0x2
  const HUGE: bv64 := 0x80
  const ADDR_MASK: bv64 := 0x000F_FFFF_FFFF_F000
  /** WRITABLE, USER, WRITE_THROUGH, CACHE_DISABLE, GLOBAL and NO_EXECUTE: the flags a caller may set. */
  const ALLOWED: bv64 := 0x2 | 0x4 | 0x8 | 0x10 | 0x100 | 0x8000_0000_0000_0000
  const INVALID_PHYS: bv64 := 0xFFFF_FFFF_FFFF_FFFF

  predicate IsAligned(p: bv64) { p & 0xFFF == 0 }

  predicate Present(e: bv64) { e & PRESENT != 0 }

  predicate Huge(e: bv64) { e & HUGE != 0 }

  function Addr(e: bv64): bv64 { e & ADDR_MASK }

  function Flags(e: bv64): bv64 { e & !ADDR_MASK }

  /** The entry vmm_map_page stores for a page. */
  function LeafEntry(paddr: bv64, flags: bv64): (e: bv64)
    ensures Present(e) && !Huge(e)
    ensures Addr(e) == paddr & ADDR_MASK && Flags(e) == PRESENT | (flags & ALLOWED)
  {
    (paddr & ADDR_MASK) | PRESENT | (flags & ALLOWED)
  }

  /** The entry get_or_alloc_next_table stores for a new table. */
  function TableEntry(paddr: bv64): (e: bv64)
    ensures Present(e) && !Huge(e) && Addr(e) == paddr & ADDR_MASK
    ensures Flags(e) == PRESENT | WRITABLE
  {
    (paddr & ADDR_MASK) | PRESENT | WRITABLE
  }

  /** Bit 0 of an entry says that it is present. */
  lemma PresentBit(e: bv64)
    ensures Present(e) <==> e & 0x1 == 0x1
  {
  }

  /** Bit 7 says that it maps a large page. */
  lemma HugeBit(e: bv64)
    ensures Huge(e) <==> e & 0x80 == 0x80
  {
  }

  /** The address in it is that of a frame below 2^52. */
  lemma AddressBits(e: bv64)
    ensures IsAligned(Addr(e)) && Addr(e) < 0x0010_0000_0000_0000
  {
  }

  /** vmm_is_aligned_4k tests for multiples of 4096: p is 4096 times a number so small that the product does not
      wrap. */
  lemma AlignedMeans(p: bv64)
    ensures IsAligned(p) <==> p % 0x1000 == 0
    ensures IsAligned(p) <==> exists q: bv64 :: q <= 0x000F_FFFF_FFFF_FFFF && Times4096(q) == p
  {
    if IsAligned(p) {
      var q := p / 0x1000;
      assert q <= 0x000F_FFFF_FFFF_FFFF && Times4096(q) == p;
    }
    forall q: bv64 | q <= 0x000F_FFFF_FFFF_FFFF ensures IsAligned(Times4096(q)) {}
  }

  function Times4096(q: bv64): bv64 { q * 0x1000 }

  /** A frame address below 2^52 survives being stored in an entry, leaf or table, and so does every permitted flag. */
  lemma EntryRoundTrip(paddr: bv64, flags: bv64)
    requires IsAligned(paddr) && paddr < 0x0010_0000_0000_0000
    ensures Addr(LeafEntry(paddr, flags)) == paddr && Addr(TableEntry(paddr)) == paddr
    ensures LeafEntry(paddr, flags) & 0x2 == flags & 0x2 && LeafEntry(paddr, flags) & 0x4 == flags & 0x4
    ensures LeafEntry(paddr, flags) & 0x8 == flags & 0x8 && LeafEntry(paddr, flags) & 0x10 == flags & 0x10
    ensures LeafEntry(paddr, flags) & 0x100 == flags & 0x100
    ensures LeafEntry(paddr, flags) & 0x8000_0000_0000_0000 == flags & 0x8000_0000_0000_0000
  {
  }

  lemma ZeroNotPresent()
    ensures !Present(0)
  {
  }

  lemma InvalidIsUnaligned()
    ensures !IsAligned(INVALID_PHYS)
  {
  }
}
