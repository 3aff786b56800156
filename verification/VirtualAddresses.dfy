// Virtual addresses: canonical form and the four table indices of 4-level paging.
// A right shift by n is a division by 2^n, and a mask 0x1FF a remainder modulo 512.

module VirtualAddresses {
  import opened Words

  const PAGE: int := 0x1000
  const ENTRIES: int := 512
  const BIT_47: int := 0x8000_0000_0000
  const BIT_48: int := 0x1_0000_0000_0000

  /** vmm_is_canonical: bits 48 to 63 repeat bit 47. */
  predicate IsCanonical(v: u64) {
    var sign := v / BIT_47 % 2;
    var upper := v / BIT_48;
    if sign != 0 then upper == 0xFFFF else upper == 0
  }

  predicate IsPageAligned(v: u64) { v % PAGE == 0 }

  /** The addresses that vmm_map_page, vmm_unmap_page and vmm_query_page accept. */
  predicate IsPage(v: u64) { IsCanonical(v) && IsPageAligned(v) }

  type Index = i: int | 0 <= i < ENTRIES

  datatype Indices = Indices(pml4: Index, pdpt: Index, pd: Index, pt: Index)

  /** idx_pml4, idx_pdpt, idx_pd and idx_pt. */
  function IndicesOf(v: u64): Indices {
    Indices(v / 0x80_0000_0000 % ENTRIES, v / 0x4000_0000 % ENTRIES, v / 0x20_0000 % ENTRIES, v / PAGE % ENTRIES)
  }

  /** The 48-bit offset that four indices select. */
  function Offset(x: Indices): int {
    x.pml4 * 0x80_0000_0000 + x.pdpt * 0x4000_0000 + x.pd * 0x20_0000 + x.pt * PAGE
  }

  /** The canonical address of four indices: bit 47 is extended upwards. */
  function Compose(x: Indices): (v: u64) {
    if x.pml4 < 256 then Offset(x) else Offset(x) + (TWO_64 - BIT_48)
  }

  lemma CanonicalRange(v: u64)
    ensures IsCanonical(v) <==> v < BIT_47 || v >= TWO_64 - BIT_47
  {
  }

  /** The page number above the low `pt`, `pd`, ... digits: what sign extension puts above 48 bits. */
  function Upper(x: Indices): int { if x.pml4 < 256 then 0 else 0xFFFF }

  lemma Digit(v: int, d: int, q: int, r: int, k: int, i: Index)
    requires d > 0 && v == q * d + r && 0 <= r < d && q == k * ENTRIES + i
    ensures v / d % ENTRIES == i
  {
    QuotientUnique(v, d, q, r);
    QuotientUnique(q, ENTRIES, k, i);
  }

  /** Every choice of indices is the index tuple of a canonical page address. */
  lemma ComposeThenIndices(x: Indices)
    ensures IsPage(Compose(x)) && IndicesOf(Compose(x)) == x
  {
    var v := Compose(x);
    CanonicalRange(v);
    var q3 := Upper(x) * ENTRIES + x.pml4;
    var q2 := q3 * ENTRIES + x.pdpt;
    var q1 := q2 * ENTRIES + x.pd;
    var q0 := q1 * ENTRIES + x.pt;
    Digit(v, 0x80_0000_0000, q3, Offset(x) - x.pml4 * 0x80_0000_0000, Upper(x), x.pml4);
    Digit(v, 0x4000_0000, q2, x.pd * 0x20_0000 + x.pt * PAGE, q3, x.pdpt);
    Digit(v, 0x20_0000, q1, x.pt * PAGE, q2, x.pd);
    Digit(v, PAGE, q0, 0, q1, x.pt);
    QuotientUnique(v, PAGE, q0, 0);
  }

  /** A canonical page address is determined by its four indices. */
  lemma IndicesThenCompose(v: u64)
    requires IsPage(v)
    ensures Compose(IndicesOf(v)) == v
  {
    var q0 := v / PAGE;
    var q1, q2 := q0 / ENTRIES, q0 / ENTRIES / ENTRIES;
    var q3 := q2 / ENTRIES;
    var x := Indices(q3 % ENTRIES, q2 % ENTRIES, q1 % ENTRIES, q0 % ENTRIES);
    Positional(q0);
    Positional(q1);
    Positional(q2);
    Positional(q3);
    assert v == PAGE * q0;
    CanonicalRange(v);
    SignExtended(v, q3 / ENTRIES, x);
    ComposeThenIndices(x);
  }

  lemma Positional(q: nat)
    ensures q == q / ENTRIES * ENTRIES + q % ENTRIES
  {
  }

  /** A canonical address is its 48-bit offset with bit 47 extended upwards. */
  lemma SignExtended(v: u64, upper: nat, x: Indices)
    requires v < BIT_47 || v >= TWO_64 - BIT_47
    requires v == upper * BIT_48 + Offset(x)
    ensures v == Compose(x)
  {
    assert 0 <= Offset(x) < BIT_48;
    if v < BIT_47 {
      assert upper == 0;
    } else {
      assert upper == 0xFFFF;
    }
  }

  /** The index functions form a bijection between canonical page addresses and index tuples. */
  lemma IndicesInjective(v: u64, w: u64)
    requires IsPage(v) && IsPage(w) && IndicesOf(v) == IndicesOf(w)
    ensures v == w
  {
    IndicesThenCompose(v);
    IndicesThenCompose(w);
  }

  // ---------------------------------------------------------------- what each index selects

  const GIB_512: int := 0x80_0000_0000
  const GIB: int := 0x4000_0000
  const MIB_2: int := 0x20_0000

  /** The page numbers above each level of a canonical page address. */
  lemma Quotients(v: u64)
    requires IsPage(v)
    ensures var x := IndicesOf(v);
            && v / GIB_512 == Upper(x) * ENTRIES + x.pml4
            && v / GIB == v / GIB_512 * ENTRIES + x.pdpt
            && v / MIB_2 == v / GIB * ENTRIES + x.pd
            && v / PAGE == v / MIB_2 * ENTRIES + x.pt
  {
    IndicesThenCompose(v);
    var x := IndicesOf(v);
    var q3 := Upper(x) * ENTRIES + x.pml4;
    var q2 := q3 * ENTRIES + x.pdpt;
    var q1 := q2 * ENTRIES + x.pd;
    QuotientUnique(v, GIB_512, q3, Offset(x) - x.pml4 * GIB_512);
    QuotientUnique(v, GIB, q2, x.pd * MIB_2 + x.pt * PAGE);
    QuotientUnique(v, MIB_2, q1, x.pt * PAGE);
    QuotientUnique(v, PAGE, q1 * ENTRIES + x.pt, 0);
  }

  /** Two canonical pages share their first table exactly when they lie in the same 512 GiB, their second exactly
      when in the same 1 GiB, and their leaf table exactly when in the same 2 MiB. */
  lemma SharedTables(v: u64, w: u64)
    requires IsPage(v) && IsPage(w)
    ensures var x, y := IndicesOf(v), IndicesOf(w);
            && (x.pml4 == y.pml4 <==> v / GIB_512 == w / GIB_512)
            && (x.pml4 == y.pml4 && x.pdpt == y.pdpt <==> v / GIB == w / GIB)
            && (x.pml4 == y.pml4 && x.pdpt == y.pdpt && x.pd == y.pd <==> v / MIB_2 == w / MIB_2)
  {
    Quotients(v);
    Quotients(w);
  }

  /** Tuples in dictionary order. */
  predicate Before(x: Indices, y: Indices) {
    || x.pml4 < y.pml4
    || (x.pml4 == y.pml4 && x.pdpt < y.pdpt)
    || (x.pml4 == y.pml4 && x.pdpt == y.pdpt && x.pd < y.pd)
    || (x.pml4 == y.pml4 && x.pdpt == y.pdpt && x.pd == y.pd && x.pt < y.pt)
  }

  /** The index tuples of canonical pages are ordered as the addresses are, and the lower half has the lower 256
      entries of the root. */
  lemma IndicesInOrder(v: u64, w: u64)
    requires IsPage(v) && IsPage(w)
    ensures v < w <==> Before(IndicesOf(v), IndicesOf(w))
    ensures v < BIT_47 <==> IndicesOf(v).pml4 < 256
  {
    IndicesThenCompose(v);
    IndicesThenCompose(w);
    CanonicalRange(v);
    OffsetsInOrder(IndicesOf(v), IndicesOf(w));
    OffsetsInOrder(IndicesOf(w), IndicesOf(v));
    OffsetRange(IndicesOf(v));
    OffsetRange(IndicesOf(w));
    if v == w {} else { IndicesDiffer(v, w); }
  }

  lemma OffsetsInOrder(x: Indices, y: Indices)
    ensures Before(x, y) ==> Offset(x) < Offset(y)
  {
  }

  lemma OffsetRange(x: Indices)
    ensures 0 <= Offset(x) < BIT_48 && (x.pml4 < 256 <==> Offset(x) < BIT_47)
  {
  }

  lemma IndicesDiffer(v: u64, w: u64)
    requires IsPage(v) && IsPage(w) && v != w
    ensures Before(IndicesOf(v), IndicesOf(w)) || Before(IndicesOf(w), IndicesOf(v))
  {
    if IndicesOf(v) == IndicesOf(w) { IndicesInjective(v, w); }
  }
}
