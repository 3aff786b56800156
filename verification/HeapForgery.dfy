// A pointer that kmem_free_checked takes for a live one although it was never handed
// out: how a caller's own bytes lead there, and what releasing it does.

module HeapForgery {
  import opened Words
  import opened HeapBlocks
  import opened HeapMemory
  import opened HeapBytes
  import HeapValidation
  import KH = KernelHeap

  /** Numbers with the same n bytes are the same. */
  lemma {:induction false} SameBytes(x: nat, y: nat, n: nat)
    requires x < Capacity(n) && y < Capacity(n) && forall r: nat :: r < n ==> ByteOf(x, r) == ByteOf(y, r)
    ensures x == y
  {
    if n > 0 {
      LeadingPart(x, Capacity(n - 1));
      LeadingPart(y, Capacity(n - 1));
      forall r: nat | r < n - 1 ensures ByteOf(x / 256, r) == ByteOf(y / 256, r) {
        assert ByteOf(x, r + 1) == ByteOf(y, r + 1);
      }
      SameBytes(x / 256, y / 256, n - 1);
      assert ByteOf(x, 0) == ByteOf(y, 0);
    }
  }

  /** The word at w shows the first n bytes of value, and no other word of m has changed. */
  ghost predicate Written(m: Memory, r: Memory, w: int, value: u64, n: nat) {
    && r.Keys == m.Keys && w in m
    && (forall a | a in m :: a == w || r[a] == m[a])
    && forall j: nat :: j < n ==> ByteOf(r[w], j) == ByteOf(value, j)
  }

  lemma WrittenMore(m: Memory, r: Memory, w: int, value: u64, n: nat)
    requires Written(m, r, w, value, n) && n < 8 && WordAligned(w)
    ensures WordOf(w + n) == w
    ensures Written(m, StoreByte(r, w + n, ByteOf(value, n)), w, value, n + 1)
  {
    InWord(w, n);
    var r' := StoreByte(r, w + n, ByteOf(value, n));
    assert r'[w] == SetByte(r[w], n, ByteOf(value, n));
    forall j: nat | j < n + 1 ensures ByteOf(r'[w], j) == ByteOf(value, j) {
      SetByteAt(r[w], n, ByteOf(value, n), j);
    }
  }

  lemma InWord(w: int, n: nat)
    requires WordAligned(w) && n < 8
    ensures WordOf(w + n) == w && (w + n) % 8 == n
  {
  }

  lemma WholeWord(m: Memory, r: Memory, w: int, value: u64)
    requires Written(m, r, w, value, 8)
    ensures r == m[w := value]
  {
    EightBytes();
    SameBytes(r[w], value, 8);
    var r' := m[w := value];
    assert r'.Keys == r.Keys;
    assert forall a | a in r :: r[a] == r'[a];
    assert r == r';
  }

  /** Eight byte stores of a caller make a word. */
  method StoreWord(h: KH.Heap, ptr: u64, offset: u64, value: u64, ghost k: nat)
    requires h.Valid() && h.Owns(ptr, k) && WordAligned(ptr + offset) && offset + 8 <= h.blocks[k].size
    modifies h`mem
    ensures h.Valid() && h.mem == old(h.mem)[ptr + offset := value]
  {
    BlockFacts(h.mem, h.blocks, h.heapBase, h.heapEnd, k);
    KH.PayloadByte(h.mem, h.blocks, h.heapBase, h.heapEnd, k, offset);
    var i := 0;
    while i < 8
      invariant 0 <= i <= 8 && h.Valid() && Written(old(h.mem), h.mem, ptr + offset, value, i)
    {
      WrittenMore(old(h.mem), h.mem, ptr + offset, value, i);
      StoreOne(h, ptr, offset + i, ByteOf(value, i), k);
      i := i + 1;
    }
    WholeWord(old(h.mem), h.mem, ptr + offset, value);
  }

  method StoreOne(h: KH.Heap, ptr: u64, offset: u64, value: byte, ghost k: nat)
    requires h.Valid() && h.Owns(ptr, k) && offset < h.blocks[k].size
    modifies h`mem
    ensures h.Valid() && WordOf(ptr + offset) in old(h.mem)
    ensures h.mem == StoreByte(old(h.mem), ptr + offset, value)
  {
    forall j | h.Owns(ptr, j) ensures offset < h.blocks[j].size { h.OwnsUnique(ptr, j, k); }
    h.Store(ptr, offset, value);
  }

  /** The 48 bytes at `at` lie in the payload of block k, and look like the header of a used block without
      neighbours. */
  ghost predicate LooksUsed(m: Memory, bs: seq<Block>, k: nat, at: int) {
    && k < |bs| && bs[k].Payload() <= at && at + HEADER < bs[k].End() && at % GRAIN == 0
    && HeaderPresent(m, at) && m[at] == MAGIC && !FreeBit(m[at + FREE]) && m[at + PREV] == 0 && m[at + NEXT] == 0
  }

  /** No block starts inside the payload of another. */
  lemma NoHeaderInside(bs: seq<Block>, base: int, end: int, k: nat, j: nat, at: int)
    requires Tiled(bs, base, end) && k < |bs| && j < |bs| && bs[k].Payload() <= at < bs[k].End()
    ensures bs[j].at != at
  {
    if j < k { TiledOrdered(bs, base, end, j, k); }
    if k < j { TiledOrdered(bs, base, end, k, j); }
  }

  /** Such bytes forge a pointer. */
  lemma LooksForged(h: KH.Heap, k: nat, at: int)
    requires h.Valid() && h.initialized && LooksUsed(h.mem, h.blocks, k, at)
    ensures h.Forged(at + HEADER)
  {
    BlockFacts(h.mem, h.blocks, h.heapBase, h.heapEnd, k);
    var ptr := at + HEADER;
    forall j ensures !h.Owns(ptr, j) {
      if 0 <= j < |h.blocks| { NoHeaderInside(h.blocks, h.heapBase, h.heapEnd, k, j, at); }
    }
  }

  /** kmem_free_checked on such a pointer, past its checks: both links are null, so nothing is coalesced. The block list
      survives and the code is that of kmem_validate, but no block is released, and a word of the payload changes. */
  method ReleaseForged(h: KH.Heap, ptr: u64, ghost k: nat) returns (code: int)
    requires h.Valid() && h.initialized && HEADER <= ptr && LooksUsed(h.mem, h.blocks, k, ptr - HEADER)
    modifies h`mem
    ensures h.Valid() && h.mem.Keys == old(h.mem.Keys)
    ensures code == if |h.blocks| <= HeapValidation.MAX_BLOCKS then 0 else -3
    ensures h.mem[ptr - HEADER + FREE] != old(h.mem)[ptr - HEADER + FREE]
  {
    var at := ptr - HEADER;
    h.mem := h.mem[at + FREE := WithFree(h.mem[at + FREE], true)];
    KH.PayloadWrite(old(h.mem), h.mem, h.blocks, h.heapBase, h.heapEnd, k);
    code := h.Validate();
  }

  lemma WordsOf(p: int)
    requires p % GRAIN == 0
    ensures WordAligned(p) && WordAligned(p + FREE) && WordAligned(p + PREV) && WordAligned(p + NEXT)
  {
  }

  lemma PayloadHoldsHeader(m: Memory, bs: seq<Block>, base: u64, end: u64, k: nat)
    requires Layout(m, bs, base, end) && k < |bs| && bs[k].size > HEADER
    ensures HeaderPresent(m, bs[k].Payload()) && bs[k].Payload() % GRAIN == 0
  {
    BlockFacts(m, bs, base, end, k);
    RamHoldsHeader(m, base, end, bs[k].Payload());
  }

  /** A caller's own bytes make such a header in any request of 96 bytes. */
  method Forge(h: KH.Heap, p: u64, ghost k: nat)
    requires h.Valid() && h.Owns(p, k) && h.blocks[k].size >= 2 * HEADER
    modifies h`mem
    ensures h.Valid() && LooksUsed(h.mem, h.blocks, k, p)
  {
    PayloadHoldsHeader(h.mem, h.blocks, h.heapBase, h.heapEnd, k);
    WordsOf(p);
    ForgeWords(h, p, k);
  }

  method ForgeWords(h: KH.Heap, p: u64, ghost k: nat)
    requires h.Valid() && h.Owns(p, k) && h.blocks[k].size >= 2 * HEADER
    requires WordAligned(p) && WordAligned(p + FREE) && WordAligned(p + PREV) && WordAligned(p + NEXT)
    modifies h`mem
    ensures h.Valid()
    ensures h.mem == old(h.mem)[p := MAGIC][p + FREE := 0][p + PREV := 0][p + NEXT := 0]
  {
    StoreWord(h, p, 0, MAGIC, k);
    StoreWord(h, p, FREE, 0, k);
    StoreWord(h, p, PREV, 0, k);
    StoreWord(h, p, NEXT, 0, k);
  }

  /** So from every heap in order that grants 96 bytes, a forged pointer is reached. */
  method AllocAndForge(h: KH.Heap) returns (p: u64, ghost k: nat)
    requires h.Valid() && h.initialized
    modifies h`mem, h`blocks
    ensures h.Valid() && (h.blocks, p) == AllocBlocks(old(h.blocks), 2 * HEADER)
    ensures p != 0 ==> h.Owns(p, k) && LooksUsed(h.mem, h.blocks, k, p) && h.Forged(p + HEADER)
  {
    k := FirstFit(h.blocks, RoundUp(2 * HEADER));
    p := h.Alloc(2 * HEADER);
    if p != 0 {
      TakenBlock(old(h.blocks), h.heapBase, h.heapEnd, 2 * HEADER);
      Forge(h, p, k);
      LooksForged(h, k, p);
    }
  }

  /** Releasing it is reported as success up to 1048576 blocks, releases nothing, and changes memory that the caller
      still owns. */
  method ForgedRelease(h: KH.Heap) returns (p: u64, code: int, ghost between: Memory)
    requires h.Valid() && h.initialized
    modifies h`mem, h`blocks
    ensures h.Valid() && (h.blocks, p) == AllocBlocks(old(h.blocks), 2 * HEADER)
    ensures p != 0 ==>
              && h.Owned(p) && code == (if |h.blocks| <= HeapValidation.MAX_BLOCKS then 0 else -3)
              && p + FREE in h.mem && p + FREE in between && h.mem[p + FREE] != between[p + FREE]
  {
    ghost var k;
    p, k := AllocAndForge(h);
    code, between := 0, h.mem;
    if p != 0 {
      BlockFacts(h.mem, h.blocks, h.heapBase, h.heapEnd, k);
      code := ReleaseForged(h, p + HEADER, k);
      assert h.Owns(p, k);
    }
  }
}
