// The kernel heap: kmem.c as a class whose fields are its globals and the memory
// it manages. The ghost field `blocks` is the block list that memory holds.

module KernelHeap {
  import opened Words
  import opened HeapBlocks
  import opened HeapMemory
  import opened HeapMoves
  import opened HeapBytes
  import HeapValidation

  datatype Stats = Stats(total: int, used: int, free: int, blockCount: int, freeCount: int, largestFree: int)

  /** The bytes of [base, base+bytes) that remain after aligning both ends to 16. */
  function UsableBytes(base: u64, bytes: u64): int {
    (bytes - (RoundUp(base) - base)) / GRAIN * GRAIN
  }

  /** The checks of kmem_init, and the arena it chooses. */
  method ChooseArena(base: u64, bytes: u64) returns (code: int, start: u64, usable: u64)
    ensures code in {0, -1, -2, -3, -4}
    ensures code == -1 <==> base == 0 || bytes < HEADER + MIN_SPLIT
    ensures code == -2 <==> base > MAX_64 - 15 && bytes >= HEADER + MIN_SPLIT
    ensures code == -3 <==> && 0 < base <= MAX_64 - 15
                            && HEADER + MIN_SPLIT <= bytes <= RoundUp(base) - base + HEADER + MIN_SPLIT
    ensures code == 0 <==> 0 < base <= MAX_64 - 15 && UsableBytes(base, bytes) > HEADER + MIN_SPLIT
    ensures code == 0 ==> start == RoundUp(base) && usable == UsableBytes(base, bytes)
    ensures code == 0 ==> start % GRAIN == 0 && usable % GRAIN == 0 && base <= start && start + usable <= base + bytes
    ensures code == 0 ==> start < base + GRAIN && base + bytes < start + usable + GRAIN
  {
    start, usable := 0, 0;
    if base == 0 || bytes < HEADER + MIN_SPLIT {
      return -1, 0, 0;
    }
    start := RoundUp(base);
    if start == 0 || start < base {
      code := -2;
      return;
    }
    var lost := start - base;
    if bytes <= lost + HEADER + MIN_SPLIT {
      return -3, start, 0;
    }
    usable := (bytes - lost) / GRAIN * GRAIN;
    if usable <= HEADER + MIN_SPLIT {
      return -4, start, usable;
    }
    return 0, start, usable;
  }

  lemma SubRam(m: Memory, lo: int, hi: int, start: int, end: int)
    requires Ram(m, lo, hi) && lo <= start && start % GRAIN == 0 && end % GRAIN == 0 && end - 8 < hi
    ensures Ram(m, start, end)
  {
    forall a {:trigger WordAligned(a)} | start <= a < end && WordAligned(a) ensures a in m {
      assert a + 8 <= end;
    }
  }

  /** The single free block that kmem_init writes is a layout of the whole arena. */
  lemma FreshArena(m: Memory, m': Memory, base: u64, end: u64)
    requires m'.Keys == m.Keys && Ram(m, base, end) && 0 < base && base % GRAIN == 0 && end % GRAIN == 0
    requires HEADER < end - base && end + HEADER < TWO_64
    requires HeaderAt(m', Block(base, end - base - HEADER, true), 0, 0)
    requires forall a | a in m :: base <= a < base + HEADER || m'[a] == m[a]
    ensures var bs := [Block(base, end - base - HEADER, true)];
            Layout(m', bs, base, end) && Coalesced(bs) && OnlyHeaders(m, m', bs)
  {
    var bs := [Block(base, end - base - HEADER, true)];
    assert Linked(m', bs, 0);
    forall a | a in m && m'[a] != m[a] ensures InHeader(bs, a) {
      assert bs[0].at <= a < bs[0].at + HEADER;
    }
  }

  /** The overflow test of kmem_calloc is exact. */
  lemma ProductTest(count: u64, bytes: u64)
    requires count != 0
    ensures bytes > MAX_64 / count <==> count * bytes > MAX_64
  {
    var q := MAX_64 / count;
    assert MAX_64 == q * count + MAX_64 % count;
    if bytes > q {
      NonNegative(bytes - q - 1, count);
      assert (bytes - q - 1) * count == bytes * count - q * count - count;
    } else {
      NonNegative(q - bytes, count);
      assert (q - bytes) * count == q * count - bytes * count;
    }
  }

  /** The word that holds a byte of the payload of block k lies in that payload. */
  lemma PayloadByte(m: Memory, bs: seq<Block>, base: u64, end: u64, k: nat, offset: int)
    requires Layout(m, bs, base, end) && k < |bs| && 0 <= offset < bs[k].size
    ensures var w := WordOf(bs[k].Payload() + offset); w in m && bs[k].Payload() <= w < bs[k].End()
  {
    BlockFacts(m, bs, base, end, k);
    GrainWordAligned(bs[k].at, 6 + offset / 8);
    assert WordOf(bs[k].Payload() + offset) == bs[k].at + 8 * (6 + offset / 8) by {
      GrainWord(bs[k].at, offset);
    }
  }

  lemma GrainWord(at: int, offset: int)
    requires at % GRAIN == 0
    ensures WordOf(at + HEADER + offset) == at + 8 * (6 + offset / 8)
  {
    var q := 2 * (at / GRAIN) + 6 + offset / 8;
    QuotientUnique(at + HEADER + offset, 8, q, offset % 8);
  }

  /** Writing inside the payload of block k leaves the block list as it is. */
  lemma PayloadWrite(m: Memory, m': Memory, bs: seq<Block>, base: u64, end: u64, k: nat)
    requires Layout(m, bs, base, end) && k < |bs| && m'.Keys == m.Keys
    requires forall a | a in m :: bs[k].Payload() <= a < bs[k].End() || m'[a] == m[a]
    ensures Layout(m', bs, base, end)
  {
    forall i | 0 <= i < |bs| ensures Linked(m', bs, i) {
      assert Linked(m, bs, i);
      if i < k { TiledOrdered(bs, base, end, i, k); }
      if k < i { TiledOrdered(bs, base, end, k, i); }
      LinkedFrame(m, m', bs, i, bs, i);
    }
  }

  /** kmem_memset(ptr, 0, total) on the payload of block k. */
  method ZeroPayload(m: Memory, ptr: u64, total: u64,
                     ghost bs: seq<Block>, ghost base: u64, ghost end: u64, ghost k: nat)
    returns (r: Memory)
    requires Layout(m, bs, base, end) && k < |bs| && bs[k].Payload() == ptr && total <= bs[k].size
    ensures Layout(r, bs, base, end) && ZeroBytes(r, ptr, total) && r.Keys == m.Keys
    ensures forall a | a in m :: ptr <= a < ptr + total || r[a] == m[a]
  {
    BlockFacts(m, bs, base, end, k);
    forall p {:trigger WordOf(p)} | ptr <= p < ptr + total ensures WordOf(p) in m {
      PayloadByte(m, bs, base, end, k, p - ptr);
    }
    r := MemSet(m, ptr, 0, total);
    GrainWord(bs[k].at, 0);
    PayloadWrite(m, r, bs, base, end, k);
  }

  /** What one turn of kmem_get_stats adds for a block. */
  function Tally(st: Stats, size: int, free: bool): Stats {
    var st1 := st.(blockCount := st.blockCount + 1);
    if free then
      var st2 := st1.(freeCount := st1.freeCount + 1, free := st1.free + size);
      if size > st2.largestFree then st2.(largestFree := size) else st2
    else
      st1.(used := st1.used + size)
  }

  /** The statistics of the first n blocks. */
  function StatsOf(total: int, bs: seq<Block>, n: nat): Stats
    requires n <= |bs| && forall i :: 0 <= i < |bs| ==> bs[i].size > 0
  {
    Stats(total, PayloadBytes(bs, n, false), PayloadBytes(bs, n, true), n, FreeCount(bs, n), LargestFree(bs, n))
  }

  lemma TallyNext(total: int, bs: seq<Block>, n: nat)
    requires n < |bs| && forall i :: 0 <= i < |bs| ==> bs[i].size > 0
    ensures Tally(StatsOf(total, bs, n), bs[n].size, bs[n].free) == StatsOf(total, bs, n + 1)
  {
  }

  /** One turn of the walk: it adds block i and goes on to the next. */
  lemma TallyTurn(m: Memory, total: int, bs: seq<Block>, base: u64, end: u64, i: nat)
    requires Layout(m, bs, base, end) && i < |bs|
    ensures HeaderPresent(m, bs[i].at)
    ensures Tally(StatsOf(total, bs, i), m[bs[i].at + SIZE], FreeBit(m[bs[i].at + FREE])) == StatsOf(total, bs, i + 1)
    ensures m[bs[i].at + NEXT] == (if i + 1 < |bs| then bs[i+1].at else 0) && (i + 1 < |bs| ==> bs[i+1].at > 0)
  {
    BlockFacts(m, bs, base, end, i);
    TallyNext(total, bs, i);
    if i + 1 < |bs| { BlockFacts(m, bs, base, end, i + 1); }
  }

  /** The walk of kmem_get_stats. */
  method TallyBlocks(m: Memory, head: u64, total: int, ghost bs: seq<Block>, ghost base: u64, ghost end: u64)
    returns (st: Stats)
    requires Layout(m, bs, base, end) && head == base
    ensures st == StatsOf(total, bs, |bs|)
  {
    st := Stats(total, 0, 0, 0, 0, 0);
    var cur: int := head;
    ghost var i := 0;
    BlockFacts(m, bs, base, end, 0);
    while cur != 0
      invariant 0 <= i <= |bs| && cur == if i < |bs| then bs[i].at else 0
      invariant i < |bs| ==> cur > 0
      invariant st == StatsOf(total, bs, i)
      decreases |bs| - i
    {
      TallyTurn(m, total, bs, base, end, i);
      st := Tally(st, m[cur + SIZE], FreeBit(m[cur + FREE]));
      cur := m[cur + NEXT];
      i := i + 1;
    }
  }

  class Heap {
    var mem: Memory
    var heapBase: u64
    var heapEnd: u64
    var head: u64
    var initialized: bool
    ghost var blocks: seq<Block>

    /** An initialised heap: memory holds a tiling with no two free neighbours. */
    ghost predicate Valid()
      reads this
    {
      initialized ==> head == heapBase && Layout(mem, blocks, heapBase, heapEnd) && Coalesced(blocks)
    }

    /** The heap before kmem_init: the globals are zero. */
    constructor (m: Memory)
      ensures Valid() && !initialized && mem == m && blocks == []
    {
      mem, heapBase, heapEnd, head, initialized := m, 0, 0, 0, false;
      blocks := [];
    }

    /** kmem_validate on a heap in order: 0, or -3 when there are more blocks than it is willing to walk. */
    method Validate() returns (code: int)
      requires Valid()
      ensures code == if !initialized then -1 else if |blocks| <= HeapValidation.MAX_BLOCKS then 0 else -3
    {
      if !initialized {
        return -1;
      }
      code := HeapValidation.ValidateLayout(mem, heapBase, heapEnd, head, blocks);
    }

    // -------------------------------------------------------------- initialisation

    /** kmem_init: refusals leave everything as it was; success makes one free block of the 16-aligned part. */
    method Init(base: u64, bytes: u64) returns (code: int)
      requires base + bytes + HEADER < TWO_64 && Ram(mem, base, base + bytes - 7)
      modifies this
      ensures code in {0, -1, -3, -4}
      ensures code == -1 <==> base == 0 || bytes < HEADER + MIN_SPLIT
      ensures code == -3 <==> base != 0 && HEADER + MIN_SPLIT <= bytes <= RoundUp(base) - base + HEADER + MIN_SPLIT
      ensures code == 0 <==> base != 0 && UsableBytes(base, bytes) > HEADER + MIN_SPLIT
      ensures code != 0 ==> mem == old(mem) && initialized == old(initialized) && blocks == old(blocks)
                            && heapBase == old(heapBase) && heapEnd == old(heapEnd) && head == old(head)
      ensures code == 0 ==>
                && Valid() && initialized
                && heapBase == RoundUp(base) && heapEnd == heapBase + UsableBytes(base, bytes)
                && blocks == [Block(heapBase, heapEnd - heapBase - HEADER, true)]
                && OnlyHeaders(old(mem), mem, blocks)
                && base <= heapBase < base + GRAIN && heapEnd <= base + bytes < heapEnd + GRAIN
    {
      var start, usable;
      code, start, usable := ChooseArena(base, bytes);
      if code != 0 {
        return;
      }
      SubRam(mem, base, base + bytes - 7, start, start + usable);
      heapBase := start;
      heapEnd := start + usable;
      head := start;
      RamHoldsHeader(mem, start, heapEnd, start);
      mem := WriteFreeHeader(mem, start, usable - HEADER, 0, 0);
      initialized := true;
      blocks := [Block(start, usable - HEADER, true)];
      FreshArena(old(mem), mem, start, heapEnd);
      code := Validate();
    }

    // -------------------------------------------------------------- allocation

    /** The largest free payload. */
    ghost function Largest(): (r: nat)
      requires Valid() && initialized
      reads this
      ensures forall i :: 0 <= i < |blocks| && blocks[i].free ==> blocks[i].size <= r
      ensures r == 0 || exists i :: 0 <= i < |blocks| && blocks[i].free && blocks[i].size == r
    {
      LargestFree(blocks, |blocks|)
    }

    /** The walk and the stores of kmem_alloc: first fit on the block list. */
    method TakeFirstFit(bytes: u64) returns (p: u64)
      requires Valid()
      modifies this`mem, this`blocks
      ensures Valid()
      ensures !initialized ==> p == 0 && mem == old(mem) && blocks == old(blocks)
      ensures initialized ==> (blocks, p) == AllocBlocks(old(blocks), bytes)
      ensures initialized ==> OnlyHeaders(old(mem), mem, blocks)
      ensures p == 0 ==> mem == old(mem)
    {
      if !initialized || bytes == 0 {
        return 0;
      }
      var wanted := RoundUp(bytes);
      if wanted == 0 {
        return 0;
      }
      var cur := FindFit(mem, head, wanted, blocks, heapBase, heapEnd);
      ghost var k := FirstFit(blocks, wanted);
      if cur == 0 {
        if k < |blocks| { BlockFacts(mem, blocks, heapBase, heapEnd, k); }
        return 0;
      }
      BlockFacts(mem, blocks, heapBase, heapEnd, k);
      TakeKeepsInv(blocks, heapBase, heapEnd, k, wanted);
      mem := TakeBlock(mem, heapEnd, cur, wanted, blocks, heapBase, k);
      blocks := Take(blocks, k, wanted);
      return cur + HEADER;
    }

    /** kmem_alloc: refused exactly for an empty or overflowing request, or one larger than every free payload;
        otherwise the lowest block that fits is handed out. Only header words change. */
    method Alloc(bytes: u64) returns (p: u64)
      requires Valid()
      modifies this`mem, this`blocks
      ensures Valid()
      ensures !initialized ==> p == 0 && mem == old(mem) && blocks == old(blocks)
      ensures initialized ==> (blocks, p) == AllocBlocks(old(blocks), bytes)
      ensures initialized ==> OnlyHeaders(old(mem), mem, blocks)
      ensures p == 0 ==> mem == old(mem)
      ensures initialized ==> (p == 0 <==> old(bytes == 0 || bytes > MAX_64 - 15 || RoundUp(bytes) > Largest()))
      ensures p != 0 ==> Grants(old(blocks), blocks, p, bytes)
    {
      if initialized { AllocOutcome(blocks, heapBase, heapEnd, bytes); }
      p := TakeFirstFit(bytes);
    }

    /** kmem_calloc: as kmem_alloc for the product, whose overflow is refused; every byte asked for is zero.
        Nothing outside headers and the new payload changes. */
    method Calloc(count: u64, bytes: u64) returns (p: u64)
      requires Valid()
      modifies this`mem, this`blocks
      ensures Valid()
      ensures !initialized ==> p == 0 && mem == old(mem) && blocks == old(blocks)
      ensures initialized ==> (blocks, p) == CallocBlocks(old(blocks), count, bytes)
      ensures initialized ==> (p == 0 <==> old(count == 0 || bytes == 0 || count * bytes > MAX_64 - 15
                                               || (0 <= count * bytes && RoundUp(count * bytes) > Largest())))
      ensures p != 0 ==> 0 <= count * bytes <= MAX_64 && Grants(old(blocks), blocks, p, count * bytes)
      ensures initialized && p != 0 ==>
                && ZeroBytes(mem, p, count * bytes)
                && mem.Keys == old(mem.Keys)
                && forall a | a in mem :: InHeader(blocks, a) || p <= a < p + count * bytes || mem[a] == old(mem[a])
      ensures p == 0 ==> mem == old(mem)
    {
      if initialized { CallocOutcome(blocks, heapBase, heapEnd, count, bytes); }
      if count != 0 { ProductTest(count, bytes); }
      if count != 0 && bytes > MAX_64 / count {
        return 0;
      }
      NonNegative(count, bytes);
      var total := count * bytes;
      p := Alloc(total);
      if p != 0 {
        ghost var k := FirstFit(old(blocks), RoundUp(total));
        TakenBlock(old(blocks), heapBase, heapEnd, total);
        mem := ZeroPayload(mem, p, total, blocks, heapBase, heapEnd, k);
      }
    }

    // -------------------------------------------------------------- release

    /** Block k is handed out and ptr is its payload. */
    ghost predicate Owns(ptr: int, k: int)
      reads this
    {
      initialized && 0 <= k < |blocks| && !blocks[k].free && blocks[k].Payload() == ptr
    }

    /** ptr came from kmem_alloc and has not been released. */
    ghost predicate Owned(ptr: int)
      reads this
    {
      exists k :: Owns(ptr, k)
    }

    predicate InHeap(p: int)
      reads this
    {
      initialized && heapBase <= p < heapEnd
    }

    /** The magic word sits where ptr's header would be. */
    predicate HasMagic(ptr: int)
      reads this
    {
      ptr - HEADER in mem && mem[ptr - HEADER] == MAGIC
    }

    /** Every check of kmem_free_checked. */
    predicate PassesChecks(ptr: int)
      reads this
    {
      && InHeap(ptr) && ptr % GRAIN == 0 && InHeap(ptr - HEADER) && HasMagic(ptr)
      && ptr - HEADER + FREE in mem && !FreeBit(mem[ptr - HEADER + FREE])
    }

    /** ptr passes every check of kmem_free_checked without having come from kmem_alloc: payload bytes
        happen to look like a used header. */
    ghost predicate Forged(ptr: int)
      reads this
    {
      PassesChecks(ptr) && !Owned(ptr)
    }

    lemma OwnedPasses(ptr: int, k: int)
      requires Valid() && Owns(ptr, k)
      ensures PassesChecks(ptr) && ptr > 0
    {
      BlockFacts(mem, blocks, heapBase, heapEnd, k);
    }

    lemma OwnsUnique(ptr: int, j: int, k: int)
      requires Valid() && Owns(ptr, j) && Owns(ptr, k)
      ensures j == k
    {
      if j < k { TiledOrdered(blocks, heapBase, heapEnd, j, k); }
      if k < j { TiledOrdered(blocks, heapBase, heapEnd, k, j); }
    }

    /** kmem_free_checked. A pointer that fails a check changes nothing; a live one is released, and the code
        is then that of kmem_validate. */
    method FreeChecked(ptr: u64) returns (code: int)
      requires Valid() && !Forged(ptr)
      modifies this`mem, this`blocks
      ensures Valid()
      ensures ptr == 0 ==> code == 0
      ensures ptr != 0 && !InHeap(ptr) ==> code == -1
      ensures InHeap(ptr) && ptr % GRAIN != 0 ==> code == -2
      ensures InHeap(ptr) && ptr % GRAIN == 0 && !(InHeap(ptr - HEADER) && old(HasMagic(ptr))) ==> code == -3
      ensures InHeap(ptr) && ptr % GRAIN == 0 && InHeap(ptr - HEADER) && old(HasMagic(ptr) && !Owned(ptr)) ==>
                code == -4
      ensures !old(Owned(ptr)) ==> mem == old(mem) && blocks == old(blocks)
      ensures forall k | old(Owns(ptr, k)) ::
                && blocks == Release(old(blocks), k) && Live(blocks) == Live(old(blocks)) - {old(blocks)[k]}
                && code == (if BlocksAfter(old(blocks), k) <= HeapValidation.MAX_BLOCKS then 0 else -3)
                && OnlyHeaders(old(mem), mem, old(blocks))
                && StalePointer(mem, blocks, ptr - HEADER)
    {
      forall k | Owns(ptr, k) ensures PassesChecks(ptr) { OwnedPasses(ptr, k); }
      if ptr == 0 {
        return 0;
      }
      if !InHeap(ptr) {
        return -1;
      }
      if ptr % GRAIN != 0 {
        return -2;
      }
      var block := ptr - HEADER;
      if !InHeap(block) {
        return -3;
      }
      RamHoldsHeader(mem, heapBase, heapEnd, block);
      if mem[block] != MAGIC {
        return -3;
      }
      if FreeBit(mem[block + FREE]) {
        return -4;
      }
      ghost var k :| Owns(ptr, k);
      forall j | Owns(ptr, j) ensures j == k { OwnsUnique(ptr, j, k); }
      code := ReleaseAndValidate(block, k);
    }

    /** The release of block k, once every check has passed. */
    method ReleaseAndValidate(block: u64, ghost k: nat) returns (code: int)
      requires Valid() && initialized && k < |blocks| && blocks[k].at == block && !blocks[k].free
      modifies this`mem, this`blocks
      ensures Valid() && blocks == Release(old(blocks), k) && Live(blocks) == Live(old(blocks)) - {old(blocks)[k]}
      ensures code == if BlocksAfter(old(blocks), k) <= HeapValidation.MAX_BLOCKS then 0 else -3
      ensures OnlyHeaders(old(mem), mem, old(blocks)) && StalePointer(mem, blocks, block)
    {
      mem := ReleaseBlock(mem, block, blocks, heapBase, heapEnd, k);
      ReleaseKeepsInv(blocks, heapBase, heapEnd, k);
      ReleaseSize(blocks, heapBase, heapEnd, k);
      ReleaseLive(blocks, heapBase, heapEnd, k);
      blocks := Release(blocks, k);
      code := Validate();
    }

    /** kmem_free_checked on the payload of the live block k. */
    method FreeOwned(ptr: u64, ghost k: nat) returns (code: int)
      requires Valid() && Owns(ptr, k)
      modifies this`mem, this`blocks
      ensures Valid() && blocks == Release(old(blocks), k) && OnlyHeaders(old(mem), mem, old(blocks))
      ensures code == if BlocksAfter(old(blocks), k) <= HeapValidation.MAX_BLOCKS then 0 else -3
      ensures StalePointer(mem, blocks, ptr - HEADER)
    {
      assert Owned(ptr);
      code := FreeChecked(ptr);
    }

    /** Releasing the same pointer twice in a row: the second call is refused and changes nothing. */
    method FreeTwice(ptr: u64) returns (first: int, second: int, ghost between: Memory)
      requires Valid() && Owned(ptr)
      modifies this`mem, this`blocks
      ensures Valid()
      ensures second == -3 || second == -4
      ensures mem == between && forall k | old(Owns(ptr, k)) ::
                && blocks == Release(old(blocks), k)
                && first == (if BlocksAfter(old(blocks), k) <= HeapValidation.MAX_BLOCKS then 0 else -3)
                && OnlyHeaders(old(mem), between, old(blocks))
    {
      ghost var k :| Owns(ptr, k);
      OwnedPasses(ptr, k);
      forall j | Owns(ptr, j) ensures j == k { OwnsUnique(ptr, j, k); }
      first := FreeOwned(ptr, k);
      between := mem;
      StaleIsRefused(ptr);
      second := FreeChecked(ptr);
    }

    /** A stale pointer fails the magic check or the free check. */
    lemma StaleIsRefused(ptr: int)
      requires Valid() && initialized && StalePointer(mem, blocks, ptr - HEADER)
      requires InHeap(ptr) && ptr % GRAIN == 0 && InHeap(ptr - HEADER)
      ensures !PassesChecks(ptr) && !Owned(ptr)
    {
      if !(ptr - HEADER in mem && mem[ptr - HEADER] == 0) {
        var j :| 0 <= j < |blocks| && blocks[j].at == ptr - HEADER && blocks[j].free;
        BlockFacts(mem, blocks, heapBase, heapEnd, j);
      }
      forall k | Owns(ptr, k) ensures PassesChecks(ptr) { OwnedPasses(ptr, k); }
    }

    // -------------------------------------------------------------- statistics

    /** kmem_get_stats: the counters are those of the block list, and account for every byte of the arena. */
    method GetStats() returns (st: Stats)
      requires Valid()
      ensures !initialized ==> st == Stats(0, 0, 0, 0, 0, 0)
      ensures initialized ==>
                && st.total == heapEnd - heapBase
                && st.total == st.used + st.free + HEADER * st.blockCount
                && st == StatsOf(st.total, blocks, |blocks|)
                && st.blockCount == |blocks| && st.freeCount == |FreeIndices(blocks, |blocks|)|
                && st.used == SizeSum(Live(blocks)) && st.free == SizeSum(FreeOnes(blocks))
                && (st.used == 0 <==> Live(blocks) == {}) && st.largestFree == Largest()
    {
      if !initialized {
        return Stats(0, 0, 0, 0, 0, 0);
      }
      st := TallyBlocks(mem, head, heapEnd - heapBase, blocks, heapBase, heapEnd);
      Accounting(blocks, heapBase, heapEnd);
      Sums();
    }

    /** What the counters of the block list add up. */
    lemma Sums()
      requires Valid() && initialized
      ensures PayloadBytes(blocks, |blocks|, false) == SizeSum(Live(blocks))
      ensures PayloadBytes(blocks, |blocks|, true) == SizeSum(FreeOnes(blocks))
      ensures FreeCount(blocks, |blocks|) == |FreeIndices(blocks, |blocks|)|
      ensures SizeSum(Live(blocks)) == 0 <==> Live(blocks) == {}
    {
      BytesAreSums(blocks, heapBase, heapEnd, |blocks|, false);
      BytesAreSums(blocks, heapBase, heapEnd, |blocks|, true);
      FreeCountCounts(blocks, |blocks|);
      assert Those(blocks, |blocks|, false) == Live(blocks);
      SizeSumZero(Live(blocks));
    }

    // -------------------------------------------------------------- callers

    /** A caller stores a byte in memory it was given. */
    method Store(ptr: u64, offset: u64, value: byte)
      requires Valid() && Owned(ptr)
      requires forall k | Owns(ptr, k) :: offset < blocks[k].size
      modifies this`mem
      ensures Valid()
      ensures WordOf(ptr + offset) in old(mem) && mem == StoreByte(old(mem), ptr + offset, value)
    {
      ghost var k :| Owns(ptr, k);
      PayloadByte(mem, blocks, heapBase, heapEnd, k, offset);
      mem := StoreByte(mem, ptr + offset, value);
      PayloadWrite(old(mem), mem, blocks, heapBase, heapEnd, k);
    }
  }
}
