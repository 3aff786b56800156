// Heaps with more blocks than kmem_validate is willing to walk: they are reached by
// small requests, and from then on every release reports an error.

module HeapLimits {
  import opened Words
  import opened HeapBlocks
  import opened HeapMemory
  import opened HeapRuns
  import HeapValidation
  import KH = KernelHeap
  import KR = KernelHeapRuns

  const CELL: int := 64    // the smallest block: a header and 16 bytes

  /** n smallest blocks handed out, and the rest of the arena free behind them. */
  function Cells(base: int, end: int, n: nat): seq<Block> {
    seq(n, i => Block(base + CELL * i, GRAIN, false)) + [Block(base + CELL * n, end - base - CELL * n - HEADER, true)]
  }

  function Requests(n: nat): seq<Op> { seq(n, _ => Alloc(GRAIN)) }

  /** One more small request takes the first cell of the rest. */
  lemma OneMoreCell(base: int, end: int, n: nat)
    requires end - base > CELL * n + HEADER + GRAIN + HEADER + MIN_SPLIT
    ensures AllocBlocks(Cells(base, end, n), GRAIN) == (Cells(base, end, n + 1), base + CELL * n + HEADER)
  {
    var bs := Cells(base, end, n);
    assert bs[n].free && Fits(bs[n], GRAIN);
    var k := FirstFit(bs, GRAIN);
    assert k == n;
    assert RoundUp(GRAIN) == GRAIN;
    assert Take(bs, n, GRAIN) == Cells(base, end, n + 1);
  }

  /** So n small requests make n+1 blocks. */
  lemma {:induction false} ManyCells(base: int, end: int, n: nat)
    requires end - base > CELL * n + HEADER + GRAIN + HEADER + MIN_SPLIT
    ensures Run(InitState(base, end), Requests(n)).blocks == Cells(base, end, n)
  {
    if n > 0 {
      ManyCells(base, end, n - 1);
      assert Requests(n)[..n-1] == Requests(n - 1);
      OneMoreCell(base, end, n - 1);
    }
  }

  /** With 1048576 small requests outstanding, releasing the first one leaves too many blocks. */
  lemma FirstCell(base: int, end: int)
    requires 0 < base && base % GRAIN == 0 && end % GRAIN == 0
    requires end - base > CELL * HeapValidation.MAX_BLOCKS + HEADER + GRAIN + HEADER + MIN_SPLIT
    ensures var s := Run(InitState(base, end), Requests(HeapValidation.MAX_BLOCKS));
            && Inv(s, base, end) && |s.blocks| > 1 && !s.blocks[0].free && s.blocks[0].Payload() == base + HEADER
            && BlocksAfter(s.blocks, 0) > HeapValidation.MAX_BLOCKS
            && Release(s.blocks, 0)[0].free
  {
    var n: nat := HeapValidation.MAX_BLOCKS;
    RunKeepsInv(base, end, Requests(n));
    ManyCells(base, end, n);
    var bs := Cells(base, end, n);
    assert |bs| == n + 1 && bs[0] == Block(base, GRAIN, false) && !bs[1].free;
    ReleaseFuses(bs, base, end, 0);
  }

  /** All the requests are carried out. */
  method MakeRequests(h: KH.Heap, n: nat, s: State)
    requires KR.Tracks(h, s)
    modifies h`mem, h`blocks
    ensures KR.Tracks(h, Run(s, Requests(n)))
  {
    var rs, t := KR.Execution(h, Requests(n), s);
    assert Requests(n)[..|rs|] == Requests(n);
  }

  method ReleaseFirst(h: KH.Heap, ptr: u64, ghost s: State) returns (code: int)
    requires KR.Tracks(h, s) && |s.blocks| > 1 && !s.blocks[0].free && s.blocks[0].Payload() == ptr
    requires BlocksAfter(s.blocks, 0) > HeapValidation.MAX_BLOCKS
    modifies h`mem, h`blocks
    ensures code == -3 && h.Valid() && h.blocks == Release(s.blocks, 0)
  {
    assert h.Owns(ptr, 0);
    code := h.FreeChecked(ptr);
  }

  /** An arena of aligned memory, with its 1048576 smallest blocks handed out. */
  method FillArena(h: KH.Heap, base: u64, bytes: u64)
    requires base + bytes + HEADER < TWO_64 && Ram(h.mem, base, base + bytes - 7)
    requires 0 < base && base % GRAIN == 0 && bytes % GRAIN == 0 && bytes > HEADER + MIN_SPLIT
    modifies h
    ensures KR.Tracks(h, Run(InitState(base, base + bytes), Requests(HeapValidation.MAX_BLOCKS)))
  {
    AlignedArena(base, bytes);
    var code := KR.InitTracked(h, base, bytes);
    MakeRequests(h, HeapValidation.MAX_BLOCKS, KR.Started(base, bytes));
  }

  lemma AlignedArena(base: u64, bytes: u64)
    requires base + bytes + HEADER < TWO_64 && base % GRAIN == 0 && bytes % GRAIN == 0
    ensures KH.UsableBytes(base, bytes) == bytes && KR.Started(base, bytes) == InitState(base, base + bytes)
  {
  }

  /** kmem_free_checked returns -3 on a block that it does release. */
  method ReleasedYetRefused(h: KH.Heap, base: u64, bytes: u64) returns (code: int)
    requires base + bytes + HEADER < TWO_64 && Ram(h.mem, base, base + bytes - 7)
    requires 0 < base && base % GRAIN == 0 && bytes % GRAIN == 0
    requires bytes > CELL * HeapValidation.MAX_BLOCKS + HEADER + GRAIN + HEADER + MIN_SPLIT
    modifies h
    ensures code == -3 && h.Valid() && |h.blocks| > 0 && h.blocks[0].free
  {
    FillArena(h, base, bytes);
    FirstCell(base, base + bytes);
    code := ReleaseFirst(h, base + HEADER, Run(InitState(base, base + bytes), Requests(HeapValidation.MAX_BLOCKS)));
  }
}
