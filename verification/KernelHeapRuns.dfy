// Whole runs of the kernel heap in memory: they follow the runs on the block list,
// and never touch the bytes of a request that is not being released.

module KernelHeapRuns {
  import opened Words
  import opened HeapBlocks
  import opened HeapMemory
  import opened HeapRuns
  import HeapValidation
  import KH = KernelHeap

  /** The call releases or writes block b. */
  predicate Touches(op: Op, b: Block) {
    (op.Free? || op.Write?) && op.ptr == b.Payload()
  }

  /** The live block b survives from (m, bs) to (m', bs') with its contents. */
  ghost predicate Kept(m: Memory, m': Memory, bs': seq<Block>, b: Block) {
    b in Live(bs') && Agree(m, m', b.Payload(), b.End())
  }

  ghost predicate KeptAcross(m: Memory, bs: seq<Block>, m': Memory, bs': seq<Block>, op: Op) {
    forall b :: b in Live(bs) && !Touches(op, b) ==> Kept(m, m', bs', b)
  }

  /** Taking a block keeps every live payload: header writes only. */
  lemma AllocKeeps(m: Memory, bs: seq<Block>, m': Memory, bs': seq<Block>, base: int, end: int, bytes: u64)
    requires HeapInv(bs, base, end) && Tiled(bs', base, end) && bs' == AllocBlocks(bs, bytes).0
    requires OnlyHeaders(m, m', bs')
    ensures forall b :: b in Live(bs) ==> Kept(m, m', bs', b)
  {
    var wanted := RoundUp(bytes);
    var k := FirstFit(bs, wanted);
    if wanted != 0 && k < |bs| { TakeLive(bs, k, wanted); }
    forall b | b in Live(bs) ensures Kept(m, m', bs', b) {
      assert b in Live(bs');
      OnlyHeadersKeepsPayload(m, m', bs', base, end, b);
    }
  }

  lemma FreeKeeps(m: Memory, bs: seq<Block>, m': Memory, base: int, end: int, k: nat)
    requires HeapInv(bs, base, end) && k < |bs| && !bs[k].free && OnlyHeaders(m, m', bs)
    ensures KeptAcross(m, bs, m', Release(bs, k), Free(bs[k].Payload()))
  {
    ReleaseLive(bs, base, end, k);
    forall b | b in Live(bs) && b.Payload() != bs[k].Payload() ensures Kept(m, m', Release(bs, k), b) {
      OnlyHeadersKeepsPayload(m, m', bs, base, end, b);
    }
  }

  /** Zeroing the payload that was just taken spares every other live payload. */
  lemma CallocKeeps(m: Memory, bs: seq<Block>, m': Memory, bs': seq<Block>, base: int, end: int, bytes: u64)
    requires HeapInv(bs, base, end) && Tiled(bs', base, end) && m'.Keys == m.Keys
    requires AllocBlocks(bs, bytes).0 == bs' && AllocBlocks(bs, bytes).1 != 0
    requires var p := AllocBlocks(bs, bytes).1;
             forall a | a in m :: InHeader(bs', a) || p <= a < p + bytes || m'[a] == m[a]
    ensures forall b :: b in Live(bs) ==> Kept(m, m', bs', b)
  {
    var wanted := RoundUp(bytes);
    var k := FirstFit(bs, wanted);
    TakeLive(bs, k, wanted);
    TakenBlock(bs, base, end, bytes);
    forall b | b in Live(bs) ensures Kept(m, m', bs', b) {
      assert b in Live(bs');
      PayloadsDiffer(bs, base, end, k, b);
      PayloadSpared(m, m', bs', base, end, k, b);
    }
  }

  lemma PayloadSpared(m: Memory, m': Memory, bs: seq<Block>, base: int, end: int, k: nat, b: Block)
    requires Tiled(bs, base, end) && k < |bs| && b in bs && b.at != bs[k].at && m'.Keys == m.Keys
    requires forall a | a in m :: InHeader(bs, a) || bs[k].Payload() <= a < bs[k].End() || m'[a] == m[a]
    ensures Agree(m, m', b.Payload(), b.End())
  {
    LiveDisjoint(bs, base, end, b, bs[k]);
    forall a | b.Payload() <= a < b.End() && a in m ensures m'[a] == m[a] {
      if InHeader(bs, a) {
        var i :| 0 <= i < |bs| && bs[i].at <= a < bs[i].at + HEADER;
        LiveDisjoint(bs, base, end, b, bs[i]);
        assert false;
      }
    }
  }

  /** The heap object and the abstract state agree. */
  ghost predicate Tracks(h: KH.Heap, s: State)
    reads h
  {
    h.Valid() && h.initialized && Inv(s, h.heapBase, h.heapEnd) && h.blocks == s.blocks
  }

  /** What callers may do: release any pointer but one that forged bytes make pass the checks without having been handed
      out, and write the bytes they asked for. */
  predicate Safe(h: KH.Heap, s: State, op: Op)
    reads h
  {
    && (op.Free? ==> 0 <= op.ptr < TWO_64 && (h.PassesChecks(op.ptr) ==> op.ptr in s.owned))
    && (op.Write? ==> op.ptr in s.owned && op.offset < s.owned[op.ptr])
  }

  /** What a call returns: a pointer, a code, or nothing. */
  datatype Reply = Pointer(p: int) | Code(code: int) | Nothing

  /** ptr is the payload of a free block. */
  ghost predicate FreePayload(bs: seq<Block>, ptr: int) {
    exists i :: 0 <= i < |bs| && bs[i].free && bs[i].Payload() == ptr
  }

  /** The replies that the block list calls for. Only for a pointer that is no block's payload does the code depend on
      what memory holds. */
  ghost predicate Answers(s: State, base: int, end: int, op: Op, r: Reply) {
    match op
    case Alloc(bytes) => r == Pointer(AllocBlocks(s.blocks, bytes).1)
    case Calloc(count, bytes) => r == Pointer(CallocBlocks(s.blocks, count, bytes).1)
    case Free(ptr) => r.Code? && FreeCode(s, base, end, ptr, r.code)
    case Write(_, _, _) => r == Nothing
  }

  ghost predicate FreeCode(s: State, base: int, end: int, ptr: int, code: int) {
    if ptr == 0 then code == 0
    else if !(base <= ptr < end) then code == -1
    else if ptr % GRAIN != 0 then code == -2
    else if ptr - HEADER < base then code == -3
    else if ptr in s.owned then
      code == if BlocksAfter(s.blocks, IndexOf(s.blocks, ptr)) <= HeapValidation.MAX_BLOCKS then 0 else -3
    else if FreePayload(s.blocks, ptr) then code == -4
    else code == -3 || code == -4
  }

  /** Doing nothing keeps everything. */
  lemma IdleKeeps(m: Memory, bs: seq<Block>, op: Op)
    ensures KeptAcross(m, bs, m, bs, op)
  {
  }

  method DoAlloc(h: KH.Heap, bytes: u64, ghost s: State) returns (p: u64)
    requires Tracks(h, s)
    modifies h`mem, h`blocks
    ensures Tracks(h, Step(s, Alloc(bytes))) && p == AllocBlocks(s.blocks, bytes).1
    ensures KeptAcross(old(h.mem), s.blocks, h.mem, h.blocks, Alloc(bytes))
  {
    StepKeepsInv(s, h.heapBase, h.heapEnd, Alloc(bytes));
    p := h.Alloc(bytes);
    AllocKeeps(old(h.mem), s.blocks, h.mem, h.blocks, h.heapBase, h.heapEnd, bytes);
  }

  method DoCalloc(h: KH.Heap, count: u64, bytes: u64, ghost s: State) returns (p: u64)
    requires Tracks(h, s)
    modifies h`mem, h`blocks
    ensures Tracks(h, Step(s, Calloc(count, bytes))) && p == CallocBlocks(s.blocks, count, bytes).1
    ensures KeptAcross(old(h.mem), s.blocks, h.mem, h.blocks, Calloc(count, bytes))
  {
    StepKeepsInv(s, h.heapBase, h.heapEnd, Calloc(count, bytes));
    p := h.Calloc(count, bytes);
    if p != 0 {
      CallocKeeps(old(h.mem), s.blocks, h.mem, h.blocks, h.heapBase, h.heapEnd, count * bytes);
    } else {
      CallocFails(s, h.heapBase, h.heapEnd, count, bytes);
      IdleKeeps(h.mem, s.blocks, Calloc(count, bytes));
    }
  }

  lemma CallocFails(s: State, base: int, end: int, count: u64, bytes: u64)
    requires Inv(s, base, end) && 0 < base && CallocBlocks(s.blocks, count, bytes).1 == 0
    ensures CallocBlocks(s.blocks, count, bytes).0 == s.blocks
  {
    NonNegative(count, bytes);
    var total := count * bytes;
    if total <= MAX_64 { AllocStep(s, base, end, total); }
  }

  /** The pointers the heap will release are the outstanding ones. */
  lemma OwnedIff(h: KH.Heap, s: State, ptr: int)
    requires Tracks(h, s)
    ensures h.Owned(ptr) <==> ptr in s.owned
    ensures ptr in s.owned ==> h.Owns(ptr, IndexOf(s.blocks, ptr))
  {
    if ptr in s.owned {
      OwnedIsFound(s, ptr);
      assert h.Owns(ptr, IndexOf(s.blocks, ptr));
    }
    forall k | h.Owns(ptr, k) ensures ptr in s.owned {
      assert h.blocks[k] in Live(s.blocks);
    }
  }

  /** Releasing a pointer that is not outstanding changes nothing. */
  lemma RefusedStep(h: KH.Heap, s: State, ptr: int)
    requires Tracks(h, s) && ptr !in s.owned
    ensures !h.Owned(ptr) && Step(s, Free(ptr)) == s
  {
    OwnedIff(h, s, ptr);
    FoundIsOwned(s, ptr);
  }

  method DoRelease(h: KH.Heap, ptr: u64, ghost s: State) returns (code: int)
    requires Tracks(h, s) && ptr in s.owned
    modifies h`mem, h`blocks
    ensures Tracks(h, Step(s, Free(ptr))) && KeptAcross(old(h.mem), s.blocks, h.mem, h.blocks, Free(ptr))
    ensures FreeCode(s, h.heapBase, h.heapEnd, ptr, code)
  {
    ghost var k := IndexOf(s.blocks, ptr);
    OwnedIff(h, s, ptr);
    OwnedDisjoint(s, h.heapBase, h.heapEnd, ptr, ptr);
    assert Step(s, Free(ptr)).blocks == Release(s.blocks, k);
    assert Inv(Step(s, Free(ptr)), h.heapBase, h.heapEnd) by { StepKeepsInv(s, h.heapBase, h.heapEnd, Free(ptr)); }
    code := h.FreeOwned(ptr, k);
    FreeKeeps(old(h.mem), s.blocks, h.mem, h.heapBase, h.heapEnd, k);
  }

  method DoRefuse(h: KH.Heap, ptr: u64, ghost s: State) returns (code: int)
    requires Tracks(h, s) && ptr !in s.owned && !h.PassesChecks(ptr)
    modifies h`mem, h`blocks
    ensures Tracks(h, Step(s, Free(ptr))) && KeptAcross(old(h.mem), s.blocks, h.mem, h.blocks, Free(ptr))
    ensures FreeCode(s, h.heapBase, h.heapEnd, ptr, code)
  {
    RefusedStep(h, s, ptr);
    FreeHasMagic(h, s, ptr);
    code := h.FreeChecked(ptr);
    IdleKeeps(h.mem, s.blocks, Free(ptr));
  }

  /** A free block is told by its header. */
  lemma FreeHasMagic(h: KH.Heap, s: State, ptr: int)
    requires Tracks(h, s)
    ensures FreePayload(s.blocks, ptr) ==> h.HasMagic(ptr)
  {
    if FreePayload(s.blocks, ptr) {
      var i :| 0 <= i < |s.blocks| && s.blocks[i].free && s.blocks[i].Payload() == ptr;
      BlockFacts(h.mem, h.blocks, h.heapBase, h.heapEnd, i);
    }
  }

  /** One call on the heap in memory. */
  method Execute(h: KH.Heap, op: Op, s: State) returns (r: Reply)
    requires Tracks(h, s) && Safe(h, s, op)
    modifies h`mem, h`blocks
    ensures Tracks(h, Step(s, op)) && KeptAcross(old(h.mem), s.blocks, h.mem, h.blocks, op)
    ensures Answers(s, h.heapBase, h.heapEnd, op, r)
  {
    match op
    case Alloc(bytes) =>
      var p := DoAlloc(h, bytes, s);
      r := Pointer(p);
    case Calloc(count, bytes) =>
      var p := DoCalloc(h, count, bytes, s);
      r := Pointer(p);
    case Free(ptr) =>
      var code;
      if ptr in s.owned {
        code := DoRelease(h, ptr, s);
      } else {
        code := DoRefuse(h, ptr, s);
      }
      r := Code(code);
    case Write(ptr, offset, value) =>
      OwnedDisjoint(s, h.heapBase, h.heapEnd, ptr, ptr);
      DoWrite(h, ptr, offset, value, s);
      r := Nothing;
  }

  method DoWrite(h: KH.Heap, ptr: u64, offset: u64, value: byte, ghost s: State)
    requires Tracks(h, s) && Safe(h, s, Write(ptr, offset, value))
    modifies h`mem
    ensures Tracks(h, s) && KeptAcross(old(h.mem), s.blocks, h.mem, s.blocks, Write(ptr, offset, value))
  {
    OwnedIff(h, s, ptr);
    ghost var k := IndexOf(s.blocks, ptr);
    forall j | h.Owns(ptr, j) ensures offset < h.blocks[j].size {
      assert h.blocks[j] in Live(s.blocks);
    }
    StoreAt(h, ptr, offset, value, k);
    WriteKeeps(old(h.mem), h.mem, s.blocks, h.heapBase, h.heapEnd, k, Write(ptr, offset, value));
  }

  /** A byte store in the payload of block k changes no word outside it. */
  method StoreAt(h: KH.Heap, ptr: u64, offset: u64, value: byte, ghost k: nat)
    requires h.Valid() && h.Owns(ptr, k) && offset < h.blocks[k].size
    requires forall j | h.Owns(ptr, j) :: offset < h.blocks[j].size
    modifies h`mem
    ensures h.Valid() && h.mem.Keys == old(h.mem.Keys)
    ensures forall a | a in h.mem :: h.blocks[k].Payload() <= a < h.blocks[k].End() || h.mem[a] == old(h.mem[a])
  {
    KH.PayloadByte(h.mem, h.blocks, h.heapBase, h.heapEnd, k, offset);
    h.Store(ptr, offset, value);
  }

  lemma WriteKeeps(m: Memory, m': Memory, bs: seq<Block>, base: int, end: int, k: nat, op: Op)
    requires Tiled(bs, base, end) && k < |bs| && op.Write? && op.ptr == bs[k].Payload() && m'.Keys == m.Keys
    requires forall a | a in m :: bs[k].Payload() <= a < bs[k].End() || m'[a] == m[a]
    ensures KeptAcross(m, bs, m', bs, op)
  {
    forall b | b in Live(bs) && !Touches(op, b) ensures Kept(m, m', bs, b) {
      LiveDisjoint(bs, base, end, b, bs[k]);
    }
  }

  /** The block b is neither released nor written by any of the calls. */
  ghost predicate Untouched(ops: seq<Op>, b: Block) { forall op :: op in ops ==> !Touches(op, b) }

  lemma KeptTrans(m: Memory, m1: Memory, m2: Memory, bs1: seq<Block>, bs2: seq<Block>, op: Op, b: Block)
    requires Kept(m, m1, bs1, b) && KeptAcross(m1, bs1, m2, bs2, op) && !Touches(op, b)
    ensures Kept(m, m2, bs2, b)
  {
    assert Kept(m1, m2, bs2, b);
  }

  ghost predicate AnswersAt(s: State, base: int, end: int, ops: seq<Op>, rs: seq<Reply>, i: nat)
    requires i < |ops| && i < |rs|
  {
    Answers(Run(s, ops[..i]), base, end, ops[i], rs[i])
  }

  /** Every reply so far is one that the block list at that point calls for. */
  ghost predicate Replies(s: State, base: int, end: int, ops: seq<Op>, rs: seq<Reply>) {
    |rs| <= |ops| && forall i :: 0 <= i < |rs| ==> AnswersAt(s, base, end, ops, rs, i)
  }

  lemma RepliesMore(s: State, base: int, end: int, ops: seq<Op>, rs: seq<Reply>, r: Reply)
    requires Replies(s, base, end, ops, rs) && |rs| < |ops|
    requires Answers(Run(s, ops[..|rs|]), base, end, ops[|rs|], r)
    ensures Replies(s, base, end, ops, rs + [r])
  {
    forall i | 0 <= i < |rs| + 1 ensures AnswersAt(s, base, end, ops, rs + [r], i) {
      if i < |rs| { assert AnswersAt(s, base, end, ops, rs, i); }
    }
  }

  lemma UntouchedBefore(ops: seq<Op>, n: nat, b: Block)
    requires n < |ops| && Untouched(ops[..n+1], b)
    ensures Untouched(ops[..n], b) && !Touches(ops[n], b)
  {
    assert ops[..n+1] == ops[..n] + [ops[n]];
  }

  lemma RunOneMore(s: State, ops: seq<Op>, n: nat)
    requires n < |ops|
    ensures Run(s, ops[..n+1]) == Step(Run(s, ops[..n]), ops[n])
  {
    assert ops[..n+1][..n] == ops[..n];
  }

  /** Every request that was live at the start and was not touched since is live with the bytes it held. */
  ghost predicate AllKept(m: Memory, bs: seq<Block>, ops: seq<Op>, m': Memory, bs': seq<Block>) {
    forall b :: b in Live(bs) && Untouched(ops, b) ==> Kept(m, m', bs', b)
  }

  lemma AllKeptMore(m: Memory, bs: seq<Block>, ops: seq<Op>, n: nat, m1: Memory, bs1: seq<Block>,
                    m2: Memory, bs2: seq<Block>)
    requires n < |ops| && AllKept(m, bs, ops[..n], m1, bs1) && KeptAcross(m1, bs1, m2, bs2, ops[n])
    ensures AllKept(m, bs, ops[..n+1], m2, bs2)
  {
    forall b | b in Live(bs) && Untouched(ops[..n+1], b) ensures Kept(m, m2, bs2, b) {
      UntouchedBefore(ops, n, b);
      KeptTrans(m, m1, m2, bs1, bs2, ops[n], b);
    }
  }

  /** One call more. */
  method ExecuteNext(h: KH.Heap, ops: seq<Op>, rs: seq<Reply>, ghost s: State, t: State, ghost m: Memory)
    returns (rs': seq<Reply>, t': State)
    requires |rs| < |ops| && t == Run(s, ops[..|rs|]) && Tracks(h, t) && Safe(h, t, ops[|rs|])
    requires Replies(s, h.heapBase, h.heapEnd, ops, rs) && AllKept(m, s.blocks, ops[..|rs|], h.mem, h.blocks)
    modifies h`mem, h`blocks
    ensures |rs'| == |rs| + 1 && t' == Run(s, ops[..|rs'|]) && Tracks(h, t')
    ensures Replies(s, h.heapBase, h.heapEnd, ops, rs') && AllKept(m, s.blocks, ops[..|rs'|], h.mem, h.blocks)
  {
    var r := Execute(h, ops[|rs|], t);
    rs', t' := rs + [r], Step(t, ops[|rs|]);
    AllKeptMore(m, s.blocks, ops, |rs|, old(h.mem), old(h.blocks), h.mem, h.blocks);
    RepliesMore(s, h.heapBase, h.heapEnd, ops, rs, r);
    RunOneMore(s, ops, |rs|);
  }

  /** A whole run on the heap in memory goes on as long as callers are safe. It ends in the state that the run on
      the block list predicts, every call returns what that run calls for, and every request outstanding before it
      and neither released nor written by it still holds the bytes it held. */
  method Execution(h: KH.Heap, ops: seq<Op>, s: State) returns (rs: seq<Reply>, t: State)
    requires Tracks(h, s)
    modifies h`mem, h`blocks
    ensures |rs| <= |ops| && t == Run(s, ops[..|rs|]) && Tracks(h, t)
    ensures Replies(s, h.heapBase, h.heapEnd, ops, rs)
    ensures |rs| < |ops| ==> !Safe(h, t, ops[|rs|])
    ensures AllKept(old(h.mem), s.blocks, ops[..|rs|], h.mem, h.blocks)
  {
    rs, t := [], s;
    assert ops[..0] == [];
    while |rs| < |ops| && Safe(h, t, ops[|rs|])
      invariant |rs| <= |ops| && t == Run(s, ops[..|rs|]) && Tracks(h, t)
      invariant Replies(s, h.heapBase, h.heapEnd, ops, rs)
      invariant AllKept(old(h.mem), s.blocks, ops[..|rs|], h.mem, h.blocks)
      decreases |ops| - |rs|
    {
      rs, t := ExecuteNext(h, ops, rs, s, t, old(h.mem));
    }
  }

  lemma InitTracks(h: KH.Heap)
    requires h.Valid() && h.initialized && h.blocks == InitBlocks(h.heapBase, h.heapEnd)
    ensures Tracks(h, InitState(h.heapBase, h.heapEnd))
  {
    BlockFacts(h.mem, h.blocks, h.heapBase, h.heapEnd, 0);
    RunKeepsInv(h.heapBase, h.heapEnd, []);
  }

  /** From a tracked state, run and then validate. */
  method RunAndValidate(h: KH.Heap, ops: seq<Op>, s: State) returns (rs: seq<Reply>, t: State, verdict: int)
    requires Tracks(h, s)
    modifies h`mem, h`blocks
    ensures |rs| <= |ops| && t == Run(s, ops[..|rs|]) && Tracks(h, t)
    ensures Replies(s, h.heapBase, h.heapEnd, ops, rs)
    ensures |rs| < |ops| ==> !Safe(h, t, ops[|rs|])
    ensures verdict == if |t.blocks| <= HeapValidation.MAX_BLOCKS then 0 else -3
  {
    rs, t := Execution(h, ops, s);
    verdict := h.Validate();
  }

  /** The state kmem_init leaves behind when it accepts the memory it is given. */
  function Started(base: u64, bytes: u64): State {
    InitState(RoundUp(base), RoundUp(base) + KH.UsableBytes(base, bytes))
  }

  /** Initialise so that the heap is tracked from the start. */
  method InitTracked(h: KH.Heap, base: u64, bytes: u64) returns (code: int)
    requires base + bytes + HEADER < TWO_64 && Ram(h.mem, base, base + bytes - 7)
    modifies h
    ensures code == 0 <==> base != 0 && KH.UsableBytes(base, bytes) > HEADER + MIN_SPLIT
    ensures code == 0 ==> Tracks(h, Started(base, bytes))
  {
    code := h.Init(base, bytes);
    if code == 0 { InitTracks(h); }
  }

  /** Initialise, then run: the heap follows the run on the block list for as long as callers are safe, and
      kmem_validate then returns 0 unless there are more than 1048576 blocks. */
  method InitAndRun(h: KH.Heap, base: u64, bytes: u64, ops: seq<Op>)
    returns (code: int, rs: seq<Reply>, t: State, verdict: int)
    requires base + bytes + HEADER < TWO_64 && Ram(h.mem, base, base + bytes - 7)
    modifies h
    ensures code == 0 <==> base != 0 && KH.UsableBytes(base, bytes) > HEADER + MIN_SPLIT
    ensures code == 0 ==>
              && |rs| <= |ops| && t == Run(Started(base, bytes), ops[..|rs|]) && Tracks(h, t)
              && Replies(Started(base, bytes), h.heapBase, h.heapEnd, ops, rs)
              && (|rs| < |ops| ==> !Safe(h, t, ops[|rs|]))
              && verdict == if |t.blocks| <= HeapValidation.MAX_BLOCKS then 0 else -3
  {
    rs, t, verdict := [], Started(base, bytes), 0;
    code := InitTracked(h, base, bytes);
    if code == 0 { rs, t, verdict := RunAndValidate(h, ops, Started(base, bytes)); }
  }
}
