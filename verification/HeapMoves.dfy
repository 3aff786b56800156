// The internal steps of the kernel heap (the static functions of kmem.c) on memory:
// each is proved to carry out its counterpart on the block list.

module HeapMoves {
  import opened Words
  import opened HeapBlocks
  import opened HeapMemory

  // ---------------------------------------------------------------- searching

  /** The walk of kmem_alloc: the header of the first block that fits, or null. */
  method FindFit(m: Memory, head: u64, wanted: u64, ghost bs: seq<Block>, ghost base: u64, ghost end: u64)
    returns (cur: int)
    requires Layout(m, bs, base, end) && head == base
    ensures cur == var k := FirstFit(bs, wanted); if k < |bs| then bs[k].at else 0
  {
    cur := head;
    ghost var i := 0;
    while cur != 0
      invariant 0 <= i <= |bs|
      invariant cur == if i < |bs| then bs[i].at else 0
      invariant i < |bs| ==> cur > 0
      invariant FirstFit(bs, wanted) == FirstFit(bs, wanted, i)
      decreases |bs| - i
    {
      BlockFacts(m, bs, base, end, i);
      if m[cur] != MAGIC {
        return 0;
      }
      if FreeBit(m[cur + FREE]) && m[cur + SIZE] >= wanted {
        return;
      }
      cur := m[cur + NEXT];
      i := i + 1;
    }
  }

  // ---------------------------------------------------------------- splitting

  /** Where kmem_split_if_useful puts the new header, if it splits: sums wrap as in the source, and in an
      arena that does not wrap a block is split exactly when more than 80 bytes would be left over. */
  method SplitPoint(block: u64, size: u64, wanted: u64, heapEnd: u64) returns (at: Option<u64>)
    requires 0 < block && block % GRAIN == 0 && wanted % GRAIN == 0 && 0 < wanted <= size
    requires block + HEADER + size <= heapEnd && heapEnd + HEADER < TWO_64
    ensures at.Some? <==> size > wanted + HEADER + MIN_SPLIT
    ensures at.Some? ==> at.value == block + HEADER + wanted
  {
    var header := RoundUp(HEADER);
    if header == 0 || size < Wrap(wanted + header + MIN_SPLIT) {
      return None;
    }
    var newAddr := RoundUp(Wrap(block + HEADER + wanted));
    if newAddr == 0 || Wrap(newAddr + HEADER) >= heapEnd {
      return None;
    }
    var consumed := Wrap(newAddr - (block + HEADER));
    if size <= Wrap(consumed + HEADER + MIN_SPLIT) {
      return None;
    }
    return Some(newAddr);
  }

  /** The stores of a free block's header. */
  method WriteFreeHeader(m: Memory, at: int, size: u64, prev: u64, next: u64) returns (r: Memory)
    requires HeaderPresent(m, at)
    ensures r.Keys == m.Keys
    ensures HeaderAt(r, Block(at, size, true), prev, next)
    ensures forall a | a in m :: at <= a < at + HEADER || r[a] == m[a]
  {
    r := m[at := MAGIC];
    r := r[at + SIZE := size];
    r := r[at + FREE := WithFree(r[at + FREE], true)];
    r := r[at + PREV := prev];
    r := r[at + NEXT := next];
  }

  /** The stores that cut block k at newAddr: the new header, then the links around it. */
  method CutBlock(m: Memory, block: u64, newAddr: u64, wanted: u64, ghost bs: seq<Block>, ghost k: nat)
    returns (r: Memory)
    requires k < |bs| && 0 < bs[k].at == block && Linked(m, bs, k)
    requires 0 < wanted && wanted + HEADER < bs[k].size
    requires newAddr == block + HEADER + wanted && HeaderPresent(m, newAddr)
    requires k + 1 < |bs| ==> bs[k].End() == bs[k+1].at && bs[k+1].at + PREV in m
    ensures SplitStored(m, r, bs, k, wanted)
  {
    var size, next := m[block + SIZE], m[block + NEXT];
    r := WriteFreeHeader(m, newAddr, size - wanted - HEADER, block, next);
    if next != 0 {
      r := r[next + PREV := newAddr];
    }
    r := r[block + NEXT := newAddr];
    r := r[block + SIZE := wanted];
  }

  /** kmem_split_if_useful */
  method SplitIfUseful(m: Memory, end: u64, block: u64, wanted: u64,
                       ghost bs: seq<Block>, ghost base: u64, ghost k: nat)
    returns (r: Memory)
    requires Layout(m, bs, base, end) && k < |bs| && bs[k].at == block
    requires 0 < wanted <= bs[k].size && wanted % GRAIN == 0
    ensures Layout(r, Split(bs, k, wanted), base, end)
    ensures OnlyHeaders(m, r, Split(bs, k, wanted))
  {
    BlockFacts(m, bs, base, end, k);
    var newAddr := SplitPoint(block, m[block + SIZE], wanted, end);
    if newAddr.None? {
      return m;
    }
    RamHoldsHeader(m, base, end, newAddr.value);
    r := CutBlock(m, block, newAddr.value, wanted, bs, k);
    SplitOnlyHeaders(m, r, bs, k, wanted);
    SplitListed(m, r, bs, base, end, k, wanted);
    SplitTiled(bs, base, end, k, wanted);
  }

  /** Splitting and marking: the two changes kmem_alloc makes to the block it takes. */
  method TakeBlock(m: Memory, end: u64, block: u64, wanted: u64,
                   ghost bs: seq<Block>, ghost base: u64, ghost k: nat)
    returns (r: Memory)
    requires Layout(m, bs, base, end) && k < |bs| && bs[k].at == block
    requires 0 < wanted <= bs[k].size && wanted % GRAIN == 0
    ensures Layout(r, Take(bs, k, wanted), base, end)
    ensures OnlyHeaders(m, r, Take(bs, k, wanted))
  {
    var m1 := SplitIfUseful(m, end, block, wanted, bs, base, k);
    ghost var s := Split(bs, k, wanted);
    BlockFacts(m1, s, base, end, k);
    r := m1[block + FREE := WithFree(m1[block + FREE], false)];
    FlagListed(m1, s, base, end, k, false);
    ghost var t := Take(bs, k, wanted);
    assert forall i :: 0 <= i < |s| ==> t[i].at == s[i].at;
    SameStartsSameHeaders(m, m1, t, s);
    OnlyHeadersTrans(m, m1, r, t);
    FlagTiled(s, base, end, k, false);
  }

  // ---------------------------------------------------------------- coalescing

  /** The stores that retire an absorbed header. */
  method ClearHeader(m: Memory, at: int) returns (r: Memory)
    requires HeaderPresent(m, at)
    ensures r.Keys == m.Keys && r[at] == 0
    ensures forall a | a in m :: at <= a < at + HEADER || r[a] == m[a]
  {
    r := m[at := 0];
    r := r[at + SIZE := 0];
    r := r[at + PREV := 0];
    r := r[at + NEXT := 0];
  }

  /** The stores that let `block` absorb `next`. */
  method AbsorbNext(m: Memory, block: u64, next: u64, ghost bs: seq<Block>, ghost k: nat) returns (r: Memory)
    requires k + 1 < |bs| && 0 < bs[k].at == block && bs[k+1].at == next
    requires Linked(m, bs, k) && Linked(m, bs, k + 1)
    requires bs[k].End() == next && bs[k].size > 0 && bs[k+1].End() < TWO_64
    requires k + 2 < |bs| ==> Linked(m, bs, k + 2) && bs[k+2].at == bs[k+1].End() && bs[k+1].size > 0
    ensures MergeStored(m, r, bs, k)
  {
    var after := m[next + NEXT];
    assert after == NextOf(bs, k + 1);
    r := m[block + SIZE := m[block + SIZE] + HEADER + m[next + SIZE]];
    r := r[block + NEXT := after];
    if after != 0 {
      r := r[after + PREV := block];
    }
    r := ClearHeader(r, next);
  }

  /** Block k absorbs its successor, whose magic is cleared. */
  method Absorb(m: Memory, block: u64, ghost bs: seq<Block>, ghost base: u64, ghost end: u64, ghost k: nat)
    returns (r: Memory)
    requires Layout(m, bs, base, end) && k + 1 < |bs| && bs[k].at == block
    ensures Layout(r, Merge(bs, k), base, end)
    ensures OnlyHeaders(m, r, bs) && MergeStored(m, r, bs, k)
  {
    BlockFacts(m, bs, base, end, k);
    BlockFacts(m, bs, base, end, k + 1);
    r := AbsorbNext(m, block, m[block + NEXT], bs, k);
    MergeOnlyHeaders(m, r, bs, k);
    MergeListed(m, r, bs, base, end, k);
    MergeTiled(bs, base, end, k);
  }

  /** Merging once more leaves the headers retired so far alone and retires one more. */
  lemma RetireOneMore(m: Memory, m': Memory, bs: seq<Block>, cs: seq<Block>, base: int, end: int, k: nat)
    requires Tiled(bs, base, end) && Tiled(cs, base, end) && Absorbed(bs, cs, k) && k + 1 < |cs|
    requires Retired(m, bs, k, |bs| - |cs|) && MergeStored(m, m', cs, k)
    ensures Retired(m', bs, k, |bs| - |cs| + 1)
  {
    var gone := |bs| - |cs|;
    forall j | k < j <= k + gone + 1 ensures bs[j].at in m' && m'[bs[j].at] == 0 {
      TiledOrdered(bs, base, end, k, j);
      if j <= k + gone {
        assert m[bs[j].at] == 0;
        TiledOrdered(bs, base, end, j, k + gone + 1);
        TiledOrdered(cs, base, end, k, k + 1);
        if k + 2 < |cs| { TiledOrdered(cs, base, end, k + 1, k + 2); }
      }
    }
  }

  lemma TurnFrame(m: Memory, m1: Memory, m2: Memory, bs: seq<Block>, cs: seq<Block>, k: nat)
    requires OnlyHeaders(m, m1, bs) && OnlyHeaders(m1, m2, cs) && Absorbed(bs, cs, k)
    ensures OnlyHeaders(m, m2, bs)
  {
    var gone := |bs| - |cs|;
    forall i | 0 <= i < |cs| ensures exists j :: 0 <= j < |bs| && bs[j].at == cs[i].at {
      assert bs[if i <= k then i else i + gone].at == cs[i].at;
    }
    SameStartsSameHeaders(m1, m2, bs, cs);
    OnlyHeadersTrans(m, m1, m2, bs);
  }

  /** How far coalescing has come: r holds cs, which is bs with some blocks absorbed into block k. */
  ghost predicate Coalescing(m: Memory, r: Memory, bs: seq<Block>, cs: seq<Block>, base: u64, end: u64, k: nat) {
    && Tiled(bs, base, end) && Absorbed(bs, cs, k)
    && Layout(r, cs, base, end)
    && CoalesceFrom(cs, k) == CoalesceFrom(bs, k)
    && OnlyHeaders(m, r, bs) && Retired(r, bs, k, |bs| - |cs|)
  }

  /** One turn of the loop of kmem_coalesce_forward. */
  method CoalesceTurn(r: Memory, block: u64,
                      ghost m: Memory, ghost bs: seq<Block>, ghost cs: seq<Block>,
                      ghost base: u64, ghost end: u64, ghost k: nat)
    returns (r': Memory)
    requires Coalescing(m, r, bs, cs, base, end, k) && k + 1 < |cs| && cs[k].at == block && cs[k+1].free
    ensures Coalescing(m, r', bs, Merge(cs, k), base, end, k)
  {
    r' := Absorb(r, block, cs, base, end, k);
    TurnFrame(m, r, r', bs, cs, k);
    RetireOneMore(r, r', bs, cs, base, end, k);
    MergeAbsorbs(bs, cs, k);
  }

  /** Whether the loop of kmem_coalesce_forward goes on: a free block follows, and starts where `block` ends. */
  method FreeFollows(m: Memory, block: u64, ghost bs: seq<Block>, ghost base: u64, ghost end: u64, ghost k: nat)
    returns (yes: bool)
    requires Layout(m, bs, base, end) && k < |bs| && bs[k].at == block
    ensures yes <==> k + 1 < |bs| && bs[k+1].free
  {
    BlockFacts(m, bs, base, end, k);
    var next := m[block + NEXT];
    if next == 0 || !FreeBit(m[next + FREE]) {
      return false;
    }
    ExactEnd(bs[k].End());
    var expected := RoundUp(Wrap(block + HEADER + m[block + SIZE]));
    return expected == next;
  }

  /** The end of a block needs neither wrapping nor rounding. */
  lemma ExactEnd(x: int)
    requires 0 <= x < TWO_64 - HEADER && x % GRAIN == 0
    ensures RoundUp(Wrap(x)) == x
  {
  }

  /** kmem_coalesce_forward */
  method CoalesceForward(m: Memory, block: u64, ghost bs: seq<Block>, ghost base: u64, ghost end: u64, ghost k: nat)
    returns (r: Memory)
    requires Layout(m, bs, base, end) && k < |bs| && bs[k].at == block
    ensures Coalescing(m, r, bs, CoalesceFrom(bs, k), base, end, k)
  {
    r := m;
    ghost var cs := bs;
    var more := FreeFollows(r, block, cs, base, end, k);
    while more
      invariant Coalescing(m, r, bs, cs, base, end, k)
      invariant more <==> k + 1 < |cs| && cs[k+1].free
      decreases |cs|
    {
      r := CoalesceTurn(r, block, m, bs, cs, base, end, k);
      cs := Merge(cs, k);
      more := FreeFollows(r, block, cs, base, end, k);
    }
  }

  // ---------------------------------------------------------------- releasing

  /** Mark block k free and coalesce forward from it. */
  method ReleaseForwards(m: Memory, block: u64, ghost bs: seq<Block>, ghost base: u64, ghost end: u64, ghost k: nat)
    returns (r: Memory)
    requires Layout(m, bs, base, end) && k < |bs| && bs[k].at == block
    ensures var f := bs[k := bs[k].(free := true)];
            var fs := CoalesceFrom(f, k);
            Layout(r, fs, base, end) && OnlyHeaders(m, r, f) && Absorbed(f, fs, k)
  {
    BlockFacts(m, bs, base, end, k);
    var m1 := m[block + FREE := WithFree(m[block + FREE], true)];
    FlagListed(m, bs, base, end, k, true);
    FlagTiled(bs, base, end, k, true);
    ghost var f := bs[k := bs[k].(free := true)];
    r := CoalesceForward(m1, block, f, base, end, k);
    OnlyHeadersTrans(m, m1, r, f);
  }

  /** When the block before block k is free, coalesce forward from that one. */
  method ReleaseBackwards(m: Memory, block: u64, ghost bs: seq<Block>, ghost base: u64, ghost end: u64, ghost k: nat)
    returns (r: Memory)
    requires Layout(m, bs, base, end) && k < |bs| && bs[k].at == block && bs[k].free
    ensures var cs := if k > 0 && bs[k-1].free then CoalesceFrom(bs, k - 1) else bs;
            Layout(r, cs, base, end) && OnlyHeaders(m, r, bs) && StalePointer(r, cs, block)
  {
    BlockFacts(m, bs, base, end, k);
    if k > 0 { BlockFacts(m, bs, base, end, k - 1); }
    var prev := m[block + PREV];
    if prev != 0 && FreeBit(m[prev + FREE]) {
      r := CoalesceOver(m, prev, bs, base, end, k);
    } else {
      r := m;
    }
  }

  /** Coalesce forward from the block before the free block k, which is absorbed. */
  method CoalesceOver(m: Memory, prev: u64, ghost bs: seq<Block>, ghost base: u64, ghost end: u64, ghost k: nat)
    returns (r: Memory)
    requires Layout(m, bs, base, end) && 0 < k < |bs| && bs[k-1].at == prev && bs[k].free
    ensures Layout(r, CoalesceFrom(bs, k - 1), base, end) && OnlyHeaders(m, r, bs)
    ensures bs[k].at in r && r[bs[k].at] == 0
  {
    r := CoalesceForward(m, prev, bs, base, end, k - 1);
    CoalesceShrinks(bs, k - 1);
  }

  lemma CoalesceShrinks(bs: seq<Block>, k: nat)
    requires k + 1 < |bs| && bs[k+1].free
    ensures |CoalesceFrom(bs, k)| < |bs|
  {
  }

  /** kmem_free_checked past its checks: the block is marked free and fused with its free neighbours.
      Afterwards its old header is that of a free block or has lost its magic. */
  method ReleaseBlock(m: Memory, block: u64, ghost bs: seq<Block>, ghost base: u64, ghost end: u64, ghost k: nat)
    returns (r: Memory)
    requires Layout(m, bs, base, end) && k < |bs| && bs[k].at == block
    ensures Layout(r, Release(bs, k), base, end) && OnlyHeaders(m, r, bs)
    ensures StalePointer(r, Release(bs, k), block)
  {
    ghost var f := bs[k := bs[k].(free := true)];
    var m1 := ReleaseForwards(m, block, bs, base, end, k);
    r := ReleaseBackwards(m1, block, CoalesceFrom(f, k), base, end, k);
    ReleaseFrame(m, m1, r, bs, k);
  }

  lemma ReleaseFrame(m: Memory, m1: Memory, r: Memory, bs: seq<Block>, k: nat)
    requires k < |bs|
    requires var f := bs[k := bs[k].(free := true)];
             var cs := CoalesceFrom(f, k);
             OnlyHeaders(m, m1, f) && Absorbed(f, cs, k) && OnlyHeaders(m1, r, cs)
    ensures OnlyHeaders(m, r, bs)
  {
    var f := bs[k := bs[k].(free := true)];
    TurnFrame(m, m1, r, f, CoalesceFrom(f, k), k);
    assert forall i :: 0 <= i < |f| ==> bs[i].at == f[i].at;
    SameStartsSameHeaders(m, r, bs, f);
  }
}
