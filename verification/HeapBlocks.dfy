// The block list of the kernel heap as a value: what splitting, first fit and
// coalescing do to it, independently of how headers are laid out in memory.

module HeapBlocks {
  import opened Words

  const HEADER: int := 48       // sizeof(kmem_block_t) on x86_64
  const GRAIN: int := 16        // KMEM_ALIGN
  const MIN_SPLIT: int := 32    // KMEM_MIN_SPLIT

  /** One block: the address of its header, its payload size in bytes, and whether it is free. */
  datatype Block = Block(at: int, size: int, free: bool) {
    function Payload(): int { at + HEADER }
    function End(): int { at + HEADER + size }
  }

  // ---------------------------------------------------------------- invariant

  /** Headers and payloads cover [base, end) exactly, in address order. */
  ghost predicate Tiled(bs: seq<Block>, base: int, end: int) {
    && |bs| > 0
    && bs[0].at == base
    && bs[|bs|-1].End() == end
    && (forall i :: 0 < i < |bs| ==> bs[i].at == bs[i-1].End())
    && base % GRAIN == 0
    && (forall i :: 0 <= i < |bs| ==> bs[i].size > 0 && bs[i].size % GRAIN == 0)
  }

  /** No two neighbouring blocks are both free. */
  ghost predicate Coalesced(bs: seq<Block>) {
    forall i :: 0 < i < |bs| ==> !(bs[i-1].free && bs[i].free)
  }

  ghost predicate HeapInv(bs: seq<Block>, base: int, end: int) {
    Tiled(bs, base, end) && Coalesced(bs)
  }

  /** In a tiling, an earlier block ends before a later one starts. */
  lemma {:induction false} TiledOrdered(bs: seq<Block>, base: int, end: int, i: int, j: int)
    requires Tiled(bs, base, end)
    requires 0 <= i < j < |bs|
    ensures bs[i].End() <= bs[j].at
    decreases j
  {
    if i < j - 1 { TiledOrdered(bs, base, end, i, j - 1); }
  }

  /** Every block lies in the arena and is 16-aligned. */
  lemma {:induction false} TiledInside(bs: seq<Block>, base: int, end: int, i: int)
    requires Tiled(bs, base, end)
    requires 0 <= i < |bs|
    ensures base <= bs[i].at && bs[i].End() <= end && bs[i].at % GRAIN == 0
    decreases i
  {
    if i > 0 { TiledInside(bs, base, end, i - 1); }
    if i < |bs| - 1 { TiledOrdered(bs, base, end, i, |bs| - 1); }
  }

  // ---------------------------------------------------------------- operations

  /** kmem_align_up_size for KMEM_ALIGN: 0 when the rounding would overflow. */
  function RoundUp(value: u64): (r: u64)
    ensures value <= MAX_64 - 15 ==> value <= r < value + GRAIN && r % GRAIN == 0
    ensures r == 0 <==> value == 0 || value > MAX_64 - 15
  {
    if value > MAX_64 - (GRAIN - 1) then 0 else (value + (GRAIN - 1)) / GRAIN * GRAIN
  }

  predicate Fits(b: Block, wanted: int) { b.free && b.size >= wanted }

  /** The index at or after `from` of the first block that fits, or |bs|. */
  function FirstFit(bs: seq<Block>, wanted: int, from: nat := 0): (k: nat)
    requires from <= |bs|
    ensures from <= k <= |bs|
    ensures k < |bs| ==> Fits(bs[k], wanted)
    ensures forall j :: from <= j < k ==> !Fits(bs[j], wanted)
    decreases |bs| - from
  {
    if from == |bs| || Fits(bs[from], wanted) then from else FirstFit(bs, wanted, from + 1)
  }

  /** Cut block k down to `wanted` bytes when the rest can hold a header and more than 32 bytes. */
  function Split(bs: seq<Block>, k: nat, wanted: int): seq<Block>
    requires k < |bs|
  {
    var b := bs[k];
    if b.size <= wanted + HEADER + MIN_SPLIT then bs
    else bs[..k]
         + [Block(b.at, wanted, b.free), Block(b.at + HEADER + wanted, b.size - wanted - HEADER, true)]
         + bs[k+1..]
  }

  /** Take block k for a request of `wanted` bytes. */
  function Take(bs: seq<Block>, k: nat, wanted: int): (r: seq<Block>)
    requires k < |bs|
  {
    var s := Split(bs, k, wanted);
    s[k := s[k].(free := false)]
  }

  /** Absorb block k+1 into block k. */
  function Merge(bs: seq<Block>, k: nat): seq<Block>
    requires k + 1 < |bs|
  {
    bs[..k] + [bs[k].(size := bs[k].size + HEADER + bs[k+1].size)] + bs[k+2..]
  }

  /** Absorb every free block that directly follows block k. */
  function CoalesceFrom(bs: seq<Block>, k: nat): (r: seq<Block>)
    requires k < |bs|
    ensures k < |r| <= |bs|
    ensures r[..k] == bs[..k]
    ensures r[k].at == bs[k].at && r[k].free == bs[k].free
    decreases |bs|
  {
    if k + 1 < |bs| && bs[k+1].free then CoalesceFrom(Merge(bs, k), k) else bs
  }

  /** Give block k back. */
  function Release(bs: seq<Block>, k: nat): seq<Block>
    requires k < |bs|
  {
    var r := CoalesceFrom(bs[k := bs[k].(free := true)], k);
    if k > 0 && r[k-1].free then CoalesceFrom(r, k - 1) else r
  }

  /** kmem_alloc on the block list: the new list and the returned pointer. */
  function AllocBlocks(bs: seq<Block>, bytes: u64): (seq<Block>, int) {
    var wanted := RoundUp(bytes);
    var k := FirstFit(bs, wanted);
    if wanted == 0 || k == |bs| then (bs, 0) else (Take(bs, k, wanted), bs[k].Payload())
  }

  /** kmem_calloc on the block list. */
  function CallocBlocks(bs: seq<Block>, count: u64, bytes: u64): (seq<Block>, int) {
    if count * bytes > MAX_64 then (bs, 0)
    else assert 0 <= count * bytes; AllocBlocks(bs, count * bytes)
  }

  // ---------------------------------------------------------------- preservation

  /** Each block of a list that was really split. */
  lemma SplitAt(bs: seq<Block>, k: nat, wanted: int, i: nat)
    requires k < |bs| && bs[k].size > wanted + HEADER + MIN_SPLIT && i <= |bs|
    ensures |Split(bs, k, wanted)| == |bs| + 1
    ensures Split(bs, k, wanted)[i]
         == if i < k then bs[i]
            else if i == k then Block(bs[k].at, wanted, bs[k].free)
            else if i == k + 1 then Block(bs[k].at + HEADER + wanted, bs[k].size - wanted - HEADER, true)
            else bs[i-1]
  {
  }

  lemma SplitTiled(bs: seq<Block>, base: int, end: int, k: nat, wanted: int)
    requires Tiled(bs, base, end) && k < |bs|
    requires 0 < wanted <= bs[k].size && wanted % GRAIN == 0
    ensures Tiled(Split(bs, k, wanted), base, end)
  {
    var s := Split(bs, k, wanted);
    if bs[k].size > wanted + HEADER + MIN_SPLIT {
      forall i | 0 <= i < |s| ensures s[i].size > 0 && s[i].size % GRAIN == 0 {
        SplitAt(bs, k, wanted, i);
      }
      forall i | 0 < i < |s| ensures s[i].at == s[i-1].End() {
        SplitAt(bs, k, wanted, i);
        SplitAt(bs, k, wanted, i - 1);
      }
      SplitAt(bs, k, wanted, 0);
      SplitAt(bs, k, wanted, |bs|);
    }
  }

  lemma FlagTiled(bs: seq<Block>, base: int, end: int, k: nat, free: bool)
    requires Tiled(bs, base, end) && k < |bs|
    ensures Tiled(bs[k := bs[k].(free := free)], base, end)
  {
    var r := bs[k := bs[k].(free := free)];
    forall i | 0 < i < |r| ensures r[i].at == r[i-1].End() {
      assert bs[i].at == bs[i-1].End();
    }
  }

  /** Taking a fitting block keeps the heap tiled and leaves no two free neighbours. */
  lemma TakeKeepsInv(bs: seq<Block>, base: int, end: int, k: nat, wanted: int)
    requires HeapInv(bs, base, end) && k < |bs|
    requires Fits(bs[k], wanted) && wanted > 0 && wanted % GRAIN == 0
    ensures HeapInv(Take(bs, k, wanted), base, end)
    ensures var b := Take(bs, k, wanted)[k];
            b.at == bs[k].at && !b.free && wanted <= b.size <= wanted + HEADER + MIN_SPLIT
  {
    SplitTiled(bs, base, end, k, wanted);
    var s := Split(bs, k, wanted);
    var t := Take(bs, k, wanted);
    forall i | 0 < i < |t| ensures !(t[i-1].free && t[i].free) && t[i].at == t[i-1].End() {
      assert s[i].at == s[i-1].End();
      if s != bs && i > k + 1 { assert t[i] == bs[i-1]; }
    }
  }

  /** What a successful request gets: the lowest block that fits, cut to at most 80 bytes more than asked. */
  lemma TakenBlock(bs: seq<Block>, base: int, end: int, bytes: u64)
    requires HeapInv(bs, base, end) && AllocBlocks(bs, bytes).1 != 0
    ensures var (r, p) := AllocBlocks(bs, bytes);
            var k := FirstFit(bs, RoundUp(bytes));
            && HeapInv(r, base, end)
            && k < |bs| && k < |r| && !r[k].free && r[k].at == bs[k].at && p == r[k].Payload()
            && bytes <= RoundUp(bytes) <= r[k].size <= RoundUp(bytes) + HEADER + MIN_SPLIT
            && r[k].size == (if bs[k].size > RoundUp(bytes) + HEADER + MIN_SPLIT then RoundUp(bytes) else bs[k].size)
  {
    TakeKeepsInv(bs, base, end, FirstFit(bs, RoundUp(bytes)), RoundUp(bytes));
  }

  lemma MergeTiled(bs: seq<Block>, base: int, end: int, k: nat)
    requires Tiled(bs, base, end) && k + 1 < |bs|
    ensures Tiled(Merge(bs, k), base, end)
  {
    var m := Merge(bs, k);
    forall i | 0 <= i < |m| ensures m[i].size > 0 && m[i].size % GRAIN == 0 {
      if i > k { assert m[i] == bs[i+1]; }
    }
    forall i | 0 < i < |m| ensures m[i].at == m[i-1].End() {
      if i > k { assert m[i] == bs[i+1]; }
      if i > k + 1 { assert m[i-1] == bs[i]; }
    }
    assert bs[k+1].at == bs[k].End();
    assert m[|m|-1].End() == end;
  }

  /** With no two free neighbours after k, coalescing absorbs at most one block. */
  lemma CoalesceOnce(bs: seq<Block>, k: nat)
    requires k < |bs|
    requires forall i :: k + 1 < i < |bs| ==> !(bs[i-1].free && bs[i].free)
    ensures CoalesceFrom(bs, k) == if k + 1 < |bs| && bs[k+1].free then Merge(bs, k) else bs
  {
    if k + 1 < |bs| && bs[k+1].free {
      var m := Merge(bs, k);
      assert k + 1 < |m| ==> m[k+1] == bs[k+2] && !bs[k+2].free;
      assert CoalesceFrom(bs, k) == CoalesceFrom(m, k) == m;
    }
  }

  /** The run of blocks [lo, hi) that releasing block k fuses: its free neighbours and itself. */
  function FuseLo(bs: seq<Block>, k: nat): nat { if 0 < k <= |bs| && bs[k-1].free then k - 1 else k }
  function FuseHi(bs: seq<Block>, k: nat): nat { if k + 1 < |bs| && bs[k+1].free then k + 2 else k + 1 }

  /** The list with blocks [lo, hi) replaced by one free block over the same bytes. */
  function Fused(bs: seq<Block>, lo: nat, hi: nat): seq<Block>
    requires lo < hi <= |bs|
  {
    bs[..lo] + [Block(bs[lo].at, bs[hi-1].End() - bs[lo].at - HEADER, true)] + bs[hi..]
  }

  lemma ReleaseForward(bs: seq<Block>, base: int, end: int, k: nat)
    requires HeapInv(bs, base, end) && k < |bs| && !bs[k].free
    ensures CoalesceFrom(bs[k := bs[k].(free := true)], k) == Fused(bs, k, FuseHi(bs, k))
  {
    var f := bs[k := bs[k].(free := true)];
    assert forall i :: k < i < |bs| ==> f[i] == bs[i];
    CoalesceOnce(f, k);
    if k + 1 < |bs| && bs[k+1].free { FuseForward(bs, k); } else { FuseNothing(bs, k); }
  }

  lemma FuseForward(bs: seq<Block>, k: nat)
    requires k + 1 < |bs| && bs[k+1].at == bs[k].End()
    ensures Merge(bs[k := bs[k].(free := true)], k) == Fused(bs, k, k + 2)
  {
    var f := bs[k := bs[k].(free := true)];
    assert f[..k] == bs[..k] && f[k+2..] == bs[k+2..];
  }

  lemma FuseNothing(bs: seq<Block>, k: nat)
    requires k < |bs|
    ensures bs[k := bs[k].(free := true)] == Fused(bs, k, k + 1)
  {
  }

  /** Releasing a used block fuses it with its free neighbours, and changes nothing else. */
  lemma ReleaseFuses(bs: seq<Block>, base: int, end: int, k: nat)
    requires HeapInv(bs, base, end) && k < |bs| && !bs[k].free
    ensures Release(bs, k) == Fused(bs, FuseLo(bs, k), FuseHi(bs, k))
  {
    ReleaseForward(bs, base, end, k);
    var r := Fused(bs, k, FuseHi(bs, k));
    assert k > 0 ==> r[k-1] == bs[k-1];
    if k > 0 && bs[k-1].free {
      FusedBehind(bs, k, FuseHi(bs, k));
      CoalesceOnce(r, k - 1);
      FuseBackward(bs, k, FuseHi(bs, k));
    }
  }

  /** Behind the fused block there are no free neighbours. */
  lemma FusedBehind(bs: seq<Block>, k: nat, hi: nat)
    requires Coalesced(bs) && k < hi <= |bs| && (hi < |bs| ==> !bs[hi].free)
    ensures var r := Fused(bs, k, hi); forall i :: k < i < |r| ==> !(r[i-1].free && r[i].free)
  {
    var r := Fused(bs, k, hi);
    forall i | k < i < |r| ensures !(r[i-1].free && r[i].free) {
      var j := i + hi - k - 1;
      assert r[i] == bs[j];
      if i > k + 1 { assert r[i-1] == bs[j-1]; }
    }
  }

  lemma FuseBackward(bs: seq<Block>, k: nat, hi: nat)
    requires 0 < k < hi <= |bs| && bs[k].at == bs[k-1].End() && bs[k-1].free
    ensures Merge(Fused(bs, k, hi), k - 1) == Fused(bs, k - 1, hi)
  {
    var r := Fused(bs, k, hi);
    assert r[k-1] == bs[k-1] && r[..k-1] == bs[..k-1] && r[k+1..] == bs[hi..];
  }

  /** How many blocks there are once block k is released. */
  function BlocksAfter(bs: seq<Block>, k: nat): int { |bs| - (FuseHi(bs, k) - FuseLo(bs, k) - 1) }

  lemma ReleaseSize(bs: seq<Block>, base: int, end: int, k: nat)
    requires HeapInv(bs, base, end) && k < |bs| && !bs[k].free
    ensures |Release(bs, k)| == BlocksAfter(bs, k)
  {
    ReleaseFuses(bs, base, end, k);
  }

  lemma FusedTiled(bs: seq<Block>, base: int, end: int, lo: nat, hi: nat)
    requires Tiled(bs, base, end) && lo < hi <= |bs|
    ensures Tiled(Fused(bs, lo, hi), base, end)
  {
    var s := Fused(bs, lo, hi);
    FusedBlock(bs, base, end, lo, hi);
    forall i | 0 < i < |s| ensures s[i].at == s[i-1].End() {
      FusedAt(bs, lo, hi, i - 1);
      FusedAt(bs, lo, hi, i);
    }
    forall i | 0 <= i < |s| ensures s[i].size > 0 && s[i].size % GRAIN == 0 { FusedAt(bs, lo, hi, i); }
    FusedAt(bs, lo, hi, 0);
    FusedAt(bs, lo, hi, |s| - 1);
  }

  /** Block i of the fused list: before the fused block, that block, or behind it. */
  lemma FusedAt(bs: seq<Block>, lo: nat, hi: nat, i: nat)
    requires lo < hi <= |bs| && i < |bs| - (hi - lo - 1)
    ensures i != lo ==> Fused(bs, lo, hi)[i] == bs[if i < lo then i else i + hi - lo - 1]
    ensures i == lo ==> Fused(bs, lo, hi)[i].at == bs[lo].at && Fused(bs, lo, hi)[i].End() == bs[hi-1].End()
  {
  }

  lemma FusedBlock(bs: seq<Block>, base: int, end: int, lo: nat, hi: nat)
    requires Tiled(bs, base, end) && lo < hi <= |bs|
    ensures var size := bs[hi-1].End() - bs[lo].at - HEADER; size > 0 && size % GRAIN == 0
  {
    var a, b := bs[lo].at, bs[hi-1].End();
    assert b - a - HEADER > 0 by {
      if lo < hi - 1 { TiledOrdered(bs, base, end, lo, hi - 1); }
    }
    assert a % GRAIN == 0 by { TiledInside(bs, base, end, lo); }
    assert b % GRAIN == 0 by {
      TiledInside(bs, base, end, hi - 1);
      GrainEnd(bs[hi-1].at, bs[hi-1].size);
    }
    GrainBetween(a, b);
  }

  lemma GrainEnd(at: int, size: int)
    requires at % GRAIN == 0 && size % GRAIN == 0
    ensures (at + HEADER + size) % GRAIN == 0
  {
  }

  lemma GrainBetween(a: int, b: int)
    requires a % GRAIN == 0 && b % GRAIN == 0
    ensures (b - a - HEADER) % GRAIN == 0
  {
  }

  lemma FusedCoalesced(bs: seq<Block>, lo: nat, hi: nat)
    requires Coalesced(bs) && lo < hi <= |bs| && (lo > 0 ==> !bs[lo-1].free) && (hi < |bs| ==> !bs[hi].free)
    ensures Coalesced(Fused(bs, lo, hi))
  {
    var s := Fused(bs, lo, hi);
    forall i | 0 < i < |s| ensures !(s[i-1].free && s[i].free) {
      FusedAt(bs, lo, hi, i - 1);
      FusedAt(bs, lo, hi, i);
    }
  }

  /** Releasing a used block keeps the heap tiled and leaves no two free neighbours. */
  lemma ReleaseKeepsInv(bs: seq<Block>, base: int, end: int, k: nat)
    requires HeapInv(bs, base, end) && k < |bs| && !bs[k].free
    ensures HeapInv(Release(bs, k), base, end)
  {
    var lo, hi := FuseLo(bs, k), FuseHi(bs, k);
    ReleaseFuses(bs, base, end, k);
    FusedTiled(bs, base, end, lo, hi);
    FusedCoalesced(bs, lo, hi);
  }

  /** The block just taken would fuse with exactly the remainder that was split off it. */
  lemma TakeNeighbours(bs: seq<Block>, k: nat, wanted: int)
    requires Coalesced(bs) && k < |bs| && bs[k].free
    ensures var t := Take(bs, k, wanted);
            var hi := FuseHi(t, k);
            && FuseLo(t, k) == k
            && hi <= |t| && t[..k] == bs[..k] && t[hi..] == bs[k+1..]
            && t[k].at == bs[k].at && t[hi-1].End() == bs[k].End()
  {
    TakeShape(bs, k, wanted);
    var t := Take(bs, k, wanted);
    assert k > 0 ==> t[k-1] == bs[k-1];
    if bs[k].size <= wanted + HEADER + MIN_SPLIT {
      assert k + 1 < |bs| ==> t[k+1] == bs[k+1];
    } else {
      assert t[k+1].free;
    }
  }

  /** What becomes of a block that is taken: itself, or its front part and the remainder. */
  function Taken(b: Block, wanted: int): seq<Block> {
    if b.size <= wanted + HEADER + MIN_SPLIT then [Block(b.at, b.size, false)]
    else [Block(b.at, wanted, false), Block(b.at + HEADER + wanted, b.size - wanted - HEADER, true)]
  }

  lemma TakeShape(bs: seq<Block>, k: nat, wanted: int)
    requires k < |bs|
    ensures Take(bs, k, wanted) == bs[..k] + Taken(bs[k], wanted) + bs[k+1..]
  {
  }

  lemma FusedUndoesTake(bs: seq<Block>, k: nat, wanted: int)
    requires Coalesced(bs) && k < |bs| && bs[k].free
    ensures var t := Take(bs, k, wanted);
            FuseHi(t, k) <= |t| && Fused(t, FuseLo(t, k), FuseHi(t, k)) == bs
  {
    TakeNeighbours(bs, k, wanted);
    var t := Take(bs, k, wanted);
    Refill(t, bs, k, FuseHi(t, k));
  }

  lemma Refill(t: seq<Block>, bs: seq<Block>, k: nat, hi: nat)
    requires k < |bs| && bs[k].free && k < hi <= |t| && t[..k] == bs[..k] && t[hi..] == bs[k+1..]
    requires t[k].at == bs[k].at && t[hi-1].End() == bs[k].End()
    ensures Fused(t, k, hi) == bs
  {
    assert bs[..k] + [bs[k]] + bs[k+1..] == bs;
  }

  /** Releasing the block that was just taken restores the block list exactly. */
  lemma ReleaseUndoesTake(bs: seq<Block>, base: int, end: int, k: nat, wanted: int)
    requires HeapInv(bs, base, end) && k < |bs|
    requires Fits(bs[k], wanted) && wanted > 0 && wanted % GRAIN == 0
    ensures Release(Take(bs, k, wanted), k) == bs
  {
    var t := Take(bs, k, wanted);
    TakeKeepsInv(bs, base, end, k, wanted);
    ReleaseFuses(t, base, end, k);
    FusedUndoesTake(bs, k, wanted);
  }

  // ---------------------------------------------------------------- live blocks

  /** The blocks that are handed out. */
  ghost function Live(bs: seq<Block>): set<Block> {
    set i | 0 <= i < |bs| && !bs[i].free :: bs[i]
  }

  /** Taking adds exactly the taken block to the live ones. */
  lemma TakeLive(bs: seq<Block>, k: nat, wanted: int)
    requires k < |bs| && bs[k].free
    ensures Live(Take(bs, k, wanted)) == Live(bs) + {Take(bs, k, wanted)[k]}
  {
    var t := Take(bs, k, wanted);
    var more := |t| - |bs|;
    forall i | 0 <= i < |bs| && !bs[i].free ensures bs[i] in Live(t) {
      if i < k { assert t[i] == bs[i]; } else { assert t[i + more] == bs[i]; }
    }
    forall i | 0 <= i < |t| && !t[i].free ensures t[i] in Live(bs) + {t[k]} {
      if i < k { assert t[i] == bs[i]; } else if i > k { assert t[i] == bs[i - more]; }
    }
  }

  /** Fusing a run that holds one used block keeps every other used block. */
  lemma FusedKeepsLive(bs: seq<Block>, base: int, end: int, lo: nat, hi: nat, k: nat, i: nat)
    requires Tiled(bs, base, end) && lo <= k < hi <= |bs| && i < |bs| && !bs[i].free && i != k
    requires forall j :: lo <= j < hi && j != k ==> bs[j].free
    ensures bs[i] in Live(Fused(bs, lo, hi)) && bs[i] != bs[k]
  {
    var s := Fused(bs, lo, hi);
    var j := if i < lo then i else i - (hi - lo - 1);
    assert s[j] == bs[i];
    if i < k { TiledOrdered(bs, base, end, i, k); } else { TiledOrdered(bs, base, end, k, i); }
  }

  /** Fusing makes no used block. */
  lemma FusedAddsNoLive(bs: seq<Block>, base: int, end: int, lo: nat, hi: nat, k: nat, i: nat)
    requires Tiled(bs, base, end) && lo <= k < hi <= |bs|
    requires i < |Fused(bs, lo, hi)| && !Fused(bs, lo, hi)[i].free
    ensures Fused(bs, lo, hi)[i] in Live(bs) && Fused(bs, lo, hi)[i] != bs[k]
  {
    var s := Fused(bs, lo, hi);
    var j := if i < lo then i else i + (hi - lo - 1);
    assert s[i] == bs[j];
    if j < k { TiledOrdered(bs, base, end, j, k); } else { TiledOrdered(bs, base, end, k, j); }
  }

  /** Releasing removes exactly the released block from the live ones. */
  lemma ReleaseLive(bs: seq<Block>, base: int, end: int, k: nat)
    requires HeapInv(bs, base, end) && k < |bs| && !bs[k].free
    ensures Live(Release(bs, k)) == Live(bs) - {bs[k]}
  {
    ReleaseFuses(bs, base, end, k);
    var lo, hi := FuseLo(bs, k), FuseHi(bs, k);
    var s := Fused(bs, lo, hi);
    forall i | 0 <= i < |bs| && !bs[i].free && i != k ensures bs[i] in Live(s) && bs[i] != bs[k] {
      FusedKeepsLive(bs, base, end, lo, hi, k, i);
    }
    forall i | 0 <= i < |s| && !s[i].free ensures s[i] in Live(bs) && s[i] != bs[k] {
      FusedAddsNoLive(bs, base, end, lo, hi, k, i);
    }
  }

  /** Live blocks lie inside the arena, are aligned, and do not overlap one another. */
  lemma LiveDisjoint(bs: seq<Block>, base: int, end: int, b: Block, c: Block)
    requires Tiled(bs, base, end) && b in bs && c in bs
    ensures base + HEADER <= b.Payload() && b.End() <= end && b.Payload() % GRAIN == 0
    ensures b == c || b.End() <= c.at || c.End() <= b.at
  {
    var i :| 0 <= i < |bs| && bs[i] == b;
    var j :| 0 <= j < |bs| && bs[j] == c;
    TiledInside(bs, base, end, i);
    if i < j { TiledOrdered(bs, base, end, i, j); }
    if j < i { TiledOrdered(bs, base, end, j, i); }
  }

  lemma TwoBlocksHaveLive(bs: seq<Block>)
    requires Coalesced(bs) && |bs| > 1
    ensures Live(bs) != {}
  {
    var i := if bs[1].free then 0 else 1;
    assert bs[i] in Live(bs);
  }

  /** A heap with nothing handed out is the single block that initialisation made. */
  lemma NothingLive(bs: seq<Block>, base: int, end: int)
    requires HeapInv(bs, base, end) && Live(bs) == {}
    ensures bs == [Block(base, end - base - HEADER, true)]
  {
    if |bs| > 1 { TwoBlocksHaveLive(bs); }
    assert bs[0] in Live(bs) || bs[0].free;
  }

  // ---------------------------------------------------------------- the list from its live blocks

  /** The first block starts the arena, and no other block does. */
  lemma FirstAt(bs: seq<Block>, base: int, end: int, b: Block)
    requires Tiled(bs, base, end) && b in Live(bs) && b.at == base
    ensures bs[0] == b
  {
    var j :| 0 <= j < |bs| && bs[j] == b;
    if j > 0 { TiledOrdered(bs, base, end, 0, j); }
  }

  /** Of two lists with the same live blocks, the first free block of one does not end before that of the other. */
  lemma FreeHeadReaches(bs: seq<Block>, cs: seq<Block>, base: int, end: int)
    requires HeapInv(bs, base, end) && HeapInv(cs, base, end) && Live(bs) == Live(cs) && bs[0].free && cs[0].free
    ensures bs[0].End() >= cs[0].End()
  {
    TiledInside(cs, base, end, 0);
    if bs[0].End() < cs[0].End() {
      assert |bs| > 1 && !bs[1].free && bs[1] in Live(cs);
      var j :| 0 <= j < |cs| && cs[j] == bs[1];
      if j > 0 { TiledOrdered(cs, base, end, 0, j); }
      assert false;
    }
  }

  lemma SameHead(bs: seq<Block>, cs: seq<Block>, base: int, end: int)
    requires HeapInv(bs, base, end) && HeapInv(cs, base, end) && Live(bs) == Live(cs)
    ensures bs[0] == cs[0]
  {
    if !bs[0].free {
      assert bs[0] in Live(bs);
      FirstAt(cs, base, end, bs[0]);
    } else if !cs[0].free {
      assert cs[0] in Live(cs);
      FirstAt(bs, base, end, cs[0]);
    } else {
      FreeHeadReaches(bs, cs, base, end);
      FreeHeadReaches(cs, bs, base, end);
    }
  }

  /** Behind the first block the list is one of the same kind. */
  lemma Behind(bs: seq<Block>, base: int, end: int)
    requires HeapInv(bs, base, end) && |bs| > 1
    ensures HeapInv(bs[1..], bs[0].End(), end) && Live(bs[1..]) == Live(bs) - {bs[0]}
  {
    var r := bs[1..];
    TiledInside(bs, base, end, 1);
    assert forall i :: 0 <= i < |r| ==> r[i] == bs[i+1];
    forall i | 0 <= i < |r| ensures r[i] != bs[0] { TiledOrdered(bs, base, end, 0, i + 1); }
    forall b | b in Live(bs) - {bs[0]} ensures b in Live(r) {
      var i :| 0 <= i < |bs| && !bs[i].free && bs[i] == b;
      assert r[i-1] == b;
    }
  }

  /** A heap in order is determined by what is handed out: however it came about, the free space between the live
      blocks is in as few blocks as it can be. */
  lemma {:induction false} LiveDetermines(bs: seq<Block>, cs: seq<Block>, base: int, end: int)
    requires HeapInv(bs, base, end) && HeapInv(cs, base, end) && Live(bs) == Live(cs)
    ensures bs == cs
    decreases |bs|
  {
    SameHead(bs, cs, base, end);
    if |bs| > 1 { TiledInside(bs, base, end, 1); }
    if |cs| > 1 { TiledInside(cs, base, end, 1); }
    if |bs| > 1 && |cs| > 1 {
      Behind(bs, base, end);
      Behind(cs, base, end);
      LiveDetermines(bs[1..], cs[1..], bs[0].End(), end);
      assert bs == [bs[0]] + bs[1..] && cs == [cs[0]] + cs[1..];
    }
  }

  // ---------------------------------------------------------------- statistics

  /** Payload bytes in the first n blocks that are free, or not free. */
  function PayloadBytes(bs: seq<Block>, n: nat, free: bool): nat
    requires n <= |bs|
    requires forall i :: 0 <= i < |bs| ==> bs[i].size > 0
  {
    if n == 0 then 0
    else PayloadBytes(bs, n - 1, free) + if bs[n-1].free == free then bs[n-1].size else 0
  }

  function FreeCount(bs: seq<Block>, n: nat): (r: nat)
    requires n <= |bs|
  {
    if n == 0 then 0 else FreeCount(bs, n - 1) + if bs[n-1].free then 1 else 0
  }

  /** The largest free payload among the first n blocks, 0 when none is free. */
  function LargestFree(bs: seq<Block>, n: nat): (r: nat)
    requires n <= |bs|
    requires forall i :: 0 <= i < |bs| ==> bs[i].size > 0
    ensures forall i :: 0 <= i < n && bs[i].free ==> bs[i].size <= r
    ensures r == 0 || exists i :: 0 <= i < n && bs[i].free && bs[i].size == r
  {
    if n == 0 then 0
    else
      var m := LargestFree(bs, n - 1);
      if bs[n-1].free && bs[n-1].size > m then bs[n-1].size else m
  }

  /** The sizes of a set of blocks, added up. */
  ghost function SizeSum(blocks: set<Block>): int {
    if blocks == {} then 0
    else
      var b :| b in blocks;
      b.size + SizeSum(blocks - {b})
  }

  lemma {:induction false} SizeSumWithout(blocks: set<Block>, b: Block)
    requires b in blocks
    ensures SizeSum(blocks) == b.size + SizeSum(blocks - {b})
    decreases |blocks|
  {
    var c :| c in blocks && SizeSum(blocks) == c.size + SizeSum(blocks - {c});
    if c != b {
      SizeSumWithout(blocks - {c}, b);
      SizeSumWithout(blocks - {b}, c);
      assert blocks - {c} - {b} == blocks - {b} - {c};
    }
  }

  lemma SizeSumWith(blocks: set<Block>, b: Block)
    requires b !in blocks
    ensures SizeSum(blocks + {b}) == SizeSum(blocks) + b.size
  {
    SizeSumWithout(blocks + {b}, b);
    assert blocks + {b} - {b} == blocks;
  }

  /** A set of blocks of positive size adds up to nothing exactly when it is empty. */
  lemma {:induction false} SizeSumZero(blocks: set<Block>)
    requires forall b :: b in blocks ==> b.size > 0
    ensures SizeSum(blocks) >= 0 && (SizeSum(blocks) == 0 <==> blocks == {})
    decreases |blocks|
  {
    if blocks != {} {
      var b :| b in blocks;
      SizeSumWithout(blocks, b);
      SizeSumZero(blocks - {b});
    }
  }

  /** Those of the first n blocks that are free, or not free. */
  ghost function Those(bs: seq<Block>, n: nat, free: bool): set<Block>
    requires n <= |bs|
  {
    set i | 0 <= i < n && bs[i].free == free :: bs[i]
  }

  ghost function FreeOnes(bs: seq<Block>): set<Block> { Those(bs, |bs|, true) }

  lemma ThoseMore(bs: seq<Block>, base: int, end: int, n: nat, free: bool)
    requires Tiled(bs, base, end) && 0 < n <= |bs|
    ensures bs[n-1] !in Those(bs, n - 1, free)
    ensures Those(bs, n, free) == Those(bs, n - 1, free) + if bs[n-1].free == free then {bs[n-1]} else {}
  {
    forall i | 0 <= i < n - 1 ensures bs[i] != bs[n-1] { TiledOrdered(bs, base, end, i, n - 1); }
  }

  /** The byte counters add up the sizes of the blocks of their kind. */
  lemma {:induction false} BytesAreSums(bs: seq<Block>, base: int, end: int, n: nat, free: bool)
    requires Tiled(bs, base, end) && n <= |bs|
    ensures PayloadBytes(bs, n, free) == SizeSum(Those(bs, n, free))
  {
    if n > 0 {
      BytesAreSums(bs, base, end, n - 1, free);
      SumMore(bs, base, end, n, free);
    } else {
      assert Those(bs, 0, free) == {};
    }
  }

  lemma SumMore(bs: seq<Block>, base: int, end: int, n: nat, free: bool)
    requires Tiled(bs, base, end) && 0 < n <= |bs|
    ensures SizeSum(Those(bs, n, free))
         == SizeSum(Those(bs, n - 1, free)) + if bs[n-1].free == free then bs[n-1].size else 0
  {
    ThoseMore(bs, base, end, n, free);
    if bs[n-1].free == free {
      SizeSumWith(Those(bs, n - 1, free), bs[n-1]);
    } else {
      assert Those(bs, n, free) == Those(bs, n - 1, free);
    }
  }

  ghost function FreeIndices(bs: seq<Block>, n: nat): set<nat>
    requires n <= |bs|
  {
    set i: nat | i < n && bs[i].free
  }

  /** The free counter counts the free blocks. */
  lemma {:induction false} FreeCountCounts(bs: seq<Block>, n: nat)
    requires n <= |bs|
    ensures FreeCount(bs, n) == |FreeIndices(bs, n)|
  {
    if n > 0 {
      FreeCountCounts(bs, n - 1);
      assert FreeIndices(bs, n) == FreeIndices(bs, n - 1) + if bs[n-1].free then {n - 1} else {};
    }
  }

  /** A request raises the bytes in use by the size of the block it takes. */
  lemma AllocRaisesUsed(bs: seq<Block>, base: int, end: int, bytes: u64)
    requires HeapInv(bs, base, end) && AllocBlocks(bs, bytes).1 != 0
    ensures var (r, p) := AllocBlocks(bs, bytes);
            exists b :: b in Live(r) && b !in Live(bs) && b.Payload() == p
                        && SizeSum(Live(r)) == SizeSum(Live(bs)) + b.size
  {
    TakenBlock(bs, base, end, bytes);
    var k := FirstFit(bs, RoundUp(bytes));
    TakeLive(bs, k, RoundUp(bytes));
    var b := AllocBlocks(bs, bytes).0[k];
    forall i | 0 <= i < |bs| && !bs[i].free ensures bs[i] != b {
      if i < k { TiledOrdered(bs, base, end, i, k); }
      if k < i { TiledOrdered(bs, base, end, k, i); }
    }
    SizeSumWith(Live(bs), b);
  }

  /** A release lowers them by the size of the block it gives back. */
  lemma ReleaseLowersUsed(bs: seq<Block>, base: int, end: int, k: nat)
    requires HeapInv(bs, base, end) && k < |bs| && !bs[k].free
    ensures SizeSum(Live(Release(bs, k))) == SizeSum(Live(bs)) - bs[k].size
  {
    ReleaseLive(bs, base, end, k);
    assert bs[k] in Live(bs);
    SizeSumWithout(Live(bs), bs[k]);
  }

  lemma {:induction false} PrefixAccounting(bs: seq<Block>, base: int, end: int, n: nat)
    requires Tiled(bs, base, end) && 0 < n <= |bs|
    ensures bs[n-1].End() - base
         == PayloadBytes(bs, n, false) + PayloadBytes(bs, n, true) + HEADER * n
  {
    if n > 1 { PrefixAccounting(bs, base, end, n - 1); }
  }

  /** Every byte of the arena is a used payload byte, a free payload byte or a header byte. */
  lemma Accounting(bs: seq<Block>, base: int, end: int)
    requires Tiled(bs, base, end)
    ensures end - base
         == PayloadBytes(bs, |bs|, false) + PayloadBytes(bs, |bs|, true) + HEADER * |bs|
  {
    PrefixAccounting(bs, base, end, |bs|);
  }

  /** A positive request finds no block exactly when it exceeds the largest free payload. */
  lemma FailsIffTooLarge(bs: seq<Block>, wanted: int)
    requires forall i :: 0 <= i < |bs| ==> bs[i].size > 0
    requires wanted > 0
    ensures FirstFit(bs, wanted) == |bs| <==> wanted > LargestFree(bs, |bs|)
  {
    var k := FirstFit(bs, wanted);
    var m := LargestFree(bs, |bs|);
    if k == |bs| && m > 0 {
      var i :| 0 <= i < |bs| && bs[i].free && bs[i].size == m;
      assert !Fits(bs[i], wanted);
    }
  }

  /** A request is refused exactly when it is empty, overflows on rounding, or exceeds the largest free payload. */
  lemma AllocFailsIff(bs: seq<Block>, base: int, end: int, bytes: u64)
    requires HeapInv(bs, base, end) && 0 < base
    ensures AllocBlocks(bs, bytes).1 == 0 <==>
              bytes == 0 || bytes > MAX_64 - 15 || RoundUp(bytes) > LargestFree(bs, |bs|)
    ensures AllocBlocks(bs, bytes).1 == 0 ==> AllocBlocks(bs, bytes).0 == bs
  {
    var wanted := RoundUp(bytes);
    var k := FirstFit(bs, wanted);
    if wanted > 0 { FailsIffTooLarge(bs, wanted); }
    if k < |bs| { TiledInside(bs, base, end, k); }
  }

  /** r is bs after a request of `bytes` was granted at p: the lowest block that fits is handed out, cut to the rounded
      size if more than 80 bytes are left over, and the others stay handed out as they were. */
  ghost predicate Grants(bs: seq<Block>, r: seq<Block>, p: int, bytes: u64) {
    var k := FirstFit(bs, RoundUp(bytes));
    && k < |bs| && k < |r| && !r[k].free && r[k].at == bs[k].at && p == r[k].Payload()
    && bytes <= RoundUp(bytes) <= r[k].size <= RoundUp(bytes) + HEADER + MIN_SPLIT
    && r[k].size == (if bs[k].size > RoundUp(bytes) + HEADER + MIN_SPLIT then RoundUp(bytes) else bs[k].size)
    && Live(r) == Live(bs) + {r[k]}
  }

  /** What a request does. */
  lemma AllocOutcome(bs: seq<Block>, base: int, end: int, bytes: u64)
    requires HeapInv(bs, base, end) && 0 < base
    ensures var (r, p) := AllocBlocks(bs, bytes);
            && (p == 0 <==> bytes == 0 || bytes > MAX_64 - 15 || RoundUp(bytes) > LargestFree(bs, |bs|))
            && (if p == 0 then r == bs else HeapInv(r, base, end) && Grants(bs, r, p, bytes))
  {
    AllocFailsIff(bs, base, end, bytes);
    if AllocBlocks(bs, bytes).1 != 0 {
      TakenBlock(bs, base, end, bytes);
      TakeLive(bs, FirstFit(bs, RoundUp(bytes)), RoundUp(bytes));
    }
  }

  /** When a request for `count` times `bytes` bytes is refused. */
  ghost predicate CallocRefused(bs: seq<Block>, count: u64, bytes: u64)
    requires forall i :: 0 <= i < |bs| ==> bs[i].size > 0
  {
    || count == 0 || bytes == 0 || count * bytes > MAX_64 - 15
    || (0 <= count * bytes <= MAX_64 - 15 && RoundUp(count * bytes) > LargestFree(bs, |bs|))
  }

  /** What kmem_calloc does: refused exactly for an empty or overflowing product, or one that fits nowhere, and
      otherwise a request for the product. */
  lemma CallocOutcome(bs: seq<Block>, base: int, end: int, count: u64, bytes: u64)
    requires HeapInv(bs, base, end) && 0 < base
    ensures var (r, p) := CallocBlocks(bs, count, bytes);
            && (p == 0 <==> CallocRefused(bs, count, bytes))
            && (p == 0 ==> r == bs)
            && (p != 0 ==> 0 <= count * bytes <= MAX_64 && HeapInv(r, base, end) && Grants(bs, r, p, count * bytes))
  {
    NonNegative(count, bytes);
    ZeroProduct(count, bytes);
    var total := count * bytes;
    if total <= MAX_64 { AllocOutcome(bs, base, end, total); }
  }

  lemma ZeroProduct(a: nat, b: nat)
    ensures a * b == 0 <==> a == 0 || b == 0
  {
    if a > 0 && b > 0 { Grow(a, b); }
  }

  lemma {:induction false} FreeCountPrefix(bs: seq<Block>, n: nat)
    requires Coalesced(bs) && n <= |bs|
    ensures 2 * FreeCount(bs, n) <= n + if n > 0 && bs[n-1].free then 1 else 0
  {
    if n > 0 { FreeCountPrefix(bs, n - 1); }
  }

  /** Fragmentation is bounded: of n blocks at most (n + 1) / 2 are free. */
  lemma FreeCountBound(bs: seq<Block>)
    requires Coalesced(bs)
    ensures 2 * FreeCount(bs, |bs|) <= |bs| + 1
  {
    FreeCountPrefix(bs, |bs|);
  }
}
