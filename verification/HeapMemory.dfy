// How a block list is laid out in memory: each block is headed by a
// kmem_block_t, and the headers form a doubly linked list.

module HeapMemory {
  import opened Words
  import opened HeapBlocks

  const MAGIC: int := 0x4d43_534f_5348_4541    // KMEM_MAGIC

  /** Memory as 64-bit words, keyed by the (8-aligned) byte address of each word. */
  type Memory = map<int, u64>

  // Byte offsets of the fields of kmem_block_t.
  const SIZE: int := 8
  const FREE: int := 16         // int free in the low half, uint32_t reserved in the high half
  const PREV: int := 32
  const NEXT: int := 40

  const TWO_32: int := 0x1_0000_0000

  /** Whether the `free` field held in this word is non-zero. */
  predicate FreeBit(word: int) { word % TWO_32 != 0 }

  /** The word after storing `value` in its `free` field; `reserved` keeps its value. */
  function WithFree(word: int, value: bool): (r: int)
    ensures FreeBit(r) == value && r / TWO_32 == word / TWO_32
  {
    word - word % TWO_32 + if value then 1 else 0
  }

  predicate WordAligned(a: int) { a % 8 == 0 }

  /** Every aligned word of [lo, hi) is present in memory. */
  ghost predicate Ram(m: Memory, lo: int, hi: int) {
    forall a {:trigger WordAligned(a)} :: lo <= a < hi && WordAligned(a) ==> a in m
  }

  ghost predicate HeaderPresent(m: Memory, at: int) {
    at in m && at + SIZE in m && at + FREE in m && at + PREV in m && at + NEXT in m
  }

  lemma GrainWordAligned(at: int, i: int)
    requires at % GRAIN == 0
    ensures WordAligned(at + 8 * i)
  {
    var q := at / GRAIN;
    assert at + 8 * i == 8 * (2 * q + i);
    EightTimes(2 * q + i);
  }

  lemma EightTimes(n: int)
    ensures 8 * n % 8 == 0
  {
  }

  lemma RamHoldsHeader(m: Memory, lo: int, hi: int, at: int)
    requires Ram(m, lo, hi) && lo <= at && at + HEADER <= hi && at % GRAIN == 0
    ensures HeaderPresent(m, at)
  {
    GrainWordAligned(at, 0);
    GrainWordAligned(at, 1);
    GrainWordAligned(at, 2);
    GrainWordAligned(at, 4);
    GrainWordAligned(at, 5);
  }

  /** The header of block b, linked to the headers at prev and next (0 is the null pointer). */
  ghost predicate HeaderAt(m: Memory, b: Block, prev: int, next: int) {
    && HeaderPresent(m, b.at)
    && m[b.at] == MAGIC
    && m[b.at + SIZE] == b.size
    && FreeBit(m[b.at + FREE]) == b.free
    && m[b.at + PREV] == prev
    && m[b.at + NEXT] == next
  }

  function PrevOf(bs: seq<Block>, i: nat): int
    requires i < |bs|
  {
    if i == 0 then 0 else bs[i-1].at
  }

  function NextOf(bs: seq<Block>, i: nat): int
    requires i < |bs|
  {
    if i + 1 == |bs| then 0 else bs[i+1].at
  }

  ghost predicate Linked(m: Memory, bs: seq<Block>, i: nat)
    requires i < |bs|
  {
    HeaderAt(m, bs[i], PrevOf(bs, i), NextOf(bs, i))
  }

  /** Memory holds exactly the block list bs. */
  ghost predicate Listed(m: Memory, bs: seq<Block>) {
    forall i :: 0 <= i < |bs| ==> Linked(m, bs, i)
  }

  // ---------------------------------------------------------------- frames

  /** Address a lies in the header of a block of bs. */
  ghost predicate InHeader(bs: seq<Block>, a: int) {
    exists i :: 0 <= i < |bs| && bs[i].at <= a < bs[i].at + HEADER
  }

  /** m' differs from m only in words that belong to headers of bs. */
  ghost predicate OnlyHeaders(m: Memory, m': Memory, bs: seq<Block>) {
    && m'.Keys == m.Keys
    && forall a :: a in m && m'[a] != m[a] ==> InHeader(bs, a)
  }

  /** m and m' agree on every word of [lo, hi). */
  ghost predicate Agree(m: Memory, m': Memory, lo: int, hi: int) {
    forall a :: lo <= a < hi && a in m ==> a in m' && m'[a] == m[a]
  }

  /** Header writes touch no payload, and nothing outside the arena. */
  lemma OnlyHeadersKeepsPayload(m: Memory, m': Memory, bs: seq<Block>, base: int, end: int, b: Block)
    requires OnlyHeaders(m, m', bs) && Tiled(bs, base, end) && b in bs
    ensures Agree(m, m', b.Payload(), b.End())
  {
    var j :| 0 <= j < |bs| && bs[j] == b;
    forall a | b.Payload() <= a < b.End() && a in m ensures m'[a] == m[a] {
      if m'[a] != m[a] {
        var i :| 0 <= i < |bs| && bs[i].at <= a < bs[i].at + HEADER;
        if i < j { TiledOrdered(bs, base, end, i, j); }
        if j < i { TiledOrdered(bs, base, end, j, i); }
        assert false;
      }
    }
  }

  lemma OnlyHeadersKeepsOutside(m: Memory, m': Memory, bs: seq<Block>, base: int, end: int, a: int)
    requires OnlyHeaders(m, m', bs) && Tiled(bs, base, end) && a in m && !(base <= a < end)
    ensures m'[a] == m[a]
  {
    if m'[a] != m[a] {
      var i :| 0 <= i < |bs| && bs[i].at <= a < bs[i].at + HEADER;
      TiledInside(bs, base, end, i);
      assert false;
    }
  }

  /** A header survives any change that spares its 48 bytes. */
  lemma LinkedFrame(m: Memory, m': Memory, bs: seq<Block>, i: nat, bs': seq<Block>, i': nat)
    requires i < |bs| && i' < |bs'| && Linked(m, bs, i)
    requires bs'[i'] == bs[i] && PrevOf(bs', i') == PrevOf(bs, i) && NextOf(bs', i') == NextOf(bs, i)
    requires Agree(m, m', bs[i].at, bs[i].at + HEADER)
    ensures Linked(m', bs', i')
  {
    assert bs[i].at in m';
  }

  // ---------------------------------------------------------------- absorbing a block

  /** m' is m after block k of bs absorbed block k+1: the stores of one turn of kmem_coalesce_forward. */
  ghost predicate MergeStored(m: Memory, m': Memory, bs: seq<Block>, k: nat)
    requires k + 1 < |bs|
  {
    var b, n := bs[k].at, bs[k+1].at;
    && m'.Keys == m.Keys && HeaderPresent(m, b) && HeaderPresent(m, n)
    && m'[b] == m[b] && m'[b + FREE] == m[b + FREE] && m'[b + PREV] == m[b + PREV]
    && m'[b + SIZE] == bs[k].size + HEADER + bs[k+1].size
    && m'[b + NEXT] == NextOf(bs, k + 1)
    && m'[n] == 0
    && (k + 2 < |bs| ==> bs[k+2].at + PREV in m && m'[bs[k+2].at + PREV] == b)
    && (forall a | a in m :: || b <= a < b + HEADER || n <= a < n + HEADER
                             || (k + 2 < |bs| && a == bs[k+2].at + PREV)
                             || m'[a] == m[a])
  }

  lemma MergeOnlyHeaders(m: Memory, m': Memory, bs: seq<Block>, k: nat)
    requires k + 1 < |bs| && MergeStored(m, m', bs, k)
    ensures OnlyHeaders(m, m', bs)
  {
    forall a | a in m && m'[a] != m[a] ensures InHeader(bs, a) {
      assert bs[k].at <= a < bs[k].at + HEADER || bs[k+1].at <= a < bs[k+1].at + HEADER
             || (k + 2 < |bs| && bs[k+2].at <= a < bs[k+2].at + HEADER);
    }
  }

  /** Blocks other than k, k+1 and k+2 keep their headers. */
  lemma MergeSpares(m: Memory, m': Memory, bs: seq<Block>, base: int, end: int, k: nat, i: nat)
    requires Tiled(bs, base, end) && k + 1 < |bs| && MergeStored(m, m', bs, k)
    requires i < |bs| && (i < k || i > k + 2)
    ensures Agree(m, m', bs[i].at, bs[i].at + HEADER)
  {
    if i < k {
      TiledOrdered(bs, base, end, i, k);
    } else {
      TiledOrdered(bs, base, end, k + 2, i);
    }
    TiledOrdered(bs, base, end, k, k + 1);
    if k + 2 < |bs| { TiledOrdered(bs, base, end, k + 1, k + 2); }
  }

  lemma MergeLinkedNear(m: Memory, m': Memory, bs: seq<Block>, base: int, end: int, k: nat, i: nat)
    requires Tiled(bs, base, end) && Listed(m, bs) && k + 1 < |bs| && MergeStored(m, m', bs, k)
    requires k <= i <= k + 1 && i < |bs| - 1
    ensures Linked(m', Merge(bs, k), i)
  {
    TiledOrdered(bs, base, end, k, k + 1);
    if i == k {
      assert Linked(m, bs, k);
      if k + 2 < |bs| { TiledOrdered(bs, base, end, k, k + 2); }
    } else {
      assert Linked(m, bs, k + 2);
      TiledOrdered(bs, base, end, k + 1, k + 2);
    }
  }

  lemma MergeListed(m: Memory, m': Memory, bs: seq<Block>, base: int, end: int, k: nat)
    requires Tiled(bs, base, end) && Listed(m, bs) && k + 1 < |bs| && MergeStored(m, m', bs, k)
    ensures Listed(m', Merge(bs, k))
  {
    var r := Merge(bs, k);
    forall i | 0 <= i < |r| ensures Linked(m', r, i) {
      if k <= i <= k + 1 {
        MergeLinkedNear(m, m', bs, base, end, k, i);
      } else {
        var j := if i < k then i else i + 1;
        MergeSpares(m, m', bs, base, end, k, j);
        LinkedFrame(m, m', bs, j, r, i);
      }
    }
  }

  // ---------------------------------------------------------------- splitting a block

  /** m' is m after block k of bs was cut down to `wanted` bytes: the stores of kmem_split_if_useful. */
  ghost predicate SplitStored(m: Memory, m': Memory, bs: seq<Block>, k: nat, wanted: int)
    requires k < |bs|
  {
    var b, n := bs[k].at, bs[k].at + HEADER + wanted;
    && m'.Keys == m.Keys && HeaderPresent(m, b) && HeaderPresent(m, n)
    && HeaderAt(m', Block(n, bs[k].size - wanted - HEADER, true), b, NextOf(bs, k))
    && m'[b] == m[b] && m'[b + FREE] == m[b + FREE] && m'[b + PREV] == m[b + PREV]
    && m'[b + SIZE] == wanted && m'[b + NEXT] == n
    && (k + 1 < |bs| ==> bs[k+1].at + PREV in m && m'[bs[k+1].at + PREV] == n)
    && (forall a | a in m :: || b <= a < b + HEADER || n <= a < n + HEADER
                             || (k + 1 < |bs| && a == bs[k+1].at + PREV)
                             || m'[a] == m[a])
  }

  lemma SplitOnlyHeaders(m: Memory, m': Memory, bs: seq<Block>, k: nat, wanted: int)
    requires k < |bs| && bs[k].size > wanted + HEADER + MIN_SPLIT && SplitStored(m, m', bs, k, wanted)
    ensures OnlyHeaders(m, m', Split(bs, k, wanted))
  {
    var r := Split(bs, k, wanted);
    forall a | a in m && m'[a] != m[a] ensures InHeader(r, a) {
      assert r[k].at <= a < r[k].at + HEADER || r[k+1].at <= a < r[k+1].at + HEADER
             || (k + 2 < |r| && r[k+2].at <= a < r[k+2].at + HEADER);
    }
  }

  lemma SplitSpares(m: Memory, m': Memory, bs: seq<Block>, base: int, end: int, k: nat, wanted: int, i: nat)
    requires Tiled(bs, base, end) && k < |bs| && SplitStored(m, m', bs, k, wanted)
    requires 0 < wanted && bs[k].size > wanted + HEADER
    requires i < |bs| && (i < k || i > k + 1)
    ensures Agree(m, m', bs[i].at, bs[i].at + HEADER)
  {
    if i < k {
      TiledOrdered(bs, base, end, i, k);
    } else {
      TiledOrdered(bs, base, end, k + 1, i);
    }
    if k + 1 < |bs| { TiledOrdered(bs, base, end, k, k + 1); }
  }

  /** r lists block k cut down to `wanted`, the remainder, and the neighbours on either side. */
  ghost predicate SplitAround(bs: seq<Block>, k: nat, wanted: int, r: seq<Block>)
    requires k < |bs|
  {
    && |r| == |bs| + 1
    && r[k] == bs[k].(size := wanted)
    && r[k+1] == Block(bs[k].at + HEADER + wanted, bs[k].size - wanted - HEADER, true)
    && (k > 0 ==> r[k-1] == bs[k-1])
    && (k + 1 < |bs| ==> r[k+2] == bs[k+1])
    && (k + 2 < |bs| ==> r[k+3] == bs[k+2])
  }

  lemma SplitLinkedNear(m: Memory, m': Memory, bs: seq<Block>, base: int, end: int, k: nat, wanted: int,
                        r: seq<Block>, i: nat)
    requires Tiled(bs, base, end) && Listed(m, bs) && k < |bs| && SplitStored(m, m', bs, k, wanted)
    requires 0 < wanted && bs[k].size > wanted + HEADER + MIN_SPLIT && SplitAround(bs, k, wanted, r)
    requires k <= i <= k + 2 && i <= |bs|
    ensures Linked(m', r, i)
  {
    if i == k {
      assert Linked(m, bs, k);
      if k + 1 < |bs| { TiledOrdered(bs, base, end, k, k + 1); }
    } else if i == k + 2 {
      assert Linked(m, bs, k + 1);
      TiledOrdered(bs, base, end, k, k + 1);
    }
  }

  lemma SplitListed(m: Memory, m': Memory, bs: seq<Block>, base: int, end: int, k: nat, wanted: int)
    requires Tiled(bs, base, end) && Listed(m, bs) && k < |bs| && SplitStored(m, m', bs, k, wanted)
    requires 0 < wanted && bs[k].size > wanted + HEADER + MIN_SPLIT
    ensures Listed(m', Split(bs, k, wanted))
  {
    var r := Split(bs, k, wanted);
    forall i | 0 <= i < |r| ensures Linked(m', r, i) {
      if k <= i <= k + 2 {
        SplitLinkedNear(m, m', bs, base, end, k, wanted, r, i);
      } else {
        var j := if i < k then i else i - 1;
        SplitSpares(m, m', bs, base, end, k, wanted, j);
        LinkedFrame(m, m', bs, j, r, i);
      }
    }
  }

  // ---------------------------------------------------------------- the free flag

  /** Storing the `free` field of block k changes that block's state and nothing else. */
  lemma FlagListed(m: Memory, bs: seq<Block>, base: int, end: int, k: nat, free: bool)
    requires Tiled(bs, base, end) && Listed(m, bs) && k < |bs| && bs[k].at + FREE in m
    ensures var m' := m[bs[k].at + FREE := WithFree(m[bs[k].at + FREE], free)];
            var r := bs[k := bs[k].(free := free)];
            Listed(m', r) && OnlyHeaders(m, m', r)
  {
    var m' := m[bs[k].at + FREE := WithFree(m[bs[k].at + FREE], free)];
    var r := bs[k := bs[k].(free := free)];
    forall i | 0 <= i < |r| ensures Linked(m', r, i) {
      assert Linked(m, bs, i);
      if i < k { TiledOrdered(bs, base, end, i, k); }
      if k < i { TiledOrdered(bs, base, end, k, i); }
    }
    assert r[k].at <= bs[k].at + FREE < r[k].at + HEADER;
  }

  lemma OnlyHeadersTrans(m: Memory, m1: Memory, m2: Memory, bs: seq<Block>)
    requires OnlyHeaders(m, m1, bs) && OnlyHeaders(m1, m2, bs)
    ensures OnlyHeaders(m, m2, bs)
  {
  }

  /** InHeader depends only on where the blocks start. */
  lemma SameStartsSameHeaders(m: Memory, m': Memory, bs: seq<Block>, cs: seq<Block>)
    requires OnlyHeaders(m, m', cs)
    requires forall i :: 0 <= i < |cs| ==> exists j :: 0 <= j < |bs| && bs[j].at == cs[i].at
    ensures OnlyHeaders(m, m', bs)
  {
    forall a | a in m && m'[a] != m[a] ensures InHeader(bs, a) {
      assert InHeader(cs, a);
      var i :| 0 <= i < |cs| && cs[i].at <= a < cs[i].at + HEADER;
      var j :| 0 <= j < |bs| && bs[j].at == cs[i].at;
      assert bs[j].at <= a < bs[j].at + HEADER;
    }
  }

  /** cs is bs after block k absorbed the blocks that were lost between the two lists. */
  ghost predicate Absorbed(bs: seq<Block>, cs: seq<Block>, k: nat) {
    var gone := |bs| - |cs|;
    && 0 <= gone && k < |cs|
    && (forall i :: 0 <= i < k ==> cs[i] == bs[i])
    && cs[k].at == bs[k].at && cs[k].End() == bs[k+gone].End()
    && (forall i :: k < i < |cs| ==> cs[i] == bs[i+gone])
  }

  lemma MergeAbsorbs(bs: seq<Block>, cs: seq<Block>, k: nat)
    requires Absorbed(bs, cs, k) && k + 1 < |cs| && cs[k+1].at == cs[k].End()
    ensures Absorbed(bs, Merge(cs, k), k)
  {
  }

  /** The headers of absorbed blocks have lost their magic. */
  ghost predicate Retired(m: Memory, bs: seq<Block>, k: nat, n: nat)
    requires k + n < |bs|
  {
    forall j :: k < j <= k + n ==> bs[j].at in m && m[bs[j].at] == 0
  }

  // ---------------------------------------------------------------- layout

  /** Memory holds the tiling bs of an arena [base, end) that stays clear of the top of the address space. */
  ghost predicate Layout(m: Memory, bs: seq<Block>, base: u64, end: u64) {
    && 0 < base < end && end + HEADER < TWO_64
    && Ram(m, base, end)
    && Tiled(bs, base, end)
    && Listed(m, bs)
  }

  lemma BlockFacts(m: Memory, bs: seq<Block>, base: u64, end: u64, k: nat)
    requires Layout(m, bs, base, end) && k < |bs|
    ensures Linked(m, bs, k)
    ensures base <= bs[k].at && bs[k].End() <= end
    ensures bs[k].at % GRAIN == 0 && 0 < bs[k].size && bs[k].size % GRAIN == 0
    ensures k + 1 < |bs| ==> bs[k+1].at == bs[k].End() && Linked(m, bs, k + 1)
  {
    TiledInside(bs, base, end, k);
  }

  /** What a pointer to a released block refers to: a free block, or a header without its magic. */
  ghost predicate StalePointer(m: Memory, bs: seq<Block>, at: int) {
    || (at in m && m[at] == 0)
    || (exists j :: 0 <= j < |bs| && bs[j].at == at && bs[j].free)
  }
}
