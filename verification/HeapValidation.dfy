// kmem_validate on arbitrary memory: which memories it accepts, and what accepting means.

module HeapValidation {
  import opened Words
  import opened HeapBlocks
  import opened HeapMemory

  const MAX_BLOCKS: int := 1048576    // the walk limit of kmem_validate

  /** The address kmem_validate expects after the header at `at`. */
  function CursorAfter(m: Memory, at: int): int
    requires 0 <= at && at + SIZE in m && at + HEADER + m[at + SIZE] < TWO_64
  {
    RoundUp(at + HEADER + m[at + SIZE])
  }

  /** A header inside the arena, with its magic, whose payload stays inside and whose prev link is `prev`. */
  ghost predicate NodeOk(m: Memory, base: u64, end: u64, at: int, prev: int) {
    && base <= at && at + HEADER <= end && HeaderPresent(m, at)
    && m[at] == MAGIC
    && m[at + PREV] == prev
    && m[at + SIZE] <= end - (at + HEADER)
  }

  ghost predicate NodeAt(m: Memory, base: u64, end: u64, xs: seq<int>, i: nat)
    requires i < |xs|
  {
    && NodeOk(m, base, end, xs[i], if i == 0 then 0 else xs[i-1])
    && (i == 0 ==> xs[0] == base)
    && (i + 1 < |xs| ==> xs[i+1] == m[xs[i] + NEXT] == CursorAfter(m, xs[i]))
  }

  /** The headers at xs are the first |xs| of a well-linked walk from base, and `cur` comes next. */
  ghost predicate Walked(m: Memory, base: u64, end: u64, xs: seq<int>, cur: int) {
    && (forall i :: 0 <= i < |xs| ==> NodeAt(m, base, end, xs, i))
    && cur == if |xs| == 0 then base else if HeaderPresent(m, xs[|xs|-1]) then m[xs[|xs|-1] + NEXT] else 0
  }

  /** A complete well-linked walk: it visits at least one header and ends at a null link. */
  ghost predicate Chain(m: Memory, base: u64, end: u64, xs: seq<int>) {
    |xs| > 0 && Walked(m, base, end, xs, 0)
  }

  /** A walk in progress is a prefix of every complete walk. */
  lemma {:induction false} WalkIsPrefix(m: Memory, base: u64, end: u64, xs: seq<int>, cur: int, ys: seq<int>, n: nat)
    requires Walked(m, base, end, xs, cur) && Chain(m, base, end, ys) && n <= |xs|
    requires base > 0
    ensures n <= |ys| && xs[..n] == ys[..n]
    decreases n
  {
    if n > 0 {
      WalkIsPrefix(m, base, end, xs, cur, ys, n - 1);
      assert NodeAt(m, base, end, xs, n - 1);
      if n > 1 {
        assert NodeAt(m, base, end, xs, n - 2);
        assert xs[n-2] == ys[n-2];
        assert NodeAt(m, base, end, ys, n - 2);
      }
      if n <= |ys| { assert NodeAt(m, base, end, ys, n - 1); }
    }
  }

  /** Where the walk in progress stands in any complete walk. */
  lemma NextInChain(m: Memory, base: u64, end: u64, xs: seq<int>, cur: int, ys: seq<int>)
    requires Walked(m, base, end, xs, cur) && Chain(m, base, end, ys) && base > 0
    ensures xs <= ys && (cur == 0 <==> |xs| == |ys|)
    ensures cur != 0 ==> |xs| < |ys| && ys[|xs|] == cur && NodeAt(m, base, end, ys, |xs|)
    ensures cur != 0 && |xs| > 0 ==> NodeAt(m, base, end, ys, |xs| - 1)
  {
    WalkIsPrefix(m, base, end, xs, cur, ys, |xs|);
    assert xs[..|xs|] == xs;
    if |xs| > 0 {
      assert ys[|xs|-1] == xs[|xs|-1];
      assert NodeAt(m, base, end, ys, |xs| - 1) && NodeAt(m, base, end, xs, |xs| - 1);
    }
    if |xs| < |ys| { assert NodeAt(m, base, end, ys, |xs|); }
  }

  function LastOf(xs: seq<int>): int { if |xs| == 0 then 0 else xs[|xs|-1] }

  /** If the header at `cur` fails a check, there is no complete walk. */
  lemma Rejected(m: Memory, base: u64, end: u64, xs: seq<int>, cur: int, cursor: int)
    requires Walked(m, base, end, xs, cur) && base > 0 && cur != 0
    requires |xs| > 0 ==> NodeAt(m, base, end, xs, |xs| - 1)
    requires cursor == if |xs| == 0 then base else CursorAfter(m, LastOf(xs))
    requires cur != cursor || !NodeOk(m, base, end, cur, LastOf(xs))
    ensures forall ys :: !Chain(m, base, end, ys)
  {
    forall ys ensures !Chain(m, base, end, ys) {
      if Chain(m, base, end, ys) { NextInChain(m, base, end, xs, cur, ys); }
    }
  }

  /** Passing the checks extends the walk. */
  lemma Extended(m: Memory, base: u64, end: u64, xs: seq<int>, cur: int)
    requires Walked(m, base, end, xs, cur)
    requires NodeOk(m, base, end, cur, LastOf(xs))
    requires |xs| > 0 ==> NodeAt(m, base, end, xs, |xs| - 1) && cur == CursorAfter(m, LastOf(xs))
    ensures Walked(m, base, end, xs + [cur], m[cur + NEXT])
    ensures NodeAt(m, base, end, xs + [cur], |xs|)
  {
    var zs := xs + [cur];
    forall i | 0 <= i < |zs| ensures NodeAt(m, base, end, zs, i) {
      if i < |xs| { assert NodeAt(m, base, end, xs, i); }
    }
  }

  /** A finished walk is a complete one, and the only one. */
  lemma Finished(m: Memory, base: u64, end: u64, xs: seq<int>)
    requires Walked(m, base, end, xs, 0) && base > 0
    ensures Chain(m, base, end, xs)
    ensures forall ys :: Chain(m, base, end, ys) ==> ys == xs
  {
    forall ys | Chain(m, base, end, ys) ensures ys == xs {
      NextInChain(m, base, end, xs, 0, ys);
    }
  }

  /** More headers than the limit: every complete walk is longer. */
  lemma TooLong(m: Memory, base: u64, end: u64, xs: seq<int>, cur: int)
    requires Walked(m, base, end, xs, cur) && base > 0 && cur != 0
    ensures forall ys :: Chain(m, base, end, ys) ==> |ys| > |xs|
  {
    forall ys | Chain(m, base, end, ys) ensures |ys| > |xs| {
      NextInChain(m, base, end, xs, cur, ys);
    }
  }

  /** Which check the header at `cur` is the first to fail, if any. */
  ghost function HeaderCode(m: Memory, base: u64, end: u64, cur: int, cursor: int, prev: int): int {
    if cur != cursor then -4
    else if !(base <= cur && cur + HEADER <= end && HeaderPresent(m, cur)) then -5
    else if m[cur] != MAGIC then -6
    else if m[cur + PREV] != prev then -7
    else if m[cur + SIZE] > end - (cur + HEADER) then -8
    else 0
  }

  /** What each code says about a header that fails. */
  lemma HeaderCodeMeans(m: Memory, base: u64, end: u64, cur: int, cursor: int, prev: int)
    requires Ram(m, base, end) && base % GRAIN == 0 && cursor % GRAIN == 0
    ensures var code := HeaderCode(m, base, end, cur, cursor, prev);
            && (code == -4 <==> cur != cursor)
            && (code == -5 <==> cur == cursor && !(base <= cur && cur + HEADER <= end))
            && (code == -6 ==> HeaderPresent(m, cur) && m[cur] != MAGIC)
            && (code == -7 ==> HeaderPresent(m, cur) && m[cur] == MAGIC && m[cur + PREV] != prev)
            && (code == -8 ==> HeaderPresent(m, cur) && m[cur] == MAGIC && m[cur + PREV] == prev
                               && cur + HEADER + m[cur + SIZE] > end)
            && (code == 0 ==> NodeOk(m, base, end, cur, prev)) && code in {0, -4, -5, -6, -7, -8}
  {
    if base <= cur && cur + HEADER <= end && cur == cursor { RamHoldsHeader(m, base, end, cur); }
  }

  /** The walk over the headers xs is well linked, and the header that comes next fails a check with this code. */
  ghost predicate StopsAt(m: Memory, base: u64, end: u64, xs: seq<int>, cur: int, code: int) {
    && Walked(m, base, end, xs, cur) && cur != 0 && |xs| < MAX_BLOCKS
    && (|xs| > 0 ==> NodeAt(m, base, end, xs, |xs| - 1))
    && code == HeaderCode(m, base, end, cur, if |xs| == 0 then base else CursorAfter(m, LastOf(xs)), LastOf(xs))
  }

  /** The walk has as many well-linked headers as kmem_validate is willing to visit, and more to come. */
  ghost predicate GoesOn(m: Memory, base: u64, end: u64, xs: seq<int>, cur: int) {
    Walked(m, base, end, xs, cur) && cur != 0 && |xs| == MAX_BLOCKS
  }

  /** The checks of kmem_validate on one header it is allowed to read: 0, or the code it returns. */
  method CheckHeader(m: Memory, base: u64, end: u64, cur: int, cursor: int, prev: int) returns (code: int)
    requires Ram(m, base, end) && 0 < base <= cursor <= end && cursor % GRAIN == 0
    requires end + HEADER < TWO_64
    ensures code == 0 <==> cur == cursor && NodeOk(m, base, end, cur, prev)
    ensures code == HeaderCode(m, base, end, cur, cursor, prev)
  {
    if cur != cursor {
      return -4;
    }
    if cur < base || Wrap(cur + HEADER) > end {
      return -5;
    }
    RamHoldsHeader(m, base, end, cur);
    if m[cur] != MAGIC {
      return -6;
    }
    if m[cur + PREV] != prev {
      return -7;
    }
    if m[cur + SIZE] > end - (cur + HEADER) {
      return -8;
    }
    return 0;
  }

  /** The address the walk over xs expects next. */
  ghost predicate Expects(m: Memory, base: u64, end: u64, xs: seq<int>, cursor: int) {
    && (|xs| > 0 ==> NodeAt(m, base, end, xs, |xs| - 1))
    && cursor == (if |xs| == 0 then base else CursorAfter(m, LastOf(xs)))
    && base <= cursor <= end && cursor % GRAIN == 0
  }

  /** One turn of the walk: the next header passes every check and is added, or no walk is complete. */
  method Turn(m: Memory, base: u64, end: u64, cur: int, cursor: int, prev: int, ghost xs: seq<int>)
    returns (code: int, next: int)
    requires Ram(m, base, end) && 0 < base && base % GRAIN == 0 && end % GRAIN == 0 && end + HEADER < TWO_64
    requires Walked(m, base, end, xs, cur) && cur != 0 && Expects(m, base, end, xs, cursor) && prev == LastOf(xs)
    requires |xs| < MAX_BLOCKS
    ensures code == 0 ==> Walked(m, base, end, xs + [cur], if HeaderPresent(m, cur) then m[cur + NEXT] else 0)
    ensures code == 0 ==> HeaderPresent(m, cur) && Expects(m, base, end, xs + [cur], next) && next > cursor
    ensures code != 0 ==> -8 <= code <= -4 && StopsAt(m, base, end, xs, cur, code)
    ensures code != 0 ==> forall ys :: !Chain(m, base, end, ys)
  {
    next := cursor;
    code := CheckHeader(m, base, end, cur, cursor, prev);
    if code != 0 {
      Rejected(m, base, end, xs, cur, cursor);
      return;
    }
    Extended(m, base, end, xs, cur);
    next := RoundUp(cur + HEADER + m[cur + SIZE]);
    if next == 0 || next > end {
      code := -9;
    }
  }

  /** The walk of kmem_validate. */
  method WalkAll(m: Memory, base: u64, end: u64) returns (code: int)
    requires Ram(m, base, end) && 0 < base < end && base % GRAIN == 0 && end % GRAIN == 0 && end + HEADER < TWO_64
    ensures code == 0 || -8 <= code <= -3
    ensures code == -3 ==> exists xs, cur :: GoesOn(m, base, end, xs, cur)
    ensures code <= -4 ==> exists xs, cur :: StopsAt(m, base, end, xs, cur, code)
    ensures code == 0 ==> exists xs :: Chain(m, base, end, xs) && |xs| <= MAX_BLOCKS
    ensures forall xs :: Chain(m, base, end, xs) ==> code == if |xs| <= MAX_BLOCKS then 0 else -3
  {
    var prev, cursor, guard, cur: int := 0, base, 0, base;
    ghost var xs: seq<int> := [];
    while cur != 0
      invariant Walked(m, base, end, xs, cur) && Expects(m, base, end, xs, cursor)
      invariant guard == |xs| <= MAX_BLOCKS && prev == LastOf(xs)
      decreases end - cursor
    {
      guard := guard + 1;
      if guard > MAX_BLOCKS {
        TooLong(m, base, end, xs, cur);
        assert GoesOn(m, base, end, xs, cur);
        return -3;
      }
      code, cursor := Turn(m, base, end, cur, cursor, prev, xs);
      if code != 0 {
        return;
      }
      prev := cur;
      xs := xs + [cur];
      cur := m[cur + NEXT];
    }
    Finished(m, base, end, xs);
    return 0;
  }

  /** kmem_validate: it accepts exactly the memories with a complete walk of at most 1048576 headers, and otherwise
      names the first check that the walk fails. (So -9 is never returned.) */
  method Validate(m: Memory, initialized: bool, base: u64, end: u64, head: u64) returns (code: int)
    requires initialized ==> base % GRAIN == 0 && end % GRAIN == 0 && Ram(m, base, end) && end + HEADER < TWO_64
    ensures code == -1 <==> !initialized || base == 0 || end <= base || head == 0
    ensures code == -2 <==> initialized && 0 < base < end && head != 0 && head != base
    ensures -8 <= code <= 0
    ensures code == -3 ==> exists xs, cur :: GoesOn(m, base, end, xs, cur)
    ensures code <= -4 ==> exists xs, cur :: StopsAt(m, base, end, xs, cur, code)
    ensures code == 0 ==> initialized && 0 < base < end && head == base
                          && exists xs :: Chain(m, base, end, xs) && |xs| <= MAX_BLOCKS
    ensures initialized && 0 < base < end && head == base ==>
              forall xs :: Chain(m, base, end, xs) ==> code == if |xs| <= MAX_BLOCKS then 0 else -3
  {
    if !initialized || base == 0 || end <= base || head == 0 {
      return -1;
    }
    if head != base {
      return -2;
    }
    code := WalkAll(m, base, end);
  }

  // ---------------------------------------------------------------- what acceptance means

  /** The addresses of the headers of bs. */
  function Starts(bs: seq<Block>): (xs: seq<int>) { seq(|bs|, i requires 0 <= i < |bs| => bs[i].at) }

  /** A heap in order is one complete walk over all its headers, so its validation code is known. */
  lemma LayoutIsChain(m: Memory, bs: seq<Block>, base: u64, end: u64)
    requires Layout(m, bs, base, end)
    ensures Chain(m, base, end, Starts(bs))
  {
    var xs := Starts(bs);
    forall i | 0 <= i < |xs| ensures NodeAt(m, base, end, xs, i) {
      LayoutNode(m, bs, base, end, i);
    }
    BlockFacts(m, bs, base, end, |bs| - 1);
  }

  lemma LayoutNode(m: Memory, bs: seq<Block>, base: u64, end: u64, i: nat)
    requires Layout(m, bs, base, end) && i < |bs|
    ensures NodeAt(m, base, end, Starts(bs), i)
  {
    BlockFacts(m, bs, base, end, i);
    assert bs[i].End() % GRAIN == 0 by { GrainEnd(bs[i].at, bs[i].size); }
    GrainIsRounded(bs[i].End());
  }

  lemma GrainIsRounded(value: u64)
    requires value % GRAIN == 0 && value <= MAX_64 - GRAIN
    ensures RoundUp(value) == value
  {
  }

  /** The block that the header at `at` describes. */
  function BlockAt(m: Memory, at: int): Block {
    Block(at, if at + SIZE in m then m[at + SIZE] else 0, at + FREE in m && FreeBit(m[at + FREE]))
  }

  function BlocksAt(m: Memory, xs: seq<int>): seq<Block> {
    seq(|xs|, i requires 0 <= i < |xs| => BlockAt(m, xs[i]))
  }

  /** What an accepted memory holds: a doubly linked list of blocks. It tiles the arena exactly when, beyond
      what kmem_validate checks, the sizes are positive multiples of 16 and the last block reaches the end. */
  lemma AcceptedTiles(m: Memory, base: u64, end: u64, xs: seq<int>)
    requires Chain(m, base, end, xs) && base % GRAIN == 0 && end < MAX_64 - GRAIN
    ensures var bs := BlocksAt(m, xs);
            && Listed(m, bs)
            && (Tiled(bs, base, end) <==>
                  && (forall i :: 0 <= i < |bs| ==> bs[i].size > 0 && bs[i].size % GRAIN == 0)
                  && bs[|bs|-1].End() == end)
  {
    var bs := BlocksAt(m, xs);
    forall i | 0 <= i < |bs| ensures Linked(m, bs, i) {
      assert NodeAt(m, base, end, xs, i);
    }
    if forall i :: 0 <= i < |bs| ==> bs[i].size > 0 && bs[i].size % GRAIN == 0 {
      ChainAdjacent(m, base, end, xs, bs, |xs| - 1);
    }
    assert NodeAt(m, base, end, xs, 0);
  }

  lemma {:induction false} ChainAdjacent(m: Memory, base: u64, end: u64, xs: seq<int>, bs: seq<Block>, n: nat)
    requires Chain(m, base, end, xs) && base % GRAIN == 0 && end < MAX_64 - GRAIN
    requires bs == BlocksAt(m, xs) && n < |xs|
    requires forall i :: 0 <= i < |bs| ==> bs[i].size > 0 && bs[i].size % GRAIN == 0
    ensures xs[n] % GRAIN == 0
    ensures forall i :: 0 < i <= n ==> bs[i].at == bs[i-1].End()
  {
    assert NodeAt(m, base, end, xs, n);
    if n > 0 {
      ChainAdjacent(m, base, end, xs, bs, n - 1);
      assert bs[n-1] == BlockAt(m, xs[n-1]);
      NextNode(m, base, end, xs, n - 1);
    }
  }

  /** From an aligned node with an aligned size, the walk goes to the very next byte. */
  lemma NextNode(m: Memory, base: u64, end: u64, xs: seq<int>, n: nat)
    requires Chain(m, base, end, xs) && n + 1 < |xs| && end < MAX_64 - GRAIN
    requires xs[n] % GRAIN == 0 && BlockAt(m, xs[n]).size % GRAIN == 0
    ensures xs[n+1] == BlockAt(m, xs[n]).End() && xs[n+1] % GRAIN == 0
  {
    assert NodeAt(m, base, end, xs, n);
    assert BlockAt(m, xs[n]).End() % GRAIN == 0 by { GrainEnd(xs[n], BlockAt(m, xs[n]).size); }
    GrainIsRounded(BlockAt(m, xs[n]).End());
  }

  /** Acceptance alone does not give a tiling: a lone 32-byte block in a 112-byte arena is accepted, and
      the 32 bytes behind it belong to no block. */
  lemma AcceptedButNotTiled()
    ensures exists m: Memory ::
      && Ram(m, 16, 128)
      && Chain(m, 16, 128, [16])
      && !Tiled(BlocksAt(m, [16]), 16, 128)
  {
    var m: Memory := map[16 := MAGIC, 24 := 32, 32 := 1, 40 := 0, 48 := 0, 56 := 0, 64 := 0, 72 := 0,
                         80 := 0, 88 := 0, 96 := 0, 104 := 0, 112 := 0, 120 := 0];
    assert Ram(m, 16, 128);
    assert NodeAt(m, 16, 128, [16], 0);
    assert Chain(m, 16, 128, [16]);
    assert BlocksAt(m, [16])[0].End() == 96;
  }

  /** kmem_validate on a heap in order: 0, or -3 when there are more blocks than it is willing to walk. */
  method ValidateLayout(m: Memory, base: u64, end: u64, head: u64, ghost bs: seq<Block>) returns (code: int)
    requires Layout(m, bs, base, end) && head == base
    ensures code == if |bs| <= MAX_BLOCKS then 0 else -3
  {
    LayoutIsChain(m, bs, base, end);
    BlockFacts(m, bs, base, end, |bs| - 1);
    code := Validate(m, true, base, end, head);
  }
}
