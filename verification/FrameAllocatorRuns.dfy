// What initialisation means, and whole runs of the frame allocator.

module FrameAllocatorRuns {
  import opened Words
  import opened FrameRanges
  import opened FrameAllocator

  // ---------------------------------------------------------------- the memory map

  /** The source treats this region as intended; FreesInsideIff and ReservesTouchedIff show the condition exact. */
  predicate Faithful(r: Region, n: nat) {
    if r.kind == USABLE then
      || r.length == 0
      || (r.base + r.length < TWO_64 && r.base <= TWO_64 - PAGE)
      || (r.base + r.length >= TWO_64 && r.base > PAGE * (n - 1))
    else
      r.length == 0 || r.base + r.length <= TWO_64 - PAGE || r.base >= PAGE * n
  }

  /** A usable region holds the whole frame. */
  predicate Provides(r: Region, f: nat) { r.kind == USABLE && r.length > 0 && Inside(f, r.base, r.length) }

  /** A region of another kind touches the frame. */
  predicate Claims(r: Region, f: nat) { r.kind != USABLE && Touches(f, r.base, r.length) }

  /** After initialisation from regions that do not wrap, a frame is free if and only if it is not frame 0, lies
      wholly inside some usable region, and is touched by no region of another kind. */
  lemma AvailableMeans(regions: seq<Region>, n: nat, f: nat)
    requires 0 < n && PAGE * n < TWO_64 && f < n
    requires forall r :: r in regions ==> Faithful(r, n)
    ensures Available(regions, n, f) <==>
              f != 0 && (exists r :: r in regions && Provides(r, f)) && !exists r :: r in regions && Claims(r, f)
  {
    forall i: nat | i < |regions|
      ensures FreedByOne(regions, n, f, i) <==> Provides(regions[i], f)
      ensures ReservedByOne(regions, n, f, i) <==> Claims(regions[i], f)
    {
      RegionMeans(regions, n, f, i);
    }
    if exists r :: r in regions && Provides(r, f) {
      var r :| r in regions && Provides(r, f);
      var i: nat :| i < |regions| && regions[i] == r;
      assert FreedByOne(regions, n, f, i);
    }
    if exists r :: r in regions && Claims(r, f) {
      var r :| r in regions && Claims(r, f);
      var i: nat :| i < |regions| && regions[i] == r;
      assert ReservedByOne(regions, n, f, i);
    }
  }

  lemma RegionMeans(regions: seq<Region>, n: nat, f: nat, i: nat)
    requires 0 < n && PAGE * n < TWO_64 && f < n && i < |regions| && Faithful(regions[i], n)
    ensures FreedByOne(regions, n, f, i) <==> Provides(regions[i], f)
    ensures ReservedByOne(regions, n, f, i) <==> Claims(regions[i], f)
  {
    var r := regions[i];
    FreesInsideIff(r.base, r.length, n);
    ReservesTouchedIff(r.base, r.length, n);
  }

  /** The order of the regions, and repeating them, makes no difference. */
  lemma OrderIrrelevant(regions: seq<Region>, regions': seq<Region>, n: nat, f: nat)
    requires PAGE * n < TWO_64 && forall r :: r in regions <==> r in regions'
    ensures Available(regions, n, f) <==> Available(regions', n, f)
  {
    SomeRegion(regions, regions', n, f);
    SomeRegion(regions', regions, n, f);
  }

  lemma SomeRegion(regions: seq<Region>, regions': seq<Region>, n: nat, f: nat)
    requires PAGE * n < TWO_64 && forall r :: r in regions ==> r in regions'
    ensures FreedBy(regions, |regions|, n, f) ==> FreedBy(regions', |regions'|, n, f)
    ensures ReservedBy(regions, |regions|, n, f) ==> ReservedBy(regions', |regions'|, n, f)
  {
    if FreedBy(regions, |regions|, n, f) {
      var i: nat :| i < |regions| && FreedByOne(regions, n, f, i);
      assert regions[i] in regions';
      var j :| 0 <= j < |regions'| && regions'[j] == regions[i];
      assert FreedByOne(regions', n, f, j);
    }
    if ReservedBy(regions, |regions|, n, f) {
      var i: nat :| i < |regions| && ReservedByOne(regions, n, f, i);
      assert regions[i] in regions';
      var j :| 0 <= j < |regions'| && regions'[j] == regions[i];
      assert ReservedByOne(regions', n, f, j);
    }
  }

  // ---------------------------------------------------------------- runs

  datatype Op = Alloc | Free(addr: u64) | Reserve(base: u64, length: u64)

  /** What a call returns: an address, or whether it was accepted. */
  datatype Reply = Address(addr: u64) | Verdict(ok: bool)

  /** The free frames, those handed out and not given back, and those reserved while they were free. */
  datatype State = State(free: set<nat>, out: set<nat>, kept: set<nat>)

  ghost predicate IsLowest(s: set<nat>, f: nat) { f in s && forall g :: g in s ==> f <= g }

  /** The replies of an initialised allocator with n frames: allocation returns the lowest free frame. */
  ghost predicate Allowed(s: State, op: Op, r: Reply, n: nat)
    requires PAGE * n < TWO_64
  {
    match op
    case Alloc =>
      && r.Address?
      && (r.addr == INVALID_FRAME <==> s.free == {})
      && (r.addr != INVALID_FRAME ==> r.addr % PAGE == 0 && IsLowest(s.free, r.addr / PAGE))
    case Free(a) =>
      r == Verdict(a % PAGE == 0 && a != 0 && a < PAGE * n && a / PAGE !in s.free)
    case Reserve(base, length) =>
      r == Verdict(length != 0)
  }

  ghost function Apply(s: State, op: Op, r: Reply, n: nat): State
    requires PAGE * n < TWO_64
  {
    match op
    case Alloc =>
      if r.Address? && r.addr != INVALID_FRAME
      then var f := r.addr / PAGE; State(s.free - {f}, s.out + {f}, s.kept)
      else s
    case Free(a) =>
      if r.Verdict? && r.ok
      then var f := a / PAGE; State(s.free + {f}, s.out - {f}, s.kept - {f})
      else s
    case Reserve(base, length) =>
      if r.Verdict? && r.ok
      then var t := Reserved(base, length, n); State(s.free - t, s.out, s.kept + s.free * t)
      else s
  }

  ghost function After(s: State, ops: seq<Op>, rs: seq<Reply>, k: nat, n: nat): State
    requires k <= |ops| && k <= |rs| && PAGE * n < TWO_64
  {
    if k == 0 then s else Apply(After(s, ops, rs, k - 1, n), ops[k-1], rs[k-1], n)
  }

  ghost predicate AllowedAt(s: State, ops: seq<Op>, rs: seq<Reply>, i: nat, n: nat)
    requires i < |ops| && i < |rs| && PAGE * n < TWO_64
  {
    Allowed(After(s, ops, rs, i, n), ops[i], rs[i], n)
  }

  /** Every reply so far is the one the free frames at that point call for. */
  ghost predicate Refines(s: State, ops: seq<Op>, rs: seq<Reply>, n: nat)
    requires PAGE * n < TWO_64
  {
    |rs| <= |ops| && forall i :: 0 <= i < |rs| ==> AllowedAt(s, ops, rs, i, n)
  }

  lemma {:induction false} AfterPrefix(s: State, ops: seq<Op>, rs: seq<Reply>, r: Reply, k: nat, n: nat)
    requires k <= |rs| <= |ops| && PAGE * n < TWO_64
    ensures After(s, ops, rs + [r], k, n) == After(s, ops, rs, k, n)
  {
    if k > 0 { AfterPrefix(s, ops, rs, r, k - 1, n); }
  }

  lemma RefinesMore(s: State, ops: seq<Op>, rs: seq<Reply>, r: Reply, n: nat)
    requires PAGE * n < TWO_64 && Refines(s, ops, rs, n) && |rs| < |ops|
    requires Allowed(After(s, ops, rs, |rs|, n), ops[|rs|], r, n)
    ensures Refines(s, ops, rs + [r], n)
    ensures After(s, ops, rs + [r], |rs| + 1, n) == Apply(After(s, ops, rs, |rs|, n), ops[|rs|], r, n)
  {
    forall i | 0 <= i < |rs + [r]| ensures AllowedAt(s, ops, rs + [r], i, n) {
      AfterPrefix(s, ops, rs, r, i, n);
      if i < |rs| { assert AllowedAt(s, ops, rs, i, n); }
    }
    AfterPrefix(s, ops, rs, r, |rs|, n);
  }

  method AllocOne(pmm: Pmm, ghost s: State) returns (r: Reply)
    requires pmm.Valid() && pmm.initialized && pmm.free == s.free
    modifies pmm`free, pmm`freeFrames, pmm`usedFrames, pmm`nextHint, pmm.bitmap
    ensures pmm.Valid()
    ensures Allowed(s, Alloc, r, pmm.frameCount) && pmm.free == Apply(s, Alloc, r, pmm.frameCount).free
  {
    var addr := pmm.AllocFrame();
    r := Address(addr);
  }

  method FreeOne(pmm: Pmm, a: u64, ghost s: State) returns (r: Reply)
    requires pmm.Valid() && pmm.initialized && pmm.free == s.free
    modifies pmm`free, pmm`freeFrames, pmm`usedFrames, pmm`nextHint, pmm.bitmap
    ensures pmm.Valid()
    ensures Allowed(s, Free(a), r, pmm.frameCount) && pmm.free == Apply(s, Free(a), r, pmm.frameCount).free
  {
    var ok := pmm.FreeFrame(a);
    r := Verdict(ok);
  }

  method ReserveOne(pmm: Pmm, base: u64, length: u64, ghost s: State) returns (r: Reply)
    requires pmm.Valid() && pmm.initialized && pmm.free == s.free
    modifies pmm`free, pmm`freeFrames, pmm`usedFrames, pmm`reservedFrames, pmm`reserved, pmm.bitmap
    ensures pmm.Valid()
    ensures Allowed(s, Reserve(base, length), r, pmm.frameCount)
    ensures pmm.free == Apply(s, Reserve(base, length), r, pmm.frameCount).free
  {
    var ok := pmm.ReserveRange(base, length);
    r := Verdict(ok);
  }

  method PerformOne(pmm: Pmm, op: Op, ghost s: State) returns (r: Reply)
    requires pmm.Valid() && pmm.initialized && pmm.free == s.free
    modifies pmm, pmm.bitmap
    ensures pmm.Valid() && pmm.initialized && pmm.frameCount == old(pmm.frameCount) && pmm.bitmap == old(pmm.bitmap)
    ensures Allowed(s, op, r, pmm.frameCount) && pmm.free == Apply(s, op, r, pmm.frameCount).free
  {
    match op
    case Alloc =>
      r := AllocOne(pmm, s);
    case Free(a) =>
      r := FreeOne(pmm, a, s);
    case Reserve(base, length) =>
      r := ReserveOne(pmm, base, length, s);
  }

  /** Every run on the bitmap, disciplined or not, follows the run on sets of frames. */
  method Perform(pmm: Pmm, ops: seq<Op>) returns (rs: seq<Reply>)
    requires pmm.Valid() && pmm.initialized
    modifies pmm, pmm.bitmap
    ensures pmm.Valid() && pmm.initialized && pmm.frameCount == old(pmm.frameCount)
    ensures |rs| == |ops| && Refines(State(old(pmm.free), {}, {}), ops, rs, pmm.frameCount)
    ensures pmm.free == After(State(old(pmm.free), {}, {}), ops, rs, |ops|, pmm.frameCount).free
  {
    rs := [];
    ghost var n := pmm.frameCount;
    ghost var s := State(pmm.free, {}, {});
    while |rs| < |ops|
      invariant pmm.Valid() && pmm.initialized && pmm.frameCount == n && pmm.bitmap == old(pmm.bitmap)
      invariant Refines(s, ops, rs, n)
      invariant pmm.free == After(s, ops, rs, |rs|, n).free
    {
      rs := PerformNext(pmm, ops, rs, s);
    }
  }

  /** One call more. */
  method PerformNext(pmm: Pmm, ops: seq<Op>, rs: seq<Reply>, ghost s: State) returns (rs': seq<Reply>)
    requires pmm.Valid() && pmm.initialized && |rs| < |ops| && Refines(s, ops, rs, pmm.frameCount)
    requires pmm.free == After(s, ops, rs, |rs|, pmm.frameCount).free
    modifies pmm, pmm.bitmap
    ensures pmm.Valid() && pmm.initialized && pmm.frameCount == old(pmm.frameCount) && pmm.bitmap == old(pmm.bitmap)
    ensures |rs'| == |rs| + 1 && Refines(s, ops, rs', pmm.frameCount)
    ensures pmm.free == After(s, ops, rs', |rs'|, pmm.frameCount).free
  {
    var r := PerformOne(pmm, ops[|rs|], After(s, ops, rs, |rs|, pmm.frameCount));
    RefinesMore(s, ops, rs, r, pmm.frameCount);
    rs' := rs + [r];
  }

  // ---------------------------------------------------------------- what every run keeps

  /** Callers give back only frames that were handed to them. */
  ghost predicate Disciplined(s: State, ops: seq<Op>, rs: seq<Reply>, n: nat)
    requires PAGE * n < TWO_64 && |ops| <= |rs|
  {
    forall i :: 0 <= i < |ops| && ops[i].Free? ==> OwnsAt(s, ops, rs, i, n)
  }

  ghost predicate OwnsAt(s: State, ops: seq<Op>, rs: seq<Reply>, i: nat, n: nat)
    requires PAGE * n < TWO_64 && i < |ops| && i < |rs|
  {
    ops[i].Free? ==> ops[i].addr / PAGE in After(s, ops, rs, i, n).out
  }

  /** No frame is in two of the three sets, and together they are the frames that were free at the start. */
  ghost predicate Partition(s: State, all: set<nat>) {
    s.free !! s.out && s.free !! s.kept && s.out !! s.kept && s.free + s.out + s.kept == all
  }

  lemma PartitionStep(s: State, op: Op, r: Reply, n: nat, all: set<nat>)
    requires PAGE * n < TWO_64 && Partition(s, all) && Allowed(s, op, r, n)
    requires op.Free? ==> op.addr / PAGE in s.out
    ensures Partition(Apply(s, op, r, n), all)
  {
  }

  /** In a disciplined run no frame is lost or made up, and allocation never returns a frame that is outstanding
      or was reserved while free. */
  lemma {:induction false} DisciplinedRun(all: set<nat>, ops: seq<Op>, rs: seq<Reply>, k: nat, n: nat)
    requires PAGE * n < TWO_64 && |rs| == |ops| && k <= |ops|
    requires Refines(State(all, {}, {}), ops, rs, n) && Disciplined(State(all, {}, {}), ops, rs, n)
    ensures Partition(After(State(all, {}, {}), ops, rs, k, n), all)
    ensures k < |ops| && ops[k].Alloc? ==>
              && rs[k].Address?
              && (rs[k].addr != INVALID_FRAME ==>
                    var s := After(State(all, {}, {}), ops, rs, k, n);
                    rs[k].addr / PAGE !in s.out && rs[k].addr / PAGE !in s.kept)
  {
    var s := State(all, {}, {});
    if k > 0 {
      DisciplinedRun(all, ops, rs, k - 1, n);
      assert AllowedAt(s, ops, rs, k - 1, n);
      if ops[k-1].Free? { assert OwnsAt(s, ops, rs, k - 1, n); }
      PartitionStep(After(s, ops, rs, k - 1, n), ops[k-1], rs[k-1], n, all);
    }
    if k < |ops| { assert AllowedAt(s, ops, rs, k, n); }
  }

  /** Frame 0 is never handed out, in any run at all. */
  lemma {:induction false} FrameZeroStaysUsed(s: State, ops: seq<Op>, rs: seq<Reply>, k: nat, n: nat)
    requires PAGE * n < TWO_64 && |rs| == |ops| && k <= |ops| && 0 !in s.free && Refines(s, ops, rs, n)
    ensures 0 !in After(s, ops, rs, k, n).free
    ensures k < |ops| && ops[k].Alloc? ==> rs[k].Address? && rs[k].addr != 0
  {
    if k > 0 {
      FrameZeroStaysUsed(s, ops, rs, k - 1, n);
      assert AllowedAt(s, ops, rs, k - 1, n);
    }
    if k < |ops| { assert AllowedAt(s, ops, rs, k, n); }
  }
}
