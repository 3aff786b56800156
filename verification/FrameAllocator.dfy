// The physical frame allocator: pmm.c as a class over a byte bitmap.

module FrameAllocator {
  import opened Words
  import opened FrameBitmap
  import opened FrameRanges

  const INVALID_FRAME: u64 := MAX_64
  const USABLE: int := 1

  /** A region of the boot memory map. */
  datatype Region = Region(base: u64, length: u64, kind: int)

  // ---------------------------------------------------------------- counting

  ghost function Below(n: nat): set<nat> { set i: nat | i < n && Within(i, (0, n)) }

  lemma {:induction false} BelowSize(n: nat)
    ensures |Below(n)| == n
  {
    if n > 0 {
      BelowSize(n - 1);
      assert Below(n) == Below(n - 1) + {n - 1};
    }
  }

  /** At most n frames are clear, and fewer when some frame is not. */
  lemma ClearSize(bitmap: seq<bv8>, n: nat, f: nat)
    requires n <= 8 * |bitmap|
    ensures |Clear(bitmap, n)| <= n
    ensures f < n && f !in Clear(bitmap, n) ==> |Clear(bitmap, n)| < n
  {
    BelowSize(n);
    SubsetSize(Clear(bitmap, n), Below(n));
    if f < n && f !in Clear(bitmap, n) { SubsetSize(Clear(bitmap, n) + {f}, Below(n)); }
  }

  /** Clearing a set bit adds one clear frame; setting a clear one removes one. */
  lemma FreeOneMore(bitmap: seq<bv8>, f: nat, n: nat, bytes: nat)
    requires f < n <= 8 * bytes && bytes <= |bitmap| && Test(bitmap, f)
    ensures Clear(ClearBit(bitmap, f), n) == Clear(bitmap, n) + {f}
    ensures |Clear(ClearBit(bitmap, f), n)| == |Clear(bitmap, n)| + 1 <= n
    ensures PaddingSet(bitmap, n, bytes) ==> PaddingSet(ClearBit(bitmap, f), n, bytes)
  {
    SetClear(bitmap, f, n, bytes);
    ClearSize(bitmap, n, f);
  }

  lemma FreeOneLess(bitmap: seq<bv8>, f: nat, n: nat, bytes: nat)
    requires f < n <= 8 * bytes && bytes <= |bitmap| && !Test(bitmap, f)
    ensures Clear(SetBit(bitmap, f), n) == Clear(bitmap, n) - {f}
    ensures |Clear(SetBit(bitmap, f), n)| == |Clear(bitmap, n)| - 1
    ensures PaddingSet(bitmap, n, bytes) ==> PaddingSet(SetBit(bitmap, f), n, bytes)
  {
    SetClear(bitmap, f, n, bytes);
  }

  /** The checks of mark_range_free and the addresses its loop runs over; start == stop when it does nothing. */
  method FreeBounds(base: u64, length: u64, maxPhys: u64, ghost n: nat) returns (start: u64, stop: u64)
    requires maxPhys == PAGE * n
    ensures var r := FreeInterval(base, length, n);
            start < stop <==> r.0 < r.1
    ensures start < stop ==> var r := FreeInterval(base, length, n);
                             start == PAGE * r.0 && stop == PAGE * r.1 && r.1 <= n
  {
    if length == 0 || MAX_64 - base < length {
      return 0, 0;
    }
    start := AlignUp(base);
    stop := AlignDown(base + length);
    if stop <= start {
      return 0, 0;
    }
    if start >= maxPhys {
      return 0, 0;
    }
    if stop > maxPhys {
      stop := maxPhys;
    }
  }

  /** The checks of mark_range_used and the addresses its loop runs over; start == stop when it does nothing. */
  method UsedBounds(base: u64, length: u64, maxPhys: u64, ghost n: nat) returns (start: u64, stop: u64)
    requires maxPhys == PAGE * n
    ensures var r := UsedInterval(base, length, n);
            start < stop <==> r.0 < r.1
    ensures start < stop ==> var r := UsedInterval(base, length, n);
                             start == PAGE * r.0 && stop == PAGE * r.1 && r.1 <= n
  {
    if length == 0 || MAX_64 - base < length {
      return 0, 0;
    }
    start := AlignDown(base);
    stop := AlignUp(base + length);
    if stop <= start {
      return 0, 0;
    }
    if start >= maxPhys {
      return 0, 0;
    }
    if stop > maxPhys {
      stop := maxPhys;
    }
  }

  // ---------------------------------------------------------------- the boot memory map

  /** Region i is usable and frees frame f. */
  ghost predicate FreedByOne(regions: seq<Region>, n: nat, f: nat, i: nat)
    requires PAGE * n < TWO_64
  {
    i < |regions| && regions[i].kind == USABLE && f in Freed(regions[i].base, regions[i].length, n)
  }

  /** Region i is not usable and reserves frame f. */
  ghost predicate ReservedByOne(regions: seq<Region>, n: nat, f: nat, i: nat)
    requires PAGE * n < TWO_64
  {
    i < |regions| && regions[i].kind != USABLE && f in Reserved(regions[i].base, regions[i].length, n)
  }

  /** One of the first k regions frees, or reserves, frame f. */
  ghost predicate FreedBy(regions: seq<Region>, k: nat, n: nat, f: nat)
    requires PAGE * n < TWO_64
  {
    exists i: nat :: i < k && FreedByOne(regions, n, f, i)
  }

  ghost predicate ReservedBy(regions: seq<Region>, k: nat, n: nat, f: nat)
    requires PAGE * n < TWO_64
  {
    exists i: nat :: i < k && ReservedByOne(regions, n, f, i)
  }

  /** Frame f is available: it is not frame 0, some usable region frees it, and no other region reserves it. */
  ghost predicate Available(regions: seq<Region>, n: nat, f: nat)
    requires PAGE * n < TWO_64
  {
    f != 0 && FreedBy(regions, |regions|, n, f) && !ReservedBy(regions, |regions|, n, f)
  }

  lemma FreedByNext(regions: seq<Region>, k: nat, n: nat, f: nat)
    requires PAGE * n < TWO_64
    ensures FreedBy(regions, k + 1, n, f) <==> FreedBy(regions, k, n, f) || FreedByOne(regions, n, f, k)
  {
    if FreedBy(regions, k, n, f) {
      var i: nat :| i < k && FreedByOne(regions, n, f, i);
      assert i < k + 1;
    }
  }

  lemma ReservedByNext(regions: seq<Region>, k: nat, n: nat, f: nat)
    requires PAGE * n < TWO_64
    ensures ReservedBy(regions, k + 1, n, f) <==> ReservedBy(regions, k, n, f) || ReservedByOne(regions, n, f, k)
  {
    if ReservedBy(regions, k, n, f) {
      var i: nat :| i < k && ReservedByOne(regions, n, f, i);
      assert i < k + 1;
    }
  }

  /** The free frames after the first k regions have been gone through for usable memory. */
  ghost predicate FreeSoFar(regions: seq<Region>, k: nat, n: nat, free: set<nat>)
    requires PAGE * n < TWO_64
  {
    forall f: nat {:trigger f in free} :: f in free <==> FreedBy(regions, k, n, f)
  }

  /** The free frames after the first k regions have also been gone through for reserved memory. */
  ghost predicate KeptSoFar(regions: seq<Region>, k: nat, n: nat, all: set<nat>, free: set<nat>)
    requires PAGE * n < TWO_64
  {
    forall f: nat {:trigger f in free} :: f in free <==> f in all && !ReservedBy(regions, k, n, f)
  }

  lemma FreeMore(regions: seq<Region>, k: nat, n: nat, free: set<nat>, free': set<nat>)
    requires PAGE * n < TWO_64 && k < |regions| && FreeSoFar(regions, k, n, free)
    requires free' == if regions[k].kind == USABLE then free + Freed(regions[k].base, regions[k].length, n) else free
    ensures FreeSoFar(regions, k + 1, n, free')
  {
    forall f: nat ensures f in free' <==> FreedBy(regions, k + 1, n, f) {
      FreedByNext(regions, k, n, f);
      assert f in free <==> FreedBy(regions, k, n, f);
    }
  }

  lemma KeepLess(regions: seq<Region>, k: nat, n: nat, all: set<nat>, free: set<nat>, free': set<nat>)
    requires PAGE * n < TWO_64 && k < |regions| && KeptSoFar(regions, k, n, all, free)
    requires free' == if regions[k].kind != USABLE then free - Reserved(regions[k].base, regions[k].length, n) else free
    ensures KeptSoFar(regions, k + 1, n, all, free')
  {
    forall f: nat ensures f in free' <==> f in all && !ReservedBy(regions, k + 1, n, f) {
      ReservedByNext(regions, k, n, f);
      assert f in free <==> f in all && !ReservedBy(regions, k, n, f);
    }
  }

  lemma AvailableExactly(regions: seq<Region>, n: nat, freed: set<nat>, free: set<nat>)
    requires PAGE * n < TWO_64 && 0 < n
    requires FreeSoFar(regions, |regions|, n, freed)
    requires KeptSoFar(regions, |regions|, n, freed - Reserved(0, PAGE, n), free)
    ensures forall f: nat :: f in free <==> Available(regions, n, f)
  {
    forall f: nat ensures f in free <==> Available(regions, n, f) {
      assert f in freed <==> FreedBy(regions, |regions|, n, f);
      ReservedExactly(0, PAGE, n, f);
    }
  }

  /** The frames that some usable region frees and that are not available: frame 0 and those reserved. */
  ghost function Withheld(regions: seq<Region>, n: nat): set<nat>
    requires PAGE * n < TWO_64
  {
    set f: nat | f < n && FreedBy(regions, |regions|, n, f) && !Available(regions, n, f)
  }

  lemma WithheldSize(regions: seq<Region>, n: nat, freed: set<nat>, free: set<nat>)
    requires PAGE * n < TWO_64 && FreeSoFar(regions, |regions|, n, freed) && forall f :: f in freed ==> f < n
    requires forall f: nat :: f in free <==> Available(regions, n, f)
    ensures |Withheld(regions, n)| == |freed| - |free|
  {
    assert Withheld(regions, n) == freed - free;
    assert free <= freed;
    assert freed == free + (freed - free);
  }

  /** f is the first frame of `free` at or above the hint; if there is none there, the lowest. */
  ghost predicate FirstFrom(free: set<nat>, hint: nat, f: nat) {
    && f in free
    && (forall g :: g in free && g >= hint ==> hint <= f <= g)
    && ((forall g :: g in free ==> g < hint) ==> forall g :: g in free ==> f <= g)
  }

  /** Every byte of the bitmap set. */
  method FillOnes(storage: array<bv8>, bytes: nat)
    requires bytes <= storage.Length
    modifies storage
    ensures forall j :: 0 <= j < bytes ==> storage[j] == 0xff
  {
    var i := 0;
    while i < bytes
      invariant 0 <= i <= bytes
      invariant forall j :: 0 <= j < i ==> storage[j] == 0xff
    {
      storage[i] := 0xff;
      i := i + 1;
    }
  }

  class Pmm {
    var bitmap: array<bv8>
    var bitmapBytes: nat
    var maxPhys: u64
    var frameCount: u64
    var freeFrames: u64
    var usedFrames: u64
    var reservedFrames: u64
    var nextHint: u64
    var initialized: bool
    ghost var free: set<nat>    // the free frames
    ghost var reserved: nat     // how many frames were ever reserved while free

    /** The bitmap covers the frames. */
    ghost predicate Shaped()
      reads `bitmap, `bitmapBytes, `maxPhys, `frameCount
    {
      && maxPhys == PAGE * frameCount
      && frameCount <= 8 * bitmapBytes < frameCount + 8 && bitmapBytes <= bitmap.Length
    }

    /** `free` holds the frames whose bit is clear, the counters count them, and padding bits are set. */
    ghost predicate Consistent()
      reads `bitmap, `bitmapBytes, `maxPhys, `frameCount, `free, `freeFrames, `usedFrames, `nextHint, bitmap
    {
      && Shaped()
      && free == Clear(bitmap[..], frameCount)
      && PaddingSet(bitmap[..], frameCount, bitmapBytes)
      && freeFrames == |free| && freeFrames + usedFrames == frameCount
      && nextHint <= frameCount
    }

    /** The counter of reserved frames shows their number, modulo 2^64. */
    ghost predicate Counted()
      reads `reservedFrames, `reserved
    {
      reservedFrames == Wrap(reserved)
    }

    /** Every frame below the hint is used. */
    ghost predicate HintOk()
      reads `free, `nextHint
    {
      forall f :: f in free ==> nextHint <= f
    }

    /** mark_frame_free */
    method MarkFrameFree(frame: nat)
      requires Consistent() && HintOk()
      modifies this`free, this`freeFrames, this`usedFrames, this`nextHint, bitmap
      ensures Consistent() && HintOk()
      ensures free == old(free) + if frame < frameCount then {frame} else {}
    {
      if frame >= frameCount {
        return;
      }
      if Test(bitmap[..], frame) {
        FreeUsed(frame);
        if frame < nextHint {
          nextHint := frame;
        }
      }
    }

    /** Clear the bit of a used frame and count it. */
    method FreeUsed(frame: nat)
      requires Consistent() && frame < frameCount && Test(bitmap[..], frame)
      modifies this`free, this`freeFrames, this`usedFrames, bitmap
      ensures Consistent() && free == old(free) + {frame}
    {
      FreeOneMore(bitmap[..], frame, frameCount, bitmapBytes);
      BitmapClear(bitmap, frame);
      free := free + {frame};
      freeFrames := freeFrames + 1;
      if usedFrames > 0 {
        usedFrames := usedFrames - 1;
      }
    }

    /** mark_frame_used */
    method MarkFrameUsed(frame: nat)
      requires Consistent()
      modifies this`free, this`freeFrames, this`usedFrames, bitmap
      ensures Consistent()
      ensures free == old(free) - {frame}
      ensures freeFrames == old(freeFrames) - if frame in old(free) then 1 else 0
    {
      if frame >= frameCount {
        return;
      }
      if !Test(bitmap[..], frame) {
        FreeOneLess(bitmap[..], frame, frameCount, bitmapBytes);
        BitmapSet(bitmap, frame);
        free := free - {frame};
        if freeFrames > 0 {
          freeFrames := freeFrames - 1;
        }
        usedFrames := usedFrames + 1;
      }
    }

    /** The loop of mark_range_free, from frame lo to frame hi. */
    method FreeFrames(start: u64, stop: u64, ghost lo: nat, ghost hi: nat)
      requires Consistent() && HintOk() && start == PAGE * lo && stop == PAGE * hi && lo <= hi <= frameCount
      modifies this`free, this`freeFrames, this`usedFrames, this`nextHint, bitmap
      ensures Consistent() && HintOk()
      ensures free == old(free) + Interval((lo, hi))
    {
      var addr := start;
      ghost var f := lo;
      while addr < stop
        invariant lo <= f <= hi && addr == PAGE * f
        invariant Consistent() && HintOk()
        invariant forall g: nat :: g in free <==> g in old(free) || Within(g, (lo, f))
      {
        assert addr / PAGE == f;
        MarkFrameFree(addr / PAGE);
        addr := addr + PAGE;
        f := f + 1;
      }
    }

    /** mark_range_free frees the frames of its interval. */
    method MarkRangeFree(base: u64, length: u64)
      requires Consistent() && HintOk()
      modifies this`free, this`freeFrames, this`usedFrames, this`nextHint, bitmap
      ensures Consistent() && HintOk()
      ensures free == old(free) + Freed(base, length, frameCount)
    {
      var start, stop := FreeBounds(base, length, maxPhys, frameCount);
      if start < stop {
        ghost var r := FreeInterval(base, length, frameCount);
        FreeFrames(start, stop, r.0, r.1);
      }
    }

    /** The loop of mark_range_used. */
    method UseFrames(start: u64, stop: u64, ghost lo: nat, ghost hi: nat)
      requires Consistent() && start == PAGE * lo && stop == PAGE * hi && lo <= hi <= frameCount
      modifies this`free, this`freeFrames, this`usedFrames, this`reservedFrames, this`reserved, bitmap
      ensures Consistent()
      ensures free == old(free) - Interval((lo, hi))
      ensures reserved == old(reserved) + old(freeFrames) - freeFrames && (old(Counted()) ==> Counted())
    {
      var addr := start;
      ghost var f := lo;
      while addr < stop
        invariant lo <= f <= hi && addr == PAGE * f
        invariant Consistent()
        invariant forall g: nat :: g in free <==> g in old(free) && !Within(g, (lo, f))
        invariant reserved == old(reserved) + old(freeFrames) - freeFrames
        invariant old(Counted()) ==> Counted()
      {
        assert addr / PAGE == f;
        UseFrame(addr / PAGE);
        addr := addr + PAGE;
        f := f + 1;
      }
    }

    /** One turn of that loop: mark the frame used, and count it if it was free. */
    method UseFrame(frame: nat)
      requires Consistent() && frame < frameCount
      modifies this`free, this`freeFrames, this`usedFrames, this`reservedFrames, this`reserved, bitmap
      ensures Consistent() && free == old(free) - {frame}
      ensures reserved == old(reserved) + old(freeFrames) - freeFrames && (old(Counted()) ==> Counted())
    {
      var wasFree := !Test(bitmap[..], frame);
      assert wasFree <==> frame in free;
      MarkFrameUsed(frame);
      if wasFree {
        CountReserved();
      }
    }

    method CountReserved()
      modifies this`reservedFrames, this`reserved
      ensures reserved == old(reserved) + 1 && (old(Counted()) ==> Counted())
    {
      BumpWraps(reserved);
      reservedFrames := Bump(reservedFrames);
      reserved := reserved + 1;
    }

    /** mark_range_used takes the frames of its interval out of the free ones, and counts those it took. */
    method MarkRangeUsed(base: u64, length: u64)
      requires Consistent()
      modifies this`free, this`freeFrames, this`usedFrames, this`reservedFrames, this`reserved, bitmap
      ensures Consistent()
      ensures free == old(free) - Reserved(base, length, frameCount)
      ensures reserved == old(reserved) + old(freeFrames) - freeFrames && (old(Counted()) ==> Counted())
    {
      var start, stop := UsedBounds(base, length, maxPhys, frameCount);
      if start < stop {
        ghost var r := UsedInterval(base, length, frameCount);
        UseFrames(start, stop, r.0, r.1);
      }
    }

    // -------------------------------------------------------------- initialisation

    /** A state in order; once initialised, frame 0 is not free. */
    ghost predicate Valid()
      reads this, bitmap
    {
      Consistent() && HintOk() && (initialized ==> 0 !in free)
    }

    /** pmm_zero_state */
    constructor ()
      ensures Valid() && !initialized && fresh(bitmap)
    {
      bitmap := new bv8[0];
      bitmapBytes, maxPhys, frameCount, freeFrames, usedFrames, reservedFrames, nextHint := 0, 0, 0, 0, 0, 0, 0;
      reserved := 0;
      initialized := false;
      free := {};
    }

    /** The state before the regions are read: every frame used. */
    method Reset(storage: array<bv8>, bytes: nat, maxPhysBytes: u64, frames: u64)
      requires maxPhysBytes == PAGE * frames && frames <= 8 * bytes < frames + 8 && bytes <= storage.Length
      modifies this, storage
      ensures Consistent() && HintOk() && free == {} && bitmap == storage && frameCount == frames
      ensures reserved == 0 && Counted()
    {
      FillOnes(storage, bytes);
      bitmap, bitmapBytes, maxPhys, frameCount := storage, bytes, maxPhysBytes, frames;
      freeFrames, usedFrames, reservedFrames, nextHint, reserved := 0, frames, 0, 0, 0;
      initialized := false;
      free := {};
      AllOnes(storage[..], frames, bytes);
    }

    method FreeUsable(regions: seq<Region>)
      requires Consistent() && HintOk() && free == {}
      modifies this`free, this`freeFrames, this`usedFrames, this`nextHint, bitmap
      ensures Consistent() && HintOk() && FreeSoFar(regions, |regions|, frameCount, free)
    {
      var i := 0;
      while i < |regions|
        invariant 0 <= i <= |regions|
        invariant Consistent() && HintOk() && FreeSoFar(regions, i, frameCount, free)
      {
        ghost var before := free;
        if regions[i].kind == USABLE {
          MarkRangeFree(regions[i].base, regions[i].length);
        }
        FreeMore(regions, i, frameCount, before, free);
        i := i + 1;
      }
    }

    method UseReserved(regions: seq<Region>)
      requires Consistent() && HintOk()
      modifies this`free, this`freeFrames, this`usedFrames, this`reservedFrames, this`reserved, bitmap
      ensures Consistent() && HintOk() && KeptSoFar(regions, |regions|, frameCount, old(free), free)
      ensures reserved == old(reserved) + old(freeFrames) - freeFrames && (old(Counted()) ==> Counted())
    {
      var i := 0;
      while i < |regions|
        invariant 0 <= i <= |regions|
        invariant Consistent() && HintOk() && KeptSoFar(regions, i, frameCount, old(free), free)
        invariant reserved == old(reserved) + old(freeFrames) - freeFrames
        invariant old(Counted()) ==> Counted()
      {
        ghost var before := free;
        if regions[i].kind != USABLE {
          MarkRangeUsed(regions[i].base, regions[i].length);
        }
        KeepLess(regions, i, frameCount, old(free), before, free);
        i := i + 1;
      }
    }

    /** The three passes of pmm_init_from_map: usable regions, frame 0, and the other regions. */
    method Populate(regions: seq<Region>)
      requires Consistent() && HintOk() && Counted() && free == {} && reserved == 0 && 0 < frameCount
      modifies this`free, this`freeFrames, this`usedFrames, this`nextHint, this`reservedFrames, this`reserved, bitmap
      ensures Consistent() && HintOk() && Counted()
      ensures forall f: nat :: f in free <==> Available(regions, frameCount, f)
      ensures reserved == |Withheld(regions, frameCount)|
    {
      FreeUsable(regions);
      ghost var freed := free;
      MarkRangeUsed(0, PAGE);
      UseReserved(regions);
      AvailableExactly(regions, frameCount, freed, free);
      WithheldSize(regions, frameCount, freed, free);
    }

    /** pmm_init_from_map: afterwards a frame is free exactly when the memory map makes it available. */
    method InitFromMap(regions: seq<Region>, storage: array<bv8>, maxPhysBytes: u64) returns (ok: bool)
      modifies this, storage
      ensures ok <==> |regions| > 0 && maxPhysBytes != 0 && maxPhysBytes % PAGE == 0
                      && (maxPhysBytes / PAGE + 7) / 8 <= storage.Length
      ensures ok ==> Valid() && Counted() && initialized && bitmap == storage && frameCount == maxPhysBytes / PAGE
      ensures ok ==> forall f: nat :: f in free <==> Available(regions, frameCount, f)
      ensures ok ==> reserved == |Withheld(regions, frameCount)|
      ensures !ok ==> unchanged(this) && unchanged(storage)
    {
      if |regions| == 0 {
        return false;
      }
      if maxPhysBytes == 0 || maxPhysBytes % PAGE != 0 {
        return false;
      }
      var frames := maxPhysBytes / PAGE;
      var bytes := (frames + 7) / 8;
      if storage.Length < bytes {
        return false;
      }
      Reset(storage, bytes, maxPhysBytes, frames);
      Populate(regions);
      initialized := true;
      return true;
    }

    // -------------------------------------------------------------- allocation and release

    /** The first free frame in [lo, hi), or hi. */
    method Scan(lo: u64, hi: u64) returns (f: u64)
      requires Consistent() && lo <= hi <= frameCount
      ensures lo <= f <= hi && (f < hi ==> f in free)
      ensures forall g :: g in free ==> !(lo <= g < f)
    {
      f := lo;
      while f < hi
        invariant lo <= f <= hi
        invariant forall g :: g in free ==> !(lo <= g < f)
      {
        if !Test(bitmap[..], f) {
          return;
        }
        f := f + 1;
      }
    }

    /** Taking the free frame f and moving the hint behind it. */
    method TakeFrame(f: u64) returns (addr: u64)
      requires Consistent() && f in free && f < frameCount
      modifies this`free, this`freeFrames, this`usedFrames, this`nextHint, bitmap
      ensures Consistent() && free == old(free) - {f} && nextHint == f + 1
      ensures addr == PAGE * f != INVALID_FRAME
    {
      MarkFrameUsed(f);
      nextHint := f + 1;
      return f * PAGE;
    }

    /** The two searches of pmm_alloc_frame. */
    method FindFrame() returns (f: u64)
      requires Consistent() && freeFrames > 0
      ensures f < frameCount && FirstFrom(free, nextHint, f)
    {
      ghost var some :| some in free;
      f := Scan(nextHint, frameCount);
      if f == frameCount {
        f := Scan(0, nextHint);
      }
    }

    /** pmm_alloc_frame: it fails exactly when no frame is free, and otherwise takes the first free frame at or
        above the hint, or else the lowest one. When every frame below the hint is used, as it always is between
        calls, that is the lowest free frame of all, and the search never wraps around. */
    method AllocFrame() returns (addr: u64)
      requires Consistent()
      modifies this`free, this`freeFrames, this`usedFrames, this`nextHint, bitmap
      ensures Consistent()
      ensures addr == INVALID_FRAME <==> !initialized || old(free) == {}
      ensures addr == INVALID_FRAME ==> free == old(free) && nextHint == old(nextHint)
      ensures addr != INVALID_FRAME ==>
                && addr % PAGE == 0 && addr < maxPhys && nextHint == addr / PAGE + 1
                && FirstFrom(old(free), old(nextHint), addr / PAGE) && free == old(free) - {addr / PAGE}
      ensures old(HintOk()) ==> HintOk()
      ensures old(HintOk()) && addr != INVALID_FRAME ==>
                addr / PAGE >= old(nextHint) && forall g :: g in old(free) ==> addr / PAGE <= g
    {
      if !initialized || freeFrames == 0 {
        assert |free| == 0 ==> free == {};
        return INVALID_FRAME;
      }
      var f := FindFrame();
      addr := TakeFrame(f);
      assert addr / PAGE == f;
    }

    /** pmm_free_frame: any used frame but frame 0 is accepted, whoever it was given to. */
    method FreeFrame(addr: u64) returns (ok: bool)
      requires Consistent() && HintOk()
      modifies this`free, this`freeFrames, this`usedFrames, this`nextHint, bitmap
      ensures Consistent() && HintOk()
      ensures ok <==> initialized && addr % PAGE == 0 && addr != 0 && addr < maxPhys && addr / PAGE !in old(free)
      ensures free == old(free) + if ok then {addr / PAGE} else {}
    {
      if !initialized {
        return false;
      }
      if addr % PAGE != 0 || addr == 0 || addr >= maxPhys {
        return false;
      }
      var frame := addr / PAGE;
      assert frame < frameCount;
      if !Test(bitmap[..], frame) {
        return false;
      }
      MarkFrameFree(frame);
      return true;
    }

    /** pmm_reserve_range */
    method ReserveRange(base: u64, length: u64) returns (ok: bool)
      requires Consistent() && HintOk()
      modifies this`free, this`freeFrames, this`usedFrames, this`reservedFrames, this`reserved, bitmap
      ensures Consistent() && HintOk()
      ensures ok <==> initialized && length != 0
      ensures free == if ok then old(free) - Reserved(base, length, frameCount) else old(free)
      ensures reserved == old(reserved) + old(freeFrames) - freeFrames && (old(Counted()) ==> Counted())
    {
      if !initialized || length == 0 {
        return false;
      }
      MarkRangeUsed(base, length);
      return true;
    }

    /** pmm_is_frame_free */
    method IsFrameFree(addr: u64) returns (yes: bool)
      requires Consistent()
      ensures yes <==> initialized && addr % PAGE == 0 && addr / PAGE in free
    {
      if !initialized {
        return false;
      }
      if addr % PAGE != 0 || addr >= maxPhys {
        return false;
      }
      assert addr / PAGE < frameCount;
      return !Test(bitmap[..], addr / PAGE);
    }
  }
}
