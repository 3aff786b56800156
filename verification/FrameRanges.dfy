// Which frames a byte range stands for in the frame allocator: those wholly inside
// a usable range, those touched by a reserved one, and what the source computes.

module FrameRanges {
  import opened Words

  const PAGE: int := 4096

  /** align_down and align_up; the sum in align_up wraps. */
  function AlignDown(x: u64): u64 { x / PAGE * PAGE }

  function AlignUp(x: u64): u64 { Wrap(x + PAGE - 1) / PAGE * PAGE }

  lemma AlignUpExact(x: u64)
    ensures x <= TWO_64 - PAGE ==> x <= AlignUp(x) < x + PAGE && AlignUp(x) % PAGE == 0
    ensures x > TWO_64 - PAGE ==> AlignUp(x) == 0
  {
    if x > TWO_64 - PAGE {
      QuotientUnique(x + PAGE - 1, TWO_64, 1, x + PAGE - 1 - TWO_64);
    }
  }

  /** A frame lies wholly inside [base, base+length). */
  predicate Inside(f: int, base: int, length: int) { base <= PAGE * f && PAGE * (f + 1) <= base + length }

  /** A frame has a byte in [base, base+length). */
  predicate Touches(f: int, base: int, length: int) { length > 0 && PAGE * f < base + length && base < PAGE * (f + 1) }

  /** The frame that holds the byte at address a. */
  function FrameOf(a: int): int { a / PAGE }

  /** Byte by byte: a frame lies inside a range when the range has all its bytes, and is touched when it has one. */
  lemma BytesDecide(f: int, base: int, length: int)
    ensures Inside(f, base, length) <==> forall a :: FrameOf(a) == f ==> base <= a < base + length
    ensures Touches(f, base, length) <==> exists a :: FrameOf(a) == f && base <= a < base + length
  {
    var first, last := PAGE * f, PAGE * f + (PAGE - 1);
    assert FrameOf(first) == f && FrameOf(last) == f;
    assert forall a :: FrameOf(a) == f ==> first <= a <= last;
    if Touches(f, base, length) {
      var a := if base <= first then first else base;
      assert FrameOf(a) == f && base <= a < base + length;
    }
  }

  /** The frame interval [lo, hi) that mark_range_free visits when there are n frames: empty as lo == hi == 0. */
  function FreeInterval(base: u64, length: u64, n: nat): (r: (nat, nat))
    requires PAGE * n < TWO_64
  {
    if length == 0 || MAX_64 - base < length then (0, 0)
    else
      var start, stop := AlignUp(base), AlignDown(base + length);
      if stop <= start || start >= PAGE * n then (0, 0)
      else (start / PAGE, (if stop > PAGE * n then PAGE * n else stop) / PAGE)
  }

  /** The frame interval that mark_range_used visits. */
  function UsedInterval(base: u64, length: u64, n: nat): (r: (nat, nat))
    requires PAGE * n < TWO_64
  {
    if length == 0 || MAX_64 - base < length then (0, 0)
    else
      var start, stop := AlignDown(base), AlignUp(base + length);
      if stop <= start || start >= PAGE * n then (0, 0)
      else (start / PAGE, (if stop > PAGE * n then PAGE * n else stop) / PAGE)
  }

  predicate Within(f: nat, r: (nat, nat)) { r.0 <= f < r.1 }

  ghost function Interval(r: (nat, nat)): set<nat> { set f: nat | f < r.1 && Within(f, r) }

  /** The frames a usable range frees, and the frames a reserved range marks used. */
  ghost function Freed(base: u64, length: u64, n: nat): set<nat>
    requires PAGE * n < TWO_64
  {
    Interval(FreeInterval(base, length, n))
  }

  ghost function Reserved(base: u64, length: u64, n: nat): set<nat>
    requires PAGE * n < TWO_64
  {
    Interval(UsedInterval(base, length, n))
  }

  /** Exactly which frames are freed, for every input: those wholly inside the range, unless its sum overflows
      (none) or its start wraps in align_up (all). */
  lemma FreedExactly(base: u64, length: u64, n: nat, f: nat)
    requires PAGE * n < TWO_64
    ensures f in Freed(base, length, n) <==>
              && f < n && 0 < length && base + length < TWO_64
              && (Inside(f, base, length) || base > TWO_64 - PAGE)
  {
    AlignUpExact(base);
  }

  /** Exactly which frames are marked used: those the range touches, unless its sum overflows or its end wraps in
      align_up (none). */
  lemma ReservedExactly(base: u64, length: u64, n: nat, f: nat)
    requires PAGE * n < TWO_64
    ensures f in Reserved(base, length, n) <==>
              f < n && base + length <= TWO_64 - PAGE && Touches(f, base, length)
  {
    if base + length < TWO_64 { AlignUpExact(base + length); }
  }

  // ---------------------------------------------------------------- when that is what was meant

  /** A usable range frees the frames wholly inside it, and no others. */
  ghost predicate FreesInside(base: u64, length: u64, n: nat)
    requires PAGE * n < TWO_64
  {
    forall f: nat :: f in Freed(base, length, n) <==> f < n && length > 0 && Inside(f, base, length)
  }

  /** It does so exactly when the range is empty, or its end does not overflow and its start does not wrap, or
      it overflows above the last frame. */
  lemma FreesInsideIff(base: u64, length: u64, n: nat)
    requires 0 < n && PAGE * n < TWO_64
    ensures FreesInside(base, length, n) <==>
              || length == 0
              || (base + length < TWO_64 && base <= TWO_64 - PAGE)
              || (base + length >= TWO_64 && base > PAGE * (n - 1))
  {
    forall f: nat ensures f in Freed(base, length, n) <==>
                            && f < n && 0 < length && base + length < TWO_64
                            && (Inside(f, base, length) || base > TWO_64 - PAGE)
    {
      FreedExactly(base, length, n, f);
    }
    var last: nat := n - 1;
    if length > 0 && base + length >= TWO_64 && base <= PAGE * (n - 1) {
      assert Inside(last, base, length) && last !in Freed(base, length, n);
    } else if length > 0 && base + length < TWO_64 && base > TWO_64 - PAGE {
      assert last in Freed(base, length, n) && !Inside(last, base, length);
    }
  }

  /** A reserved range marks the frames it touches, and no others. */
  ghost predicate ReservesTouched(base: u64, length: u64, n: nat)
    requires PAGE * n < TWO_64
  {
    forall f: nat :: f in Reserved(base, length, n) <==> f < n && Touches(f, base, length)
  }

  /** It does so exactly when it is empty, or ends a page or more below 2^64, or starts above the last frame. */
  lemma ReservesTouchedIff(base: u64, length: u64, n: nat)
    requires 0 < n && PAGE * n < TWO_64
    ensures ReservesTouched(base, length, n) <==>
              length == 0 || base + length <= TWO_64 - PAGE || base >= PAGE * n
  {
    forall f: nat ensures f in Reserved(base, length, n) <==>
                            f < n && base + length <= TWO_64 - PAGE && Touches(f, base, length)
    {
      ReservedExactly(base, length, n, f);
    }
    var last: nat := n - 1;
    if length > 0 && base + length > TWO_64 - PAGE && base < PAGE * n {
      assert Touches(last, base, length) && last !in Reserved(base, length, n);
    }
  }

  /** Two inputs on which the source misses its aim: fifty usable bytes just below 2^64 free every frame, and a
      reserved range over the whole address space reserves none. */
  lemma RangesThatMissTheirAim()
    ensures Freed(TWO_64 - 100, 50, 3) == {0, 1, 2} && !FreesInside(TWO_64 - 100, 50, 3)
    ensures Reserved(0, MAX_64, 3) == {} && !ReservesTouched(0, MAX_64, 3)
  {
    var base := TWO_64 - 100;
    FreesInsideIff(base, 50, 3);
    ReservesTouchedIff(0, MAX_64, 3);
    forall f: nat ensures f in Freed(base, 50, 3) <==> f in {0, 1, 2} { FreedExactly(base, 50, 3, f); }
    forall f: nat ensures f !in Reserved(0, MAX_64, 3) { ReservedExactly(0, MAX_64, 3, f); }
  }
}
