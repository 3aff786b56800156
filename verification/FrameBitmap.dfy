// The byte bitmap of the frame allocator: one bit per frame, set when the frame is used.

module FrameBitmap {

  function Mask(k: nat): bv8
    requires k < 8
  {
    (1 as bv8) << k
  }

  predicate Bit(b: bv8, k: nat)
    requires k < 8
  {
    b & Mask(k) != 0
  }

  lemma SetMask(b: bv8, k: nat, j: nat)
    requires k < 8 && j < 8
    ensures Bit(b | Mask(k), j) <==> j == k || Bit(b, j)
  {
  }

  lemma ClearMask(b: bv8, k: nat, j: nat)
    requires k < 8 && j < 8
    ensures Bit(b & !Mask(k), j) <==> j != k && Bit(b, j)
  {
  }

  /** bitmap_test */
  predicate Test(bitmap: seq<bv8>, i: nat)
    requires i / 8 < |bitmap|
  {
    Bit(bitmap[i / 8], i % 8)
  }

  /** bitmap_set and bitmap_clear as values. */
  function SetBit(bitmap: seq<bv8>, i: nat): seq<bv8>
    requires i / 8 < |bitmap|
  {
    bitmap[i / 8 := bitmap[i / 8] | Mask(i % 8)]
  }

  function ClearBit(bitmap: seq<bv8>, i: nat): seq<bv8>
    requires i / 8 < |bitmap|
  {
    bitmap[i / 8 := bitmap[i / 8] & !Mask(i % 8)]
  }

  lemma SetTest(bitmap: seq<bv8>, i: nat, j: nat)
    requires i / 8 < |bitmap| && j / 8 < |bitmap|
    ensures Test(SetBit(bitmap, i), j) <==> j == i || Test(bitmap, j)
  {
    assert j == i <==> j / 8 == i / 8 && j % 8 == i % 8;
    SetMask(bitmap[i / 8], i % 8, j % 8);
  }

  lemma ClearTest(bitmap: seq<bv8>, i: nat, j: nat)
    requires i / 8 < |bitmap| && j / 8 < |bitmap|
    ensures Test(ClearBit(bitmap, i), j) <==> j != i && Test(bitmap, j)
  {
    assert j == i <==> j / 8 == i / 8 && j % 8 == i % 8;
    ClearMask(bitmap[i / 8], i % 8, j % 8);
  }

  /** Frame i has bit i % 8 of byte i / 8, counted from the lowest. */
  lemma BitOrder()
    ensures Mask(0) == 0x01 && Mask(1) == 0x02 && Mask(2) == 0x04 && Mask(3) == 0x08
    ensures Mask(4) == 0x10 && Mask(5) == 0x20 && Mask(6) == 0x40 && Mask(7) == 0x80
    ensures forall bitmap: seq<bv8>, i: nat | i < 8 * |bitmap| :: Test(bitmap, i) <==> bitmap[i / 8] & Mask(i % 8) != 0
  {
  }

  /** The frames below n whose bit is clear. */
  ghost function Clear(bitmap: seq<bv8>, n: nat): set<nat>
    requires n <= 8 * |bitmap|
  {
    set i: nat | i < n && !Test(bitmap, i)
  }

  /** The bits from n on are set in the first `bytes` bytes: the padding of the last byte of the bitmap. */
  ghost predicate PaddingSet(bitmap: seq<bv8>, n: nat, bytes: nat)
    requires bytes <= |bitmap|
  {
    forall i: nat :: n <= i < 8 * bytes ==> Test(bitmap, i)
  }

  /** Setting a bit takes its frame out of the clear ones, and clearing it puts it back in. */
  lemma SetClear(bitmap: seq<bv8>, i: nat, n: nat, bytes: nat)
    requires i < n <= 8 * bytes && bytes <= |bitmap|
    ensures Clear(SetBit(bitmap, i), n) == Clear(bitmap, n) - {i}
    ensures Clear(ClearBit(bitmap, i), n) == Clear(bitmap, n) + {i}
    ensures PaddingSet(bitmap, n, bytes) ==>
              PaddingSet(SetBit(bitmap, i), n, bytes) && PaddingSet(ClearBit(bitmap, i), n, bytes)
  {
    forall j: nat | j < 8 * bytes
      ensures Test(SetBit(bitmap, i), j) <==> j == i || Test(bitmap, j)
      ensures Test(ClearBit(bitmap, i), j) <==> j != i && Test(bitmap, j)
    {
      SetTest(bitmap, i, j);
      ClearTest(bitmap, i, j);
    }
  }

  /** A bitmap of 0xff bytes has every bit set. */
  lemma AllOnes(bitmap: seq<bv8>, n: nat, bytes: nat)
    requires n <= 8 * bytes && bytes <= |bitmap| && forall i :: 0 <= i < bytes ==> bitmap[i] == 0xff
    ensures Clear(bitmap, n) == {} && PaddingSet(bitmap, n, bytes)
  {
    forall i: nat | i < 8 * bytes ensures Test(bitmap, i) {
      OnesBit(i % 8);
    }
  }

  lemma OnesBit(k: nat)
    requires k < 8
    ensures Bit(0xff, k)
  {
  }

  method BitmapSet(bitmap: array<bv8>, i: nat)
    requires i / 8 < bitmap.Length
    modifies bitmap
    ensures bitmap[..] == SetBit(old(bitmap[..]), i)
  {
    bitmap[i / 8] := bitmap[i / 8] | Mask(i % 8);
  }

  method BitmapClear(bitmap: array<bv8>, i: nat)
    requires i / 8 < bitmap.Length
    modifies bitmap
    ensures bitmap[..] == ClearBit(old(bitmap[..]), i)
  {
    bitmap[i / 8] := bitmap[i / 8] & !Mask(i % 8);
  }
}
