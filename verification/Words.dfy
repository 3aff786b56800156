// Fixed-width arithmetic shared by the four components.

module Words {

  const TWO_64: int := 0x1_0000_0000_0000_0000
  const MAX_64: int := TWO_64 - 1

  /** A 64-bit unsigned machine word: `uint64_t`, `size_t`, `uintptr_t` or a pointer. */
  type u64 = x: int | 0 <= x < TWO_64

  type byte = x: int | 0 <= x < 256

  /** The value an unsigned 64-bit computation leaves in its register. */
  function Wrap(x: int): (r: u64)
    ensures 0 <= x < TWO_64 ==> r == x
  {
    x % TWO_64
  }

  /** A 64-bit counter after ++. */
  function Bump(x: u64): u64 { if x == MAX_64 then 0 else x + 1 }

  lemma BumpWraps(n: nat)
    ensures Bump(Wrap(n)) == Wrap(n + 1)
  {
  }

  lemma Grow(n: int, d: int)
    requires n >= 1 && d > 0
    ensures n * d >= d
  {
  }

  lemma NonNegative(a: int, b: int)
    requires a >= 0 && b >= 0
    ensures a * b >= 0
  {
  }

  /** Quotient and remainder are unique. */
  lemma QuotientUnique(x: int, d: int, q: int, r: int)
    requires d > 0 && x == q * d + r && 0 <= r < d
    ensures x / d == q && x % d == r
  {
    var p, s := x / d, x % d;
    assert x == p * d + s;
    assert (q - p) * d == q * d - p * d && (p - q) * d == p * d - q * d;
    if q > p { Grow(q - p, d); }
    if p > q { Grow(p - q, d); }
  }

  lemma SubsetSize<T>(s: set<T>, t: set<T>)
    requires s <= t
    ensures |s| <= |t|
  {
    var rest := t - s;
    assert t == s + rest;
  }

  datatype Option<+T> = None | Some(value: T)
}
