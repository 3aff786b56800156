// Bytes of the word memory: storing one byte, and kmem_memset.

module HeapBytes {
  import opened Words
  import opened HeapMemory

  // ---------------------------------------------------------------- bytes of a word

  /** Byte r of a little-endian number. */
  function ByteOf(x: nat, r: nat): (b: byte) { if r == 0 then x % 256 else ByteOf(x / 256, r - 1) }

  /** The number with byte r replaced. */
  function SetByte(x: nat, r: nat, value: byte): (y: nat) {
    if r == 0 then x / 256 * 256 + value else SetByte(x / 256, r - 1, value) * 256 + x % 256
  }

  /** Storing byte r changes byte r and no other. */
  lemma {:induction false} SetByteAt(x: nat, r: nat, value: byte, j: nat)
    ensures ByteOf(SetByte(x, r, value), j) == if j == r then value else ByteOf(x, j)
  {
    var y := SetByte(x, r, value);
    if r == 0 {
      assert y / 256 == x / 256 && y % 256 == value;
    } else {
      assert y / 256 == SetByte(x / 256, r - 1, value) && y % 256 == x % 256;
      if j > 0 { SetByteAt(x / 256, r - 1, value, j - 1); }
    }
  }

  /** What n bytes can hold. */
  function Capacity(n: nat): (c: nat) { if n == 0 then 1 else 256 * Capacity(n - 1) }

  lemma {:induction false} SetByteFits(x: nat, r: nat, value: byte, n: nat)
    requires r < n && x < Capacity(n)
    ensures SetByte(x, r, value) < Capacity(n)
  {
    var c := Capacity(n - 1);
    LeadingPart(x, c);
    if r == 0 {
      OneMoreByte(x / 256, value, c);
    } else {
      SetByteFits(x / 256, r - 1, value, n - 1);
      OneMoreByte(SetByte(x / 256, r - 1, value), x % 256, c);
    }
  }

  lemma LeadingPart(x: nat, c: nat)
    requires x < 256 * c
    ensures x / 256 < c
  {
  }

  lemma OneMoreByte(x: nat, b: byte, c: nat)
    requires x < c
    ensures x * 256 + b < 256 * c
  {
  }

  lemma EightBytes()
    ensures Capacity(8) == TWO_64
  {
    assert Capacity(2) == 65536;
    assert Capacity(4) == 65536 * 65536;
    assert Capacity(6) == 65536 * Capacity(4);
    assert Capacity(8) == 65536 * Capacity(6);
  }

  // ---------------------------------------------------------------- bytes of memory

  /** The address of the word that holds the byte at address p. */
  function WordOf(p: int): int { p - p % 8 }

  /** The byte at address p. */
  function ByteAt(m: Memory, p: int): byte
    requires WordOf(p) in m
  {
    ByteOf(m[WordOf(p)], p % 8)
  }

  /** Memory after one byte is stored. */
  function StoreByte(m: Memory, p: int, value: byte): (r: Memory)
    requires WordOf(p) in m
    ensures r.Keys == m.Keys && forall a | a in m :: a == WordOf(p) || r[a] == m[a]
  {
    EightBytes();
    SetByteFits(m[WordOf(p)], p % 8, value, 8);
    m[WordOf(p) := SetByte(m[WordOf(p)], p % 8, value)]
  }

  /** A byte store changes the byte at its address and no other. */
  lemma StoreByteAt(m: Memory, p: int, value: byte, q: int)
    requires WordOf(p) in m && WordOf(q) in m
    ensures ByteAt(StoreByte(m, p, value), q) == if q == p then value else ByteAt(m, q)
  {
    if WordOf(q) == WordOf(p) { SetByteAt(m[WordOf(p)], p % 8, value, q % 8); }
  }

  // ---------------------------------------------------------------- kmem_memset

  /** The n bytes from dst are in memory. */
  ghost predicate BytesPresent(m: Memory, dst: int, n: int) {
    forall p {:trigger WordOf(p)} :: dst <= p < dst + n ==> WordOf(p) in m
  }

  /** The n bytes from dst are zero. */
  ghost predicate ZeroBytes(m: Memory, dst: int, n: int) {
    forall p {:trigger WordOf(p)} :: dst <= p < dst + n ==> WordOf(p) in m && ByteAt(m, p) == 0
  }

  /** r is m with every byte of [dst, hi) set to value. */
  ghost predicate Filled(m: Memory, r: Memory, dst: int, hi: int, value: byte) {
    && r.Keys == m.Keys
    && (forall p {:trigger WordOf(p)} :: WordOf(p) in m ==>
          ByteAt(r, p) == if dst <= p < hi then value else ByteAt(m, p))
    && (forall a | a in m :: WordOf(dst) <= a < hi || r[a] == m[a])
  }

  lemma FilledMore(m: Memory, r: Memory, dst: int, p: int, value: byte)
    requires Filled(m, r, dst, p, value) && dst <= p && WordOf(p) in m
    ensures Filled(m, StoreByte(r, p, value), dst, p + 1, value)
  {
    var r' := StoreByte(r, p, value);
    forall q {:trigger WordOf(q)} | WordOf(q) in m
      ensures ByteAt(r', q) == if dst <= q < p + 1 then value else ByteAt(m, q)
    {
      StoreByteAt(r, p, value, q);
    }
  }

  /** kmem_memset, byte by byte. */
  method MemSet(m: Memory, dst: u64, value: byte, bytes: u64) returns (r: Memory)
    requires BytesPresent(m, dst, bytes)
    ensures Filled(m, r, dst, dst + bytes, value)
  {
    r := m;
    var p: int, left: int := dst, bytes;
    while left > 0
      invariant 0 <= left && p + left == dst + bytes
      invariant Filled(m, r, dst, p, value)
    {
      r := SetOne(m, r, dst, p, bytes, value);
      p, left := p + 1, left - 1;
    }
  }

  /** One turn of the loop. */
  method SetOne(ghost m: Memory, r: Memory, ghost dst: int, p: int, ghost bytes: int, value: byte) returns (r': Memory)
    requires BytesPresent(m, dst, bytes) && dst <= p < dst + bytes && Filled(m, r, dst, p, value)
    ensures Filled(m, r', dst, p + 1, value)
  {
    assert WordOf(p) in m;
    r' := StoreByte(r, p, value);
    FilledMore(m, r, dst, p, value);
  }
}
