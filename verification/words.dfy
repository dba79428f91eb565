/**
 The machine integers of the x86-64 mixing routines, modelled on unbounded
 `int`: the value ranges of bytes, shorts and 32-bit registers, 32-bit
 two's-complement wrap-around, saturation, and the bit and byte operations
 the routines apply to registers.

 Bit operations are stated arithmetically. Dafny's `/` and `%` are Euclidean,
 so for a positive divisor `v / 256` is the arithmetic shift `sar $8` and
 `v % 2` is bit 0 of the two's-complement representation of `v`, for negative
 `v` as well.
 */
module Words {

  const TWO_32: int := 0x1_0000_0000

  /** The range of a signed 24-bit sample, the resolution of the 24- and
      32-bit formats. */
  const SAMPLE_MIN: int := -0x80_0000
  const SAMPLE_MAX: int := 0x7f_ffff

  type Byte = x: int | 0 <= x < 0x100
  type Int16 = x: int | -0x8000 <= x < 0x8000
  type Int32 = x: int | -0x8000_0000 <= x < 0x8000_0000

  /** The 32-bit register value of `x`: what a 32-bit `add`, `sub` or `xadd`
      leaves behind: `x` itself when it fits in a register. */
  function Wrap32(x: int): (r: Int32)
    ensures -0x8000_0000 <= x < 0x8000_0000 ==> r == x
  {
    (x + 0x8000_0000) % TWO_32 - 0x8000_0000
  }

  /** The register value of `x` is congruent to `x` modulo 2^32. */
  lemma WrapCongruence(x: int)
    ensures (x - Wrap32(x)) % TWO_32 == 0
  {
  }

  /** Integers that agree modulo 2^32 wrap to the same register value. */
  lemma WrapCongruent(x: int, y: int)
    requires (x - y) % TWO_32 == 0
    ensures Wrap32(x) == Wrap32(y)
  {
    var k := (x - y) / TWO_32;
    assert x == y + k * TWO_32;
    assert (x + 0x8000_0000) % TWO_32 == (y + 0x8000_0000) % TWO_32;
  }

  /** Wrapping an intermediate result does not change a later wrapped sum. */
  lemma WrapAdd(a: int, b: int)
    ensures Wrap32(Wrap32(a) + b) == Wrap32(a + b)
  {
    WrapCongruence(a);
    var k := (a - Wrap32(a)) / TWO_32;
    assert a == Wrap32(a) + k * TWO_32;
    WrapCongruent(Wrap32(a) + b, a + b);
  }

  /** Subtracting a register value and adding it back restores the original. */
  lemma WrapSubAdd(s: Int32, o: Int32)
    ensures Wrap32(Wrap32(s - o) + o) == s
  {
    WrapAdd(s - o, o);
  }

  /** Adding a 32-bit amount leaves a register unchanged exactly when the
      amount is zero: a re-read of a word detects every non-zero fold. */
  lemma WrapAddUnchanged(v: Int32, d: Int32)
    ensures Wrap32(v + d) == v <==> d == 0
  {
  }

  /** Saturation of `v` to the range [lo, hi]: `v` itself when it is in range,
      otherwise the bound it lies beyond. */
  function Clamp(v: int, lo: int, hi: int): (r: int)
    requires lo <= hi
    ensures lo <= r <= hi
    ensures lo <= v <= hi ==> r == v
    ensures v < lo ==> r == lo
    ensures hi < v ==> r == hi
  {
    if v < lo then lo else if hi < v then hi else v
  }

  function Abs(x: int): nat { if x < 0 then -x else x }

  /** No value of the range is closer to `v` than its saturation. */
  lemma ClampNearest(v: int, lo: int, hi: int, w: int)
    requires lo <= w <= hi
    ensures Abs(v - Clamp(v, lo, hi)) <= Abs(v - w)
  {
  }

  /** Saturation preserves order. */
  lemma ClampMonotone(v: int, u: int, lo: int, hi: int)
    requires lo <= hi
    requires v <= u
    ensures Clamp(v, lo, hi) <= Clamp(u, lo, hi)
  {
  }

  /** `v | 1` on a two's-complement integer: bit 0 forced to 1. */
  function Or1(v: int): (r: int)
    ensures r % 2 == 1
    ensures r == v || r == v + 1
    ensures v % 2 == 1 ==> r == v
  {
    v - v % 2 + 1
  }

  /** A byte sign-extended into a register (`movsbl`). */
  function SignExtend8(b: Byte): (r: int)
    ensures -0x80 <= r < 0x80
    ensures (r - b) % 0x100 == 0
  {
    if b < 0x80 then b else b - 0x100
  }
}
