/** The 32-bit integer corner of JavaScript number arithmetic: the
    `ToInt32` conversion applied by `x | 0` and by the shift operators,
    the left shift itself, and `Math.abs`. Numbers are modelled by
    mathematical integers; every wrap-around is written out here. */
module Int32 {

  const TWO_32: int := 0x1_0000_0000
  const MIN_INT32: int := -0x8000_0000
  const MAX_INT32: int := 0x7FFF_FFFF

  predicate IsInt32(x: int) {
    MIN_INT32 <= x <= MAX_INT32
  }

  /** ECMAScript ToInt32 on an integral number: the unique signed 32-bit
      value congruent to `x` modulo 2^32. This is what `x | 0` yields. */
  function ToInt32(x: int): (r: int)
    ensures IsInt32(r)
    ensures (x - r) % TWO_32 == 0
  {
    var m := x % TWO_32;
    if m > MAX_INT32 then m - TWO_32 else m
  }

  /** `x << 5`: the operand is converted with ToInt32 and the shifted
      bits above bit 31 are dropped. */
  function ShiftLeft5(x: int): (r: int)
    ensures IsInt32(r)
    ensures (32 * x - r) % TWO_32 == 0
  {
    var y := ToInt32(x);
    ScaleMultiple(x - y, 32);
    assert 32 * x - ToInt32(y * 32) == 32 * (x - y) + 0 + (y * 32 - ToInt32(y * 32));
    ModSumZero(32 * (x - y), 0, y * 32 - ToInt32(y * 32));
    ToInt32(y * 32)
  }

  /** A multiple of 2^32 stays one when scaled. */
  lemma ScaleMultiple(d: int, c: int)
    requires d % TWO_32 == 0
    ensures (c * d) % TWO_32 == 0
  {
    var q := d / TWO_32;
    assert d == q * TWO_32;
    assert c * d == (c * q) * TWO_32;
  }

  /** `Math.abs` on an integral number (no wrap-around: abs of -2^31 is 2^31). */
  function Abs(x: int): (r: nat)
    ensures r == x || r == -x
  {
    if x < 0 then -x else x
  }

  /** ToInt32 is the identity on values that already fit. */
  lemma ToInt32OfInt32(x: int)
    requires IsInt32(x)
    ensures ToInt32(x) == x
  {
  }

  /** Two integers congruent modulo 2^32 convert to the same value. */
  lemma ToInt32Congruent(a: int, b: int)
    requires (a - b) % TWO_32 == 0
    ensures ToInt32(a) == ToInt32(b)
  {
    var ra, rb := ToInt32(a), ToInt32(b);
    assert (ra - rb) % TWO_32 == 0 by {
      assert ra - rb == (a - b) - (a - ra) + (b - rb);
      ModSumZero(a - b, -(a - ra), b - rb);
    }
    assert -TWO_32 < ra - rb < TWO_32;
    ModZeroSmall(ra - rb);
  }

  lemma ModSumZero(x: int, y: int, z: int)
    requires x % TWO_32 == 0 && (-y) % TWO_32 == 0 && z % TWO_32 == 0
    ensures (x + y + z) % TWO_32 == 0
  {
    var qx, qy, qz := x / TWO_32, (-y) / TWO_32, z / TWO_32;
    assert x == qx * TWO_32;
    assert -y == qy * TWO_32;
    assert z == qz * TWO_32;
    assert x + y + z == (qx - qy + qz) * TWO_32;
  }

  lemma ModZeroSmall(d: int)
    requires d % TWO_32 == 0
    requires -TWO_32 < d < TWO_32
    ensures d == 0
  {
    var q := d / TWO_32;
    assert d == q * TWO_32;
    assert q == 0;
  }
}
