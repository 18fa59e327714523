/**
 * Rust's fixed-width integer types and the two's-complement conversions the
 * source relies on, in a build without overflow checks (Rust's release
 * profile). Every wrap-around is written out: `AsI128` is `u128 as i128`,
 * `AsU128` is `i128 as u128`, `NegI128` and `SubI128` are i128 negation and
 * subtraction, `AddU128` is u128 addition. The i128 operations and the two
 * casts are defined by cases on where the exact result falls, and proved
 * equal to the exact result reduced modulo 2^128 into the type's range
 * (`WrapI128`, `% TWO_128`); `AddU128` is the exact sum reduced modulo 2^128.
 */
module Integers {

  const TWO_64: int := 0x1_0000_0000_0000_0000
  const TWO_127: int := 0x8000_0000_0000_0000_0000_0000_0000_0000
  const TWO_128: int := 0x1_0000_0000_0000_0000_0000_0000_0000_0000

  type u8 = x: int | 0 <= x < 0x100
  type u32 = x: int | 0 <= x < 0x1_0000_0000
  type u64 = x: int | 0 <= x < TWO_64
  type u128 = x: int | 0 <= x < TWO_128
  type i128 = x: int | -TWO_127 <= x < TWO_127

  /** The i128 whose bit pattern is `x` modulo 2^128: the reference for the i128 operations. */
  function WrapI128(x: int): (r: i128)
    ensures (x - r) % TWO_128 == 0
    ensures -TWO_127 <= x < TWO_127 ==> r == x
  {
    var m := x % TWO_128;
    if m < TWO_127 then m else m - TWO_128
  }

  /** `u as i128`: values from 2^127 on are read as negative. */
  function AsI128(u: u128): (r: i128)
    ensures r >= 0 <==> u < TWO_127
  {
    if u < TWO_127 then u else u - TWO_128
  }

  /** `i as u128`: negative values wrap to `i + 2^128`. */
  function AsU128(i: i128): (r: u128)
    ensures r < TWO_127 <==> i >= 0
  {
    if i < 0 then i + TWO_128 else i
  }

  /** Unary `-x` on i128; `-i128::MIN` wraps to `i128::MIN`. */
  function NegI128(x: i128): (r: i128)
    ensures x != -TWO_127 ==> r == -x
  {
    if x == -TWO_127 then x else 0 - x
  }

  /** Binary `a - b` on i128: exact unless it leaves the i128 range, then 2^128 away. */
  function SubI128(a: i128, b: i128): (r: i128)
    ensures -TWO_127 <= a - b < TWO_127 ==> r == a - b
  {
    var d := a as int - b as int;
    if d >= TWO_127 then d - TWO_128 else if d < -TWO_127 then d + TWO_128 else d
  }

  /** Binary `a + b` on u128. */
  function AddU128(a: u128, b: u128): (r: u128)
    ensures a + b < TWO_128 ==> r == a + b
    ensures a + b >= TWO_128 ==> r == a + b - TWO_128
  {
    (a + b) % TWO_128
  }

  /** Each i128 operation is its exact result wrapped into the i128 range. */
  lemma I128Wraps(u: u128, x: i128, a: i128, b: i128)
    ensures AsI128(u) == WrapI128(u)
    ensures NegI128(x) == WrapI128(0 - x)
    ensures SubI128(a, b) == WrapI128(a - b)
  {
    if u >= TWO_127 {
      ModUnique(u, 0, u);
    }
    if x == -TWO_127 {
      ModUnique(0 - x, 0, 0 - x);
    }
    var d := a - b;
    if d >= TWO_127 {
      ModUnique(d, 0, d);
    } else if d < -TWO_127 {
      ModUnique(d, -1, d + TWO_128);
    }
  }

  /** The casts are mutually inverse, and `AsU128` is reduction modulo 2^128. */
  lemma CastsInverse(u: u128, i: i128)
    ensures AsU128(AsI128(u)) == u
    ensures AsI128(AsU128(i)) == i
    ensures AsU128(i) == i % TWO_128
  {
    if i < 0 {
      ModUnique(i, -1, i + TWO_128);
    } else {
      ModUnique(i, 0, i);
    }
  }

  /** `x % 2^128` determines `WrapI128(x)`. */
  lemma {:induction false} WrapI128Mod(x: int, y: int)
    requires (x - y) % TWO_128 == 0
    ensures WrapI128(x) == WrapI128(y)
  {
    ModCongruent(x, y);
  }

  lemma ModCongruent(x: int, y: int)
    requires (x - y) % TWO_128 == 0
    ensures x % TWO_128 == y % TWO_128
  {
    var k := (x - y) / TWO_128;
    assert x - y == TWO_128 * k;
    var q := y / TWO_128;
    assert y == TWO_128 * q + y % TWO_128;
    assert x == TWO_128 * (q + k) + y % TWO_128;
    ModUnique(x, q + k, y % TWO_128);
  }

  /** What reduction modulo 2^128 removes is a multiple of 2^128. */
  lemma ModRemainder(x: int)
    ensures (x - x % TWO_128) % TWO_128 == 0
  {
    ModUnique(x - x % TWO_128, x / TWO_128, 0);
  }

  lemma ModUnique(x: int, q: int, r: int)
    requires 0 <= r < TWO_128 && x == TWO_128 * q + r
    ensures x % TWO_128 == r
  {
  }
}
