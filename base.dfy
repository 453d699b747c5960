/**
 * Rust integer semantics the generator relies on, written out explicitly
 * over Dafny's unbounded integers, and an optional-value type.
 */
module Base {

  /** A value of Rust's `u8`. */
  type byte = x: int | 0 <= x < 256

  /** A value of Rust's `i32`. */
  type i32 = x: int | -0x8000_0000 <= x < 0x8000_0000

  datatype Option<+T> = None | Some(value: T)

  const U32Modulus: nat := 0x1_0000_0000

  function Min(a: int, b: int): int { if a <= b then a else b }

  function Max(a: int, b: int): int { if a <= b then b else a }

  /**
   * Rust's `x as u32` for an `i32` value `x`: the same 32 bits read as an
   * unsigned number, so a negative value wraps to `x + 2^32`.
   */
  function I32AsU32(x: i32): (u: nat)
    ensures u < U32Modulus
    ensures x >= 0 ==> u == x
    ensures x < 0 ==> u == x + U32Modulus
  {
    x % U32Modulus
  }

  /**
   * Rust's `a / 2` on `i32`: division truncating toward zero, which differs
   * from Dafny's Euclidean `/` for negative odd `a`. The remainder is below
   * 2 in magnitude and, when not zero, has the sign of the dividend.
   */
  function TruncHalf(a: int): (q: int)
    ensures var r := a - 2 * q; -2 < r < 2 && (r != 0 ==> (r < 0 <==> a < 0))
    ensures a <= 0 ==> q <= 0
  {
    if a >= 0 then a / 2 else -((-a) / 2)
  }

  /** Multiplying by a natural number preserves order. */
  lemma {:induction false} MulMonotone(a: nat, b: nat, c: nat)
    requires a <= b
    ensures a * c <= b * c
  {
  }
}
