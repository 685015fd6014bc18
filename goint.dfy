/** Go's fixed-width integers and its integer division, which truncates toward zero. */
module GoInt {

  const MinInt64: int := -0x8000_0000_0000_0000
  const MaxInt64: int := 0x7fff_ffff_ffff_ffff
  const MaxUint64: int := 0xffff_ffff_ffff_ffff

  /** Go's `int64` (and `int` on a 64-bit platform). */
  type Int64 = x: int | MinInt64 <= x <= MaxInt64

  /** Go's `uint64`. */
  type Uint64 = x: int | 0 <= x <= MaxUint64

  /** Go's `a / d` for a positive divisor: the quotient rounded toward zero
      (Dafny's own `/` is Euclidean and rounds a negative dividend down). */
  function Quot(a: Int64, d: int): (q: Int64)
    requires d > 0
    ensures a >= 0 ==> 0 <= a - d * q < d
    ensures a < 0 ==> -d < a - d * q <= 0
  {
    var n: int := a as int;
    if n >= 0 then n / d else -((-n) / d)
  }

  /** Milliseconds since the epoch to whole seconds since the epoch, as `t/1000` does in Go:
      the sub-second part is dropped, toward zero for instants before the epoch too. */
  function MillisToSeconds(ms: Int64): (s: Int64)
    ensures ms >= 0 ==> 0 <= s && s * 1000 <= ms < s * 1000 + 1000
    ensures ms < 0 ==> s <= 0 && s * 1000 - 1000 < ms <= s * 1000
  {
    Quot(ms, 1000)
  }
}
