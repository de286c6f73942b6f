/** Java's fixed-width integers: `long` (64-bit, two's complement, wrapping)
    and `int` (32-bit), with the two operations the daemon applies to them. */
module JavaLong {

  const MinLong: int := -0x8000_0000_0000_0000
  const MaxLong: int := 0x7FFF_FFFF_FFFF_FFFF

  type Long = x: int | -0x8000_0000_0000_0000 <= x <= 0x7FFF_FFFF_FFFF_FFFF
  type Int32 = x: int | -0x8000_0000 <= x <= 0x7FFF_FFFF

  /** Two's-complement truncation of an exact integer to 64 bits. */
  function Wrap(x: int): (r: Long)
    ensures (r - x) % 0x1_0000_0000_0000_0000 == 0
    ensures MinLong <= x <= MaxLong ==> r == x
  {
    var m := (x - MinLong) % 0x1_0000_0000_0000_0000;
    m + MinLong
  }

  /** `a - b` on two Java longs: the exact difference when it fits, and
      otherwise the difference wrapped modulo 2^64. */
  function Sub(a: Long, b: Long): (r: Long)
    ensures MinLong <= a - b <= MaxLong ==> r == a - b
    ensures (r - (a as int - b as int)) % 0x1_0000_0000_0000_0000 == 0
  {
    Wrap(a as int - b as int)
  }

  /** On overflow the difference is off by exactly 2^64: a difference above
      the greatest long comes out negative, one below the least positive. */
  lemma SubOverflow(a: Long, b: Long)
    ensures a - b > MaxLong ==> Sub(a, b) == a - b - 0x1_0000_0000_0000_0000 && Sub(a, b) < 0
    ensures a - b < MinLong ==> Sub(a, b) == a - b + 0x1_0000_0000_0000_0000 && Sub(a, b) >= 0
  {
    var d := a as int - b as int;
    var m := (d - MinLong) % 0x1_0000_0000_0000_0000;
    if d > MaxLong {
      assert d - MinLong - 0x1_0000_0000_0000_0000 == d - 0x1_0000_0000_0000_0000 - MinLong;
      assert 0 <= d - MinLong - 0x1_0000_0000_0000_0000 < 0x1_0000_0000_0000_0000;
      assert m == d - MinLong - 0x1_0000_0000_0000_0000;
    } else if d < MinLong {
      assert 0 <= d - MinLong + 0x1_0000_0000_0000_0000 < 0x1_0000_0000_0000_0000;
      assert m == d - MinLong + 0x1_0000_0000_0000_0000;
    }
  }

  /** `Math.abs(long)`: negation wraps, so the absolute value of the least
      long is that same negative value. */
  function Abs(a: Long): (r: Long)
    ensures a != MinLong ==> r >= 0 && (r == a || r == -a)
    ensures a == MinLong ==> r == MinLong
  {
    if a < 0 then Wrap(-(a as int)) else a
  }
}
