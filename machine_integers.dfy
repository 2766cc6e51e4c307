/**
 * C# machine integers: `int` and `long`, unchecked wrap-around, and the shift
 * operators of section 12.11 of ECMA-334 (the C# language standard), which
 * mask the shift count to 5 bits for `int` and to 6 bits for `long`.
 */
module MachineIntegers {

  const TWO_31: int := 0x8000_0000
  const TWO_32: int := 0x1_0000_0000
  const TWO_63: int := 0x8000_0000_0000_0000
  const TWO_64: int := 0x1_0000_0000_0000_0000

  newtype int32 = x: int | -0x8000_0000 <= x < 0x8000_0000
  newtype int64 = x: int | -0x8000_0000_0000_0000 <= x < 0x8000_0000_0000_0000

  function Pow2(k: nat): (r: nat)
    ensures r >= 1
  {
    if k == 0 then 1 else 2 * Pow2(k - 1)
  }

  /** Unchecked conversion of an integer to `int`: keep the low 32 bits, two's complement. */
  function WrapInt32(x: int): (r: int32)
    ensures (r as int - x) % TWO_32 == 0
    ensures -TWO_31 <= x < TWO_31 ==> r as int == x
  {
    var m := x % TWO_32;
    if m < TWO_31 then m as int32 else (m - TWO_32) as int32
  }

  /** Exponents add: 2^(a+b) = 2^a · 2^b. */
  lemma {:induction false} Pow2Add(a: nat, b: nat)
    ensures Pow2(a + b) == Pow2(a) * Pow2(b)
  {
    if a > 0 {
      Pow2Add(a - 1, b);
    }
  }

  // The powers of two the shift operators of this model use.

  lemma Pow2Of8()
    ensures Pow2(8) == 0x100
  {
  }

  lemma Pow2Of10()
    ensures Pow2(10) == 0x400
  {
  }

  lemma Pow2Of18()
    ensures Pow2(18) == 0x4_0000
  {
    Pow2Of10();
    Pow2Of8();
    Pow2Add(10, 8);
  }

  lemma Pow2Of20()
    ensures Pow2(20) == 0x10_0000
  {
    Pow2Of10();
    Pow2Add(10, 10);
  }

  lemma Pow2Of28()
    ensures Pow2(28) == 0x1000_0000
  {
    Pow2Of20();
    Pow2Of8();
    Pow2Add(20, 8);
  }

  lemma Pow2Of30()
    ensures Pow2(30) == 0x4000_0000
  {
    Pow2Of20();
    Pow2Of10();
    Pow2Add(20, 10);
  }

  lemma Pow2Of40()
    ensures Pow2(40) == 0x100_0000_0000
  {
    Pow2Of20();
    Pow2Add(20, 20);
  }

  lemma Pow2Of50()
    ensures Pow2(50) == 0x4_0000_0000_0000
  {
    Pow2Of40();
    Pow2Of10();
    Pow2Add(40, 10);
  }

  lemma Pow2Of60()
    ensures Pow2(60) == 0x1000_0000_0000_0000
  {
    Pow2Of30();
    Pow2Add(30, 30);
  }

  /** A product with a factor of at least 1 is at least the other, non-negative, factor. */
  lemma {:induction false} ProductAtLeast(q: nat, p: int)
    requires p >= 1
    ensures q * p >= q
  {
    if q > 0 {
      ProductAtLeast(q - 1, p);
      assert q * p == (q - 1) * p + p;
    }
  }

  /** Euclidean division by a positive divisor leaves a remainder in `[0, p)`. */
  lemma DivisionRemainder(x: int, p: int)
    requires p >= 1
    ensures (x / p) * p <= x < (x / p) * p + p
  {
    var q, m := x / p, x % p;
    assert x == q * p + m && 0 <= m < p;
  }

  /** Euclidean division by a positive divisor: the floor, no farther from 0 than the dividend. */
  lemma FloorDivision(x: int, p: int)
    requires p >= 1
    ensures (x / p) * p <= x < (x / p) * p + p
    ensures x >= 0 ==> 0 <= x / p <= x
    ensures x < 0 ==> x <= x / p < 0
  {
    var q := x / p;
    DivisionRemainder(x, p);
    if q >= 0 {
      ProductAtLeast(q, p);
    } else if q < x {
      ProductAtLeast(-(q + 1), p);
    }
  }

  /** `x << count` on a C# `int`: the count is taken modulo 32 and the product wraps. */
  function ShiftLeftInt32(x: int32, count: int): (r: int32)
    ensures (r as int - x as int * Pow2(count % 32)) % TWO_32 == 0
    ensures -TWO_31 <= x as int * Pow2(count % 32) < TWO_31 ==> r as int == x as int * Pow2(count % 32)
  {
    WrapInt32(x as int * Pow2(count % 32))
  }

  /** `x >> count` on a C# `long`: an arithmetic shift, i.e. a floor division by 2^(count mod 64). */
  function ShiftRightInt64(x: int64, count: int): (r: int64)
    ensures r as int * Pow2(count % 64) <= x as int < r as int * Pow2(count % 64) + Pow2(count % 64)
  {
    FloorDivision(x as int, Pow2(count % 64));
    (x as int / Pow2(count % 64)) as int64
  }
}
