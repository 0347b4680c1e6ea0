/**
 * The C `int` arithmetic the evaluators and node payloads rely on: a 32-bit
 * two's-complement integer, wrap-around for results that leave its range, and
 * division that truncates toward zero (Dafny's own `/` is Euclidean).
 */
module CInt {

  const INT_MIN: int := -0x8000_0000
  const INT_MAX: int := 0x7fff_ffff
  const TWO_32: int := 0x1_0000_0000

  newtype Int32 = x: int | -0x8000_0000 <= x < 0x8000_0000

  /** The 32-bit two's-complement value congruent to `x`. */
  function Wrap32(x: int): (r: Int32)
    ensures (r as int - x) % TWO_32 == 0
    ensures INT_MIN <= x <= INT_MAX ==> r as int == x
  {
    var m := x % TWO_32;
    if m <= INT_MAX then m as Int32 else (m - TWO_32) as Int32
  }

  /** The four arithmetic operators of C `int`: results wrap around and division truncates. */
  function Arith(op: string, a: Int32, b: Int32): Int32
    requires op in {"+", "-", "*", "/"} && (op == "/" ==> b != 0)
  {
    if op == "+" then Wrap32(a as int + b as int)
    else if op == "-" then Wrap32(a as int - b as int)
    else if op == "*" then Wrap32(a as int * b as int)
    else Wrap32(TruncDiv(a as int, b as int))
  }

  function Abs(x: int): nat
  {
    if x < 0 then -x else x
  }

  /** C division: the quotient is truncated toward zero, so the remainder has the sign of the dividend. */
  function TruncDiv(a: int, b: int): (q: int)
    requires b != 0
    ensures Abs(a - q * b) < Abs(b)
    ensures a - q * b == 0 || (a - q * b < 0 <==> a < 0)
  {
    var q0 := Abs(a) / Abs(b);
    TruncDivSpec(a, b, q0);
    if (a < 0) != (b < 0) then -q0 else q0
  }

  lemma TruncDivSpec(a: int, b: int, q0: int)
    requires b != 0 && q0 == Abs(a) / Abs(b)
    ensures var q := if (a < 0) != (b < 0) then -q0 else q0;
      Abs(a - q * b) < Abs(b) && (a - q * b == 0 || (a - q * b < 0 <==> a < 0))
  {
    var A: int, B: int := Abs(a), Abs(b);
    var r0 := A % B;
    assert A == q0 * B + r0 && 0 <= r0 < B;
    var q := if (a < 0) != (b < 0) then -q0 else q0;
    MulSigns(q0, B);
    if a >= 0 {
      assert a == A;
      if b > 0 {
        assert q * b == q0 * B;
      } else {
        assert b == -B && q == -q0;
        assert q * b == q0 * B;
      }
      assert a - q * b == r0;
    } else {
      assert a == -A;
      if b > 0 {
        assert b == B && q == -q0;
        assert q * b == -(q0 * B);
      } else {
        assert b == -B && q == q0;
        assert q * b == -(q0 * B);
      }
      assert a - q * b == -r0;
    }
  }

  lemma MulSigns(x: int, y: int)
    ensures (-x) * y == -(x * y) && x * (-y) == -(x * y) && (-x) * (-y) == x * y
  {
  }

  function Factorial(n: nat): nat
  {
    if n == 0 then 1 else n * Factorial(n - 1)
  }

  /** Wrap32 depends only on the residue modulo 2^32. */
  lemma Wrap32Congruent(x: int, y: int)
    requires (x - y) % TWO_32 == 0
    ensures Wrap32(x) == Wrap32(y)
  {
    var k := (x - y) / TWO_32;
    assert x == y + k * TWO_32;
    ModShift(y, k);
  }

  lemma ModShift(y: int, k: int)
    ensures (y + k * TWO_32) % TWO_32 == y % TWO_32
  {
    var q, r := y / TWO_32, y % TWO_32;
    assert y == q * TWO_32 + r && 0 <= r < TWO_32;
    assert y + k * TWO_32 == (q + k) * TWO_32 + r;
  }

  /** Wrapping an intermediate factor does not change a wrapped product. */
  lemma Wrap32Mul(a: int, b: int)
    ensures Wrap32(a * (Wrap32(b) as int)) == Wrap32(a * b)
  {
    var w := Wrap32(b) as int;
    var k := (w - b) / TWO_32;
    assert w == b + k * TWO_32;
    assert a * w == a * b + (a * k) * TWO_32;
    assert (a * w - a * b) == (a * k) * TWO_32;
    assert ((a * k) * TWO_32) % TWO_32 == 0 by { ModShift(0, a * k); }
    Wrap32Congruent(a * w, a * b);
  }

  /** The factorials up to 12!, all of which fit in 32 bits. */
  lemma FactorialTable(n: nat)
    requires n <= 12
    ensures Factorial(n) <= 479001600 && Factorial(n) <= INT_MAX
  {
    assert Factorial(0) == 1;
    assert Factorial(1) == 1;
    assert Factorial(2) == 2;
    assert Factorial(3) == 6;
    assert Factorial(4) == 24;
    assert Factorial(5) == 120;
    assert Factorial(6) == 720;
    assert Factorial(7) == 5040;
    assert Factorial(8) == 40320;
    assert Factorial(9) == 362880;
    assert Factorial(10) == 3628800;
    assert Factorial(11) == 39916800;
    assert Factorial(12) == 479001600;
  }
}
