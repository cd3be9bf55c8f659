/** The integer operations of C++ that Dafny does not have: division that truncates toward
    zero, and the wrap-around of 32-bit unsigned and signed integers. */
module CppArith {

  /** C++ `a / n`. */
  function TruncDiv(a: int, n: int): int
    requires n > 0
  {
    if a >= 0 then a / n else -((-a) / n)
  }

  /** C++ `a % n`: the remainder has the sign of `a`. */
  function TruncMod(a: int, n: int): int
    requires n > 0
  {
    a - TruncDiv(a, n) * n
  }

  /** `static_cast<unsigned>(x)`. */
  function U32(x: int): int {
    x % 0x1_0000_0000
  }

  /** `static_cast<int>(x)`, two's complement. */
  function I32(x: int): int {
    var u := U32(x);
    if u < 0x8000_0000 then u else u - 0x1_0000_0000
  }

  predicate FitsI32(x: int) {
    -0x8000_0000 <= x < 0x8000_0000
  }

  lemma NoWrap()
    ensures forall x :: 0 <= x < 0x1_0000_0000 ==> U32(x) == x
    ensures forall x :: FitsI32(x) ==> I32(x) == x
    ensures forall x :: FitsI32(x) ==> I32(U32(x)) == x
  {}

  /** A wrap inside a sum is absorbed by the wrap around it. */
  lemma WrapAbsorbed(x: int, c: int)
    ensures U32(c + U32(x)) == U32(c + x) && U32(c - U32(x)) == U32(c - x)
    ensures I32(c + U32(x)) == I32(c + x) && I32(c - U32(x)) == I32(c - x)
  {
    var q, n := x / 0x1_0000_0000, 0x1_0000_0000;
    ModUnique(c + U32(x), n, (c + x) / n - q, (c + x) % n);
    ModUnique(c - U32(x), n, (c - x) / n + q, (c - x) % n);
  }

  lemma TruncNonnegative()
    ensures forall a, n :: a >= 0 && n > 0 ==> TruncDiv(a, n) == a / n
    ensures forall a, n :: a >= 0 && n > 0 ==> TruncMod(a, n) == a % n
  {
    forall a, n | a >= 0 && n > 0 ensures TruncMod(a, n) == a % n {
      assert a == a / n * n + a % n;
    }
  }

  lemma MulAtLeast(d: int, n: int)
    requires n > 0
    ensures d >= 1 ==> d * n >= n
  {}

  /** The quotient is the only integer that brackets `a`. */
  lemma DivUnique(a: int, n: int, q: int)
    requires n > 0 && q * n <= a < q * n + n
    ensures a / n == q
  {
    var p := a / n;
    assert (q - p) * n == a % n - (a - q * n);
    MulAtLeast(q - p, n);
    MulAtLeast(p - q, n);
    assert (p - q) * n == -((q - p) * n);
  }

  lemma ModUnique(a: int, n: int, q: int, r: int)
    requires n > 0 && a == q * n + r && 0 <= r < n
    ensures a / n == q && a % n == r
  {
    DivUnique(a, n, q);
  }

  lemma DivSucc(a: int, n: int)
    requires n > 0
    ensures (a + 1) / n == a / n + (if (a + 1) % n == 0 then 1 else 0)
  {
    var q, r := a / n, a % n;
    if r + 1 == n {
      assert (q + 1) * n == q * n + n;
      DivUnique(a + 1, n, q + 1);
    } else {
      DivUnique(a + 1, n, q);
    }
  }

  /** The `(y >= 0 ? y : y-(n-1)) / n` idiom of the calendars is a floor division. */
  lemma EraIsFloor(a: int, n: int)
    requires n > 0
    ensures TruncDiv(if a >= 0 then a else a - (n - 1), n) == a / n
  {
    if a < 0 {
      var q := a / n;
      assert q * n <= a < q * n + n;
      assert (-q) * n == -(q * n);
      DivUnique(-(a - (n - 1)), n, -q);
    }
  }
}
