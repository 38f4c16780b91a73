// The int64_t arithmetic of the kernel's two interpreters.
//
// C leaves signed overflow undefined; here it wraps around (two's complement).  Division and
// remainder truncate toward zero (section 6.5.5 of ISO/IEC 9899), unlike Dafny's own operators.
module Int64 {
  const TWO_63: int := 0x8000_0000_0000_0000
  const TWO_64: int := 0x1_0000_0000_0000_0000

  type int64 = x: int | -TWO_63 <= x < TWO_63

  // How far x lies outside the range of int64_t.
  function Excess(x: int): nat {
    if x >= TWO_63 then x - TWO_63 + 1 else if x < -TWO_63 then -TWO_63 - x else 0
  }

  function Wrap(x: int): (r: int64)
    ensures -TWO_63 <= x < TWO_63 ==> r == x
    decreases Excess(x)
  {
    if x >= TWO_63 then Wrap(x - TWO_64) else if x < -TWO_63 then Wrap(x + TWO_64) else x
  }

  function TruncDiv(a: int, b: int): int
    requires b != 0
    decreases a < 0, b < 0
  {
    if a < 0 then -TruncDiv(-a, b) else if b < 0 then -TruncDiv(a, -b) else a / b
  }

  function TruncMod(a: int, b: int): int
    requires b != 0
    decreases a < 0, b < 0
  {
    if a < 0 then -TruncMod(-a, b) else if b < 0 then TruncMod(a, -b) else a % b
  }

  function Abs(x: int): nat { if x < 0 then -x else x }

  // The two operators fit together as section 6.5.5 of ISO/IEC 9899 demands, and the
  // remainder takes the sign of the dividend.
  lemma {:induction false} TruncLaw(a: int, b: int)
    requires b != 0
    ensures TruncDiv(a, b) * b + TruncMod(a, b) == a
    ensures Abs(TruncMod(a, b)) < Abs(b)
    ensures TruncMod(a, b) == 0 || (TruncMod(a, b) < 0) == (a < 0)
    decreases a < 0, b < 0
  {
    if a < 0 {
      TruncLaw(-a, b);
      Product(TruncDiv(-a, b), b);
    } else if b < 0 {
      TruncLaw(a, -b);
      Product(TruncDiv(a, -b), b);
    }
  }

  lemma Product(q: int, b: int)
    ensures (-q) * b == -(q * b) == q * (-b)
  {
  }

  // Wrapping may be postponed to the end of a chain of digits.
  lemma WrapDigit(a: int, d: int)
    ensures Wrap(Wrap(a) * 10 + d) == Wrap(a * 10 + d)
  {
    var k := WrapIsShift(a);
    WrapShift(a * 10 + d, k * 10);
  }

  lemma {:induction false} WrapIsShift(a: int) returns (k: int)
    ensures Wrap(a) == a + k * TWO_64
    decreases Excess(a)
  {
    if a >= TWO_63 {
      k := WrapIsShift(a - TWO_64);
      k := k - 1;
    } else if a < -TWO_63 {
      k := WrapIsShift(a + TWO_64);
      k := k + 1;
    } else {
      k := 0;
    }
  }

  // Wrap depends on its argument modulo 2^64 only.
  lemma {:induction false} WrapShift(x: int, k: int)
    ensures Wrap(x + k * TWO_64) == Wrap(x)
    decreases Abs(k)
  {
    if k > 0 {
      WrapShift(x, k - 1);
      WrapStep(x + (k - 1) * TWO_64);
    } else if k < 0 {
      WrapShift(x, k + 1);
      WrapStep(x + k * TWO_64);
    }
  }

  lemma WrapStep(x: int)
    ensures Wrap(x + TWO_64) == Wrap(x)
  {
  }
}
