// What the operators compute, in integers: laws of the value of an expression.
module Values {
  import opened Options
  import opened Int64
  import opened Expressions

  const LOWEST: int := -0x8000_0000_0000_0000
  const HIGHEST: int := 0x7FFF_FFFF_FFFF_FFFF

  // r is n where n fits 64 bits, and otherwise what 64 bits keep of it.
  predicate KeptIn64(n: int, r: int) {
    && (LOWEST <= n <= HIGHEST ==> r == n)
    && (n - r) % 0x1_0000_0000_0000_0000 == 0
  }

  // The value of an expression that has one, as an integer.
  function ValueOf(e: Expr, vars: Store): int
    requires Eval(e, vars).Some?
  {
    Eval(e, vars).value
  }

  predicate HasValue(e: Expr, vars: Store, n: int) {
    Eval(e, vars).Some? && KeptIn64(n, ValueOf(e, vars))
  }

  lemma {:induction false} Keeps(e: Expr, vars: Store, n: int)
    requires Eval(e, vars) == Some(Wrap(n))
    ensures HasValue(e, vars, n)
  {
    WrapKeeps(n);
  }

  // Sum, difference, product and negative are those of the integers, as far as 64 bits hold them.
  lemma {:induction false} SumKept(a: Expr, b: Expr, vars: Store)
    requires Eval(a, vars).Some? && Eval(b, vars).Some?
    ensures HasValue(Bin(Add, a, b), vars, ValueOf(a, vars) + ValueOf(b, vars))
  {
    Keeps(Bin(Add, a, b), vars, ValueOf(a, vars) + ValueOf(b, vars));
  }

  lemma {:induction false} DifferenceKept(a: Expr, b: Expr, vars: Store)
    requires Eval(a, vars).Some? && Eval(b, vars).Some?
    ensures HasValue(Bin(Sub, a, b), vars, ValueOf(a, vars) - ValueOf(b, vars))
  {
    Keeps(Bin(Sub, a, b), vars, ValueOf(a, vars) - ValueOf(b, vars));
  }

  lemma {:induction false} ProductKept(a: Expr, b: Expr, vars: Store)
    requires Eval(a, vars).Some? && Eval(b, vars).Some?
    ensures HasValue(Bin(Mul, a, b), vars, ValueOf(a, vars) * ValueOf(b, vars))
  {
    var n := ValueOf(a, vars) * ValueOf(b, vars);
    assert Eval(Bin(Mul, a, b), vars) == Some(Wrap(n));
    Keeps(Bin(Mul, a, b), vars, n);
  }

  lemma {:induction false} NegativeKept(a: Expr, vars: Store)
    requires Eval(a, vars).Some?
    ensures HasValue(Neg(a), vars, -ValueOf(a, vars))
  {
    Keeps(Neg(a), vars, -ValueOf(a, vars));
  }

  lemma WrapKeeps(n: int)
    ensures KeptIn64(n, Wrap(n))
  {
    var k := WrapIsShift(n);
    var r: int := Wrap(n);
    Multiple(n - r, -k);
  }

  lemma Multiple(d: int, k: int)
    requires d == k * TWO_64
    ensures d % 0x1_0000_0000_0000_0000 == 0
  {
  }

  // Subtracting and adding again changes nothing, whatever 64 bits hold.
  lemma {:induction false} SubtractThenAdd(a: Expr, b: Expr, vars: Store)
    requires Eval(a, vars).Some? && Eval(b, vars).Some?
    ensures Eval(Bin(Add, Bin(Sub, a, b), b), vars) == Eval(a, vars)
  {
    var x, y := ValueOf(a, vars), ValueOf(b, vars);
    var k := WrapIsShift(x - y);
    WrapShift(x, k);
    assert Eval(Bin(Sub, a, b), vars) == Some(Wrap(x - y));
  }

  // Nothing is divided by 0.  Otherwise the quotient times the divisor plus the remainder is the
  // dividend, and the remainder is smaller than the divisor and has the sign of the dividend
  // (section 6.5.5 of ISO/IEC 9899).  One quotient does not fit 64 bits.
  lemma {:induction false} QuotientAndRemainder(a: Expr, b: Expr, vars: Store)
    requires Eval(a, vars).Some? && Eval(b, vars).Some?
    ensures var x, y, q, r := ValueOf(a, vars), ValueOf(b, vars), Bin(Div, a, b), Bin(Mod, a, b);
      if y == 0 then Eval(q, vars).None? && Eval(r, vars).None?
      else
        && Eval(q, vars).Some? && Eval(r, vars).Some?
        && (if x == LOWEST && y == -1 then ValueOf(q, vars) == LOWEST && ValueOf(r, vars) == 0
            else ValueOf(q, vars) * y + ValueOf(r, vars) == x)
        && Divides(x, y, ValueOf(r, vars))
  {
    var x, y := ValueOf(a, vars), ValueOf(b, vars);
    if y != 0 {
      TruncLaw(x, y);
      QuotientSize(x, y);
      assert Wrap(0x8000_0000_0000_0000) == LOWEST;
      assert Eval(Bin(Div, a, b), vars) == Some(Wrap(TruncDiv(x, y)));
      assert Eval(Bin(Mod, a, b), vars) == Some(Wrap(TruncMod(x, y)));
    }
  }

  // What a remainder has to be like.
  predicate Divides(x: int, y: int, r: int) {
    && (if y < 0 then y < r < -y else -y < r < y)
    && (r < 0 ==> x < 0) && (r > 0 ==> x > 0)
  }

  lemma {:induction false} QuotientSize(x: int, y: int)
    requires y != 0
    ensures Abs(TruncDiv(x, y)) <= Abs(x)
    ensures x > 0 && Abs(y) > 1 ==> Abs(TruncDiv(x, y)) < x
    ensures x < 0 && Abs(y) > 1 ==> Abs(TruncDiv(x, y)) < -x
    ensures Abs(y) == 1 ==> TruncDiv(x, y) == x * y && TruncMod(x, y) == 0
    decreases x < 0, y < 0
  {
    if x < 0 {
      QuotientSize(-x, y);
    } else if y < 0 {
      QuotientSize(x, -y);
    } else {
      NaturalQuotient(x, y);
    }
  }

  lemma NaturalQuotient(x: nat, y: nat)
    requires y > 0
    ensures 0 <= x / y <= x && (y == 1 ==> x / y == x) && (y > 1 && x > 0 ==> x / y < x)
  {
    if y > 1 {
      Parts(x, y);
      Twice(y, x / y);
    }
  }

  lemma Parts(x: nat, y: nat)
    requires y > 0
    ensures 0 <= x / y && x >= y * (x / y)
  {
  }

  lemma {:induction false} Twice(y: nat, q: nat)
    requires y > 1
    ensures y * q >= 2 * q
  {
    if q > 0 {
      Twice(y, q - 1);
      assert y * q == y * (q - 1) + y;
    }
  }
}
