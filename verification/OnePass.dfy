// Evaluating an expression while reading it, without a tree in between.
//
// Both interpreters do this.  The lemmas at the end say that it comes to the same as reading the
// whole tree first (ParseExpr) and evaluating it afterwards (Eval).
module OnePass {
  import opened Int64
  import opened Options
  import opened Lexing
  import opened Expressions

  // Stuck: the text is wrong, a name is unknown, or a divisor is zero.
  datatype Reading = Stuck | Got(v: int64, end: nat)

  // What a routine promises that is to find the value r of a piece of text.
  ghost predicate Found(r: Reading, v: int64, pos: nat, err0: bool, err: bool) {
    if r.Stuck? then err else r == Got(v, pos) && err == err0
  }

  // The value of the whole is that of a rest still to be read, unless an error was raised.
  ghost predicate Underway(whole: Reading, rest: Reading, err0: bool, err: bool) {
    if whole.Stuck? then err || rest.Stuck? else err == err0 && rest == whole
  }

  // What a routine promises that is to read an operand with the value r and to work out v op r.
  ghost predicate Operated(r: Reading, op: Op, v: int64, w: Option<int64>, pos: nat, err0: bool, err: bool) {
    if w.None? then err && (r.Got? ==> Apply(op, v, r.v).None?)
    else if r.Stuck? then err
    else w == Apply(op, v, r.v) && pos == r.end && err == err0
  }

  // One more digit of a number has been read.
  lemma DigitRead(t: CString, start: nat, i: nat, v: int64)
    requires start <= i < |t| && (forall k :: start <= k <= i ==> IsDigit(t[k])) && v == Wrap(NumberAt(t, start, i))
    ensures Wrap(v * 10 + DigitValue(t[i])) == Wrap(NumberAt(t, start, i + 1))
  {
    WrapDigit(NumberAt(t, start, i), DigitValue(t[i]));
  }

  function Valued(p: Parsed<Expr>, vars: Store): Reading {
    if p.Bad? || Eval(p.tree, vars).None? then Stuck else Got(Eval(p.tree, vars).value, p.end)
  }

  function FactorVal(d: Dialect, t: CString, i: nat, vars: Store): (r: Reading)
    requires i <= |t|
    ensures r.Got? ==> i <= r.end <= |t|
    decreases |t| - i, 0
  {
    var b := Skip(d, t, i);
    var c := At(t, b);
    if c == '(' then
      var r := ExprVal(d, t, b + 1, vars);
      if r.Stuck? then Stuck
      else
        var k := Skip(d, t, r.end);
        if At(t, k) == ')' then Got(r.v, k + 1) else Stuck
    else if c == '-' then
      var r := FactorVal(d, t, b + 1, vars);
      if r.Stuck? then Stuck else Got(Wrap(0 - r.v), r.end)
    else if IsDigit(c) then
      var k := DigitsEnd(t, b);
      Got(Wrap(NumberAt(t, b, k)), k)
    else if IsLetter(c) then
      var k := NameEnd(t, b, d.nameMax, true);
      var x := Piece(t, b, k);
      if x in vars then Got(vars[x], k) else Stuck
    else
      Stuck
  }

  function TermVal(d: Dialect, t: CString, i: nat, vars: Store): (r: Reading)
    requires i <= |t|
    ensures r.Got? ==> i <= r.end <= |t|
    decreases |t| - i, 2
  {
    var r := FactorVal(d, t, i, vars);
    if r.Stuck? then Stuck else TermRestVal(d, t, r.end, r.v, vars)
  }

  function TermRestVal(d: Dialect, t: CString, k: nat, v: int64, vars: Store): (r: Reading)
    requires k <= |t|
    ensures r.Got? ==> k <= r.end <= |t|
    decreases |t| - k, 1
  {
    var b := Skip(d, t, k);
    if !ProductSign(At(t, b)) then Got(v, b)
    else
      var r := FactorVal(d, t, b + 1, vars);
      if r.Stuck? then Stuck
      else
        var w := Apply(ProductOp(At(t, b)), v, r.v);
        if w.None? then Stuck else TermRestVal(d, t, r.end, w.value, vars)
  }

  function ExprVal(d: Dialect, t: CString, i: nat, vars: Store): (r: Reading)
    requires i <= |t|
    ensures r.Got? ==> i <= r.end <= |t|
    decreases |t| - i, 4
  {
    var r := TermVal(d, t, i, vars);
    if r.Stuck? then Stuck else ExprRestVal(d, t, r.end, r.v, vars)
  }

  function ExprRestVal(d: Dialect, t: CString, k: nat, v: int64, vars: Store): (r: Reading)
    requires k <= |t|
    ensures r.Got? ==> k <= r.end <= |t|
    decreases |t| - k, 3
  {
    var b := Skip(d, t, k);
    if !SumSign(At(t, b)) then Got(v, b)
    else
      var r := TermVal(d, t, b + 1, vars);
      if r.Stuck? then Stuck
      else
        var w := Apply(SumOp(At(t, b)), v, r.v);
        if w.None? then Stuck else ExprRestVal(d, t, r.end, w.value, vars)
  }

  // No factor follows.
  lemma ProductEnds(d: Dialect, t: CString, k: nat, v: int64, vars: Store, whole: Reading, err0: bool, err: bool)
    requires k <= |t| && !ProductSign(At(t, Skip(d, t, k)))
    requires Underway(whole, TermRestVal(d, t, k, v, vars), err0, err)
    ensures Found(whole, v, Skip(d, t, k), err0, err)
  {
  }

  // One more factor has been read, on the way to the value of the whole.
  lemma ProductStep(d: Dialect, t: CString, k: nat, v: int64, vars: Store, whole: Reading,
                    w: Option<int64>, pos: nat, err0: bool, err: bool, err': bool)
    requires k <= |t| && pos <= |t| && ProductSign(At(t, Skip(d, t, k)))
    requires Underway(whole, TermRestVal(d, t, k, v, vars), err0, err)
    requires var b := Skip(d, t, k); Operated(FactorVal(d, t, b + 1, vars), ProductOp(At(t, b)), v, w, pos, err, err')
    requires err ==> err'
    ensures w.None? ==> Found(whole, 0, pos, err0, err')
    ensures w.Some? ==> Underway(whole, TermRestVal(d, t, pos, w.value, vars), err0, err')
  {
  }

  lemma {:induction false} FactorValIs(d: Dialect, t: CString, i: nat, vars: Store)
    requires i <= |t|
    ensures FactorVal(d, t, i, vars) == Valued(ParseFactor(d, t, i), vars)
    decreases |t| - i, 0
  {
    var b := Skip(d, t, i);
    if At(t, b) == '(' {
      ExprValIs(d, t, b + 1, vars);
      BracketVal(d, t, i, vars);
    } else if At(t, b) == '-' {
      FactorValIs(d, t, b + 1, vars);
      NegatedVal(d, t, i, vars);
    } else {
      AtomVal(d, t, i, vars);
    }
  }

  lemma BracketVal(d: Dialect, t: CString, i: nat, vars: Store)
    requires i <= |t|
    requires var b := Skip(d, t, i);
      At(t, b) == '(' && ExprVal(d, t, b + 1, vars) == Valued(ParseExpr(d, t, b + 1), vars)
    ensures FactorVal(d, t, i, vars) == Valued(ParseFactor(d, t, i), vars)
  {
  }

  lemma NegatedVal(d: Dialect, t: CString, i: nat, vars: Store)
    requires i <= |t|
    requires var b := Skip(d, t, i);
      At(t, b) == '-' && FactorVal(d, t, b + 1, vars) == Valued(ParseFactor(d, t, b + 1), vars)
    ensures FactorVal(d, t, i, vars) == Valued(ParseFactor(d, t, i), vars)
  {
  }

  lemma AtomVal(d: Dialect, t: CString, i: nat, vars: Store)
    requires i <= |t| && At(t, Skip(d, t, i)) !in {'(', '-'}
    ensures FactorVal(d, t, i, vars) == Valued(ParseFactor(d, t, i), vars)
  {
  }

  lemma {:induction false} TermValIs(d: Dialect, t: CString, i: nat, vars: Store)
    requires i <= |t|
    ensures TermVal(d, t, i, vars) == Valued(ParseTerm(d, t, i), vars)
    decreases |t| - i, 2
  {
    FactorValIs(d, t, i, vars);
    var p := ParseFactor(d, t, i);
    if p.Ok? {
      TermRestValIs(d, t, p.end, p.tree, vars);
    }
  }

  // An operand without a value spoils the whole; any other may be replaced by its value.
  lemma {:induction false} TermRestValIs(d: Dialect, t: CString, k: nat, acc: Expr, vars: Store)
    requires k <= |t|
    ensures Valued(TermRest(d, t, k, acc), vars) ==
      if Eval(acc, vars).None? then Stuck else TermRestVal(d, t, k, Eval(acc, vars).value, vars)
    decreases |t| - k, 1
  {
    var b := Skip(d, t, k);
    if !ProductSign(At(t, b)) {
      assert TermRest(d, t, k, acc) == Ok(acc, b);
    } else {
      FactorValIs(d, t, b + 1, vars);
      var p := ParseFactor(d, t, b + 1);
      if p.Ok? {
        TermRestValIs(d, t, p.end, Bin(ProductOp(At(t, b)), acc, p.tree), vars);
      }
      ProductValIs(d, t, k, acc, vars);
    }
  }

  // One more factor: what holds behind it holds in front of it.
  lemma ProductValIs(d: Dialect, t: CString, k: nat, acc: Expr, vars: Store)
    requires k <= |t| && ProductSign(At(t, Skip(d, t, k)))
    requires var b := Skip(d, t, k);
      var p := ParseFactor(d, t, b + 1);
      && FactorVal(d, t, b + 1, vars) == Valued(p, vars)
      && (p.Ok? ==>
            var e := Bin(ProductOp(At(t, b)), acc, p.tree);
            Valued(TermRest(d, t, p.end, e), vars) ==
            if Eval(e, vars).None? then Stuck else TermRestVal(d, t, p.end, Eval(e, vars).value, vars))
    ensures Valued(TermRest(d, t, k, acc), vars) ==
      if Eval(acc, vars).None? then Stuck else TermRestVal(d, t, k, Eval(acc, vars).value, vars)
  {
    var b := Skip(d, t, k);
    var p := ParseFactor(d, t, b + 1);
    if p.Bad? {
      assert TermRest(d, t, k, acc) == Bad;
    } else {
      assert TermRest(d, t, k, acc) == TermRest(d, t, p.end, Bin(ProductOp(At(t, b)), acc, p.tree));
    }
  }

  lemma {:induction false} ExprRestValIs(d: Dialect, t: CString, k: nat, acc: Expr, vars: Store)
    requires k <= |t|
    ensures Valued(ExprRest(d, t, k, acc), vars) ==
      if Eval(acc, vars).None? then Stuck else ExprRestVal(d, t, k, Eval(acc, vars).value, vars)
    decreases |t| - k, 3
  {
    var b := Skip(d, t, k);
    if !SumSign(At(t, b)) {
      assert ExprRest(d, t, k, acc) == Ok(acc, b);
    } else {
      TermValIs(d, t, b + 1, vars);
      var p := ParseTerm(d, t, b + 1);
      if p.Ok? {
        ExprRestValIs(d, t, p.end, Bin(SumOp(At(t, b)), acc, p.tree), vars);
      }
      SumValIs(d, t, k, acc, vars);
    }
  }

  lemma SumValIs(d: Dialect, t: CString, k: nat, acc: Expr, vars: Store)
    requires k <= |t| && SumSign(At(t, Skip(d, t, k)))
    requires var b := Skip(d, t, k);
      var p := ParseTerm(d, t, b + 1);
      && TermVal(d, t, b + 1, vars) == Valued(p, vars)
      && (p.Ok? ==>
            var e := Bin(SumOp(At(t, b)), acc, p.tree);
            Valued(ExprRest(d, t, p.end, e), vars) ==
            if Eval(e, vars).None? then Stuck else ExprRestVal(d, t, p.end, Eval(e, vars).value, vars))
    ensures Valued(ExprRest(d, t, k, acc), vars) ==
      if Eval(acc, vars).None? then Stuck else ExprRestVal(d, t, k, Eval(acc, vars).value, vars)
  {
    var b := Skip(d, t, k);
    var p := ParseTerm(d, t, b + 1);
    if p.Bad? {
      assert ExprRest(d, t, k, acc) == Bad;
    } else {
      assert ExprRest(d, t, k, acc) == ExprRest(d, t, p.end, Bin(SumOp(At(t, b)), acc, p.tree));
    }
  }

  // One pass over the text finds the value of the tree, and where its text ends.
  lemma {:induction false} ExprValIs(d: Dialect, t: CString, i: nat, vars: Store)
    requires i <= |t|
    ensures ExprVal(d, t, i, vars) == Valued(ParseExpr(d, t, i), vars)
    decreases |t| - i, 4
  {
    TermValIs(d, t, i, vars);
    var p := ParseTerm(d, t, i);
    if p.Ok? {
      ExprRestValIs(d, t, p.end, p.tree, vars);
    }
  }
}
