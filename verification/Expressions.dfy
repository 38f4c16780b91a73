// Arithmetic expressions: syntax trees, their value, the text they are written as, and the
// reading of a text as a tree.  browser.cpp and cc.c evaluate the same grammar while they scan it.
module Expressions {
  import opened Options
  import opened Int64
  import opened Lexing
  import opened TextPieces

  // The outcome of reading a text from some position: a tree and the position reached.
  datatype Parsed<+T> = Bad | Ok(tree: T, end: nat)

  datatype Op = Add | Sub | Mul | Div | Mod

  datatype Expr =
    | Num(n: int64)
    | Var(name: string)
    | Neg(arg: Expr)
    | Bin(op: Op, l: Expr, r: Expr)

  type Store = map<string, int64>

  predicate IsSum(op: Op) { op == Add || op == Sub }

  function OpChar(op: Op): char {
    match op
    case Add => '+'
    case Sub => '-'
    case Mul => '*'
    case Div => '/'
    case Mod => '%'
  }

  predicate SumSign(c: char) { c == '+' || c == '-' }

  predicate ProductSign(c: char) { c == '*' || c == '/' || c == '%' }

  function SumOp(c: char): Op
    requires SumSign(c)
  {
    if c == '+' then Add else Sub
  }

  function ProductOp(c: char): Op
    requires ProductSign(c)
  {
    if c == '*' then Mul else if c == '/' then Div else Mod
  }

  // ----- meaning -----

  function Apply(op: Op, a: int64, b: int64): Option<int64> {
    match op
    case Add => Some(Wrap(a + b))
    case Sub => Some(Wrap(a - b))
    case Mul => Some(Wrap(a * b))
    case Div => if b == 0 then None else Some(Wrap(TruncDiv(a, b)))
    case Mod => if b == 0 then None else Some(Wrap(TruncMod(a, b)))
  }

  // An expression has no value when it names an unknown variable or divides by zero.
  function Eval(e: Expr, vars: Store): Option<int64> {
    match e
    case Num(n) => Some(n)
    case Var(x) => if x in vars then Some(vars[x]) else None
    case Neg(a) =>
      var v := Eval(a, vars);
      if v.None? then None else Some(Wrap(0 - v.value))
    case Bin(op, l, r) =>
      var a, b := Eval(l, vars), Eval(r, vars);
      if a.None? || b.None? then None else Apply(op, a.value, b.value)
  }

  // ----- the grammar, as derivations over a text -----

  // e occupies t[i..j], blanks and comments before its tokens included.
  ghost predicate ExprAt(d: Dialect, t: CString, i: nat, j: nat, e: Expr)
    decreases |t| - i, e, 2
  {
    i <= |t| &&
    (|| TermAt(d, t, i, j, e)
     || (e.Bin? && IsSum(e.op) && exists m: nat :: ExprAt(d, t, i, m, e.l) && JoinAt(d, t, i, m, j, e.op, e.r)))
  }

  ghost predicate TermAt(d: Dialect, t: CString, i: nat, j: nat, e: Expr)
    decreases |t| - i, e, 1
  {
    i <= |t| &&
    (|| FactorAt(d, t, i, j, e)
     || (e.Bin? && !IsSum(e.op) && exists m: nat :: TermAt(d, t, i, m, e.l) && JoinAt(d, t, i, m, j, e.op, e.r)))
  }

  // After a left operand that ends at m stands the operator, and then its right operand.
  ghost predicate JoinAt(d: Dialect, t: CString, i: nat, m: nat, j: nat, op: Op, r: Expr)
    requires i <= |t|
    decreases |t| - i, r, 3
  {
    && i <= m <= |t|
    && var b := Skip(d, t, m);
    && At(t, b) == OpChar(op)
    && if IsSum(op) then TermAt(d, t, b + 1, j, r) else FactorAt(d, t, b + 1, j, r)
  }

  ghost predicate FactorAt(d: Dialect, t: CString, i: nat, j: nat, e: Expr)
    decreases |t| - i, e, 0
  {
    && i <= |t|
    && var b := Skip(d, t, i);
    || (At(t, b) == '(' && exists m: nat :: ExprAt(d, t, b + 1, m, e) && CloseAt(d, t, m, j))
    || (e.Neg? && At(t, b) == '-' && FactorAt(d, t, b + 1, j, e.arg))
    || (e.Num? && IsDigit(At(t, b)) && j == DigitsEnd(t, b) && e.n == Wrap(NumberAt(t, b, j)))
    || (e.Var? && IsLetter(At(t, b)) && j == NameEnd(t, b, d.nameMax, true) && e.name == Piece(t, b, j))
  }

  ghost predicate CloseAt(d: Dialect, t: CString, m: nat, j: nat) {
    m <= |t| && At(t, Skip(d, t, m)) == ')' && j == Skip(d, t, m) + 1
  }

  lemma TermJoin(d: Dialect, t: CString, i: nat, m: nat, j: nat, op: Op, l: Expr, r: Expr)
    requires i <= |t| && !IsSum(op) && TermAt(d, t, i, m, l) && JoinAt(d, t, i, m, j, op, r)
    ensures TermAt(d, t, i, j, Bin(op, l, r))
  {
    var e := Bin(op, l, r);
    assert TermAt(d, t, i, m, e.l) && JoinAt(d, t, i, m, j, e.op, e.r);
  }

  lemma ExprJoin(d: Dialect, t: CString, i: nat, m: nat, j: nat, op: Op, l: Expr, r: Expr)
    requires i <= |t| && IsSum(op) && ExprAt(d, t, i, m, l) && JoinAt(d, t, i, m, j, op, r)
    ensures ExprAt(d, t, i, j, Bin(op, l, r))
  {
    var e := Bin(op, l, r);
    assert ExprAt(d, t, i, m, e.l) && JoinAt(d, t, i, m, j, e.op, e.r);
  }

  // The parts of a sum or product that is derived as one.
  lemma TermParts(d: Dialect, t: CString, i: nat, j: nat, e: Expr) returns (m: nat)
    requires TermAt(d, t, i, j, e) && !FactorAt(d, t, i, j, e)
    ensures e.Bin? && !IsSum(e.op) && i <= m <= |t| && TermAt(d, t, i, m, e.l)
    ensures At(t, Skip(d, t, m)) == OpChar(e.op) && FactorAt(d, t, Skip(d, t, m) + 1, j, e.r)
  {
    m :| TermAt(d, t, i, m, e.l) && JoinAt(d, t, i, m, j, e.op, e.r);
  }

  lemma ExprParts(d: Dialect, t: CString, i: nat, j: nat, e: Expr) returns (m: nat)
    requires ExprAt(d, t, i, j, e) && !TermAt(d, t, i, j, e)
    ensures e.Bin? && IsSum(e.op) && i <= m <= |t| && ExprAt(d, t, i, m, e.l)
    ensures At(t, Skip(d, t, m)) == OpChar(e.op) && TermAt(d, t, Skip(d, t, m) + 1, j, e.r)
  {
    m :| ExprAt(d, t, i, m, e.l) && JoinAt(d, t, i, m, j, e.op, e.r);
  }

  lemma TermOfParts(d: Dialect, t: CString, i: nat, m: nat, j: nat, e: Expr)
    requires i <= m <= |t| && e.Bin? && !IsSum(e.op) && TermAt(d, t, i, m, e.l)
    requires At(t, Skip(d, t, m)) == OpChar(e.op) && FactorAt(d, t, Skip(d, t, m) + 1, j, e.r)
    ensures TermAt(d, t, i, j, e)
  {
    TermJoin(d, t, i, m, j, e.op, e.l, e.r);
  }

  // ----- reading a text -----

  function ParseFactor(d: Dialect, t: CString, i: nat): (p: Parsed<Expr>)
    requires i <= |t|
    ensures p.Ok? ==> i <= p.end <= |t|
    ensures p.Ok? && d.nameMax > 0 ==> i < p.end
    decreases |t| - i, 0
  {
    var b := Skip(d, t, i);
    var c := At(t, b);
    if c == '(' then
      var p := ParseExpr(d, t, b + 1);
      if p.Bad? then Bad
      else
        var k := Skip(d, t, p.end);
        if At(t, k) == ')' then Ok(p.tree, k + 1) else Bad
    else if c == '-' then
      var p := ParseFactor(d, t, b + 1);
      if p.Bad? then Bad else Ok(Neg(p.tree), p.end)
    else if IsDigit(c) then
      var k := DigitsEnd(t, b);
      Ok(Num(Wrap(NumberAt(t, b, k))), k)
    else if IsLetter(c) then
      var k := NameEnd(t, b, d.nameMax, true);
      Ok(Var(Piece(t, b, k)), k)
    else
      Bad
  }

  function ParseTerm(d: Dialect, t: CString, i: nat): (p: Parsed<Expr>)
    requires i <= |t|
    ensures p.Ok? ==> i <= p.end <= |t|
    ensures p.Ok? && d.nameMax > 0 ==> i < p.end
    decreases |t| - i, 2
  {
    var p := ParseFactor(d, t, i);
    if p.Bad? then Bad else TermRest(d, t, p.end, p.tree)
  }

  // The remaining factors of a term of which `acc` has been read.
  function TermRest(d: Dialect, t: CString, k: nat, acc: Expr): (p: Parsed<Expr>)
    requires k <= |t|
    ensures p.Ok? ==> k <= p.end <= |t|
    decreases |t| - k, 1
  {
    var b := Skip(d, t, k);
    if !ProductSign(At(t, b)) then Ok(acc, b)
    else
      var p := ParseFactor(d, t, b + 1);
      if p.Bad? then Bad else TermRest(d, t, p.end, Bin(ProductOp(At(t, b)), acc, p.tree))
  }

  function ParseExpr(d: Dialect, t: CString, i: nat): (p: Parsed<Expr>)
    requires i <= |t|
    ensures p.Ok? ==> i <= p.end <= |t|
    ensures p.Ok? && d.nameMax > 0 ==> i < p.end
    decreases |t| - i, 4
  {
    var p := ParseTerm(d, t, i);
    if p.Bad? then Bad else ExprRest(d, t, p.end, p.tree)
  }

  // The remaining terms of an expression of which `acc` has been read.
  function ExprRest(d: Dialect, t: CString, k: nat, acc: Expr): (p: Parsed<Expr>)
    requires k <= |t|
    ensures p.Ok? ==> k <= p.end <= |t|
    decreases |t| - k, 3
  {
    var b := Skip(d, t, k);
    if !SumSign(At(t, b)) then Ok(acc, b)
    else
      var p := ParseTerm(d, t, b + 1);
      if p.Bad? then Bad else ExprRest(d, t, p.end, Bin(SumOp(At(t, b)), acc, p.tree))
  }

  // ----- the reader accepts exactly the grammar -----

  predicate Follows(d: Dialect, t: CString, j: nat)
    requires j <= |t|
  {
    var c := At(t, Skip(d, t, j));
    !SumSign(c) && !ProductSign(c)
  }

  lemma {:induction false} FactorComplete(d: Dialect, t: CString, i: nat, j: nat, e: Expr)
    requires FactorAt(d, t, i, j, e)
    ensures i <= j <= |t| && ParseFactor(d, t, i) == Ok(e, j)
    decreases |t| - i, e, 0
  {
    var b := Skip(d, t, i);
    if At(t, b) == '(' {
      var m: nat :| ExprAt(d, t, b + 1, m, e) && CloseAt(d, t, m, j);
      ExprComplete(d, t, b + 1, m, e);
      SkipTwice(d, t, m);
    } else if At(t, b) == '-' {
      FactorComplete(d, t, b + 1, j, e.arg);
    }
  }

  lemma {:induction false} TermComplete(d: Dialect, t: CString, i: nat, j: nat, e: Expr)
    requires TermAt(d, t, i, j, e)
    ensures i <= j <= |t| && ParseTerm(d, t, i) == TermRest(d, t, j, e)
    decreases |t| - i, e, 1
  {
    if FactorAt(d, t, i, j, e) {
      FactorComplete(d, t, i, j, e);
      FirstFactor(d, t, i, j, e);
    } else {
      var m := TermParts(d, t, i, j, e);
      TermComplete(d, t, i, m, e.l);
      FactorComplete(d, t, Skip(d, t, m) + 1, j, e.r);
      LastFactor(d, t, m, j, e);
    }
  }

  lemma LastFactor(d: Dialect, t: CString, m: nat, j: nat, e: Expr)
    requires m <= |t| && j <= |t| && e.Bin? && !IsSum(e.op) && At(t, Skip(d, t, m)) == OpChar(e.op)
    requires ParseFactor(d, t, Skip(d, t, m) + 1) == Ok(e.r, j)
    ensures TermRest(d, t, m, e.l) == TermRest(d, t, j, e)
  {
    TermRound(d, t, m, e.l, j, e.r);
  }

  lemma FirstFactor(d: Dialect, t: CString, i: nat, j: nat, e: Expr)
    requires i <= |t| && j <= |t| && ParseFactor(d, t, i) == Ok(e, j)
    ensures ParseTerm(d, t, i) == TermRest(d, t, j, e)
  {
  }

  // One more round of the reader's loops.
  lemma TermRound(d: Dialect, t: CString, m: nat, acc: Expr, j: nat, r: Expr)
    requires m <= |t| && j <= |t|
    requires var b := Skip(d, t, m); ProductSign(At(t, b)) && ParseFactor(d, t, b + 1) == Ok(r, j)
    ensures TermRest(d, t, m, acc) == TermRest(d, t, j, Bin(ProductOp(At(t, Skip(d, t, m))), acc, r))
  {
  }

  lemma ExprRound(d: Dialect, t: CString, m: nat, acc: Expr, j: nat, r: Expr)
    requires m <= |t| && j <= |t| && !ProductSign(At(t, Skip(d, t, j)))
    requires var b := Skip(d, t, m);
      SumSign(At(t, b)) && ParseTerm(d, t, b + 1) == TermRest(d, t, j, r)
    ensures ExprRest(d, t, m, acc) == ExprRest(d, t, j, Bin(SumOp(At(t, Skip(d, t, m))), acc, r))
  {
    SkipTwice(d, t, j);
  }

  lemma FirstTerm(d: Dialect, t: CString, i: nat, j: nat, e: Expr)
    requires i <= |t| && j <= |t| && !ProductSign(At(t, Skip(d, t, j)))
    requires ParseTerm(d, t, i) == TermRest(d, t, j, e)
    ensures ParseExpr(d, t, i) == ExprRest(d, t, j, e)
  {
    SkipTwice(d, t, j);
  }

  lemma {:induction false} ExprComplete(d: Dialect, t: CString, i: nat, j: nat, e: Expr)
    requires ExprAt(d, t, i, j, e)
    requires j <= |t| ==> !ProductSign(At(t, Skip(d, t, j)))
    ensures i <= j <= |t| && ParseExpr(d, t, i) == ExprRest(d, t, j, e)
    decreases |t| - i, e, 2
  {
    if TermAt(d, t, i, j, e) {
      TermComplete(d, t, i, j, e);
      FirstTerm(d, t, i, j, e);
    } else {
      var m := ExprParts(d, t, i, j, e);
      ExprComplete(d, t, i, m, e.l);
      TermComplete(d, t, Skip(d, t, m) + 1, j, e.r);
      ExprRound(d, t, m, e.l, j, e.r);
    }
  }

  lemma {:induction false} FactorSound(d: Dialect, t: CString, i: nat)
    requires i <= |t|
    ensures var p := ParseFactor(d, t, i); p.Ok? ==> FactorAt(d, t, i, p.end, p.tree)
    decreases |t| - i, 0
  {
    var p := ParseFactor(d, t, i);
    var b := Skip(d, t, i);
    if p.Ok? {
      if At(t, b) == '(' {
        var m := ExprSound(d, t, b + 1);
        var q := ParseExpr(d, t, b + 1);
        SkipTwice(d, t, m);
        assert CloseAt(d, t, m, p.end);
      } else if At(t, b) == '-' {
        FactorSound(d, t, b + 1);
      }
    }
  }

  lemma {:induction false} TermRestSound(d: Dialect, t: CString, i: nat, k: nat, acc: Expr) returns (j: nat)
    requires i <= k <= |t| && TermAt(d, t, i, k, acc)
    ensures var p := TermRest(d, t, k, acc);
      p.Ok? ==> j <= |t| && TermAt(d, t, i, j, p.tree) && Skip(d, t, j) == p.end && !ProductSign(At(t, p.end))
    decreases |t| - k, 1
  {
    var b := Skip(d, t, k);
    if !ProductSign(At(t, b)) {
      NoMoreFactors(d, t, k, acc);
      j := k;
    } else {
      FactorSound(d, t, b + 1);
      var q := ParseFactor(d, t, b + 1);
      if q.Bad? {
        NoMoreFactors(d, t, k, acc);
        j := k;
      } else {
        TermGrows(d, t, i, k, acc, q);
        j := TermRestSound(d, t, i, q.end, Bin(ProductOp(At(t, b)), acc, q.tree));
      }
    }
  }

  lemma NoMoreFactors(d: Dialect, t: CString, k: nat, acc: Expr)
    requires k <= |t|
    ensures var b := Skip(d, t, k);
      && (!ProductSign(At(t, b)) ==> TermRest(d, t, k, acc) == Ok(acc, b))
      && (ProductSign(At(t, b)) && ParseFactor(d, t, b + 1).Bad? ==> TermRest(d, t, k, acc) == Bad)
  {
  }

  lemma TermGrows(d: Dialect, t: CString, i: nat, k: nat, acc: Expr, q: Parsed<Expr>)
    requires i <= k <= |t| && TermAt(d, t, i, k, acc) && ProductSign(At(t, Skip(d, t, k)))
    requires q.Ok? && ParseFactor(d, t, Skip(d, t, k) + 1) == q && FactorAt(d, t, Skip(d, t, k) + 1, q.end, q.tree)
    ensures var e := Bin(ProductOp(At(t, Skip(d, t, k))), acc, q.tree);
      TermAt(d, t, i, q.end, e) && TermRest(d, t, k, acc) == TermRest(d, t, q.end, e)
  {
    TermJoin(d, t, i, k, q.end, ProductOp(At(t, Skip(d, t, k))), acc, q.tree);
    TermRound(d, t, k, acc, q.end, q.tree);
  }

  lemma {:induction false} TermSound(d: Dialect, t: CString, i: nat) returns (j: nat)
    requires i <= |t|
    ensures var p := ParseTerm(d, t, i);
      p.Ok? ==> j <= |t| && TermAt(d, t, i, j, p.tree) && Skip(d, t, j) == p.end && !ProductSign(At(t, p.end))
    decreases |t| - i, 2
  {
    FactorSound(d, t, i);
    var q := ParseFactor(d, t, i);
    j := i;
    if q.Ok? {
      j := TermRestSound(d, t, i, q.end, q.tree);
    }
  }

  lemma {:induction false} ExprRestSound(d: Dialect, t: CString, i: nat, j0: nat, k: nat, acc: Expr) returns (j: nat)
    requires i <= j0 <= |t| && k <= |t| && i <= k
    requires ExprAt(d, t, i, j0, acc) && Skip(d, t, j0) == k && !ProductSign(At(t, k))
    ensures var p := ExprRest(d, t, k, acc);
      p.Ok? ==> j <= |t| && ExprAt(d, t, i, j, p.tree) && Skip(d, t, j) == p.end && Follows(d, t, j)
    decreases |t| - k, 3
  {
    j := j0;
    SkipTwice(d, t, j0);
    if SumSign(At(t, k)) {
      var m := TermSound(d, t, k + 1);
      var q := ParseTerm(d, t, k + 1);
      if q.Ok? {
        var e := Bin(SumOp(At(t, k)), acc, q.tree);
        TermComplete(d, t, k + 1, m, q.tree);
        ExprJoin(d, t, i, j0, m, e.op, acc, q.tree);
        j := ExprRestSound(d, t, i, m, q.end, e);
      }
    }
  }

  lemma {:induction false} ExprSound(d: Dialect, t: CString, i: nat) returns (j: nat)
    requires i <= |t|
    ensures var p := ParseExpr(d, t, i);
      p.Ok? ==> j <= |t| && ExprAt(d, t, i, j, p.tree) && Skip(d, t, j) == p.end && Follows(d, t, j)
    decreases |t| - i, 4
  {
    var m := TermSound(d, t, i);
    var q := ParseTerm(d, t, i);
    j := i;
    if q.Ok? {
      TermComplete(d, t, i, m, q.tree);
      SkipTwice(d, t, m);
      j := ExprRestSound(d, t, i, m, q.end, q.tree);
    }
  }

  // The reader yields a tree exactly when the grammar derives it from the longest stretch of
  // text that an operator could not continue.
  lemma ReadsExactlyTheGrammar(d: Dialect, t: CString, i: nat, e: Expr, k: nat)
    requires i <= |t|
    ensures ParseExpr(d, t, i) == Ok(e, k) <==>
            exists j: nat :: j <= |t| && ExprAt(d, t, i, j, e) && Skip(d, t, j) == k && Follows(d, t, j)
  {
    if ParseExpr(d, t, i) == Ok(e, k) {
      var j := ExprSound(d, t, i);
    }
    if j: nat :| j <= |t| && ExprAt(d, t, i, j, e) && Skip(d, t, j) == k && Follows(d, t, j) {
      ExprComplete(d, t, i, j, e);
    }
  }

  // ----- no text has two trees -----

  lemma {:induction false} ExprEnds(d: Dialect, t: CString, i: nat, j: nat, e: Expr)
    requires ExprAt(d, t, i, j, e)
    ensures i <= j <= |t|
    decreases |t| - i, e
  {
    if TermAt(d, t, i, j, e) {
      TermComplete(d, t, i, j, e);
    } else {
      var m := ExprParts(d, t, i, j, e);
      TermComplete(d, t, Skip(d, t, m) + 1, j, e.r);
    }
  }

  lemma FactorIsNotEmpty(d: Dialect, t: CString, i: nat, j: nat, e: Expr)
    requires d.nameMax > 0 && FactorAt(d, t, i, j, e)
    ensures i <= Skip(d, t, i) < j <= |t|
  {
    var b := Skip(d, t, i);
    FactorComplete(d, t, i, j, e);
    if At(t, b) == '(' {
      var m: nat :| ExprAt(d, t, b + 1, m, e) && CloseAt(d, t, m, j);
      ExprEnds(d, t, b + 1, m, e);
    } else if At(t, b) == '-' {
      FactorComplete(d, t, b + 1, j, e.arg);
    }
  }

  // What is derived from a stretch of text does not depend on what stands behind it.
  lemma {:induction false} FactorInFront(d: Dialect, t: CString, i: nat, j: nat, e: Expr, n: nat)
    requires d.nameMax > 0 && FactorAt(d, t, i, j, e) && j <= n <= |t|
    ensures FactorAt(d, t[..n], i, j, e)
    decreases |t| - i, e, 0
  {
    var b := Skip(d, t, i);
    FactorIsNotEmpty(d, t, i, j, e);
    SkipInFront(d, t, i, n);
    if At(t, b) == '(' {
      var m: nat :| ExprAt(d, t, b + 1, m, e) && CloseAt(d, t, m, j);
      ExprInFront(d, t, b + 1, m, e, n);
      SkipInFront(d, t, m, n);
      assert CloseAt(d, t[..n], m, j);
    } else if At(t, b) == '-' {
      FactorInFront(d, t, b + 1, j, e.arg, n);
    } else {
      AtomInFront(d, t, b, j, n);
    }
  }

  lemma AtomInFront(d: Dialect, t: CString, b: nat, j: nat, n: nat)
    requires b < j <= n <= |t|
    ensures Piece(t[..n], b, j) == Piece(t, b, j)
    ensures j == DigitsEnd(t, b) ==> DigitsEnd(t[..n], b) == j && NumberAt(t[..n], b, j) == NumberAt(t, b, j)
    ensures j == NameEnd(t, b, d.nameMax, true) ==> NameEnd(t[..n], b, d.nameMax, true) == j
  {
    PieceInFront(t, b, j, n);
    if j == DigitsEnd(t, b) {
      DigitsEndInFront(t, b, n);
      NumberInFront(t, b, j, n);
    }
    if j == NameEnd(t, b, d.nameMax, true) {
      NameEndInFront(t, b, d.nameMax, true, n);
    }
  }

  lemma OperatorInFront(d: Dialect, t: CString, m: nat, j: nat, r: Expr, n: nat)
    requires d.nameMax > 0 && m <= |t| && FactorAt(d, t, Skip(d, t, m) + 1, j, r) && j <= n <= |t|
    ensures m <= n && Skip(d, t[..n], m) == Skip(d, t, m) && At(t[..n], Skip(d, t, m)) == At(t, Skip(d, t, m))
  {
    FactorIsNotEmpty(d, t, Skip(d, t, m) + 1, j, r);
    SkipInFront(d, t, m, n);
  }

  lemma {:induction false} TermInFront(d: Dialect, t: CString, i: nat, j: nat, e: Expr, n: nat)
    requires d.nameMax > 0 && TermAt(d, t, i, j, e) && j <= n <= |t|
    ensures TermAt(d, t[..n], i, j, e)
    decreases |t| - i, e, 1
  {
    if FactorAt(d, t, i, j, e) {
      FactorInFront(d, t, i, j, e, n);
    } else {
      var m := TermParts(d, t, i, j, e);
      OperatorInFront(d, t, m, j, e.r, n);
      TermInFront(d, t, i, m, e.l, n);
      FactorInFront(d, t, Skip(d, t, m) + 1, j, e.r, n);
      TermOfParts(d, t[..n], i, m, j, e);
    }
  }

  lemma {:induction false} ExprInFront(d: Dialect, t: CString, i: nat, j: nat, e: Expr, n: nat)
    requires d.nameMax > 0 && ExprAt(d, t, i, j, e) && j <= n <= |t|
    ensures ExprAt(d, t[..n], i, j, e)
    decreases |t| - i, e, 2
  {
    if TermAt(d, t, i, j, e) {
      TermInFront(d, t, i, j, e, n);
    } else {
      var m := ExprParts(d, t, i, j, e);
      var b := Skip(d, t, m);
      TermComplete(d, t, b + 1, j, e.r);
      ExprInFront(d, t, i, m, e.l, n);
      TermInFront(d, t, b + 1, j, e.r, n);
      SkipInFront(d, t, m, n);
      ExprJoin(d, t[..n], i, m, j, e.op, e.l, e.r);
    }
  }

  // The grammar gives no stretch of text two trees.
  lemma GrammarIsUnambiguous(d: Dialect, t: CString, i: nat, j: nat, e1: Expr, e2: Expr)
    requires d.nameMax > 0 && ExprAt(d, t, i, j, e1) && ExprAt(d, t, i, j, e2)
    ensures e1 == e2
  {
    ExprEnds(d, t, i, j, e1);
    var front: CString := t[..j];
    ExprInFront(d, t, i, j, e1, j);
    ExprInFront(d, t, i, j, e2, j);
    WholeIsRead(d, front, i, e1);
    WholeIsRead(d, front, i, e2);
  }

  lemma WholeIsRead(d: Dialect, t: CString, i: nat, e: Expr)
    requires i <= |t| && ExprAt(d, t, i, |t|, e)
    ensures ParseExpr(d, t, i) == Ok(e, |t|)
  {
    assert Skip(d, t, |t|) == |t| && Follows(d, t, |t|);
    ReadsExactlyTheGrammar(d, t, i, e, |t|);
  }

  // ----- writing a tree -----

  // Binding strength: 0 sums, 1 products, 2 factors.
  function Level(e: Expr): nat {
    if e.Bin? then if IsSum(e.op) then 0 else 1 else 2
  }

  // The text of e where an expression of strength `lvl` is wanted: brackets only where needed.
  function Show(e: Expr, lvl: nat): string
    decreases e, if lvl > Level(e) then 1 else 0
  {
    if lvl > Level(e) then "(" + Show(e, 0) + ")"
    else
      match e
      case Num(n) => ShowInt(n)
      case Var(x) => x
      case Neg(a) => "-" + Show(a, 2)
      case Bin(op, l, r) => Show(l, Level(e)) + [OpChar(op)] + Show(r, Level(e) + 1)
  }

  predicate IsName(d: Dialect, x: string, digits: bool) {
    && 0 < |x| <= d.nameMax && IsLetter(x[0])
    && forall k :: 0 <= k < |x| ==> IsLetter(x[k]) || (digits && IsDigit(x[k]))
  }

  // Trees that can be written: no negative literal, and names that fit the name buffer.
  predicate Writable(d: Dialect, e: Expr) {
    match e
    case Num(n) => n >= 0
    case Var(x) => IsName(d, x, true)
    case Neg(a) => Writable(d, a)
    case Bin(_, l, r) => Writable(d, l) && Writable(d, r)
  }

  // An expression that starts at a token, where e starts.
  predicate StartsToken(c: char) {
    IsWordChar(c) || c == '(' || c == '-'
  }

  lemma {:induction false} ShowStarts(d: Dialect, e: Expr, lvl: nat)
    requires Writable(d, e)
    ensures |Show(e, lvl)| > 0 && StartsToken(Show(e, lvl)[0])
    decreases e, if lvl > Level(e) then 1 else 0
  {
    if lvl <= Level(e) && e.Bin? {
      ShowStarts(d, e.l, Level(e));
    }
  }

  lemma TokenIsNoBlank(d: Dialect, t: CString, i: nat)
    requires i <= |t| && StartsToken(At(t, i))
    ensures Skip(d, t, i) == i
  {
  }

  ghost predicate LevelAt(d: Dialect, t: CString, i: nat, j: nat, e: Expr, lvl: nat) {
    if lvl == 0 then ExprAt(d, t, i, j, e)
    else if lvl == 1 then TermAt(d, t, i, j, e)
    else FactorAt(d, t, i, j, e)
  }

  lemma LevelUp(d: Dialect, t: CString, i: nat, j: nat, e: Expr, from: nat, to: nat)
    requires to <= from <= 2 && i <= |t| && LevelAt(d, t, i, j, e, from)
    ensures LevelAt(d, t, i, j, e, to)
  {
  }

  // What is written is derived by the grammar, with the tree that was written.
  lemma {:induction false} ShowDerives(d: Dialect, t: CString, i: nat, j: nat, e: Expr, lvl: nat)
    requires lvl <= 2 && Stands(t, i, j, Show(e, lvl))
    requires Writable(d, e) && !IsWordChar(At(t, j))
    ensures LevelAt(d, t, i, j, e, lvl)
    decreases e, if lvl > Level(e) then 1 else 0
  {
    ShowStarts(d, e, lvl);
    TokenIsNoBlank(d, t, i);
    if lvl > Level(e) {
      ShowInBrackets(d, t, i, j, e, lvl);
    } else {
      match e
      case Num(n) =>
        ShowNumber(d, t, i, j, n);
        LevelUp(d, t, i, j, e, 2, lvl);
      case Var(x) =>
        ShowName(d, t, i, j, x);
        LevelUp(d, t, i, j, e, 2, lvl);
      case Neg(a) =>
        Split(t, i, j, "-", Show(a, 2));
        ShowDerives(d, t, i + 1, j, a, 2);
        LevelUp(d, t, i, j, e, 2, lvl);
      case Bin(op, l, r) =>
        ShowOperation(d, t, i, j, e);
        LevelUp(d, t, i, j, e, Level(e), lvl);
    }
  }

  lemma {:induction false} ShowInBrackets(d: Dialect, t: CString, i: nat, j: nat, e: Expr, lvl: nat)
    requires i < j <= |t| && Level(e) < lvl <= 2 && Stands(t, i, j, Show(e, lvl)) && Skip(d, t, i) == i
    requires Writable(d, e)
    ensures LevelAt(d, t, i, j, e, lvl)
    decreases e, 1, 0
  {
    var s := Show(e, 0);
    Split(t, i, j, "(" + s, ")");
    Split(t, i, j - 1, "(", s);
    ShowDerives(d, t, i + 1, j - 1, e, 0);
    assert CloseAt(d, t, j - 1, j);
    LevelUp(d, t, i, j, e, 2, lvl);
  }

  lemma ShowNumber(d: Dialect, t: CString, i: nat, j: nat, n: int64)
    requires Stands(t, i, j, ShowInt(n)) && n >= 0 && !IsWordChar(At(t, j))
    ensures FactorAt(d, t, i, j, Num(n))
  {
    NumberStands(t, i, j, n);
    DigitsEndIs(t, i, j);
  }

  lemma {:induction false} NumberStands(t: CString, i: nat, j: nat, n: nat)
    requires Stands(t, i, j, ShowNat(n))
    ensures i < j && (forall k :: i <= k < j ==> IsDigit(t[k])) && NumberAt(t, i, j) == n
  {
    if n < 10 {
      assert NumberAt(t, i, j - 1) == 0;
    } else {
      Split(t, i, j, ShowNat(n / 10), [DigitChar(n % 10)]);
      NumberStands(t, i, j - 1, n / 10);
    }
  }

  lemma ShowName(d: Dialect, t: CString, i: nat, j: nat, x: string)
    requires Stands(t, i, j, x) && IsName(d, x, true) && !IsWordChar(At(t, j)) && Skip(d, t, i) == i
    ensures FactorAt(d, t, i, j, Var(x))
  {
    PieceIs(t, i, j, x);
    Letters(t, i, j, x);
    NameEndIs(t, i, j, d.nameMax, true);
  }

  // An operator is no blank, and no '/' operator begins a comment: a token follows it.
  lemma OperatorStands(d: Dialect, t: CString, m: nat, op: Op)
    requires m < |t| && t[m] == OpChar(op) && StartsToken(At(t, m + 1))
    ensures Skip(d, t, m) == m
  {
  }

  // Where the parts of an operation stand.
  lemma OperationParts(d: Dialect, t: CString, i: nat, j: nat, e: Expr) returns (m: nat)
    requires e.Bin? && Stands(t, i, j, Show(e, Level(e))) && Writable(d, e)
    ensures i <= m < j && Stands(t, i, m, Show(e.l, Level(e))) && Stands(t, m + 1, j, Show(e.r, Level(e) + 1))
    ensures t[m] == OpChar(e.op) && Skip(d, t, m) == m
  {
    var a, b := Show(e.l, Level(e)), Show(e.r, Level(e) + 1);
    m := i + |a|;
    Split(t, i, j, a + [OpChar(e.op)], b);
    Split(t, i, m + 1, a, [OpChar(e.op)]);
    ShowStarts(d, e.r, Level(e) + 1);
    OperatorStands(d, t, m, e.op);
  }

  // The name that the text of e begins with, if it begins with one.
  function Lead(e: Expr, lvl: nat): string {
    if lvl > Level(e) then ""
    else
      match e
      case Var(x) => x
      case Bin(_, l, _) => Lead(l, Level(e))
      case _ => ""
  }

  // Behind a text that begins with a name, the name ends before j or at j.
  lemma {:induction false} LeadStands(d: Dialect, t: CString, i: nat, j: nat, e: Expr, lvl: nat) returns (m: nat)
    requires Stands(t, i, j, Show(e, lvl)) && Writable(d, e) && lvl <= 2 && !IsWordChar(At(t, j))
    ensures i <= m <= j && Stands(t, i, m, Lead(e, lvl)) && (m == i ==> i < j && !IsLetter(t[i]))
    ensures m > i ==> IsName(d, Lead(e, lvl), true) && !IsWordChar(At(t, m))
    ensures i < m < j ==> Skip(d, t, m) == m && t[m] != '='
    decreases e
  {
    ShowStarts(d, e, lvl);
    if lvl > Level(e) {
      m := i;
    } else {
      match e
      case Num(n) =>
        assert IsDigit(ShowNat(n)[0]);
        m := i;
      case Neg(_) =>
        m := i;
      case Var(x) =>
        m := j;
      case Bin(op, l, r) =>
        var k := OperationParts(d, t, i, j, e);
        m := LeadStands(d, t, i, k, l, Level(e));
    }
  }

  lemma {:induction false} ShowOperation(d: Dialect, t: CString, i: nat, j: nat, e: Expr)
    requires e.Bin? && Stands(t, i, j, Show(e, Level(e)))
    requires Writable(d, e) && !IsWordChar(At(t, j))
    ensures LevelAt(d, t, i, j, e, Level(e))
    decreases e, 0, 0
  {
    var m := OperationParts(d, t, i, j, e);
    ShowDerives(d, t, i, m, e.l, Level(e));
    ShowDerives(d, t, m + 1, j, e.r, Level(e) + 1);
    if IsSum(e.op) {
      ExprJoin(d, t, i, m, j, e.op, e.l, e.r);
    } else {
      TermJoin(d, t, i, m, j, e.op, e.l, e.r);
    }
  }

  // Writing a tree and reading it back: whatever stands before and after it in the text, as long
  // as that cannot continue the expression.
  lemma ShowThenParse(d: Dialect, t: CString, i: nat, j: nat, e: Expr)
    requires Stands(t, i, j, Show(e, 0)) && Writable(d, e)
    requires !IsWordChar(At(t, j)) && Follows(d, t, j)
    ensures ParseExpr(d, t, i) == Ok(e, Skip(d, t, j))
  {
    ShowDerives(d, t, i, j, e, 0);
    ReadsExactlyTheGrammar(d, t, i, e, Skip(d, t, j));
  }
}
