// What cc_eval_expr makes of some texts, for all numbers in them.
module Calculator {
  import opened Options
  import opened Int64
  import opened Lexing
  import opened TextPieces
  import opened Expressions
  import opened Values
  import opened Cc

  // A text that a tree is written as has the value of the tree.
  lemma ShownValue(s: CString, e: Expr)
    requires s == Show(e, 0) && Writable(CC, e)
    ensures TextValue(s) == Eval(e, map[])
  {
    IsSlice(s, 0, |s|, s);
    ShowThenParse(CC, s, 0, |s|, e);
  }

  // A number of either sign written in decimal is read as that number, the lowest included.
  lemma NumberReadsBack(v: int64, s: CString)
    requires s == ShowInt(v)
    ensures TextValue(s) == Some(v)
  {
    if v >= 0 {
      ShownValue(s, Num(v));
    } else {
      var n: int := v;
      NegativeReadsBack(-n, s);
    }
  }

  lemma {:induction false} NegativeReadsBack(n: int, s: CString)
    requires 0 < n <= HIGHEST + 1 && s == "-" + ShowNat(n)
    ensures TextValue(s) == Some(-n)
  {
    var e := NegativeStands(n, s);
    WholeIsRead(CC, s, 0, e);
  }

  lemma {:induction false} NegativeStands(n: int, s: CString) returns (e: Expr)
    requires 0 < n <= HIGHEST + 1 && s == "-" + ShowNat(n)
    ensures ExprAt(CC, s, 0, |s|, e) && Eval(e, map[]) == Some(-n)
  {
    IsSlice(s, 0, |s|, s);
    Split(s, 0, |s|, "-", ShowNat(n));
    NumberStands(s, 1, |s|, n);
    DigitsEndIs(s, 1, |s|);
    var w := Wrap(n);
    e := Neg(Num(w));
    assert FactorAt(CC, s, 1, |s|, Num(w));
    LevelUp(CC, s, 0, |s|, e, 2, 0);
  }

  predicate Fits(n: int) { LOWEST <= n <= HIGHEST }

  // Two numbers with a sign between them.
  lemma TwoNumbers(s: CString, a: nat, c: char, b: nat)
    requires Fits(a) && Fits(b) && s == ShowNat(a) + [c] + ShowNat(b)
    ensures c == '+' && Fits(a + b) ==> TextValue(s) == Some(a + b)
    ensures c == '-' ==> TextValue(s) == Some(a - b)
    ensures c == '*' && Fits(a * b) ==> TextValue(s) == Some(a * b)
    ensures c == '/' && b > 0 ==> TextValue(s) == Some(a / b)
    ensures c == '%' && b > 0 ==> TextValue(s) == Some(a % b)
    ensures (c == '/' || c == '%') && b == 0 ==> TextValue(s) == None
  {
    match c
    case '+' => ShownValue(s, Bin(Add, Num(a), Num(b))); SumKept(Num(a), Num(b), map[]);
    case '-' => ShownValue(s, Bin(Sub, Num(a), Num(b))); DifferenceKept(Num(a), Num(b), map[]);
    case '*' => ShownValue(s, Bin(Mul, Num(a), Num(b))); ProductValue(a, b);
    case '/' => ShownValue(s, Bin(Div, Num(a), Num(b))); QuotientValue(a, b);
    case '%' => ShownValue(s, Bin(Mod, Num(a), Num(b))); QuotientValue(a, b);
    case _ =>
  }

  lemma ProductValue(a: nat, b: nat)
    requires Fits(a) && Fits(b)
    ensures Fits(a * b) ==> Eval(Bin(Mul, Num(a), Num(b)), map[]) == Some(a * b)
  {
    ProductKept(Num(a), Num(b), map[]);
  }

  lemma QuotientValue(a: nat, b: nat)
    requires Fits(a) && Fits(b)
    ensures b > 0 ==> Eval(Bin(Div, Num(a), Num(b)), map[]) == Some(a / b)
    ensures b > 0 ==> Eval(Bin(Mod, Num(a), Num(b)), map[]) == Some(a % b)
    ensures b == 0 ==> Eval(Bin(Div, Num(a), Num(b)), map[]) == None && Eval(Bin(Mod, Num(a), Num(b)), map[]) == None
  {
    if b > 0 {
      NaturalQuotient(a, b);
    }
  }

  // Products come before sums,
  lemma ProductFirst(s: CString, a: nat, b: nat, c: nat, p: int)
    requires Fits(a) && Fits(b) && Fits(c) && p == b * c && Fits(p) && Fits(a + p)
    requires s == ShowNat(a) + "+" + (ShowNat(b) + "*" + ShowNat(c))
    ensures TextValue(s) == Some(a + p)
  {
    var product := Bin(Mul, Num(b), Num(c));
    assert Show(product, 1) == ShowNat(b) + "*" + ShowNat(c);
    ShownValue(s, Bin(Add, Num(a), product));
    ProductValue(b, c);
    SumKept(Num(a), product, map[]);
  }

  // brackets before both,
  lemma BracketsFirst(s: CString, a: nat, b: nat, c: nat)
    requires Fits(a) && Fits(b) && Fits(c) && Fits(a + b)
    requires s == "(" + (ShowNat(a) + "+" + ShowNat(b)) + ")" + "*" + ShowNat(c)
    ensures Fits((a + b) * c) ==> TextValue(s) == Some((a + b) * c)
  {
    var sum := Bin(Add, Num(a), Num(b));
    assert Show(sum, 0) == ShowNat(a) + "+" + ShowNat(b);
    assert Show(sum, 1) == "(" + Show(sum, 0) + ")";
    ShownValue(s, Bin(Mul, sum, Num(c)));
    SumKept(Num(a), Num(b), map[]);
    ProductKept(sum, Num(c), map[]);
  }

  // and differences are taken from the left.
  lemma FromTheLeft(s: CString, a: nat, b: nat, c: nat)
    requires Fits(a) && Fits(b) && Fits(c) && Fits(a - b - c)
    requires s == ShowNat(a) + "-" + ShowNat(b) + "-" + ShowNat(c)
    ensures TextValue(s) == Some(a - b - c)
  {
    var difference := Bin(Sub, Num(a), Num(b));
    assert Show(difference, 0) == ShowNat(a) + "-" + ShowNat(b);
    ShownValue(s, Bin(Sub, difference, Num(c)));
    DifferenceKept(Num(a), Num(b), map[]);
    DifferenceKept(difference, Num(c), map[]);
  }

  // ----- blanks and comments -----

  datatype Gap = White(c: char) | Comment(words: string)

  predicate IsGap(g: Gap) {
    match g
    case White(c) => c == ' ' || c == '\t' || c == '\n' || c == '\r'
    case Comment(words) => '\n' !in words
  }

  function GapText(g: Gap): string {
    match g
    case White(c) => [c]
    case Comment(words) => "//" + (words + "\n")
  }

  predicate AreGaps(gs: seq<Gap>) { forall k :: 0 <= k < |gs| ==> IsGap(gs[k]) }

  function Gaps(gs: seq<Gap>): string {
    if gs == [] then "" else GapText(gs[0]) + Gaps(gs[1..])
  }

  lemma {:induction false} CommentIsSkipped(s: CString, i: nat, j: nat, words: string)
    requires Stands(s, i, j, "//" + (words + "\n")) && '\n' !in words
    ensures Skip(CC, s, i) == Skip(CC, s, j)
  {
    Split(s, i, j, "//", words + "\n");
    Split(s, i + 2, j, words, "\n");
    Letters(s, i, i + 2, "//");
    Letters(s, i + 2, j - 1, words);
    Letters(s, j - 1, j, "\n");
    assert forall k :: i + 2 <= k < j - 1 ==> s[k] == words[k - (i + 2)];
    SkipsExactly(CC, s, i, j - 1);
  }

  lemma {:induction false} GapIsSkipped(s: CString, i: nat, j: nat, g: Gap, rest: string) returns (k: nat)
    requires Stands(s, i, j, GapText(g) + rest) && IsGap(g)
    ensures Stands(s, k, j, rest) && Skip(CC, s, i) == Skip(CC, s, k)
  {
    k := i + |GapText(g)|;
    Split(s, i, j, GapText(g), rest);
    match g
    case White(c) => assert s[i] == c;
    case Comment(words) => CommentIsSkipped(s, i, k, words);
  }

  lemma {:induction false} GapsAreSkipped(s: CString, i: nat, j: nat, gs: seq<Gap>)
    requires Stands(s, i, j, Gaps(gs)) && AreGaps(gs)
    ensures Skip(CC, s, i) == Skip(CC, s, j)
    decreases |gs|
  {
    if gs != [] {
      var k := GapIsSkipped(s, i, j, gs[0], Gaps(gs[1..]));
      GapsAreSkipped(s, k, j, gs[1..]);
    }
  }

  lemma {:induction false} NumberAfterGaps(s: CString, i: nat, m: nat, j: nat, gs: seq<Gap>, n: nat)
    requires AreGaps(gs) && Fits(n) && Stands(s, i, m, Gaps(gs)) && Stands(s, m, j, ShowNat(n)) && !IsDigit(At(s, j))
    ensures FactorAt(CC, s, i, j, Num(n))
  {
    GapsAreSkipped(s, i, m, gs);
    NumberStands(s, m, j, n);
    DigitsEndIs(s, m, j);
  }

  // Blanks and comments before and between the numbers and the sign make no difference.
  lemma {:induction false} SpacingIsIgnored(s: CString, fs: seq<Gap>, a: nat, gs: seq<Gap>, hs: seq<Gap>, b: nat)
    requires AreGaps(fs) && AreGaps(gs) && AreGaps(hs) && Fits(a) && Fits(b) && Fits(a + b)
    requires Stands(s, 0, |s|, Gaps(fs) + (ShowNat(a) + (Gaps(gs) + ("+" + (Gaps(hs) + ShowNat(b))))))
    ensures TextValue(s) == Some(a + b)
  {
    var l, r: Expr := Num(a), Num(b);
    var m := LeftOperand(s, fs, a, Gaps(gs) + ("+" + (Gaps(hs) + ShowNat(b))), gs, Gaps(hs) + ShowNat(b), l);
    RightOperand(s, m, gs, hs, b, l, r);
    SumKept(l, r, map[]);
  }

  lemma {:induction false} LeftOperand(s: CString, fs: seq<Gap>, a: nat, rest: string, gs: seq<Gap>, last: string,
                                       l: Expr) returns (m: nat)
    requires AreGaps(fs) && AreGaps(gs) && Fits(a) && l == Num(a) && rest == Gaps(gs) + ("+" + last)
    requires Stands(s, 0, |s|, Gaps(fs) + (ShowNat(a) + rest))
    ensures FactorAt(CC, s, 0, m, l) && Stands(s, m, |s|, rest)
  {
    var i := |Gaps(fs)|;
    m := i + |ShowNat(a)|;
    Split(s, 0, |s|, Gaps(fs), ShowNat(a) + rest);
    Split(s, i, |s|, ShowNat(a), rest);
    var k := SignFound(s, m, gs, last);
    NumberAfterGaps(s, 0, i, m, fs, a);
  }

  lemma {:induction false} RightOperand(s: CString, m: nat, gs: seq<Gap>, hs: seq<Gap>, b: nat, l: Expr, r: Expr)
    requires AreGaps(gs) && AreGaps(hs) && Fits(b) && r == Num(b) && FactorAt(CC, s, 0, m, l)
    requires Stands(s, m, |s|, Gaps(gs) + ("+" + (Gaps(hs) + ShowNat(b))))
    ensures TextValue(s) == Eval(Bin(Add, l, r), map[])
  {
    var k := SignFound(s, m, gs, Gaps(hs) + ShowNat(b));
    Split(s, k + 1, |s|, Gaps(hs), ShowNat(b));
    NumberAfterGaps(s, k + 1, k + 1 + |Gaps(hs)|, |s|, hs, b);
    SumOfBoth(s, m, k, l, r);
  }

  // The sign is found behind the gaps, and no digit before it.
  lemma {:induction false} SignFound(s: CString, m: nat, gs: seq<Gap>, last: string) returns (k: nat)
    requires AreGaps(gs) && Stands(s, m, |s|, Gaps(gs) + ("+" + last))
    ensures m <= k < |s| && !IsDigit(At(s, m)) && Skip(CC, s, m) == k && At(s, k) == '+' && Stands(s, k + 1, |s|, last)
  {
    k := m + |Gaps(gs)|;
    Split(s, m, |s|, Gaps(gs), "+" + last);
    Split(s, k, |s|, "+", last);
    GapsAreSkipped(s, m, k, gs);
    NoDigitFirst(s, m, k, gs);
  }

  lemma {:induction false} NoDigitFirst(s: CString, m: nat, k: nat, gs: seq<Gap>)
    requires AreGaps(gs) && Stands(s, m, k, Gaps(gs)) && !IsDigit(At(s, k))
    ensures !IsDigit(At(s, m))
  {
    if gs != [] {
      var text := GapText(gs[0]);
      assert text != "" && !IsDigit(text[0]);
      Split(s, m, k, text, Gaps(gs[1..]));
    }
  }

  lemma {:induction false} SumOfBoth(s: CString, m: nat, k: nat, l: Expr, r: Expr)
    requires m <= k < |s| && FactorAt(CC, s, 0, m, l) && Skip(CC, s, m) == k && At(s, k) == '+'
    requires FactorAt(CC, s, k + 1, |s|, r)
    ensures TextValue(s) == Eval(Bin(Add, l, r), map[])
  {
    LevelUp(CC, s, 0, m, l, 2, 0);
    LevelUp(CC, s, k + 1, |s|, r, 2, 1);
    ExprJoin(CC, s, 0, m, |s|, Add, l, r);
    WholeIsRead(CC, s, 0, Bin(Add, l, r));
  }
}
