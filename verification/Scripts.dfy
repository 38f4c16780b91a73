// What some scripts of the browser do, for all numbers in them.
module Scripts {
  import opened Options
  import opened Int64
  import opened Lexing
  import opened Expressions
  import opened Values
  import opened MiniJsSyntax
  import opened MiniJsSemantics
  import opened MiniJsPrinting
  import opened MiniJs
  import opened MiniJsCorrect

  // The script t has that effect.
  ghost predicate Does(t: CString, r: Outcome) {
    var m := BlockMeaning(ParseScript(t, 0), map[]);
    m.Right? && m.end == |t| && m.r == r
  }

  lemma WrittenDoes(t: CString, ss: Stmts)
    requires t == ShowAll(ss) && WritableAll(ss)
    ensures Does(t, ExecAll(true, ss, map[]))
  {
    PrintedScriptMeaning(t, ss);
  }

  // ----- comparisons -----

  predicate Compares(sign: string) {
    sign == "<" || sign == ">" || sign == "<=" || sign == ">=" || sign == "==" || sign == "!="
  }

  predicate Relation(sign: string, a: int, b: int) {
    || (sign == "<" && a < b) || (sign == ">" && a > b) || (sign == "<=" && a <= b) || (sign == ">=" && a >= b)
    || (sign == "==" && a == b) || (sign == "!=" && a != b)
  }

  // A conditional compares integers.
  lemma IfCompares(t: CString, a: nat, sign: string, b: nat)
    requires a <= HIGHEST && b <= HIGHEST && Compares(sign)
    requires t == "if(" + (ShowNat(a) + (sign + ShowNat(b))) + ")" + "print(\"y\");\n"
    ensures Does(t, Outcome(true, map[], if Relation(sign, a, b) then [Line("y")] else []))
  {
    var op := SignOf(sign);
    IfText(op, a, b);
    OneStatement(t, IfPrint(op, a, b));
    IfEffect(op, a, b);
  }

  function SignOf(sign: string): (op: Comparison)
    requires Compares(sign)
    ensures ComparisonText(op) == sign
    ensures forall a: int64, b: int64 :: Holds(op, a, b) <==> Relation(sign, a, b)
  {
    if sign == "<" then Lt else if sign == ">" then Gt else if sign == "<=" then Le
    else if sign == ">=" then Ge else if sign == "==" then Eq else Ne
  }

  function IfPrint(op: Comparison, a: nat, b: nat): Stmt
    requires a <= HIGHEST && b <= HIGHEST
  {
    If(Compare(op, Num(a), Num(b)), Single(ShowText(false, "y")))
  }

  lemma IfText(op: Comparison, a: nat, b: nat)
    requires a <= HIGHEST && b <= HIGHEST
    ensures ShowStmt(IfPrint(op, a, b)) ==
      "if(" + (ShowNat(a) + (ComparisonText(op) + ShowNat(b))) + ")" + "print(\"y\");\n"
  {
    var c := Compare(op, Num(a), Num(b));
    assert ShowCond(c) == ShowNat(a) + (ComparisonText(op) + ShowNat(b));
    assert ShowStmt(ShowText(false, "y")) == "print(\"y\");\n";
    IfParts(ShowCond(c), "print(\"y\");\n");
  }

  lemma IfParts(c: string, body: string)
    ensures "if" + ("(" + (c + (")" + body))) == "if(" + c + ")" + body
  {
  }

  lemma IfEffect(op: Comparison, a: nat, b: nat)
    requires a <= HIGHEST && b <= HIGHEST
    ensures Exec(true, IfPrint(op, a, b), map[]) == Outcome(true, map[], if Holds(op, a, b) then [Line("y")] else [])
    ensures WritableStmt(IfPrint(op, a, b))
  {
    assert Eval(Num(a), map[]) == Some(a) && Eval(Num(b), map[]) == Some(b);
    assert Skippable(ShowText(false, "y"), map[]);
  }

  lemma OneOnly(s: Stmt, vars: Store)
    ensures ShowAll(Then(s, Done)) == ShowStmt(s)
    ensures ExecAll(true, Then(s, Done), vars) == Exec(true, s, vars)
  {
    assert ShowAll(Then(s, Done)) == ShowStmt(s) + "" == ShowStmt(s);
    var r := Exec(true, s, vars);
    assert ExecAll(true, Done, r.vars) == Outcome(true, r.vars, []);
    assert r.out + [] == r.out;
  }

  lemma OneStatement(t: CString, s: Stmt)
    requires t == ShowStmt(s) && WritableStmt(s)
    ensures Does(t, Exec(true, s, map[]))
  {
    OneOnly(s, map[]);
    WrittenDoes(t, Then(s, Done));
  }

  // Quoted text goes to the page or to the status bar, a value always to the page.
  lemma TextOutputs(t: CString, x: string, alert: bool)
    requires |x| <= 127 && '"' !in x && '\0' !in x
    requires t == (if alert then "alert" else "print") + ("(\"" + (x + "\");\n"))
    ensures Does(t, Outcome(true, map[], [if alert then Status(x) else Line(x)]))
  {
    OneStatement(t, ShowText(alert, x));
  }

  lemma ValueOutputs(t: CString, v: nat, alert: bool)
    requires v <= HIGHEST && t == (if alert then "alert" else "print") + ("(" + (ShowNat(v) + ");\n"))
    ensures Does(t, Outcome(true, map[], [Line(ShowNat(v))]))
  {
    var s := ShowValue(alert, Num(v));
    assert Eval(Num(v), map[]) == Some(v);
    assert ShowStmt(s) == t;
    OneStatement(t, s);
  }

  lemma TwoStatements(t: CString, r: Stmt, s: Stmt)
    requires t == ShowStmt(r) + ShowStmt(s) && WritableStmt(r) && WritableStmt(s) && Exec(true, r, map[]).ok
    ensures var first := Exec(true, r, map[]); Does(t, Prepend(first.out, Exec(true, s, first.vars)))
  {
    OneOnly(s, Exec(true, r, map[]).vars);
    WrittenDoes(t, Then(r, Then(s, Done)));
  }

  lemma PrintOf(v: nat)
    requires v <= HIGHEST
    ensures var s := ShowValue(false, Num(v));
      && ShowStmt(s) == "print(" + (ShowNat(v) + ");\n") && WritableStmt(s)
      && Exec(true, s, map[]) == Outcome(true, map[], [Line(ShowNat(v))])
  {
    assert Eval(Num(v), map[]) == Some(v);
    assert "print" + ("(" + (ShowNat(v) + ");\n")) == "print(" + (ShowNat(v) + ");\n");
  }

  // The outputs appear in the order of the statements.
  lemma OutputsInOrder(t: CString, a: nat, b: nat)
    requires a <= HIGHEST && b <= HIGHEST && t == "print(" + (ShowNat(a) + ");\n") + ("print(" + (ShowNat(b) + ");\n"))
    ensures Does(t, Outcome(true, map[], [Line(ShowNat(a)), Line(ShowNat(b))]))
  {
    PrintOf(a);
    PrintOf(b);
    TwoStatements(t, ShowValue(false, Num(a)), ShowValue(false, Num(b)));
    assert [Line(ShowNat(a))] + [Line(ShowNat(b))] == [Line(ShowNat(a)), Line(ShowNat(b))];
  }

  // A value can be assigned to a declared name alone.
  lemma UnknownName(t: CString, v: nat)
    requires v <= HIGHEST && t == "x=" + (ShowNat(v) + ";\n")
    ensures Does(t, Outcome(false, map[], []))
  {
    var s: Stmt := Assign("x", Num(v));
    assert ShowStmt(s) == "x" + ("=" + (ShowNat(v) + ";\n")) == t;
    assert !IsKeyword("x") by {
      forall w: Keyword ensures "x" != Spell(w) {
        assert |Spell(w)| > 1;
      }
    }
    OneStatement(t, s);
  }

  // ----- a loop -----

  const NEXT := Assign("i", Bin(Add, Var("i"), Num(1)))

  const LAP := Block(Then(NEXT, Done))

  function Counting(n: nat): Cond
    requires n <= HIGHEST
  {
    Compare(Lt, Var("i"), Num(n))
  }

  function Counter(n: nat): Stmts
    requires n <= HIGHEST
  {
    Then(VarDecl("i", Some(Num(0))), Then(While(Counting(n), LAP), Then(ShowValue(false, Var("i")), Done)))
  }

  lemma LapEffect(i: nat)
    requires i < HIGHEST
    ensures ExecBody(true, LAP, map["i" := i]) == Outcome(true, map["i" := i + 1], [])
    ensures SkippableBody(LAP, map["i" := i])
  {
    var vars: Store := map["i" := i];
    assert Eval(Var("i"), vars) == Some(i) && Eval(Num(1), vars) == Some(1);
    assert Eval(NEXT.e, vars) == Some(i + 1);
    assert vars["i" := i + 1] == map["i" := i + 1];
    assert ExecAll(true, Done, map["i" := i + 1]) == Outcome(true, map["i" := i + 1], []);
    assert SkippableAll(Done, vars);
  }

  lemma {:induction false} LoopEffect(n: nat, i: nat, laps: nat)
    requires i <= n < HIGHEST
    ensures var c := if n < i + laps then n else i + laps;
      ExecLoop(true, Counting(n), LAP, map["i" := i], laps) == Outcome(true, map["i" := c], [])
    decreases laps
  {
    var vars: Store := map["i" := i];
    assert Eval(Var("i"), vars) == Some(i) && Eval(Num(n), vars) == Some(n);
    LapEffect(i);
    if laps > 0 && i < n {
      LoopEffect(n, i + 1, laps - 1);
    }
  }

  // Counting to n in a loop gives n, but no more than 200.
  lemma CountsTo200(t: CString, n: nat)
    requires n < HIGHEST
    requires t == "var i=0;\n" + (("while(i<" + ShowNat(n) + ")" + "{\ni=i+1;\n}\n") + "print(i);\n")
    ensures var c := if n < 200 then n else 200; Does(t, Outcome(true, map["i" := c], [Line(ShowNat(c))]))
  {
    CounterText(n);
    CounterEffect(n);
    WrittenDoes(t, Counter(n));
  }

  lemma CounterText(n: nat)
    requires n <= HIGHEST
    ensures ShowAll(Counter(n)) == "var i=0;\n" + (("while(i<" + ShowNat(n) + ")" + "{\ni=i+1;\n}\n") + "print(i);\n")
    ensures WritableAll(Counter(n))
  {
    var last: Stmt := ShowValue(false, Var("i"));
    var loop := While(Counting(n), LAP);
    var first := VarDecl("i", Some(Num(0)));
    FirstText(first);
    WhileText(n, loop);
    LastText(last);
    InTurn(first, loop, last);
  }

  lemma InTurn(a: Stmt, b: Stmt, c: Stmt)
    ensures ShowAll(Then(a, Then(b, Then(c, Done)))) == ShowStmt(a) + (ShowStmt(b) + ShowStmt(c))
  {
    assert ShowStmt(c) + "" == ShowStmt(c) == ShowAll(Then(c, Done));
    assert ShowAll(Then(b, Then(c, Done))) == ShowStmt(b) + ShowStmt(c);
  }

  lemma FirstText(s: Stmt)
    requires s == VarDecl("i", Some(Num(0)))
    ensures ShowStmt(s) == "var i=0;\n" && WritableStmt(s)
  {
    assert ShowNat(0) == "0";
  }

  lemma LastText(s: Stmt)
    requires s == ShowValue(false, Var("i"))
    ensures ShowStmt(s) == "print(i);\n" && WritableStmt(s)
  {
  }

  lemma NextText(s: Stmt)
    requires s == NEXT
    ensures ShowStmt(s) == "i=i+1;\n" && WritableStmt(s)
  {
    assert ShowNat(1) == "1";
    assert Show(s.e, 0) == "i+1";
    assert !IsKeyword("i") by {
      forall w: Keyword ensures "i" != Spell(w) {
        assert |Spell(w)| > 1;
      }
    }
  }

  lemma LapText(b: Body)
    requires b == LAP
    ensures ShowBody(b) == "{\ni=i+1;\n}\n" && WritableBody(b)
  {
    NextText(NEXT);
    assert ShowAll(b.ss) == ShowStmt(NEXT) + "";
  }

  lemma WhileText(n: nat, s: Stmt)
    requires n <= HIGHEST && s == While(Counting(n), LAP)
    ensures ShowStmt(s) == "while(i<" + ShowNat(n) + ")" + "{\ni=i+1;\n}\n" && WritableStmt(s)
  {
    LapText(LAP);
    assert ShowCond(Counting(n)) == "i" + ("<" + ShowNat(n));
    WhileParts(ShowNat(n), "{\ni=i+1;\n}\n");
  }

  lemma WhileParts(n: string, body: string)
    ensures "while" + ("(" + ("i" + ("<" + n) + (")" + body))) == "while(i<" + n + ")" + body
  {
  }

  lemma CounterEffect(n: nat)
    requires n < HIGHEST
    ensures var c := if n < 200 then n else 200;
      ExecAll(true, Counter(n), map[]) == Outcome(true, map["i" := c], [Line(ShowNat(c))])
  {
    var c := if n < 200 then n else 200;
    FirstEffect();
    Quietly(VarDecl("i", Some(Num(0))), Counter(n).tail, map[], map["i" := 0]);
    LoopEffect(n, 0, MAX_LAPS);
    Quietly(While(Counting(n), LAP), Then(ShowValue(false, Var("i")), Done), map["i" := 0], map["i" := c]);
    LastOutput(map["i" := c], c);
  }

  // A statement without output, and what follows.
  lemma Quietly(s: Stmt, rest: Stmts, vars: Store, vars': Store)
    requires Exec(true, s, vars) == Outcome(true, vars', [])
    ensures ExecAll(true, Then(s, rest), vars) == ExecAll(true, rest, vars')
  {
    var r := ExecAll(true, rest, vars');
    assert [] + r.out == r.out;
  }

  lemma FirstEffect()
    ensures Exec(true, VarDecl("i", Some(Num(0))), map[]) == Outcome(true, map["i" := 0], [])
  {
    assert Eval(Num(0), map[]) == Some(0);
    assert Declare(map[], "i", 0) == map["i" := 0];
  }

  lemma LastOutput(vars: Store, c: nat)
    requires "i" in vars && vars["i"] == c
    ensures ExecAll(true, Then(ShowValue(false, Var("i")), Done), vars) == Outcome(true, vars, [Line(ShowNat(c))])
  {
    assert Eval(Var("i"), vars) == Some(c);
    assert ExecAll(true, Done, vars) == Outcome(true, vars, []);
  }
}
