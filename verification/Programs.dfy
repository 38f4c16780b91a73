// What some programs of cc do, for all numbers in them.
module Programs {
  import opened Options
  import opened Int64
  import opened Lexing
  import opened Expressions
  import opened Values
  import opened CcSyntax
  import opened CcSemantics
  import opened Cc
  import opened CcPrinting

  // A variable is declared, changed and printed, a second one starts at 0, and the sum is returned.
  function Sample(n: nat): seq<Stmt>
    requires n < HIGHEST
  {
    [Declare("x", Some(Num(n))), Declare("y", None), Assign("x", Bin(Add, Var("x"), Num(1))), Print(Var("y")),
     Print(Var("x")), Return(Some(Bin(Sub, Var("x"), Var("y"))))]
  }

  function SampleText(n: nat): string {
    "int main() {\n" +
    ("int x=" + (ShowNat(n) + ";\n") +
     ("int y;\n" + ("x=x+1;\n" + ("print(y);\n" + ("print(x);\n" + ("return x-y;\n" + ""))))) + "}\n")
  }

  // The program prints 0 and n + 1, and ends with n + 1.
  lemma SampleRuns(t: CString, n: nat, result: Result, printed: seq<int64>)
    requires n < HIGHEST && t == SampleText(n)
    ensures RunsAs(t, result, printed) <==> result == Exit(n + 1) && printed == [0, n + 1]
  {
    SampleIsText(n);
    SampleEffect(n);
    ProgramRoundTrip(t, Sample(n));
  }

  lemma SampleIsText(n: nat)
    requires n < HIGHEST
    ensures ShowMain(Sample(n)) == SampleText(n) && WritableAll(Sample(n))
  {
    var ss := Sample(n);
    FirstText(ss[0], n);
    OtherTexts(ss[1], ss[2], ss[3], ss[4], ss[5]);
    AllTexts(ss);
  }

  lemma {:induction false} FirstText(s: Stmt, n: nat)
    requires n < HIGHEST && s == Declare("x", Some(Num(n)))
    ensures ShowStmt(s) == "int x=" + (ShowNat(n) + ";\n") && WritableStmt(s)
  {
    assert ShowStmt(s) == "int" + (" " + ("x" + ("=" + (ShowNat(n) + ";\n"))));
  }

  lemma {:induction false} OtherTexts(b: Stmt, c: Stmt, d: Stmt, e: Stmt, f: Stmt)
    requires b == Declare("y", None) && c == Assign("x", Bin(Add, Var("x"), Num(1)))
    requires d == Print(Var("y")) && e == Print(Var("x")) && f == Return(Some(Bin(Sub, Var("x"), Var("y"))))
    ensures ShowStmt(b) == "int y;\n" && WritableStmt(b)
    ensures ShowStmt(c) == "x=x+1;\n" && WritableStmt(c)
    ensures ShowStmt(d) == "print(y);\n" && WritableStmt(d)
    ensures ShowStmt(e) == "print(x);\n" && WritableStmt(e)
    ensures ShowStmt(f) == "return x-y;\n" && WritableStmt(f)
  {
    assert ShowNat(1) == "1";
    assert Show(c.e, 0) == "x+1";
    assert Show(f.result.value, 0) == "x-y";
    assert !IsKeyword("x") by {
      forall w: Keyword ensures "x" != Spell(w) {
        assert |Spell(w)| > 1;
      }
    }
  }

  lemma AllTexts(ss: seq<Stmt>)
    requires |ss| == 6 && forall k :: 0 <= k < 6 ==> WritableStmt(ss[k]) && (ss[k].Return? ==> k == 5)
    ensures ShowAll(ss) == ShowStmt(ss[0]) + (ShowStmt(ss[1]) + (ShowStmt(ss[2]) +
              (ShowStmt(ss[3]) + (ShowStmt(ss[4]) + (ShowStmt(ss[5]) + "")))))
    ensures WritableAll(ss)
  {
    var s1, s2, s3, s4, s5 := ss[1..], ss[2..], ss[3..], ss[4..], ss[5..];
    assert s1[1..] == s2 && s2[1..] == s3 && s3[1..] == s4 && s4[1..] == s5 && s5[1..] == [];
    assert ShowAll(s5) == ShowStmt(ss[5]) + "" && WritableAll(s5);
    assert ShowAll(s4) == ShowStmt(ss[4]) + ShowAll(s5) && WritableAll(s4);
    assert ShowAll(s3) == ShowStmt(ss[3]) + ShowAll(s4) && WritableAll(s3);
    assert ShowAll(s2) == ShowStmt(ss[2]) + ShowAll(s3) && WritableAll(s2);
    assert ShowAll(s1) == ShowStmt(ss[1]) + ShowAll(s2) && WritableAll(s1);
  }

  lemma SampleEffect(n: nat)
    requires n < HIGHEST
    ensures var r := Exec(Sample(n), map[]); r.ok && r.printed == [0, n + 1] && r.ret == n + 1
  {
    var ss := Sample(n);
    var v1: Store, v2: Store, v3: Store := map["x" := n], map["x" := n, "y" := 0], map["x" := n + 1, "y" := 0];
    assert ExecStmt(ss[0], map[]) == Outcome(true, v1, [], 0);
    assert ExecStmt(ss[1], v1) == Outcome(true, v2, [], 0);
    assert Eval(Var("x"), v2) == Some(n) && Eval(Num(1), v2) == Some(1);
    assert Eval(Bin(Add, Var("x"), Num(1)), v2) == Some(n + 1) && v2["x" := n + 1] == v3;
    assert ExecStmt(ss[2], v2) == Outcome(true, v3, [], 0);
    assert ExecStmt(ss[3], v3) == Outcome(true, v3, [0], 0);
    assert ExecStmt(ss[4], v3) == Outcome(true, v3, [n + 1], 0);
    assert ExecStmt(ss[5], v3) == Outcome(true, v3, [], n + 1);
    ExecInTurn(ss, v1, v2, v3, n);
  }

  lemma ExecInTurn(ss: seq<Stmt>, v1: Store, v2: Store, v3: Store, n: nat)
    requires n < HIGHEST && |ss| == 6 && forall k :: 0 <= k < 6 ==> (ss[k].Return? <==> k == 5)
    requires ExecStmt(ss[0], map[]) == Outcome(true, v1, [], 0) && ExecStmt(ss[1], v1) == Outcome(true, v2, [], 0)
    requires ExecStmt(ss[2], v2) == Outcome(true, v3, [], 0) && ExecStmt(ss[3], v3) == Outcome(true, v3, [0], 0)
    requires ExecStmt(ss[4], v3) == Outcome(true, v3, [n + 1], 0) && ExecStmt(ss[5], v3) == Outcome(true, v3, [], n + 1)
    ensures Exec(ss, map[]) == Outcome(true, v3, [0, n + 1], n + 1)
  {
    var s1, s2, s3, s4, s5 := ss[1..], ss[2..], ss[3..], ss[4..], ss[5..];
    assert s1[1..] == s2 && s2[1..] == s3 && s3[1..] == s4 && s4[1..] == s5;
    assert Exec(s5, v3) == Outcome(true, v3, [], n + 1);
    assert Exec(s4, v3) == Outcome(true, v3, [n + 1], n + 1);
    assert Exec(s3, v3) == Outcome(true, v3, [0, n + 1], n + 1);
    assert Exec(s2, v2) == Outcome(true, v3, [0, n + 1], n + 1);
    assert Exec(s1, v1) == Outcome(true, v3, [0, n + 1], n + 1);
  }

  // A program that divides by zero fails, whatever number is divided.
  lemma DivisionFails(t: CString, n: nat, result: Result, printed: seq<int64>)
    requires n <= HIGHEST && t == "int main() {\n" + ("print(" + (ShowNat(n) + "/0") + ");\n" + "}\n")
    ensures RunsAs(t, result, printed) <==> result == Failed
  {
    var e := Bin(Div, Num(n), Num(0));
    var ss := [Print(e)];
    QuotientText(e, n);
    assert ss[1..] == [] && ShowAll(ss) == ShowStmt(ss[0]) + "" && WritableAll(ss);
    assert Eval(e, map[]) == None;
    assert !Exec(ss, map[]).ok;
    ProgramRoundTrip(t, ss);
  }

  lemma {:induction false} QuotientText(e: Expr, n: nat)
    requires n <= HIGHEST && e == Bin(Div, Num(n), Num(0))
    ensures ShowStmt(Print(e)) == "print(" + (ShowNat(n) + "/0") + ");\n" && WritableStmt(Print(e))
  {
    assert ShowNat(0) == "0";
    assert Show(e, 0) == ShowNat(n) + "/0";
    assert ShowStmt(Print(e)) == "print" + ("(" + (Show(e, 0) + ");\n"));
  }
}
