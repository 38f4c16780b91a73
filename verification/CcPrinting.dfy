// Writing a program of cc as text, and reading that text back as the same program.
module CcPrinting {
  import opened Options
  import opened Int64
  import opened Lexing
  import opened Expressions
  import opened TextPieces
  import opened CcSyntax
  import opened CcSemantics
  import opened Cc

  datatype Keyword = IntWord | PrintWord | ReturnWord

  function Spell(w: Keyword): CString {
    match w
    case IntWord => "int"
    case PrintWord => "print"
    case ReturnWord => "return"
  }

  predicate IsKeyword(x: string) {
    exists w: Keyword :: x == Spell(w)
  }

  ghost predicate NoKeywordAt(t: CString, i: nat)
    requires i <= |t|
  {
    forall w: Keyword :: !KeywordAt(t, i, Spell(w))
  }

  const HEADER: CString := "int main() {\n"

  function ShowStmt(s: Stmt): string {
    match s
    case Declare(x, init) => Spell(IntWord) + (" " + (x + ShowInit(init)))
    case Print(e) => Spell(PrintWord) + ("(" + (Show(e, 0) + ");\n"))
    case Return(r) => Spell(ReturnWord) + (if r.None? then ";\n" else " " + (Show(r.value, 0) + ";\n"))
    case Assign(x, e) => x + ("=" + (Show(e, 0) + ";\n"))
    case Evaluate(e) => Show(e, 0) + ";\n"
  }

  function ShowInit(init: Option<Expr>): string {
    if init.None? then ";\n" else "=" + (Show(init.value, 0) + ";\n")
  }

  function ShowAll(ss: seq<Stmt>): string {
    if ss == [] then "" else ShowStmt(ss[0]) + ShowAll(ss[1..])
  }

  function ShowMain(ss: seq<Stmt>): string {
    HEADER + (ShowAll(ss) + "}\n")
  }

  predicate WritableStmt(s: Stmt) {
    match s
    case Declare(x, init) => IsName(CC, x, true) && (init.Some? ==> Writable(CC, init.value))
    case Print(e) => Writable(CC, e)
    case Return(r) => r.Some? ==> Writable(CC, r.value)
    case Assign(x, e) => IsName(CC, x, true) && !IsKeyword(x) && Writable(CC, e)
    case Evaluate(e) => Writable(CC, e) && !IsKeyword(Lead(e, 0))
  }

  // Nothing stands behind a return.
  predicate WritableAll(ss: seq<Stmt>) {
    ss != [] ==> WritableStmt(ss[0]) && WritableAll(ss[1..]) && (ss[0].Return? ==> |ss| == 1)
  }

  // ----- expressions -----

  lemma ExprEndsAt(t: CString, i: nat, m: nat, e: Expr)
    requires m < |t| && Stands(t, i, m, Show(e, 0)) && Writable(CC, e) && (t[m] == ')' || t[m] == ';')
    ensures ParseExpr(CC, t, i) == Ok(e, m) && Skip(CC, t, m) == m
  {
    ShowThenParse(CC, t, i, m, e);
  }

  // An expression that ends a statement.
  lemma ExprEndsStmt(t: CString, i: nat, j: nat, e: Expr)
    requires Stands(t, i, j, Show(e, 0) + ";\n") && Writable(CC, e)
    ensures i < j - 2 && ParseExpr(CC, t, i) == Ok(e, j - 2)
    ensures Skip(CC, t, j - 2) == j - 2 && t[j - 2] == ';' && t[j - 1] == '\n'
    ensures Skip(CC, t, i) == i && StartsToken(t[i])
  {
    Split(t, i, j, Show(e, 0), ";\n");
    Letters(t, j - 2, j, ";\n");
    ShowStarts(CC, e, 0);
    TokenIsNoBlank(CC, t, i);
    ExprEndsAt(t, i, j - 2, e);
  }

  // ----- statements -----

  lemma InitParses(t: CString, k: nat, j: nat, x: string, init: Option<Expr>)
    requires Stands(t, k, j, ShowInit(init)) && (init.Some? ==> Writable(CC, init.value))
    ensures k < |t| && !IsWordChar(t[k]) && 1 <= j && ParseInit(t, k, x) == Ok(Declare(x, init), j - 1)
  {
    if init.None? {
      Letters(t, k, j, ";\n");
      assert Skip(CC, t, k) == k;
    } else {
      Split(t, k, j, "=", Show(init.value, 0) + ";\n");
      assert Skip(CC, t, k) == k;
      ExprEndsStmt(t, k + 1, j, init.value);
    }
  }

  lemma DeclareParses(t: CString, i: nat, j: nat, x: string, init: Option<Expr>)
    requires Stands(t, i, j, " " + (x + ShowInit(init))) && WritableStmt(Declare(x, init))
    ensures 1 <= j && ParseDeclare(t, i) == Ok(Declare(x, init), j - 1)
  {
    Split(t, i, j, " ", x + ShowInit(init));
    var k := i + 1 + |x|;
    Split(t, i + 1, j, x, ShowInit(init));
    Letters(t, i + 1, k, x);
    PieceIs(t, i + 1, k, x);
    InitParses(t, k, j, x, init);
    NameEndIs(t, i + 1, k, CC.nameMax, true);
    assert Skip(CC, t, i) == i + 1;
  }

  lemma PrintParses(t: CString, i: nat, j: nat, e: Expr)
    requires Stands(t, i, j, "(" + (Show(e, 0) + ");\n")) && Writable(CC, e)
    ensures 1 <= j && ParsePrint(t, i) == Ok(Print(e), j - 1)
  {
    Split(t, i, j, "(", Show(e, 0) + ");\n");
    Split(t, i + 1, j, Show(e, 0), ");\n");
    Letters(t, j - 3, j, ");\n");
    ExprEndsAt(t, i + 1, j - 3, e);
    assert Skip(CC, t, i) == i && Skip(CC, t, j - 2) == j - 2;
  }

  lemma ReturnParses(t: CString, i: nat, j: nat, r: Option<Expr>)
    requires Stands(t, i, j, if r.None? then ";\n" else " " + (Show(r.value, 0) + ";\n"))
    requires r.Some? ==> Writable(CC, r.value)
    ensures 1 <= j && ParseReturn(t, i) == Ok(Return(r), j - 1)
  {
    if r.None? {
      Letters(t, i, j, ";\n");
      assert Skip(CC, t, i) == i;
    } else {
      Split(t, i, j, " ", Show(r.value, 0) + ";\n");
      ExprEndsStmt(t, i + 1, j, r.value);
      assert Skip(CC, t, i) == i + 1;
    }
  }

  // No keyword stands where another word does.
  lemma NoKeyword(t: CString, i: nat, n: nat, x: string)
    requires Stands(t, i, n, x) && IsName(CC, x, true) && !IsKeyword(x)
    requires n < |t| && !IsWordChar(t[n])
    ensures NoKeywordAt(t, i)
  {
    forall w: Keyword ensures !KeywordAt(t, i, Spell(w)) {
      SpellIsWord(w);
      OtherWord(t, i, n, x, Spell(w));
    }
  }

  lemma SpellIsWord(w: Keyword)
    ensures forall k :: 0 <= k < |Spell(w)| ==> IsWordChar(Spell(w)[k])
  {
  }

  lemma AssignParses(t: CString, i: nat, j: nat, x: string, e: Expr)
    requires Stands(t, i, j, ShowStmt(Assign(x, e))) && WritableStmt(Assign(x, e))
    ensures 1 <= j && ParseAssign(t, i) == Ok(Assign(x, e), j - 1)
    ensures NoKeywordAt(t, i)
  {
    Split(t, i, j, x, "=" + (Show(e, 0) + ";\n"));
    var n := i + |x|;
    Split(t, n, j, "=", Show(e, 0) + ";\n");
    NoKeyword(t, i, n, x);
    AssignEnds(t, i, n, j, x, e);
  }

  lemma AssignEnds(t: CString, i: nat, n: nat, j: nat, x: string, e: Expr)
    requires i < n < j <= |t| && Stands(t, i, n, x) && IsName(CC, x, true) && t[n] == '='
    requires Stands(t, n + 1, j, Show(e, 0) + ";\n") && Writable(CC, e)
    ensures 1 <= j && ParseAssign(t, i) == Ok(Assign(x, e), j - 1)
  {
    PieceIs(t, i, n, x);
    Letters(t, i, n, x);
    NameEndIs(t, i, n, CC.nameMax, true);
    ExprEndsStmt(t, n + 1, j, e);
    assert Skip(CC, t, n) == n;
  }

  lemma EvaluateParses(t: CString, i: nat, j: nat, e: Expr)
    requires Stands(t, i, j, ShowStmt(Evaluate(e))) && WritableStmt(Evaluate(e))
    ensures 1 <= j && ParseAssign(t, i) == Ok(Evaluate(e), j - 1)
    ensures NoKeywordAt(t, i)
  {
    ExprEndsStmt(t, i, j, e);
    Split(t, i, j, Show(e, 0), ";\n");
    var m := LeadStands(CC, t, i, j - 2, e, 0);
    NoAssignment(t, i, m, Lead(e, 0));
    if m > i {
      NoKeyword(t, i, m, Lead(e, 0));
    } else {
      FirstLetters(t, i);
    }
  }

  // A name with no '=' behind it does not begin an assignment.
  lemma NoAssignment(t: CString, i: nat, m: nat, x: string)
    requires m < |t| && Stands(t, i, m, x) && (if m == i then !IsLetter(t[i]) else IsName(CC, x, true))
    requires m > i ==> !IsWordChar(t[m]) && Skip(CC, t, m) == m && t[m] != '='
    ensures !AssignsAt(t, i)
  {
    if m > i {
      Letters(t, i, m, x);
      NameEndIs(t, i, m, CC.nameMax, true);
    }
  }

  lemma FirstLetters(t: CString, i: nat)
    requires i <= |t|
    ensures forall w: Keyword :: KeywordAt(t, i, Spell(w)) ==> At(t, i) == Spell(w)[0]
  {
    forall w: Keyword | KeywordAt(t, i, Spell(w)) ensures At(t, i) == Spell(w)[0] {
    }
  }

  // The statement that begins with a keyword is the keyword's.
  lemma KeywordDecides(t: CString, i: nat, w: Keyword)
    requires i <= |t| && KeywordAt(t, i, Spell(w))
    ensures ParseStmt(t, i) ==
      match w case IntWord => ParseDeclare(t, i + 3) case PrintWord => ParsePrint(t, i + 5) case ReturnWord => ParseReturn(t, i + 6)
  {
    FirstLetters(t, i);
    assert w != IntWord ==> !KeywordAt(t, i, Spell(IntWord));
    assert w == ReturnWord ==> !KeywordAt(t, i, Spell(PrintWord));
  }

  lemma NoKeywordDecides(t: CString, i: nat)
    requires i <= |t| && NoKeywordAt(t, i)
    ensures ParseStmt(t, i) == ParseAssign(t, i)
  {
    assert !KeywordAt(t, i, Spell(IntWord)) && !KeywordAt(t, i, Spell(PrintWord)) && !KeywordAt(t, i, Spell(ReturnWord));
  }

  lemma WordParses(t: CString, i: nat, j: nat, w: Keyword, rest: string)
    requires Stands(t, i, j, Spell(w) + rest) && |rest| > 0 && !IsWordChar(rest[0])
    ensures i + |Spell(w)| <= j && Stands(t, i + |Spell(w)|, j, rest)
    ensures ParseStmt(t, i) ==
      match w case IntWord => ParseDeclare(t, i + 3) case PrintWord => ParsePrint(t, i + 5) case ReturnWord => ParseReturn(t, i + 6)
  {
    KeywordStands(CC, t, i, j, Spell(w), rest);
    KeywordDecides(t, i, w);
  }

  lemma StmtParses(t: CString, i: nat, j: nat, s: Stmt)
    requires Stands(t, i, j, ShowStmt(s)) && WritableStmt(s)
    ensures 1 <= j && ParseStmt(t, i) == Ok(s, j - 1)
  {
    match s
    case Assign(x, e) =>
      AssignParses(t, i, j, x, e);
      NoKeywordDecides(t, i);
    case Evaluate(e) =>
      EvaluateParses(t, i, j, e);
      NoKeywordDecides(t, i);
    case _ => KeywordStmtParses(t, i, j, s);
  }

  lemma KeywordStmtParses(t: CString, i: nat, j: nat, s: Stmt)
    requires Stands(t, i, j, ShowStmt(s)) && WritableStmt(s) && (s.Declare? || s.Print? || s.Return?)
    ensures 1 <= j && ParseStmt(t, i) == Ok(s, j - 1)
  {
    if s.Declare? {
      WordParses(t, i, j, IntWord, " " + (s.name + ShowInit(s.init)));
      DeclareParses(t, i + 3, j, s.name, s.init);
    } else if s.Print? {
      WordParses(t, i, j, PrintWord, "(" + (Show(s.e, 0) + ");\n"));
      PrintParses(t, i + 5, j, s.e);
    } else {
      WordParses(t, i, j, ReturnWord, if s.result.None? then ";\n" else " " + (Show(s.result.value, 0) + ";\n"));
      ReturnParses(t, i + 6, j, s.result);
    }
  }

  lemma StmtStarts(t: CString, i: nat, j: nat, s: Stmt)
    requires Stands(t, i, j, ShowStmt(s)) && WritableStmt(s)
    ensures i < j && StartsToken(t[i]) && t[j - 1] == '\n' && Skip(CC, t, i) == i
  {
    var r := ShowStmt(s);
    if s.Evaluate? { ShowStarts(CC, s.e, 0); }
    Letters(t, i, j, r);
    assert StartsToken(r[0]);
    assert r[|r| - 1] == '\n' by { ShowStmtEnds(s); }
  }

  lemma ShowStmtEnds(s: Stmt)
    ensures |ShowStmt(s)| > 0 && ShowStmt(s)[|ShowStmt(s)| - 1] == '\n'
  {
  }

  // A statement, its newline, and the rest of the block.
  lemma BlockReads(t: CString, i: nat, m: nat, s: Stmt)
    requires i < m <= |t| && Skip(CC, t, i) == i && StartsToken(t[i]) && t[m - 1] == '\n'
    requires ParseStmt(t, i) == Ok(s, m - 1)
    ensures Skip(CC, t, m - 1) == Skip(CC, t, m)
    ensures ParseBlock(t, i) ==
      if s.Return? then Ok([s], m - 1)
      else
        var p := ParseBlock(t, m);
        if p.Bad? then Bad else Ok([s] + p.tree, p.end)
  {
    NewlineIsBlank(t, m);
  }

  lemma NewlineIsBlank(t: CString, m: nat)
    requires 0 < m <= |t| && t[m - 1] == '\n'
    ensures Skip(CC, t, m - 1) == Skip(CC, t, m) && ParseBlock(t, m - 1) == ParseBlock(t, m)
  {
  }

  predicate BlockIs(t: CString, i: nat, ss: seq<Stmt>, j: nat)
    requires i <= |t|
  {
    var p := ParseBlock(t, i);
    p.Ok? && p.tree == ss && Skip(CC, t, p.end) == j
  }

  lemma BlockGoesOn(t: CString, i: nat, m: nat, s: Stmt, rest: seq<Stmt>, j: nat)
    requires i < m <= j < |t| && Skip(CC, t, i) == i && StartsToken(t[i]) && t[m - 1] == '\n' && t[j] == '}'
    requires ParseStmt(t, i) == Ok(s, m - 1) && BlockIs(t, m, rest, j)
    requires s.Return? ==> rest == [] && m == j
    ensures BlockIs(t, i, [s] + rest, j)
  {
    BlockReads(t, i, m, s);
  }

  lemma StmtComesFirst(t: CString, i: nat, j: nat, s: Stmt, rest: string) returns (m: nat)
    requires Stands(t, i, j, ShowStmt(s) + rest) && WritableStmt(s)
    ensures i < m <= j && Skip(CC, t, i) == i && StartsToken(t[i]) && t[m - 1] == '\n'
    ensures ParseStmt(t, i) == Ok(s, m - 1) && Stands(t, m, j, rest)
  {
    Split(t, i, j, ShowStmt(s), rest);
    m := i + |ShowStmt(s)|;
    StmtStarts(t, i, m, s);
    StmtParses(t, i, m, s);
  }

  lemma {:induction false} BlockParses(t: CString, i: nat, j: nat, ss: seq<Stmt>)
    requires j < |t| && Stands(t, i, j, ShowAll(ss)) && WritableAll(ss) && t[j] == '}'
    ensures BlockIs(t, i, ss, j)
    decreases |ss|
  {
    if ss != [] {
      var s, rest := ss[0], ss[1..];
      FirstShown(ss);
      var m := StmtComesFirst(t, i, j, s, ShowAll(rest));
      BlockParses(t, m, j, rest);
      BlockGoesOn(t, i, m, s, rest, j);
    }
  }

  lemma FirstShown(ss: seq<Stmt>)
    requires ss != []
    ensures ss == [ss[0]] + ss[1..] && ShowAll(ss) == ShowStmt(ss[0]) + ShowAll(ss[1..])
  {
  }

  lemma HeaderParses(t: CString, rest: string)
    requires t == HEADER + rest
    ensures HeaderEnd(t) == Some(12) && |t| > 12 && t[12] == '\n'
  {
    assert t[..13] == HEADER;
    assert t[0..3] == "int" && t[4..8] == "main";
    assert t[3] == ' ' && t[8] == '(' && t[9] == ')' && t[10] == ' ' && t[11] == '{' && t[12] == '\n';
    assert Skip(CC, t, 0) == 0 && Skip(CC, t, 3) == 4;
    NameEndIs(t, 4, 8, CC.nameMax, true);
    PieceIsSlice(t, 4, 8);
    assert Skip(CC, t, 8) == 8 && Skip(CC, t, 9) == 9 && Skip(CC, t, 10) == 11;
  }

  lemma ProgramReads(t: CString, j: nat, ss: seq<Stmt>)
    requires HeaderEnd(t) == Some(12) && 13 <= j < |t| && t[12] == '\n' && t[j] == '}' && BlockIs(t, 13, ss, j)
    ensures ParseProgram(t) == Some(Main(ss))
  {
    assert Skip(CC, t, 12) == Skip(CC, t, 13);
    assert ParseBlock(t, 12) == ParseBlock(t, 13);
  }

  // A program written as text is read back as itself.
  lemma ProgramRoundTrip(t: CString, ss: seq<Stmt>)
    requires t == ShowMain(ss) && WritableAll(ss)
    ensures ParseProgram(t) == Some(Main(ss))
  {
    HeaderParses(t, ShowAll(ss) + "}\n");
    var j := 13 + |ShowAll(ss)|;
    MainStands(t, j, ShowAll(ss));
    BlockParses(t, 13, j, ss);
    ProgramReads(t, j, ss);
  }

  lemma MainStands(t: CString, j: nat, body: string)
    requires t == HEADER + (body + "}\n") && j == 13 + |body|
    ensures j < |t| && t[j] == '}' && Stands(t, 13, j, body)
  {
    assert t[13..j] == body;
    IsSlice(t, 13, j, body);
  }

  // Running the text of a program prints what the program prints, and ends with its exit code.
  method RunPrinted(ss: seq<Stmt>) returns (result: Result, printed: seq<int64>)
    requires WritableAll(ss) && '\0' !in ShowMain(ss)
    ensures var r := Exec(ss, map[]);
      if r.ok then result == Exit(r.ret) && printed == r.printed else result == Failed
  {
    var t: CString := ShowMain(ss);
    ProgramRoundTrip(t, ss);
    result, printed := CcRun(t);
  }
}
