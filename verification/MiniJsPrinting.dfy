// Writing a script as text, and reading that text back as the same tree.
module MiniJsPrinting {
  import opened Options
  import opened Lexing
  import opened Expressions
  import opened TextPieces
  import opened MiniJsSyntax

  datatype Keyword = VarWord | AlertWord | PrintWord | IfWord | WhileWord

  function Spell(w: Keyword): CString {
    match w
    case VarWord => "var"
    case AlertWord => "alert"
    case PrintWord => "print"
    case IfWord => "if"
    case WhileWord => "while"
  }

  predicate IsKeyword(x: string) {
    exists w: Keyword :: x == Spell(w)
  }

  // No keyword stands at i.
  ghost predicate NoKeywordAt(t: CString, i: nat)
    requires i <= |t|
  {
    forall w: Keyword :: !KeywordAt(t, i, Spell(w))
  }

  function OutputWord(alert: bool): CString {
    Spell(if alert then AlertWord else PrintWord)
  }

  function ShowCond(c: Cond): string {
    match c
    case Truth(e) => Show(e, 0)
    case Compare(op, l, r) => Show(l, 0) + (ComparisonText(op) + Show(r, 0))
  }

  function ShowStmt(s: Stmt): string {
    match s
    case Empty => ""
    case VarDecl(x, init) => "var" + (" " + (x + ShowInit(init)))
    case ShowText(a, text) => OutputWord(a) + ("(\"" + (text + "\");\n"))
    case ShowValue(a, e) => OutputWord(a) + ("(" + (Show(e, 0) + ");\n"))
    case If(c, b) => "if" + ShowControl(c, ShowBody(b))
    case While(c, b) => "while" + ShowControl(c, ShowBody(b))
    case Assign(x, e) => x + ("=" + (Show(e, 0) + ";\n"))
    case Evaluate(e) => Show(e, 0) + ";\n"
  }

  function ShowInit(init: Option<Expr>): string {
    if init.None? then ";\n" else "=" + (Show(init.value, 0) + ";\n")
  }

  function ShowControl(c: Cond, body: string): string {
    "(" + (ShowCond(c) + (")" + body))
  }

  function ShowBody(b: Body): string {
    match b
    case Single(s) => ShowStmt(s)
    case Block(ss) => "{\n" + (ShowAll(ss) + "}\n")
  }

  function ShowAll(ss: Stmts): string {
    if ss.Done? then "" else ShowStmt(ss.head) + ShowAll(ss.tail)
  }

  // ----- what can be written -----

  predicate WritableCond(c: Cond) {
    match c
    case Truth(e) => Writable(JS, e)
    case Compare(_, l, r) => Writable(JS, l) && Writable(JS, r)
  }

  // A bare expression may not begin with '-', which would continue the statement before it, nor
  // with a keyword; and names in declarations and assignments hold no digits.
  predicate WritableStmt(s: Stmt) {
    match s
    case Empty => false
    case VarDecl(x, init) => IsName(JS, x, false) && (init.Some? ==> Writable(JS, init.value))
    case ShowText(_, text) => |text| <= TEXT_MAX && '"' !in text && '\0' !in text
    case ShowValue(_, e) => Writable(JS, e)
    case If(c, b) => WritableCond(c) && WritableBody(b)
    case While(c, b) => WritableCond(c) && WritableBody(b)
    case Assign(x, e) => IsName(JS, x, false) && !IsKeyword(x) && Writable(JS, e)
    case Evaluate(e) => Writable(JS, e) && Show(e, 0)[..1] != "-" && !IsKeyword(Lead(e, 0))
  }

  predicate WritableBody(b: Body) {
    match b
    case Single(s) => WritableStmt(s)
    case Block(ss) => WritableAll(ss)
  }

  predicate WritableAll(ss: Stmts) {
    ss.Then? ==> WritableStmt(ss.head) && WritableAll(ss.tail)
  }

  // What may stand behind a statement.
  predicate Boundary(t: CString, j: nat)
    requires j <= |t|
  {
    var c := At(t, Skip(JS, t, j));
    !SumSign(c) && !ProductSign(c) && c != '='
  }

  // ";\n" ends a statement: both characters are blanks.
  lemma Semicolon(t: CString, m: nat, j: nat)
    requires Stands(t, m, j, ";\n")
    ensures j == m + 2 && At(t, m) == ';' && Skip(JS, t, m) == Skip(JS, t, j)
  {
    Letters(t, m, j, ";\n");
  }

  // ----- expressions and conditions -----

  // An expression that ends a statement.
  lemma ExprEndsStmt(t: CString, i: nat, j: nat, e: Expr)
    requires Stands(t, i, j, Show(e, 0) + ";\n") && Writable(JS, e) && Boundary(t, j)
    ensures ParseExpr(JS, t, i) == Ok(e, Skip(JS, t, j))
  {
    Split(t, i, j, Show(e, 0), ";\n");
    var m := i + |Show(e, 0)|;
    Semicolon(t, m, j);
    ShowThenParse(JS, t, i, m, e);
  }

  // An expression that a bracket or a comparison ends.
  lemma ExprEndsAt(t: CString, i: nat, m: nat, e: Expr)
    requires m < |t| && Stands(t, i, m, Show(e, 0)) && Writable(JS, e)
    requires t[m] in {')', '=', '!', '<', '>'}
    ensures ParseExpr(JS, t, i) == Ok(e, m) && Skip(JS, t, m) == m
  {
    ShowThenParse(JS, t, i, m, e);
  }

  lemma CondParses(t: CString, i: nat, j: nat, c: Cond)
    requires j < |t| && Stands(t, i, j, ShowCond(c)) && t[j] == ')' && WritableCond(c)
    ensures ParseCond(t, i) == Ok(c, j)
  {
    match c
    case Truth(e) =>
      ExprEndsAt(t, i, j, e);
    case Compare(op, l, r) =>
      CompareParses(t, i, j, op, l, r);
  }

  lemma CompareParses(t: CString, i: nat, j: nat, op: Comparison, l: Expr, r: Expr)
    requires j < |t| && Stands(t, i, j, ShowCond(Compare(op, l, r))) && t[j] == ')' && WritableCond(Compare(op, l, r))
    ensures ParseCond(t, i) == Ok(Compare(op, l, r), j)
  {
    var m := ComparisonStands(t, i, j, op, l, r);
    ExprEndsAt(t, i, m, l);
    ExprEndsAt(t, m + |ComparisonText(op)|, j, r);
    CompareReads(t, i, m, j, op, l, r);
  }

  lemma CompareReads(t: CString, i: nat, m: nat, j: nat, op: Comparison, l: Expr, r: Expr)
    requires i <= m <= m + |ComparisonText(op)| <= |t| && ParseExpr(JS, t, i) == Ok(l, m) && Skip(JS, t, m) == m
    requires ComparisonAt(t, m) == Some(op) && ParseExpr(JS, t, m + |ComparisonText(op)|) == Ok(r, j)
    ensures ParseCond(t, i) == Ok(Compare(op, l, r), j)
  {
  }

  lemma ComparisonStands(t: CString, i: nat, j: nat, op: Comparison, l: Expr, r: Expr) returns (m: nat)
    requires Stands(t, i, j, Show(l, 0) + (ComparisonText(op) + Show(r, 0))) && Writable(JS, r)
    ensures m < |t| && Stands(t, i, m, Show(l, 0)) && t[m] in {'=', '!', '<', '>'}
    ensures m + |ComparisonText(op)| <= j && Stands(t, m + |ComparisonText(op)|, j, Show(r, 0))
    ensures ComparisonAt(t, m) == Some(op)
  {
    var a, o, b := Show(l, 0), ComparisonText(op), Show(r, 0);
    Split(t, i, j, a, o + b);
    m := i + |a|;
    Split(t, m, j, o, b);
    ShowStarts(JS, r, 0);
    Letters(t, m, m + |o|, o);
  }

  lemma GuardParses(t: CString, i: nat, j: nat, c: Cond, rest: string) returns (k: nat)
    requires Stands(t, i, j, "(" + (ShowCond(c) + (")" + rest))) && WritableCond(c)
    ensures k + |rest| == j && Stands(t, k, j, rest) && ParseGuard(t, i) == Ok(c, k)
  {
    var s := ShowCond(c);
    k := BracketsStand(t, i, j, s, rest);
    CondParses(t, i + 1, k - 1, c);
    GuardReads(t, i, k, c);
  }

  lemma BracketsStand(t: CString, i: nat, j: nat, s: string, rest: string) returns (k: nat)
    requires Stands(t, i, j, "(" + (s + (")" + rest)))
    ensures k + |rest| == j && Stands(t, k, j, rest) && i + 1 < k && At(t, i) == '(' && t[k - 1] == ')'
    ensures Stands(t, i + 1, k - 1, s)
  {
    Split(t, i, j, "(", s + (")" + rest));
    Split(t, i + 1, j, s, ")" + rest);
    k := i + 1 + |s| + 1;
    Split(t, k - 1, j, ")", rest);
  }

  lemma GuardReads(t: CString, i: nat, k: nat, c: Cond)
    requires i + 1 < k <= |t| && t[i] == '(' && t[k - 1] == ')' && ParseCond(t, i + 1) == Ok(c, k - 1)
    ensures ParseGuard(t, i) == Ok(c, k)
  {
  }

  // ----- statements -----

  lemma InitParses(t: CString, k: nat, j: nat, x: string, init: Option<Expr>)
    requires Stands(t, k, j, ShowInit(init)) && Boundary(t, j) && (init.Some? ==> Writable(JS, init.value))
    ensures !IsWordChar(At(t, k)) && ParseInit(t, k, x) == Ok(VarDecl(x, init), Skip(JS, t, j))
  {
    SkipTwice(JS, t, j);
    if init.None? {
      Semicolon(t, k, j);
    } else {
      Split(t, k, j, "=", Show(init.value, 0) + ";\n");
      ExprEndsStmt(t, k + 1, j, init.value);
    }
  }

  lemma VarParses(t: CString, i: nat, j: nat, x: string, init: Option<Expr>)
    requires Stands(t, i, j, " " + (x + ShowInit(init)))
    requires WritableStmt(VarDecl(x, init)) && Boundary(t, j)
    ensures ParseVar(t, i) == Ok(VarDecl(x, init), Skip(JS, t, j))
  {
    var k := NameStands(t, i, j, x, ShowInit(init));
    InitParses(t, k, j, x, init);
    NameEndIs(t, i + 1, k, JS.nameMax, false);
    PieceIs(t, i + 1, k, x);
    NameReads(t, i, k, x);
  }

  lemma NameReads(t: CString, i: nat, k: nat, x: string)
    requires i < k <= |t| && Skip(JS, t, i) == i + 1
    requires NameEnd(t, i + 1, JS.nameMax, false) == k && Piece(t, i + 1, k) == x
    ensures ParseVar(t, i) == ParseInit(t, k, x)
  {
  }

  lemma NameStands(t: CString, i: nat, j: nat, x: string, rest: string) returns (k: nat)
    requires Stands(t, i, j, " " + (x + rest)) && IsName(JS, x, false)
    ensures i + 1 < k <= j && k - (i + 1) <= JS.nameMax && Stands(t, i + 1, k, x) && Stands(t, k, j, rest) && Skip(JS, t, i) == i + 1
    ensures forall q :: i + 1 <= q < k ==> IsLetter(t[q])
  {
    Split(t, i, j, " ", x + rest);
    k := i + 1 + |x|;
    Split(t, i + 1, j, x, rest);
    Letters(t, i + 1, k, x);
  }

  lemma {:induction false} QuoteEndIs(t: CString, i: nat, j: nat, room: nat)
    requires i <= j < |t| && j - i <= room && t[j] == '"'
    requires forall k :: i <= k < j ==> t[k] != '"'
    ensures QuoteEnd(t, i, room) == j
    decreases j - i
  {
    if i < j {
      QuoteEndIs(t, i + 1, j, room - 1);
    }
  }

  lemma ShowEndParses(t: CString, m: nat, j: nat, s: Stmt)
    requires Stands(t, m, j, ");\n")
    ensures ParseShowEnd(t, m, s) == Ok(s, Skip(JS, t, j))
  {
    Split(t, m, j, ")", ";\n");
    Semicolon(t, m + 1, j);
  }

  lemma ShowTextParses(t: CString, i: nat, j: nat, a: bool, s: string)
    requires Stands(t, i, j, "(\"" + (s + "\");\n")) && WritableStmt(ShowText(a, s))
    ensures ParseShow(t, i, a) == Ok(ShowText(a, s), Skip(JS, t, j))
  {
    Split(t, i, j, "(\"", s + "\");\n");
    Letters(t, i, i + 2, "(\"");
    QuoteParses(t, i + 2, j, a, s);
  }

  lemma QuoteParses(t: CString, i: nat, j: nat, a: bool, s: string)
    requires Stands(t, i, j, s + "\");\n") && WritableStmt(ShowText(a, s))
    ensures ParseShowText(t, i, a) == Ok(ShowText(a, s), Skip(JS, t, j))
  {
    Split(t, i, j, s, "\");\n");
    var q := i + |s|;
    Split(t, q, j, "\"", ");\n");
    Letters(t, i, q, s);
    QuoteEndIs(t, i, q, TEXT_MAX);
    QuoteEnds(t, i, q, j, a, s);
  }

  lemma QuoteEnds(t: CString, i: nat, q: nat, j: nat, a: bool, s: string)
    requires q < j <= |t| && Stands(t, i, q, s) && t[q] == '"' && QuoteEnd(t, i, TEXT_MAX) == q && Stands(t, q + 1, j, ");\n")
    ensures ParseShowText(t, i, a) == Ok(ShowText(a, s), Skip(JS, t, j))
  {
    PieceIs(t, i, q, s);
    ShowEndParses(t, q + 1, j, ShowText(a, s));
  }

  lemma ShowValueParses(t: CString, i: nat, j: nat, a: bool, e: Expr)
    requires Stands(t, i, j, "(" + (Show(e, 0) + ");\n")) && WritableStmt(ShowValue(a, e))
    ensures ParseShow(t, i, a) == Ok(ShowValue(a, e), Skip(JS, t, j))
  {
    var s := Show(e, 0);
    Split(t, i, j, "(", s + ");\n");
    ShownParses(t, i + 1, j, a, e);
  }

  lemma ShownParses(t: CString, i: nat, j: nat, a: bool, e: Expr)
    requires Stands(t, i, j, Show(e, 0) + ");\n") && Writable(JS, e)
    ensures Skip(JS, t, i) == i && At(t, i) != '"' && ParseShowValue(t, i, a) == Ok(ShowValue(a, e), Skip(JS, t, j))
  {
    var s := Show(e, 0);
    Split(t, i, j, s, ");\n");
    ShowStarts(JS, e, 0);
    TokenIsNoBlank(JS, t, i);
    ExprEndsAt(t, i, i + |s|, e);
    ShowEndParses(t, i + |s|, j, ShowValue(a, e));
  }

  // The text of a bare expression, and the name m that it begins with, if any.
  lemma EvaluateStands(t: CString, i: nat, j: nat, e: Expr) returns (m: nat, n: nat)
    requires Stands(t, i, j, ShowStmt(Evaluate(e))) && WritableStmt(Evaluate(e))
    ensures i <= m <= n <= j && i < n && Skip(JS, t, n) == Skip(JS, t, j) && Stands(t, i, m, Lead(e, 0))
    ensures m == i ==> !IsLetter(t[i])
    ensures m > i ==> IsName(JS, Lead(e, 0), true) && !IsWordChar(At(t, m))
    ensures i < m < n ==> Skip(JS, t, m) == m && t[m] != '='
    ensures StartsToken(t[i])
  {
    var s := Show(e, 0);
    Split(t, i, j, s, ";\n");
    n := i + |s|;
    Semicolon(t, n, j);
    ShowStarts(JS, e, 0);
    m := LeadStands(JS, t, i, n, e, 0);
  }

  // A bare expression is not mistaken for an assignment.
  lemma EvaluateParses(t: CString, i: nat, j: nat, e: Expr)
    requires Stands(t, i, j, ShowStmt(Evaluate(e))) && WritableStmt(Evaluate(e)) && Boundary(t, j)
    ensures ParseAssign(t, i) == Ok(Evaluate(e), Skip(JS, t, j))
  {
    var m, n := EvaluateStands(t, i, j, e);
    NoAssignment(t, i, m, n, Lead(e, 0));
    ExprEndsStmt(t, i, j, e);
    SkipTwice(JS, t, j);
  }

  lemma EvaluateNoKeyword(t: CString, i: nat, j: nat, e: Expr)
    requires Stands(t, i, j, ShowStmt(Evaluate(e))) && WritableStmt(Evaluate(e))
    ensures Skip(JS, t, i) == i && NoKeywordAt(t, i) && At(t, i) !in {'\0', '}'}
  {
    var m, n := EvaluateStands(t, i, j, e);
    TokenIsNoBlank(JS, t, i);
    forall w: Keyword ensures !KeywordAt(t, i, Spell(w)) {
      if m > i {
        SpellIsWord(w);
        OtherWord(t, i, m, Lead(e, 0), Spell(w));
      } else {
        FirstLetters(t, i);
      }
    }
  }

  lemma NoAssignment(t: CString, i: nat, m: nat, n: nat, x: string)
    requires m <= n <= |t| && Stands(t, i, m, x)
    requires m == i ==> i < n && !IsLetter(t[i])
    requires m > i ==> IsName(JS, x, true) && !IsWordChar(At(t, m))
    requires i < m < n ==> Skip(JS, t, m) == m && t[m] != '='
    requires At(t, Skip(JS, t, n)) != '='
    ensures !AssignsAt(t, i)
  {
    var k := NameEnd(t, i, JS.nameMax, false);
    if m > i {
      Letters(t, i, m, x);
      NameEndBefore(t, i, m, JS.nameMax);
    }
  }

  // Letters of a name do not go beyond the name, and stop before a digit of it.
  lemma {:induction false} NameEndBefore(t: CString, i: nat, m: nat, room: nat)
    requires i <= m <= |t| && m - i <= room && !IsWordChar(At(t, m))
    requires forall q :: i <= q < m ==> IsWordChar(t[q])
    ensures var k := NameEnd(t, i, room, false);
      k <= m && (k < m ==> IsDigit(t[k]) && Skip(JS, t, k) == k)
    decreases m - i
  {
    if i < m && IsLetter(t[i]) {
      NameEndBefore(t, i + 1, m, room - 1);
    }
  }

  lemma AssignParses(t: CString, i: nat, j: nat, x: string, e: Expr)
    requires Stands(t, i, j, ShowStmt(Assign(x, e))) && WritableStmt(Assign(x, e)) && Boundary(t, j)
    ensures ParseAssign(t, i) == Ok(Assign(x, e), Skip(JS, t, j))
    ensures Skip(JS, t, i) == i && NoKeywordAt(t, i)
    ensures At(t, i) !in {'\0', '}'}
  {
    var n := TargetStands(t, i, j, x, e);
    TargetReads(t, i, n, x);
    ExprEndsStmt(t, n + 1, j, e);
    AssignReads(t, i, n, j, x, e);
  }

  lemma AssignReads(t: CString, i: nat, n: nat, j: nat, x: string, e: Expr)
    requires i < n < |t| && j <= |t| && t[n] == '=' && At(t, n + 1) != '='
    requires NameEnd(t, i, JS.nameMax, false) == n && Piece(t, i, n) == x && ParseExpr(JS, t, n + 1) == Ok(e, Skip(JS, t, j))
    ensures ParseAssign(t, i) == Ok(Assign(x, e), Skip(JS, t, j))
  {
    SkipTwice(JS, t, j);
  }

  lemma TargetStands(t: CString, i: nat, j: nat, x: string, e: Expr) returns (n: nat)
    requires Stands(t, i, j, ShowStmt(Assign(x, e))) && WritableStmt(Assign(x, e))
    ensures i < n < j && Stands(t, i, n, x) && t[n] == '=' && At(t, n + 1) != '=' && Stands(t, n + 1, j, Show(e, 0) + ";\n")
  {
    ShowStarts(JS, e, 0);
    n := EqualsStands(t, i, j, x, Show(e, 0) + ";\n");
  }

  lemma EqualsStands(t: CString, i: nat, j: nat, x: string, rest: string) returns (n: nat)
    requires Stands(t, i, j, x + ("=" + rest)) && rest != "" && rest[0] != '='
    ensures n == i + |x| && Stands(t, i, n, x) && At(t, n) == '=' && At(t, n + 1) != '=' && Stands(t, n + 1, j, rest)
  {
    n := i + |x|;
    Split(t, i, j, x, "=" + rest);
    Split(t, n, j, "=", rest);
  }

  // A name that an assignment may begin with.
  lemma TargetReads(t: CString, i: nat, n: nat, x: string)
    requires Stands(t, i, n, x) && IsName(JS, x, false) && !IsKeyword(x) && At(t, n) == '='
    ensures NameEnd(t, i, JS.nameMax, false) == n && Piece(t, i, n) == x && IsLetter(At(t, i)) && Skip(JS, t, i) == i
    ensures NoKeywordAt(t, i)
  {
    PieceIs(t, i, n, x);
    Letters(t, i, n, x);
    NameEndIs(t, i, n, JS.nameMax, false);
    forall w: Keyword ensures !KeywordAt(t, i, Spell(w)) {
      SpellIsWord(w);
      OtherWord(t, i, n, x, Spell(w));
    }
  }

  lemma SpellIsWord(w: Keyword)
    ensures forall k :: 0 <= k < |Spell(w)| ==> IsWordChar(Spell(w)[k])
  {
  }

  // ----- the round trip -----

  // Where the tree of a statement that starts at i ends, up to blanks.
  ghost predicate ReadsStmt(t: CString, i: nat, j: nat, s: Stmt)
    requires i <= |t| && j <= |t|
  {
    var p := ParseStmt(t, i);
    p.Ok? && p.tree == s && Skip(JS, t, p.end) == Skip(JS, t, j)
  }

  ghost predicate ReadsBody(t: CString, i: nat, j: nat, b: Body)
    requires i <= |t| && j <= |t|
  {
    var p := ParseBody(t, i);
    p.Ok? && p.tree == b && Skip(JS, t, p.end) == Skip(JS, t, j)
  }

  lemma VarDeclParses(t: CString, i: nat, j: nat, x: string, init: Option<Expr>)
    requires Stands(t, i, j, "var" + (" " + (x + ShowInit(init)))) && WritableStmt(VarDecl(x, init)) && Boundary(t, j)
    ensures ParseStmt(t, i) == Ok(VarDecl(x, init), Skip(JS, t, j))
  {
    VarWordStands(t, i, j, " " + (x + ShowInit(init)));
    VarParses(t, i + 3, j, x, init);
    VarWordDecides(t, i);
  }

  lemma VarWordStands(t: CString, i: nat, j: nat, rest: string)
    requires Stands(t, i, j, "var" + rest) && |rest| > 0 && rest[0] == ' '
    ensures KeywordAt(t, i, "var") && Skip(JS, t, i) == i && Stands(t, i + 3, j, rest)
  {
    KeywordStands(JS, t, i, j, Spell(VarWord), rest);
  }

  lemma VarWordDecides(t: CString, i: nat)
    requires i <= |t| && KeywordAt(t, i, "var") && Skip(JS, t, i) == i
    ensures ParseStmt(t, i) == ParseVar(t, i + 3)
  {
  }

  lemma OutputParses(t: CString, i: nat, j: nat, a: bool, rest: string, s: Stmt)
    requires Stands(t, i, j, OutputWord(a) + rest) && |rest| > 0 && rest[0] == '('
    requires Stands(t, i + 5, j, rest) ==> ParseShow(t, i + 5, a) == Ok(s, Skip(JS, t, j))
    ensures ParseStmt(t, i) == Ok(s, Skip(JS, t, j))
  {
    KeywordStands(JS, t, i, j, OutputWord(a), rest);
    OutputReads(t, i, a);
  }

  lemma OutputReads(t: CString, i: nat, a: bool)
    requires i <= |t| && Skip(JS, t, i) == i && KeywordAt(t, i, OutputWord(a))
    ensures ParseStmt(t, i) == ParseShow(t, i + 5, a)
  {
    OneKeyword(t, i, if a then AlertWord else PrintWord);
    assert !KeywordAt(t, i, Spell(VarWord));
    NoVarWord(t, i);
    OutputWordDecides(t, i, a);
  }

  lemma OutputWordDecides(t: CString, i: nat, a: bool)
    requires i <= |t| && KeywordAt(t, i, if a then "alert" else "print")
    ensures ParseNoVar(t, i) == ParseShow(t, i + 5, a)
  {
    OneKeyword(t, i, if a then AlertWord else PrintWord);
    assert !a ==> !KeywordAt(t, i, Spell(AlertWord));
  }

  lemma SimpleParses(t: CString, i: nat, j: nat, s: Stmt)
    requires Stands(t, i, j, ShowStmt(s)) && WritableStmt(s) && Boundary(t, j) && !s.If? && !s.While?
    ensures ParseStmt(t, i) == Ok(s, Skip(JS, t, j))
  {
    match s
    case VarDecl(x, init) =>
      VarDeclParses(t, i, j, x, init);
    case ShowText(a, text) =>
      var rest := "(\"" + (text + "\");\n");
      if Stands(t, i + 5, j, rest) {
        ShowTextParses(t, i + 5, j, a, text);
      }
      OutputParses(t, i, j, a, rest, s);
    case ShowValue(a, e) =>
      var rest := "(" + (Show(e, 0) + ");\n");
      if Stands(t, i + 5, j, rest) {
        ShowValueParses(t, i + 5, j, a, e);
      }
      OutputParses(t, i, j, a, rest, s);
    case Assign(x, e) =>
      AssignParses(t, i, j, x, e);
      NoKeyword(t, i);
    case Evaluate(e) =>
      EvaluateParses(t, i, j, e);
      EvaluateNoKeyword(t, i, j, e);
      NoKeyword(t, i);
  }

  // The five keywords begin with different letters.
  lemma OneKeyword(t: CString, i: nat, w: Keyword)
    requires i <= |t| && KeywordAt(t, i, Spell(w))
    ensures forall other: Keyword :: other != w ==> !KeywordAt(t, i, Spell(other))
    ensures At(t, i) == Spell(w)[0]
  {
    FirstLetters(t, i);
  }

  lemma FirstLetters(t: CString, i: nat)
    requires i <= |t|
    ensures forall w: Keyword :: KeywordAt(t, i, Spell(w)) ==> At(t, i) == Spell(w)[0]
  {
    forall w: Keyword | KeywordAt(t, i, Spell(w)) ensures At(t, i) == Spell(w)[0] {
    }
  }

  lemma NoKeyword(t: CString, i: nat)
    requires i <= |t| && Skip(JS, t, i) == i && At(t, i) !in {'\0', '}'}
    requires NoKeywordAt(t, i)
    ensures ParseStmt(t, i) == ParseAssign(t, i)
  {
    NotThisWord(t, i, VarWord);
    NoVarWord(t, i);
    AssignsOnly(t, i);
  }

  lemma AssignsOnly(t: CString, i: nat)
    requires i <= |t| && NoKeywordAt(t, i)
    ensures ParseNoVar(t, i) == ParseAssign(t, i)
  {
    NotThisWord(t, i, AlertWord);
    NotThisWord(t, i, PrintWord);
    NoOutputWord(t, i);
    NoControlWord(t, i);
  }

  lemma NotThisWord(t: CString, i: nat, w: Keyword)
    requires i <= |t| && NoKeywordAt(t, i)
    ensures !KeywordAt(t, i, Spell(w))
  {
  }

  lemma NoVarWord(t: CString, i: nat)
    requires i <= |t| && Skip(JS, t, i) == i && At(t, i) !in {'\0', '}'}
    requires !KeywordAt(t, i, "var")
    ensures ParseStmt(t, i) == ParseNoVar(t, i)
  {
  }

  lemma NoOutputWord(t: CString, i: nat)
    requires i <= |t| && !KeywordAt(t, i, "alert") && !KeywordAt(t, i, "print")
    ensures ParseNoVar(t, i) == ParseControl(t, i)
  {
  }

  lemma NoControlWord(t: CString, i: nat)
    requires i <= |t| && NoKeywordAt(t, i)
    ensures ParseControl(t, i) == ParseAssign(t, i)
  {
    NotThisWord(t, i, IfWord);
    NotThisWord(t, i, WhileWord);
  }

  lemma IfReads(t: CString, i: nat)
    requires i <= |t| && Skip(JS, t, i) == i && KeywordAt(t, i, "if")
    ensures ParseStmt(t, i) == ParseIf(t, i + 2)
  {
    OneKeyword(t, i, IfWord);
    ControlWordDecides(t, i, IfWord);
  }

  lemma WhileReads(t: CString, i: nat)
    requires i <= |t| && Skip(JS, t, i) == i && KeywordAt(t, i, "while")
    ensures ParseStmt(t, i) == ParseWhile(t, i + 5)
  {
    OneKeyword(t, i, WhileWord);
    ControlWordDecides(t, i, WhileWord);
    assert !KeywordAt(t, i, Spell(IfWord));
  }

  lemma ControlWordDecides(t: CString, i: nat, w: Keyword)
    requires i <= |t| && Skip(JS, t, i) == i && At(t, i) !in {'\0', '}'} && (w == IfWord || w == WhileWord)
    requires forall other: Keyword :: other != w ==> !KeywordAt(t, i, Spell(other))
    ensures ParseStmt(t, i) == ParseControl(t, i)
  {
    assert !KeywordAt(t, i, Spell(VarWord));
    NoVarWord(t, i);
    assert !KeywordAt(t, i, Spell(AlertWord)) && !KeywordAt(t, i, Spell(PrintWord));
    NoOutputWord(t, i);
  }

  lemma IfEnds(t: CString, i: nat, k: nat, j: nat, c: Cond, b: Body)
    requires i + 2 <= |t| && k <= |t| && j <= |t| && ParseGuard(t, i + 2) == Ok(c, k)
    requires ParseStmt(t, i) == ParseIf(t, i + 2) && ReadsBody(t, k, j, b)
    ensures ReadsStmt(t, i, j, If(c, b))
  {
  }

  lemma WhileEnds(t: CString, i: nat, k: nat, j: nat, c: Cond, b: Body)
    requires i + 5 <= |t| && k <= |t| && j <= |t| && ParseGuard(t, i + 5) == Ok(c, k)
    requires ParseStmt(t, i) == ParseWhile(t, i + 5) && ReadsBody(t, k, j, b)
    ensures ReadsStmt(t, i, j, While(c, b))
  {
  }

  // Where the body of a conditional or loop stands.
  lemma BodyStands(t: CString, i: nat, j: nat, s: Stmt) returns (k: nat)
    requires Stands(t, i, j, ShowStmt(s)) && WritableStmt(s) && (s.If? || s.While?)
    ensures Stands(t, k, j, ShowBody(s.body)) && WritableBody(s.body)
  {
    match s
    case If(c, b) =>
      KeywordStands(JS, t, i, j, Spell(IfWord), ShowControl(c, ShowBody(b)));
      k := BracketsStand(t, i + 2, j, ShowCond(c), ShowBody(b));
    case While(c, b) =>
      KeywordStands(JS, t, i, j, Spell(WhileWord), ShowControl(c, ShowBody(b)));
      k := BracketsStand(t, i + 5, j, ShowCond(c), ShowBody(b));
  }

  lemma ControlParses(t: CString, i: nat, k: nat, j: nat, s: Stmt)
    requires Stands(t, i, j, ShowStmt(s)) && WritableStmt(s) && (s.If? || s.While?)
    requires k <= |t| && k + |ShowBody(s.body)| == j && ReadsBody(t, k, j, s.body)
    ensures ReadsStmt(t, i, j, s)
  {
    match s
    case If(c, b) => IfParses(t, i, k, j, c, b);
    case While(c, b) => WhileParses(t, i, k, j, c, b);
  }

  lemma IfBegins(t: CString, i: nat, k: nat, j: nat, c: Cond, b: Body)
    requires Stands(t, i, j, "if" + ShowControl(c, ShowBody(b))) && WritableCond(c) && k + |ShowBody(b)| == j
    ensures i + 2 <= |t| && k <= |t| && ParseGuard(t, i + 2) == Ok(c, k) && ParseStmt(t, i) == ParseIf(t, i + 2)
  {
    IfGuard(t, i, k, j, c, b);
    IfReads(t, i);
  }

  lemma IfGuard(t: CString, i: nat, k: nat, j: nat, c: Cond, b: Body)
    requires Stands(t, i, j, "if" + ShowControl(c, ShowBody(b))) && WritableCond(c) && k + |ShowBody(b)| == j
    ensures i + 2 <= |t| && k <= |t| && Skip(JS, t, i) == i && KeywordAt(t, i, "if") && ParseGuard(t, i + 2) == Ok(c, k)
  {
    KeywordStands(JS, t, i, j, Spell(IfWord), ShowControl(c, ShowBody(b)));
    var _ := GuardParses(t, i + 2, j, c, ShowBody(b));
  }

  lemma WhileBegins(t: CString, i: nat, k: nat, j: nat, c: Cond, b: Body)
    requires Stands(t, i, j, "while" + ShowControl(c, ShowBody(b))) && WritableCond(c) && k + |ShowBody(b)| == j
    ensures i + 5 <= |t| && k <= |t| && ParseGuard(t, i + 5) == Ok(c, k) && ParseStmt(t, i) == ParseWhile(t, i + 5)
  {
    WhileGuard(t, i, k, j, c, b);
    WhileReads(t, i);
  }

  lemma WhileGuard(t: CString, i: nat, k: nat, j: nat, c: Cond, b: Body)
    requires Stands(t, i, j, "while" + ShowControl(c, ShowBody(b))) && WritableCond(c) && k + |ShowBody(b)| == j
    ensures i + 5 <= |t| && k <= |t| && Skip(JS, t, i) == i && KeywordAt(t, i, "while") && ParseGuard(t, i + 5) == Ok(c, k)
  {
    KeywordStands(JS, t, i, j, Spell(WhileWord), ShowControl(c, ShowBody(b)));
    var _ := GuardParses(t, i + 5, j, c, ShowBody(b));
  }

  lemma IfParses(t: CString, i: nat, k: nat, j: nat, c: Cond, b: Body)
    requires Stands(t, i, j, "if" + ShowControl(c, ShowBody(b))) && WritableCond(c)
    requires k <= |t| && k + |ShowBody(b)| == j && ReadsBody(t, k, j, b)
    ensures ReadsStmt(t, i, j, If(c, b))
  {
    IfBegins(t, i, k, j, c, b);
    IfEnds(t, i, k, j, c, b);
  }

  lemma WhileParses(t: CString, i: nat, k: nat, j: nat, c: Cond, b: Body)
    requires Stands(t, i, j, "while" + ShowControl(c, ShowBody(b))) && WritableCond(c)
    requires k <= |t| && k + |ShowBody(b)| == j && ReadsBody(t, k, j, b)
    ensures ReadsStmt(t, i, j, While(c, b))
  {
    WhileBegins(t, i, k, j, c, b);
    WhileEnds(t, i, k, j, c, b);
  }

  lemma {:induction false} StmtParses(t: CString, i: nat, j: nat, s: Stmt)
    requires Stands(t, i, j, ShowStmt(s)) && WritableStmt(s) && Boundary(t, j)
    ensures ReadsStmt(t, i, j, s)
    decreases s
  {
    if s.If? || s.While? {
      var k := BodyStands(t, i, j, s);
      BodyParses(t, k, j, s.body);
      ControlParses(t, i, k, j, s);
    } else {
      SimpleReads(t, i, j, s);
    }
  }

  lemma SimpleReads(t: CString, i: nat, j: nat, s: Stmt)
    requires Stands(t, i, j, ShowStmt(s)) && WritableStmt(s) && Boundary(t, j) && !s.If? && !s.While?
    ensures ReadsStmt(t, i, j, s)
  {
    SimpleParses(t, i, j, s);
    SkipTwice(JS, t, j);
  }

  lemma {:induction false} BodyParses(t: CString, i: nat, j: nat, b: Body)
    requires Stands(t, i, j, ShowBody(b)) && WritableBody(b) && Boundary(t, j)
    ensures ReadsBody(t, i, j, b)
    decreases b
  {
    match b
    case Single(s) =>
      StmtParses(t, i, j, s);
      StmtStarts(t, i, j, s);
      SingleReads(t, i, j, s);
    case Block(ss) =>
      BracesStand(t, i, j, ss);
      BlockParses(t, i + 2, j - 2, ss);
      BracesRead(t, i, j, ss);
  }

  lemma SingleReads(t: CString, i: nat, j: nat, s: Stmt)
    requires i <= |t| && j <= |t| && At(t, Skip(JS, t, i)) != '{' && ReadsStmt(t, i, j, s)
    ensures ReadsBody(t, i, j, Single(s))
  {
    ParseStmtSkips(t, i);
  }

  lemma BracesStand(t: CString, i: nat, j: nat, ss: Stmts)
    requires Stands(t, i, j, ShowBody(Block(ss)))
    ensures i + 2 <= j - 2 && t[i] == '{' && t[i + 1] == '\n' && t[j - 2] == '}' && t[j - 1] == '\n'
    ensures Stands(t, i + 2, j - 2, ShowAll(ss))
  {
    var body := ShowAll(ss);
    Split(t, i, j, "{\n", body + "}\n");
    Letters(t, i, i + 2, "{\n");
    Split(t, i + 2, j, body, "}\n");
    Letters(t, j - 2, j, "}\n");
  }

  lemma BracesRead(t: CString, i: nat, j: nat, ss: Stmts)
    requires i + 4 <= j <= |t| && t[i] == '{' && t[i + 1] == '\n' && t[j - 2] == '}' && t[j - 1] == '\n'
    requires ParseBlock(t, i + 2) == Ok(ss, j - 1)
    ensures ReadsBody(t, i, j, Block(ss))
  {
    assert Skip(JS, t, i + 1) == Skip(JS, t, i + 2);
    assert Skip(JS, t, j - 1) == Skip(JS, t, j);
    assert ParseBlock(t, i + 1) == ParseBlock(t, i + 2);
  }

  // A statement does not begin like a block.
  lemma StmtStarts(t: CString, i: nat, j: nat, s: Stmt)
    requires Stands(t, i, j, ShowStmt(s)) && WritableStmt(s)
    ensures Skip(JS, t, i) == i && At(t, i) !in {'{', '}', '\0'} && !SumSign(At(t, i)) && !ProductSign(At(t, i)) && At(t, i) != '='
  {
    if s.Evaluate? { ShowStarts(JS, s.e, 0); }
    assert t[i] == ShowStmt(s)[0] by { Letters(t, i, j, ShowStmt(s)); }
  }

  // Other statements, a '}' or the end of the text may stand behind a statement.
  lemma RestIsBoundary(t: CString, m: nat, j: nat, ss: Stmts)
    requires Stands(t, m, j, ShowAll(ss)) && WritableAll(ss) && At(t, j) in {'}', '\0'}
    ensures Boundary(t, m)
  {
    if ss.Then? {
      Split(t, m, j, ShowStmt(ss.head), ShowAll(ss.tail));
      StmtStarts(t, m, m + |ShowStmt(ss.head)|, ss.head);
    }
  }

  lemma {:induction false} BlockParses(t: CString, i: nat, j: nat, ss: Stmts)
    requires j < |t| && Stands(t, i, j, ShowAll(ss)) && WritableAll(ss) && t[j] == '}'
    ensures ParseBlock(t, i) == Ok(ss, j + 1)
    decreases ss
  {
    if ss.Then? {
      Split(t, i, j, ShowStmt(ss.head), ShowAll(ss.tail));
      var m := i + |ShowStmt(ss.head)|;
      BlockParses(t, m, j, ss.tail);
      StmtStarts(t, i, m, ss.head);
      RestIsBoundary(t, m, j, ss.tail);
      StmtParses(t, i, m, ss.head);
      StmtInBlock(t, i, m, ss.head);
    }
  }

  // A statement of a block has been read, up to blanks.
  lemma StmtInBlock(t: CString, i: nat, m: nat, s: Stmt)
    requires i <= |t| && m <= |t| && Skip(JS, t, i) == i && At(t, i) !in {'}', '\0'} && ReadsStmt(t, i, m, s)
    ensures ParseBlock(t, i) == var p := ParseBlock(t, m); if p.Bad? then Bad else Ok(Then(s, p.tree), p.end)
  {
    assert ParseBlock(t, ParseStmt(t, i).end) == ParseBlock(t, m);
  }

  lemma StmtInScript(t: CString, i: nat, m: nat, s: Stmt)
    requires i <= |t| && m <= |t| && Skip(JS, t, i) == i && At(t, i) !in {'}', '\0'} && ReadsStmt(t, i, m, s)
    ensures ParseScript(t, i) == var p := ParseScript(t, m); if p.Bad? then Bad else Ok(Then(s, p.tree), p.end)
  {
    assert ParseScript(t, ParseStmt(t, i).end) == ParseScript(t, m);
  }

  lemma {:induction false} ScriptParsesFrom(t: CString, i: nat, j: nat, ss: Stmts)
    requires Stands(t, i, j, ShowAll(ss)) && WritableAll(ss) && At(t, j) in {'}', '\0'}
    ensures ParseScript(t, i) == Ok(ss, j)
    decreases ss
  {
    if ss.Then? {
      Split(t, i, j, ShowStmt(ss.head), ShowAll(ss.tail));
      var m := i + |ShowStmt(ss.head)|;
      ScriptParsesFrom(t, m, j, ss.tail);
      StmtStarts(t, i, m, ss.head);
      RestIsBoundary(t, m, j, ss.tail);
      StmtParses(t, i, m, ss.head);
      StmtInScript(t, i, m, ss.head);
    }
  }

  // A script written as text is read back as itself, also where a '}' that belongs to nothing
  // stands behind it.
  lemma ScriptRoundTrip(t: CString, ss: Stmts, rest: string)
    requires t == ShowAll(ss) + rest && WritableAll(ss) && (rest == "" || rest[0] == '}')
    ensures ParseScript(t, 0) == Ok(ss, |ShowAll(ss)|)
  {
    var j := |ShowAll(ss)|;
    IsSlice(t, 0, j, ShowAll(ss));
    ScriptParsesFrom(t, 0, j, ss);
  }
}
