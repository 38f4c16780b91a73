// The scripts of the browser: syntax trees, and the reading of a text as a tree.
//
// browser.cpp never builds a tree; it runs the text while scanning it.  These functions say which
// tree a text stands for, and where it ends, without running anything.
module MiniJsSyntax {
  import opened Options
  import opened Lexing
  import opened Expressions

  datatype Comparison = Eq | Ne | Le | Ge | Lt | Gt

  datatype Cond =
    | Truth(e: Expr)
    | Compare(op: Comparison, l: Expr, r: Expr)

  datatype Stmt =
    | Empty
    | VarDecl(name: string, init: Option<Expr>)
    | ShowText(alert: bool, text: string)
    | ShowValue(alert: bool, e: Expr)
    | If(cond: Cond, body: Body)
    | While(cond: Cond, body: Body)
    | Assign(name: string, e: Expr)
    | Evaluate(e: Expr)

  datatype Body = Single(s: Stmt) | Block(ss: Stmts)

  datatype Stmts = Done | Then(head: Stmt, tail: Stmts)

  const TEXT_MAX: nat := 127

  function ComparisonText(op: Comparison): CString {
    match op
    case Eq => "=="
    case Ne => "!="
    case Le => "<="
    case Ge => ">="
    case Lt => "<"
    case Gt => ">"
  }

  // The comparison operator at position i, if one stands there.
  function ComparisonAt(t: CString, i: nat): (op: Option<Comparison>)
    requires i <= |t|
    ensures op.Some? ==> i + |ComparisonText(op.value)| <= |t|
  {
    var c, e := At(t, i), At(t, i + 1);
    if c == '=' && e == '=' then Some(Eq)
    else if c == '!' && e == '=' then Some(Ne)
    else if c == '<' then Some(if e == '=' then Le else Lt)
    else if c == '>' then Some(if e == '=' then Ge else Gt)
    else None
  }

  function ParseCond(t: CString, i: nat): (p: Parsed<Cond>)
    requires i <= |t|
    ensures p.Ok? ==> i < p.end <= |t|
  {
    var a := ParseExpr(JS, t, i);
    if a.Bad? then Bad
    else
      var k := Skip(JS, t, a.end);
      var op := ComparisonAt(t, k);
      if op.None? then Ok(Truth(a.tree), k)
      else
        var b := ParseExpr(JS, t, k + |ComparisonText(op.value)|);
        if b.Bad? then Bad else Ok(Compare(op.value, a.tree, b.tree), b.end)
  }

  // A condition in brackets.
  function ParseGuard(t: CString, i: nat): (p: Parsed<Cond>)
    requires i <= |t|
    ensures p.Ok? ==> i < p.end <= |t|
  {
    var b := Skip(JS, t, i);
    if At(t, b) != '(' then Bad else ParseGuardRest(t, b + 1)
  }

  function ParseGuardRest(t: CString, i: nat): (p: Parsed<Cond>)
    requires i <= |t|
    ensures p.Ok? ==> i < p.end <= |t|
  {
    var c := ParseCond(t, i);
    if c.Bad? then Bad
    else
      var k := Skip(JS, t, c.end);
      if At(t, k) == ')' then Ok(c.tree, k + 1) else Bad
  }

  // The part of a declaration after `var`.
  function ParseVar(t: CString, i: nat): (p: Parsed<Stmt>)
    requires i <= |t|
    ensures p.Ok? ==> i <= p.end <= |t|
  {
    var b := Skip(JS, t, i);
    var k := NameEnd(t, b, JS.nameMax, false);
    ParseInit(t, k, Piece(t, b, k))
  }

  // The part behind the name.
  function ParseInit(t: CString, i: nat, x: string): (p: Parsed<Stmt>)
    requires i <= |t|
    ensures p.Ok? ==> i <= p.end <= |t|
  {
    var m := Skip(JS, t, i);
    if At(t, m) == '=' then
      var e := ParseExpr(JS, t, m + 1);
      if e.Bad? then Bad else Ok(VarDecl(x, Some(e.tree)), Skip(JS, t, e.end))
    else
      Ok(VarDecl(x, None), m)
  }

  // The end of the quoted text that starts at i: a quote, the end of the page, or a full buffer.
  function QuoteEnd(t: CString, i: nat, room: nat): (r: nat)
    requires i <= |t|
    ensures i <= r <= |t| && r <= i + room
    decreases |t| - i
  {
    if room > 0 && i < |t| && t[i] != '"' then QuoteEnd(t, i + 1, room - 1) else i
  }

  // The part of an output statement after `print` or `alert`.
  function ParseShow(t: CString, i: nat, alert: bool): (p: Parsed<Stmt>)
    requires i <= |t|
    ensures p.Ok? ==> i <= p.end <= |t|
  {
    var b := Skip(JS, t, i);
    if At(t, b) != '(' then Bad else ParseShown(t, b + 1, alert)
  }

  // The part behind the bracket.
  function ParseShown(t: CString, i: nat, alert: bool): (p: Parsed<Stmt>)
    requires i <= |t|
    ensures p.Ok? ==> i <= p.end <= |t|
  {
    var k := Skip(JS, t, i);
    if At(t, k) == '"' then ParseShowText(t, k + 1, alert) else ParseShowValue(t, k, alert)
  }

  function ParseShowText(t: CString, i: nat, alert: bool): (p: Parsed<Stmt>)
    requires i <= |t|
    ensures p.Ok? ==> i <= p.end <= |t|
  {
    var q := QuoteEnd(t, i, TEXT_MAX);
    ParseShowEnd(t, if At(t, q) == '"' then q + 1 else q, ShowText(alert, Piece(t, i, q)))
  }

  function ParseShowValue(t: CString, i: nat, alert: bool): (p: Parsed<Stmt>)
    requires i <= |t|
    ensures p.Ok? ==> i <= p.end <= |t|
  {
    var e := ParseExpr(JS, t, i);
    if e.Bad? then Bad else ParseShowEnd(t, e.end, ShowValue(alert, e.tree))
  }

  function ParseShowEnd(t: CString, i: nat, s: Stmt): (p: Parsed<Stmt>)
    requires i <= |t|
    ensures p.Ok? ==> i <= p.end <= |t|
  {
    var m := Skip(JS, t, i);
    if At(t, m) == ')' then Ok(s, Skip(JS, t, m + 1)) else Bad
  }

  // Whether an assignment starts at i: letters, and then a '=' that is not doubled.
  predicate AssignsAt(t: CString, i: nat)
    requires i <= |t|
  {
    var n := NameEnd(t, i, JS.nameMax, false);
    var k := Skip(JS, t, n);
    n > i && At(t, k) == '=' && At(t, k + 1) != '='
  }

  // An assignment, or else a bare expression.
  function ParseAssign(t: CString, i: nat): (p: Parsed<Stmt>)
    requires i <= |t|
    ensures p.Ok? ==> i < p.end <= |t|
  {
    if AssignsAt(t, i) then
      var n := NameEnd(t, i, JS.nameMax, false);
      ParseAssigned(t, Skip(JS, t, n) + 1, Piece(t, i, n))
    else
      ParseEvaluate(t, i)
  }

  // The part of an assignment after its '='.
  function ParseAssigned(t: CString, i: nat, x: string): (p: Parsed<Stmt>)
    requires i <= |t|
    ensures p.Ok? ==> i < p.end <= |t|
  {
    var e := ParseExpr(JS, t, i);
    if e.Bad? then Bad else Ok(Assign(x, e.tree), Skip(JS, t, e.end))
  }

  function ParseEvaluate(t: CString, i: nat): (p: Parsed<Stmt>)
    requires i <= |t|
    ensures p.Ok? ==> i < p.end <= |t|
  {
    var e := ParseExpr(JS, t, i);
    if e.Bad? then Bad else Ok(Evaluate(e.tree), Skip(JS, t, e.end))
  }

  function ParseStmt(t: CString, i: nat): (p: Parsed<Stmt>)
    requires i <= |t|
    ensures p.Ok? ==> Skip(JS, t, i) <= p.end <= |t|
    ensures p.Ok? && At(t, Skip(JS, t, i)) !in {'\0', '}'} ==> Skip(JS, t, i) < p.end
    decreases |t| - i, 2
  {
    var b := Skip(JS, t, i);
    if At(t, b) == '\0' || At(t, b) == '}' then Ok(Empty, b)
    else if KeywordAt(t, b, "var") then ParseVar(t, b + 3)
    else ParseNoVar(t, b)
  }

  // A statement that declares nothing.
  function ParseNoVar(t: CString, b: nat): (p: Parsed<Stmt>)
    requires b <= |t|
    ensures p.Ok? ==> b < p.end <= |t|
    decreases |t| - b, 1
  {
    if KeywordAt(t, b, "alert") then ParseShow(t, b + 5, true)
    else if KeywordAt(t, b, "print") then ParseShow(t, b + 5, false)
    else ParseControl(t, b)
  }

  // The statements that begin with none of the words above.
  function ParseControl(t: CString, b: nat): (p: Parsed<Stmt>)
    requires b <= |t|
    ensures p.Ok? ==> b < p.end <= |t|
    decreases |t| - b, 0
  {
    if KeywordAt(t, b, "if") then ParseIf(t, b + 2)
    else if KeywordAt(t, b, "while") then ParseWhile(t, b + 5)
    else ParseAssign(t, b)
  }

  // The part of a conditional after `if`.
  function ParseIf(t: CString, i: nat): (p: Parsed<Stmt>)
    requires i <= |t|
    ensures p.Ok? ==> i < p.end <= |t|
    decreases |t| - i, 0
  {
    var g := ParseGuard(t, i);
    if g.Bad? then Bad
    else
      var y := ParseBody(t, g.end);
      if y.Bad? then Bad else Ok(If(g.tree, y.tree), y.end)
  }

  // The part of a loop after `while`.
  function ParseWhile(t: CString, i: nat): (p: Parsed<Stmt>)
    requires i <= |t|
    ensures p.Ok? ==> i < p.end <= |t|
    decreases |t| - i, 0
  {
    var g := ParseGuard(t, i);
    if g.Bad? then Bad
    else
      var y := ParseBody(t, g.end);
      if y.Bad? then Bad else Ok(While(g.tree, y.tree), y.end)
  }

  function ParseBody(t: CString, i: nat): (p: Parsed<Body>)
    requires i <= |t|
    ensures p.Ok? ==> i <= p.end <= |t|
    decreases |t| - i, 4
  {
    var b := Skip(JS, t, i);
    if At(t, b) == '{' then
      var p := ParseBlock(t, b + 1);
      if p.Bad? then Bad else Ok(Block(p.tree), p.end)
    else
      var p := ParseStmt(t, b);
      if p.Bad? then Bad else Ok(Single(p.tree), p.end)
  }

  // The statements of a block whose '{' has been read, up to and including its '}'.
  function ParseBlock(t: CString, i: nat): (p: Parsed<Stmts>)
    requires i <= |t|
    ensures p.Ok? ==> i < p.end <= |t|
    decreases |t| - i, 3
  {
    var b := Skip(JS, t, i);
    if At(t, b) == '}' then Ok(Done, b + 1)
    else if At(t, b) == '\0' then Bad
    else
      SkipTwice(JS, t, i);
      var s := ParseStmt(t, b);
      if s.Bad? then Bad
      else
        var p := ParseBlock(t, s.end);
        if p.Bad? then Bad else Ok(Then(s.tree, p.tree), p.end)
  }

  // The statements of a script, up to the end of the text or to a '}' that belongs to none of them.
  function ParseScript(t: CString, i: nat): (p: Parsed<Stmts>)
    requires i <= |t|
    ensures p.Ok? ==> i <= p.end <= |t| && (p.end == |t| || t[p.end] == '}')
    decreases |t| - i
  {
    var b := Skip(JS, t, i);
    if b == |t| || t[b] == '}' then Ok(Done, b)
    else
      SkipTwice(JS, t, i);
      var s := ParseStmt(t, b);
      if s.Bad? then Bad
      else
        var p := ParseScript(t, s.end);
        if p.Bad? then Bad else Ok(Then(s.tree, p.tree), p.end)
  }

  // Blanks before a statement do not matter.
  lemma ParseStmtSkips(t: CString, i: nat)
    requires i <= |t|
    ensures ParseStmt(t, Skip(JS, t, i)) == ParseStmt(t, i)
  {
    SkipTwice(JS, t, i);
  }
}
