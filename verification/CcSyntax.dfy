// The programs of cc: syntax trees, and the reading of a text as a tree.
//
// cc.c has no tree either: it runs each statement as soon as it has scanned it.
module CcSyntax {
  import opened Options
  import opened Lexing
  import opened Expressions

  datatype Stmt =
    | Declare(name: string, init: Option<Expr>)
    | Print(e: Expr)
    | Return(result: Option<Expr>)
    | Assign(name: string, e: Expr)
    | Evaluate(e: Expr)

  // Either `int main() { ... }` or statements alone.
  datatype Program = Main(body: seq<Stmt>) | Bare(body: seq<Stmt>)

  function ParseSemicolon(t: CString, i: nat, s: Stmt): (p: Parsed<Stmt>)
    requires i <= |t|
    ensures p.Ok? ==> i < p.end <= |t|
  {
    var k := Skip(CC, t, i);
    if At(t, k) == ';' then Ok(s, k + 1) else Bad
  }

  // The part of a declaration after its name.
  function ParseInit(t: CString, i: nat, x: string): (p: Parsed<Stmt>)
    requires i <= |t|
    ensures p.Ok? ==> i < p.end <= |t|
  {
    var k := Skip(CC, t, i);
    if At(t, k) == '=' then
      var e := ParseExpr(CC, t, k + 1);
      if e.Bad? then Bad else ParseSemicolon(t, e.end, Declare(x, Some(e.tree)))
    else
      ParseSemicolon(t, k, Declare(x, None))
  }

  // The part of a declaration after `int`.
  function ParseDeclare(t: CString, i: nat): (p: Parsed<Stmt>)
    requires i <= |t|
    ensures p.Ok? ==> i < p.end <= |t|
  {
    var b := Skip(CC, t, i);
    if !IsLetter(At(t, b)) then Bad
    else
      var n := NameEnd(t, b, CC.nameMax, true);
      ParseInit(t, n, Piece(t, b, n))
  }

  // The part of an output statement after `print`.
  function ParsePrint(t: CString, i: nat): (p: Parsed<Stmt>)
    requires i <= |t|
    ensures p.Ok? ==> i < p.end <= |t|
  {
    var b := Skip(CC, t, i);
    if At(t, b) != '(' then Bad else ParsePrinted(t, b + 1)
  }

  // The part behind the bracket.
  function ParsePrinted(t: CString, i: nat): (p: Parsed<Stmt>)
    requires i <= |t|
    ensures p.Ok? ==> i < p.end <= |t|
  {
    var e := ParseExpr(CC, t, i);
    if e.Bad? then Bad
    else
      var k := Skip(CC, t, e.end);
      if At(t, k) != ')' then Bad else ParseSemicolon(t, k + 1, Print(e.tree))
  }

  // The part of a return statement after `return`.
  function ParseReturn(t: CString, i: nat): (p: Parsed<Stmt>)
    requires i <= |t|
    ensures p.Ok? ==> i < p.end <= |t|
  {
    var b := Skip(CC, t, i);
    if At(t, b) == ';' then Ok(Return(None), b + 1)
    else
      var e := ParseExpr(CC, t, b);
      if e.Bad? then Bad else ParseSemicolon(t, e.end, Return(Some(e.tree)))
  }

  // Whether an assignment starts at i: a name, and then a '=' that is not doubled.
  predicate AssignsAt(t: CString, i: nat)
    requires i <= |t|
  {
    && IsLetter(At(t, i))
    && var k := Skip(CC, t, NameEnd(t, i, CC.nameMax, true));
    && At(t, k) == '=' && At(t, k + 1) != '='
  }

  // The part of an assignment after its '='.
  function ParseAssigned(t: CString, i: nat, x: string): (p: Parsed<Stmt>)
    requires i <= |t|
    ensures p.Ok? ==> i < p.end <= |t|
  {
    var e := ParseExpr(CC, t, i);
    if e.Bad? then Bad else ParseSemicolon(t, e.end, Assign(x, e.tree))
  }

  function ParseEvaluate(t: CString, i: nat): (p: Parsed<Stmt>)
    requires i <= |t|
    ensures p.Ok? ==> i < p.end <= |t|
  {
    var e := ParseExpr(CC, t, i);
    if e.Bad? then Bad else ParseSemicolon(t, e.end, Evaluate(e.tree))
  }

  function ParseAssign(t: CString, i: nat): (p: Parsed<Stmt>)
    requires i <= |t|
    ensures p.Ok? ==> i < p.end <= |t|
  {
    if AssignsAt(t, i) then
      var n := NameEnd(t, i, CC.nameMax, true);
      ParseAssigned(t, Skip(CC, t, n) + 1, Piece(t, i, n))
    else
      ParseEvaluate(t, i)
  }

  // A statement that declares and prints nothing.
  function ParseOther(t: CString, b: nat): (p: Parsed<Stmt>)
    requires b <= |t|
    ensures p.Ok? ==> b < p.end <= |t|
  {
    if KeywordAt(t, b, "return") then ParseReturn(t, b + 6) else ParseAssign(t, b)
  }

  // A statement that declares nothing.
  function ParseNoDeclare(t: CString, b: nat): (p: Parsed<Stmt>)
    requires b <= |t|
    ensures p.Ok? ==> b < p.end <= |t|
  {
    if KeywordAt(t, b, "print") then ParsePrint(t, b + 5) else ParseOther(t, b)
  }

  // The statement whose first token stands at b.
  function ParseStmt(t: CString, b: nat): (p: Parsed<Stmt>)
    requires b <= |t|
    ensures p.Ok? ==> b < p.end <= |t|
  {
    if KeywordAt(t, b, "int") then ParseDeclare(t, b + 3) else ParseNoDeclare(t, b)
  }

  // Statements up to a '}', the end of the text, or the first return.
  function ParseBlock(t: CString, i: nat): (p: Parsed<seq<Stmt>>)
    requires i <= |t|
    ensures p.Ok? ==> i <= p.end <= |t|
    decreases |t| - i
  {
    var b := Skip(CC, t, i);
    if At(t, b) == '\0' || At(t, b) == '}' then Ok([], b)
    else
      var s := ParseStmt(t, b);
      if s.Bad? then Bad
      else if s.tree.Return? then Ok([s.tree], s.end)
      else
        var p := ParseBlock(t, s.end);
        if p.Bad? then Bad else Ok([s.tree] + p.tree, p.end)
  }

  // The position behind `int main() {` at the start of the text, if that is how it starts.
  function HeaderEnd(t: CString): (h: Option<nat>)
    ensures h.Some? ==> h.value <= |t|
  {
    var a := Skip(CC, t, 0);
    if !KeywordAt(t, a, "int") then None
    else
      var b := Skip(CC, t, a + 3);
      var n := NameEnd(t, b, CC.nameMax, true);
      if !IsLetter(At(t, b)) || Piece(t, b, n) != "main" then None else BracketsEnd(t, n)
  }

  // The position behind `() {`, if that comes next.
  function BracketsEnd(t: CString, i: nat): (h: Option<nat>)
    requires i <= |t|
    ensures h.Some? ==> h.value <= |t|
  {
    var c := Skip(CC, t, i);
    if At(t, c) != '(' then None
    else
      var d := Skip(CC, t, c + 1);
      if At(t, d) != ')' then None
      else
        var e := Skip(CC, t, d + 1);
        if At(t, e) != '{' then None else Some(e + 1)
  }

  function ParseProgram(t: CString): Option<Program> {
    var h := HeaderEnd(t);
    var p := ParseBlock(t, if h.Some? then h.value else 0);
    if p.Bad? then None
    else
      var k := Skip(CC, t, p.end);
      if h.Some? then (if At(t, k) == '}' then Some(Main(p.tree)) else None)
      else if k == |t| then Some(Bare(p.tree)) else None
  }
}
