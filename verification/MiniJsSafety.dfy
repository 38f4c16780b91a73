// Scripts that the browser never gives up: each name is declared by an earlier statement of the
// script itself (not only inside a body), every divisor is a number other than 0, and at most 32
// names are declared.
module MiniJsSafety {
  import opened Options
  import opened Sets
  import opened Int64
  import opened Expressions
  import opened MiniJsSyntax
  import opened MiniJsSemantics

  predicate Safe(e: Expr, names: set<string>) {
    match e
    case Num(_) => true
    case Var(x) => x in names
    case Neg(a) => Safe(a, names)
    case Bin(op, l, r) => (op == Div || op == Mod ==> r.Num? && r.n != 0) && Safe(l, names) && Safe(r, names)
  }

  predicate SafeCond(c: Cond, names: set<string>) {
    match c
    case Truth(e) => Safe(e, names)
    case Compare(_, l, r) => Safe(l, names) && Safe(r, names)
  }

  predicate SafeStmt(s: Stmt, names: set<string>) {
    match s
    case Empty => true
    case VarDecl(_, init) => init.Some? ==> Safe(init.value, names)
    case ShowText(_, _) => true
    case ShowValue(_, e) => Safe(e, names)
    case If(c, b) => SafeCond(c, names) && SafeBody(b, names)
    case While(c, b) => SafeCond(c, names) && SafeBody(b, names)
    case Assign(x, e) => x in names && Safe(e, names)
    case Evaluate(e) => Safe(e, names)
  }

  predicate SafeBody(b: Body, names: set<string>) {
    match b
    case Single(s) => SafeStmt(s, names)
    case Block(ss) => SafeAll(ss, names)
  }

  predicate SafeAll(ss: Stmts, names: set<string>) {
    ss.Then? ==> SafeStmt(ss.head, names) && SafeAll(ss.tail, names)
  }

  // At the level of the script, a declaration makes its name known to what follows.
  predicate SafeScript(ss: Stmts, names: set<string>) {
    ss.Then? ==>
      && SafeStmt(ss.head, names)
      && SafeScript(ss.tail, names + if ss.head.VarDecl? then {ss.head.name} else {})
  }

  function Declared(s: Stmt): set<string> {
    match s
    case VarDecl(x, _) => {x}
    case If(_, b) => DeclaredBody(b)
    case While(_, b) => DeclaredBody(b)
    case _ => {}
  }

  function DeclaredBody(b: Body): set<string> {
    match b
    case Single(s) => Declared(s)
    case Block(ss) => DeclaredAll(ss)
  }

  function DeclaredAll(ss: Stmts): set<string> {
    if ss.Done? then {} else Declared(ss.head) + DeclaredAll(ss.tail)
  }

  // The variables hold every known name, and no name beyond the at most 32 of the script.
  ghost predicate Room(vars: Store, names: set<string>, all: set<string>) {
    names <= vars.Keys <= all && |all| <= VAR_MAX
  }

  lemma {:induction false} SafeEval(e: Expr, vars: Store, names: set<string>)
    requires Safe(e, names) && names <= vars.Keys
    ensures Eval(e, vars).Some?
  {
    match e
    case Neg(a) => SafeEval(a, vars, names);
    case Bin(_, l, r) => SafeEval(l, vars, names); SafeEval(r, vars, names);
    case _ =>
  }

  lemma {:induction false} SafeEvalCond(c: Cond, vars: Store, names: set<string>)
    requires SafeCond(c, names) && names <= vars.Keys
    ensures EvalCond(c, vars).Some?
  {
    match c
    case Truth(e) => SafeEval(e, vars, names);
    case Compare(_, l, r) => SafeEval(l, vars, names); SafeEval(r, vars, names);
  }

  lemma {:induction false} SafeSkips(s: Stmt, vars: Store, names: set<string>)
    requires SafeStmt(s, names) && names <= vars.Keys
    ensures Skippable(s, vars)
    decreases s, 0
  {
    match s
    case VarDecl(_, init) => if init.Some? { SafeEval(init.value, vars, names); }
    case ShowValue(_, e) => SafeEval(e, vars, names);
    case If(c, b) => SafeEvalCond(c, vars, names); SafeSkipsBody(b, vars, names);
    case While(c, b) => SafeEvalCond(c, vars, names); SafeSkipsBody(b, vars, names);
    case Assign(_, e) => SafeEval(e, vars, names);
    case Evaluate(e) => SafeEval(e, vars, names);
    case _ =>
  }

  lemma {:induction false} SafeSkipsBody(b: Body, vars: Store, names: set<string>)
    requires SafeBody(b, names) && names <= vars.Keys
    ensures SkippableBody(b, vars)
    decreases b, 0
  {
    match b
    case Single(s) => SafeSkips(s, vars, names);
    case Block(ss) => SafeSkipsAll(ss, vars, names);
  }

  lemma {:induction false} SafeSkipsAll(ss: Stmts, vars: Store, names: set<string>)
    requires SafeAll(ss, names) && names <= vars.Keys
    ensures SkippableAll(ss, vars)
    decreases ss, 0
  {
    if ss.Then? {
      SafeSkips(ss.head, vars, names);
      SafeSkipsAll(ss.tail, vars, names);
    }
  }

  lemma DeclareInRoom(vars: Store, names: set<string>, all: set<string>, x: string, v: int64)
    requires Room(vars, names, all) && x in all
    ensures Room(Declare(vars, x, v), names + {x}, all)
  {
    if x !in vars {
      SubsetSize(vars.Keys + {x}, all);
      assert |vars.Keys + {x}| == |vars.Keys| + 1;
    }
  }

  lemma {:induction false} SafeRuns(s: Stmt, vars: Store, names: set<string>, all: set<string>)
    requires SafeStmt(s, names) && Room(vars, names, all) && Declared(s) <= all
    ensures var r := Exec(true, s, vars);
      r.ok && Room(r.vars, names + if s.VarDecl? then {s.name} else {}, all)
    decreases s, 0
  {
    match s
    case VarDecl(x, init) =>
      if init.Some? { SafeEval(init.value, vars, names); }
      DeclareInRoom(vars, names, all, x, if init.None? then 0 else Eval(init.value, vars).value);
    case ShowValue(_, e) => SafeEval(e, vars, names);
    case If(c, b) =>
      SafeEvalCond(c, vars, names);
      SafeSkipsBody(b, vars, names);
      SafeRunsBody(b, vars, names, all);
    case While(c, b) => SafeRunsLoop(c, b, vars, names, all, MAX_LAPS);
    case Assign(_, e) => SafeEval(e, vars, names);
    case Evaluate(e) => SafeEval(e, vars, names);
    case _ =>
  }

  lemma {:induction false} SafeRunsBody(b: Body, vars: Store, names: set<string>, all: set<string>)
    requires SafeBody(b, names) && Room(vars, names, all) && DeclaredBody(b) <= all
    ensures var r := ExecBody(true, b, vars); r.ok && Room(r.vars, names, all)
    decreases b, 0
  {
    match b
    case Single(s) => SafeRuns(s, vars, names, all);
    case Block(ss) => SafeRunsAll(ss, vars, names, all);
  }

  lemma {:induction false} SafeRunsAll(ss: Stmts, vars: Store, names: set<string>, all: set<string>)
    requires SafeAll(ss, names) && Room(vars, names, all) && DeclaredAll(ss) <= all
    ensures var r := ExecAll(true, ss, vars); r.ok && Room(r.vars, names, all)
    decreases ss, 0
  {
    if ss.Then? {
      SafeRuns(ss.head, vars, names, all);
      SafeRunsAll(ss.tail, Exec(true, ss.head, vars).vars, names, all);
    }
  }

  lemma {:induction false} SafeRunsLoop(c: Cond, b: Body, vars: Store, names: set<string>, all: set<string>, laps: nat)
    requires SafeCond(c, names) && SafeBody(b, names) && Room(vars, names, all) && DeclaredBody(b) <= all
    ensures var r := ExecLoop(true, c, b, vars, laps); r.ok && Room(r.vars, names, all)
    decreases b, 1, laps
  {
    if laps > 0 {
      SafeEvalCond(c, vars, names);
      SafeSkipsBody(b, vars, names);
      if EvalCond(c, vars) == Some(true) {
        SafeRunsBody(b, vars, names, all);
        SafeRunsLoop(c, b, ExecBody(true, b, vars).vars, names, all, laps - 1);
      }
    }
  }

  lemma {:induction false} SafeScriptRunsFrom(ss: Stmts, vars: Store, names: set<string>, all: set<string>)
    requires SafeScript(ss, names) && Room(vars, names, all) && DeclaredAll(ss) <= all
    ensures ExecAll(true, ss, vars).ok
    decreases ss
  {
    if ss.Then? {
      SafeRuns(ss.head, vars, names, all);
      SafeScriptRunsFrom(ss.tail, Exec(true, ss.head, vars).vars,
        names + if ss.head.VarDecl? then {ss.head.name} else {}, all);
    }
  }

  // A safe script is run to its end, and does what it ordinarily means.
  lemma SafeScriptRuns(ss: Stmts)
    requires SafeScript(ss, {}) && |DeclaredAll(ss)| <= VAR_MAX
    ensures ExecAll(true, ss, map[]).ok
    ensures ExecAll(true, ss, map[]) == ExecAll(false, ss, map[])
  {
    SafeScriptRunsFrom(ss, map[], {}, DeclaredAll(ss));
    StrictRefinesAll(ss, map[]);
  }
}
