// What a script does: its effect on the variables and on the page.
module MiniJsSemantics {
  import opened Options
  import opened Int64
  import opened Lexing
  import opened Expressions
  import opened MiniJsSyntax

  // A line of text on the page, or a message in the status bar.
  datatype Event = Line(text: string) | Status(text: string)

  // ok: nothing went wrong.  Otherwise vars and out are those reached when it did.
  datatype Outcome = Outcome(ok: bool, vars: Store, out: seq<Event>)

  const VAR_MAX: nat := 32
  const MAX_LAPS: nat := 200

  function Prepend(out: seq<Event>, r: Outcome): Outcome {
    r.(out := out + r.out)
  }

  function Holds(op: Comparison, a: int64, b: int64): bool {
    match op
    case Eq => a == b
    case Ne => a != b
    case Le => a <= b
    case Ge => a >= b
    case Lt => a < b
    case Gt => a > b
  }

  // a is n below b.
  predicate Below(a: int, n: nat, b: int) { n > 0 && a + n == b }

  // The comparisons are those of the integers.
  lemma ComparisonsAreOrder(a: int64, b: int64)
    ensures Holds(Lt, a, b) <==> exists n :: Below(a, n, b)
    ensures Holds(Gt, a, b) <==> exists n :: Below(b, n, a)
    ensures Holds(Ge, a, b) <==> !exists n :: Below(a, n, b)
    ensures Holds(Le, a, b) <==> !exists n :: Below(b, n, a)
    ensures Holds(Eq, a, b) <==> !(exists n :: Below(a, n, b)) && !exists n :: Below(b, n, a)
    ensures Holds(Ne, a, b) <==> !Holds(Eq, a, b)
  {
    var x: int, y: int := a, b;
    if x < y {
      assert Below(x, y - x, y);
    } else if y < x {
      assert Below(y, x - y, x);
    }
  }

  function EvalCond(c: Cond, vars: Store): Option<bool> {
    match c
    case Truth(e) =>
      var v := Eval(e, vars);
      if v.None? then None else Some(v.value != 0)
    case Compare(op, l, r) =>
      var a, b := Eval(l, vars), Eval(r, vars);
      if a.None? || b.None? then None else Some(Holds(op, a.value, b.value))
  }

  // A declaration beyond the 32nd name is dropped.
  function Declare(vars: Store, x: string, v: int64): Store {
    if x in vars || |vars| < VAR_MAX then vars[x := v] else vars
  }

  // Up to 32 names can be declared, and a name again at any time.
  lemma DeclaresUpTo32(vars: Store, x: string, v: int64)
    ensures x in vars || |vars| <= 31 ==> Declare(vars, x, v) == vars[x := v]
    ensures x !in vars && |vars| >= 32 ==> Declare(vars, x, v) == vars
  {
  }

  // ----- skipping -----

  // Whether a statement can be skipped: even then each expression in it is worked out once.
  predicate Skippable(s: Stmt, vars: Store) {
    match s
    case Empty => true
    case VarDecl(_, init) => init.None? || Eval(init.value, vars).Some?
    case ShowText(_, _) => true
    case ShowValue(_, e) => Eval(e, vars).Some?
    case If(c, b) => EvalCond(c, vars).Some? && SkippableBody(b, vars)
    case While(c, b) => EvalCond(c, vars).Some? && SkippableBody(b, vars)
    case Assign(_, e) => Eval(e, vars).Some?
    case Evaluate(e) => Eval(e, vars).Some?
  }

  predicate SkippableBody(b: Body, vars: Store) {
    match b
    case Single(s) => Skippable(s, vars)
    case Block(ss) => SkippableAll(ss, vars)
  }

  predicate SkippableAll(ss: Stmts, vars: Store) {
    ss.Then? ==> Skippable(ss.head, vars) && SkippableAll(ss.tail, vars)
  }

  // ----- running -----

  // The effect of a statement.  `strict` asks that the statements passed over can be skipped;
  // without it this is the ordinary meaning, in which they do not matter.
  function Exec(strict: bool, s: Stmt, vars: Store): Outcome
    decreases s, 0
  {
    match s
    case Empty => Outcome(true, vars, [])
    case VarDecl(x, init) =>
      if init.None? then Outcome(true, Declare(vars, x, 0), [])
      else
        var v := Eval(init.value, vars);
        if v.None? then Outcome(false, vars, []) else Outcome(true, Declare(vars, x, v.value), [])
    case ShowText(alert, text) => Outcome(true, vars, [if alert then Status(text) else Line(text)])
    case ShowValue(_, e) =>
      var v := Eval(e, vars);
      if v.None? then Outcome(false, vars, []) else Outcome(true, vars, [Line(ShowInt(v.value))])
    case If(c, b) =>
      var g := EvalCond(c, vars);
      if g.None? then Outcome(false, vars, [])
      else if g.value then ExecBody(strict, b, vars)
      else Outcome(strict ==> SkippableBody(b, vars), vars, [])
    case While(c, b) => ExecLoop(strict, c, b, vars, MAX_LAPS)
    case Assign(x, e) =>
      var v := Eval(e, vars);
      if v.None? || x !in vars then Outcome(false, vars, []) else Outcome(true, vars[x := v.value], [])
    case Evaluate(e) => Outcome(Eval(e, vars).Some?, vars, [])
  }

  function ExecBody(strict: bool, b: Body, vars: Store): Outcome
    decreases b, 0
  {
    match b
    case Single(s) => Exec(strict, s, vars)
    case Block(ss) => ExecAll(strict, ss, vars)
  }

  function ExecAll(strict: bool, ss: Stmts, vars: Store): Outcome
    decreases ss, 0
  {
    if ss.Done? then Outcome(true, vars, [])
    else
      var r := Exec(strict, ss.head, vars);
      if r.ok then Prepend(r.out, ExecAll(strict, ss.tail, r.vars)) else r
  }

  // At most `laps` more rounds of a loop.
  function ExecLoop(strict: bool, c: Cond, b: Body, vars: Store, laps: nat): Outcome
    decreases b, 1, laps
  {
    if laps == 0 then Outcome(true, vars, [])
    else
      var g := EvalCond(c, vars);
      if g.None? then Outcome(false, vars, [])
      else if !g.value then Outcome(strict ==> SkippableBody(b, vars), vars, [])
      else
        var r := ExecBody(strict, b, vars);
        if r.ok then Prepend(r.out, ExecLoop(strict, c, b, r.vars, laps - 1)) else r
  }

  // ----- the strict meaning refines the ordinary one -----

  // A script that the browser accepts does what its tree ordinarily means.
  lemma {:induction false} StrictRefines(s: Stmt, vars: Store)
    requires Exec(true, s, vars).ok
    ensures Exec(false, s, vars) == Exec(true, s, vars)
    decreases s, 0
  {
    match s
    case If(c, b) =>
      if EvalCond(c, vars) == Some(true) { StrictRefinesBody(b, vars); }
    case While(c, b) => StrictRefinesLoop(c, b, vars, MAX_LAPS);
    case _ =>
  }

  lemma {:induction false} StrictRefinesBody(b: Body, vars: Store)
    requires ExecBody(true, b, vars).ok
    ensures ExecBody(false, b, vars) == ExecBody(true, b, vars)
    decreases b, 0
  {
    match b
    case Single(s) => StrictRefines(s, vars);
    case Block(ss) => StrictRefinesAll(ss, vars);
  }

  lemma {:induction false} StrictRefinesAll(ss: Stmts, vars: Store)
    requires ExecAll(true, ss, vars).ok
    ensures ExecAll(false, ss, vars) == ExecAll(true, ss, vars)
    decreases ss, 0
  {
    if ss.Then? {
      StrictRefines(ss.head, vars);
      StrictRefinesAll(ss.tail, Exec(true, ss.head, vars).vars);
    }
  }

  lemma {:induction false} StrictRefinesLoop(c: Cond, b: Body, vars: Store, laps: nat)
    requires ExecLoop(true, c, b, vars, laps).ok
    ensures ExecLoop(false, c, b, vars, laps) == ExecLoop(true, c, b, vars, laps)
    decreases b, 1, laps
  {
    if laps > 0 && EvalCond(c, vars) == Some(true) {
      StrictRefinesBody(b, vars);
      StrictRefinesLoop(c, b, ExecBody(true, b, vars).vars, laps - 1);
    }
  }

  // The converse fails: `if(0)print(y)` and `if(0)print(1/0)` ordinarily do nothing, but the browser
  // gives them up, because y is looked up, and 1 divided by 0, while the statement is skipped.
  lemma DeadCodeCanFail()
    ensures var s := If(Truth(Num(0)), Single(ShowValue(false, Var("y"))));
      Exec(false, s, map[]).ok && !Exec(true, s, map[]).ok
    ensures var s := If(Truth(Num(0)), Single(ShowValue(false, Bin(Div, Num(1), Num(0)))));
      Exec(false, s, map[]).ok && !Exec(true, s, map[]).ok
  {
    assert Eval(Num(0), map[]) == Some(0);
    NotSkipped(Var("y"));
    NotSkipped(Bin(Div, Num(1), Num(0)));
  }

  lemma NotSkipped(e: Expr)
    requires Eval(e, map[]).None?
    ensures !SkippableBody(Single(ShowValue(false, e)), map[])
  {
    assert !Skippable(ShowValue(false, e), map[]);
  }
}
