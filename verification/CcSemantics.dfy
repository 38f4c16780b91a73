// What a program of cc does: what it prints, and its exit code.
module CcSemantics {
  import opened Options
  import opened Int64
  import opened Expressions
  import opened CcSyntax

  const VAR_MAX: nat := 64

  // ok: nothing went wrong; only then do the other parts mean anything.
  datatype Outcome = Outcome(ok: bool, vars: Store, printed: seq<int64>, ret: int64)

  const FAILED := Outcome(false, map[], [], 0)

  function ExecStmt(s: Stmt, vars: Store): Outcome {
    match s
    case Declare(x, init) =>
      var v := if init.None? then Some(0) else Eval(init.value, vars);
      if v.None? || (x !in vars && |vars| >= VAR_MAX) then FAILED else Outcome(true, vars[x := v.value], [], 0)
    case Print(e) =>
      var v := Eval(e, vars);
      if v.None? then FAILED else Outcome(true, vars, [v.value], 0)
    case Return(e) =>
      var v := if e.None? then Some(0) else Eval(e.value, vars);
      if v.None? then FAILED else Outcome(true, vars, [], v.value)
    case Assign(x, e) =>
      var v := Eval(e, vars);
      if v.None? || x !in vars then FAILED else Outcome(true, vars[x := v.value], [], 0)
    case Evaluate(e) =>
      if Eval(e, vars).None? then FAILED else Outcome(true, vars, [], 0)
  }

  // Up to 64 names can be declared, and a name again at any time; a name has to be declared before a
  // value is assigned to it.
  lemma DeclaresUpTo64(x: string, v: int64, vars: Store)
    ensures var r := ExecStmt(Declare(x, Some(Num(v))), vars);
      (r.ok <==> x in vars || |vars| <= 63) && (r.ok ==> r.vars == vars[x := v] && r.printed == [])
    ensures var r := ExecStmt(Assign(x, Num(v)), vars);
      (r.ok <==> x in vars) && (r.ok ==> r.vars == vars[x := v] && r.printed == [])
  {
  }

  // Statements in turn; a return is the last to be executed.
  function Exec(ss: seq<Stmt>, vars: Store): Outcome {
    if ss == [] then Outcome(true, vars, [], 0)
    else
      var r := ExecStmt(ss[0], vars);
      if !r.ok then FAILED
      else if ss[0].Return? then r
      else Before(r.printed, Exec(ss[1..], r.vars))
  }

  function Before(printed: seq<int64>, r: Outcome): Outcome {
    if r.ok then r.(printed := printed + r.printed) else FAILED
  }
}
