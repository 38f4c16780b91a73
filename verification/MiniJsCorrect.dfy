// The interpreter of the browser is correct: what it does with the text of a script is what the
// script, as a tree, means.
module MiniJsCorrect {
  import opened Lexing
  import opened Expressions
  import opened MiniJsSyntax
  import opened MiniJsSemantics
  import opened MiniJsSafety
  import opened MiniJsPrinting
  import opened MiniJs

  // Run or skipped, from whatever variables: a statement that raises no error ends at one place.
  lemma ExtentIsIndependent(t: CString, i: nat, exec1: bool, exec2: bool, vars1: Store, vars2: Store, pos1: nat, pos2: nat,
                            after1: Store, after2: Store, out1: seq<Event>, out1': seq<Event>, out2: seq<Event>, out2': seq<Event>)
    requires i <= |t|
    requires Ran(StmtMeaning(ParseStmt(t, i), vars1), exec1, pos1, after1, out1, out1', false)
    requires Ran(StmtMeaning(ParseStmt(t, i), vars2), exec2, pos2, after2, out2, out2', false)
    ensures pos1 == pos2
  {
  }

  // Two interpreters at the same place of a text, with different variables: one runs the statement,
  // the other runs or skips it.  Without an error they end at the same place, and the one that skips
  // changes no variable and prints nothing.
  method RunBoth(a: Browser, b: Browser, exec: bool)
    requires a.Valid() && b.Valid() && a != b && a.jvars.slots != b.jvars.slots
    requires a.text == b.text && a.js == b.js && !a.jsErr && !b.jsErr
    modifies a`js, a`jsErr, a`out, a.jvars.slots, b`js, b`jsErr, b`out, b.jvars.slots
    ensures !a.jsErr && !b.jsErr ==> a.js == b.js
    ensures b.Valid() && (!exec ==> b.Vars() == old(b.Vars()) && b.out == old(b.out))
  {
    ghost var t, i, vars1, vars2, out1, out2 := a.text, a.js, a.Vars(), b.Vars(), a.out, b.out;
    a.JsStmt(true);
    ghost var after1 := a.Vars();
    b.JsStmt(exec);
    if !a.jsErr && !b.jsErr {
      ExtentIsIndependent(t, i, true, exec, vars1, vars2, a.js, b.js, after1, b.Vars(), out1, a.out, out2, b.out);
    }
  }

  // The text of any writable script means what the script means.
  lemma PrintedScriptMeaning(t: CString, ss: Stmts)
    requires t == ShowAll(ss) && WritableAll(ss)
    ensures BlockMeaning(ParseScript(t, 0), map[]) == Right(|t|, SkippableAll(ss, map[]), ExecAll(true, ss, map[]))
  {
    assert ShowAll(ss) + "" == ShowAll(ss);
    ScriptRoundTrip(t, ss, "");
  }

  // A '}' behind a script makes script_run spin for ever exactly if the script has no error.
  method RunWithStrayBrace(ss: Stmts, rest: string) returns (stuck: bool)
    requires WritableAll(ss) && '\0' !in ShowAll(ss) + "}" + rest
    ensures stuck == ExecAll(true, ss, map[]).ok
  {
    var t: CString := ShowAll(ss) + "}" + rest;
    var b := new Browser(t);
    assert t == ShowAll(ss) + ("}" + rest) && ("}" + rest)[0] == '}';
    ScriptRoundTrip(t, ss, "}" + rest);
    stuck := b.ScriptRun();
  }

  // So a lone '}' does, and one behind a division by 0 does not.
  lemma LoneBraceSpins()
    ensures var m := BlockMeaning(ParseScript("}", 0), map[]);
      m.Right? && m.r.ok && At("}", m.end) == '}'
    ensures !ExecAll(true, Then(ShowValue(false, Bin(Div, Num(1), Num(0))), Done), map[]).ok
  {
    assert ShowAll(Done) + "}" == "}";
    ScriptRoundTrip("}", Done, "}");
    assert Eval(Bin(Div, Num(1), Num(0)), map[]).None?;
  }

  // Runs the text of a script; without an error, the outcome is the ordinary meaning of the
  // script.  There is an error exactly when the strict meaning has one, and never with a script
  // that is safe.
  method RunPrinted(ss: Stmts) returns (ok: bool, out: seq<Event>, ghost vars: Store)
    requires WritableAll(ss) && '\0' !in ShowAll(ss)
    ensures ok == ExecAll(true, ss, map[]).ok
    ensures ok ==> vars == ExecAll(false, ss, map[]).vars && out == ExecAll(false, ss, map[]).out
    ensures SafeScript(ss, {}) && |DeclaredAll(ss)| <= VAR_MAX ==> ok
  {
    var t: CString := ShowAll(ss);
    var b := new Browser(t);
    PrintedScriptMeaning(t, ss);
    var stuck := b.ScriptRun();
    assert !stuck;
    ok, out, vars := !b.jsErr, b.out, b.Vars();
    if ok {
      StrictRefinesAll(ss, map[]);
    }
    if SafeScript(ss, {}) && |DeclaredAll(ss)| <= VAR_MAX {
      SafeScriptRuns(ss);
    }
  }
}
