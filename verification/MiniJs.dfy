// The script interpreter of class Browser (browser.cpp): it runs a text while scanning it, skips
// bodies by scanning them with `exec` off, and repeats loops by rewinding the cursor.
//
// Each method is proved against the tree its text stands for (MiniJsSyntax) and the meaning of
// that tree (MiniJsSemantics).
module MiniJs {
  import opened Options
  import opened Int64
  import opened Lexing
  import opened Expressions
  import opened OnePass
  import opened Variables
  import opened Numerals
  import opened MiniJsSyntax
  import opened MiniJsSemantics

  ghost predicate Decides(p: Parsed<Cond>, vars: Store, v: bool, pos: nat, err0: bool, err: bool) {
    if p.Bad? || EvalCond(p.tree, vars).None? then err
    else Some(v) == EvalCond(p.tree, vars) && pos == p.end && err == err0
  }

  // What a piece of text amounts to: nothing a script may contain, or a text that ends at `end`,
  // may be skipped or not, and has the effect r when it is run.
  datatype Meaning = Wrong | Right(end: nat, skips: bool, r: Outcome)

  ghost function StmtMeaning(p: Parsed<Stmt>, vars: Store): Meaning {
    if p.Bad? then Wrong else Right(p.end, Skippable(p.tree, vars), Exec(true, p.tree, vars))
  }

  ghost function BodyMeaning(p: Parsed<Body>, vars: Store): Meaning {
    if p.Bad? then Wrong else Right(p.end, SkippableBody(p.tree, vars), ExecBody(true, p.tree, vars))
  }

  ghost function BlockMeaning(p: Parsed<Stmts>, vars: Store): Meaning {
    if p.Bad? then Wrong else Right(p.end, SkippableAll(p.tree, vars), ExecAll(true, p.tree, vars))
  }

  // What a routine promises that runs (exec) or skips a piece of text with the meaning m, when no
  // error was raised before.  The cursor stands at the end of the text whether it was run or
  // skipped; a text that is wrong raises an error either way.
  ghost predicate Ran(m: Meaning, exec: bool, pos: nat, vars: Store, out0: seq<Event>, out: seq<Event>, err: bool) {
    if m.Wrong? then err
    else if exec then
      && err == !m.r.ok && (m.r.ok ==> pos == m.end)
      && vars == m.r.vars && out == out0 + m.r.out
    else
      err == !m.skips && (m.skips ==> pos == m.end)
  }

  // A text that comes to nothing but an error.
  ghost predicate Fails(m: Meaning, vars: Store) {
    m.Wrong? || (!m.skips && m.r == Outcome(false, vars, []))
  }

  lemma InitMeaning(t: CString, i: nat, x: string, vars: Store)
    requires i <= |t|
    ensures var m := StmtMeaning(ParseInit(t, i, x), vars);
      var n := Skip(JS, t, i);
      if At(t, n) != '=' then m == Right(n, true, Outcome(true, Declare(vars, x, 0), []))
      else
        var r := ExprVal(JS, t, n + 1, vars);
        if r.Stuck? then Fails(m, vars)
        else m == Right(Skip(JS, t, r.end), true, Outcome(true, Declare(vars, x, r.v), []))
  {
    var n := Skip(JS, t, i);
    if At(t, n) == '=' {
      ExprValIs(JS, t, n + 1, vars);
    }
  }

  lemma ShowTextMeaning(t: CString, i: nat, alert: bool, vars: Store)
    requires i <= |t|
    ensures var m := StmtMeaning(ParseShowText(t, i, alert), vars);
      var q := QuoteEnd(t, i, TEXT_MAX);
      var n := Skip(JS, t, if At(t, q) == '"' then q + 1 else q);
      m == if At(t, n) != ')' then Wrong
           else Right(Skip(JS, t, n + 1), true, Outcome(true, vars, [if alert then Status(Piece(t, i, q)) else Line(Piece(t, i, q))]))
  {
  }

  lemma ShowValueMeaning(t: CString, i: nat, alert: bool, vars: Store)
    requires i <= |t|
    ensures var m := StmtMeaning(ParseShowValue(t, i, alert), vars);
      var r := ExprVal(JS, t, i, vars);
      if r.Stuck? then Fails(m, vars)
      else
        var n := Skip(JS, t, r.end);
        m == if At(t, n) != ')' then Wrong
             else Right(Skip(JS, t, n + 1), true, Outcome(true, vars, [Line(ShowInt(r.v))]))
  {
    ExprValIs(JS, t, i, vars);
  }

  lemma AssignedMeaning(t: CString, i: nat, x: string, vars: Store)
    requires i <= |t|
    ensures var m := StmtMeaning(ParseAssigned(t, i, x), vars);
      var r := ExprVal(JS, t, i, vars);
      if r.Stuck? then Fails(m, vars)
      else m == Right(Skip(JS, t, r.end), true,
                  if x in vars then Outcome(true, vars[x := r.v], []) else Outcome(false, vars, []))
  {
    ExprValIs(JS, t, i, vars);
  }

  lemma EvaluateMeaning(t: CString, i: nat, vars: Store)
    requires i <= |t|
    ensures var m := StmtMeaning(ParseEvaluate(t, i), vars);
      var r := ExprVal(JS, t, i, vars);
      if r.Stuck? then Fails(m, vars) else m == Right(Skip(JS, t, r.end), true, Outcome(true, vars, []))
  {
    ExprValIs(JS, t, i, vars);
  }

  lemma IfMeaning(t: CString, i: nat, vars: Store)
    requires i <= |t|
    ensures var m := StmtMeaning(ParseIf(t, i), vars);
      var g := ParseGuard(t, i);
      if g.Bad? || EvalCond(g.tree, vars).None? then Fails(m, vars)
      else
        var y := BodyMeaning(ParseBody(t, g.end), vars);
        if y.Wrong? then m == Wrong
        else m == Right(y.end, y.skips, if EvalCond(g.tree, vars).value then y.r else Outcome(y.skips, vars, []))
  {
  }

  // A statement h and what follows it: `rest` with the variables as they are, `after` with those
  // that h leaves.
  ghost function InTurn(h: Meaning, rest: Meaning, after: Meaning): Meaning
    requires rest.Right? ==> after.Right?
  {
    if h.Wrong? || rest.Wrong? then Wrong
    else Right(rest.end, h.skips && rest.skips, if h.r.ok then Prepend(h.r.out, after.r) else h.r)
  }

  // One more statement of a block.
  lemma BlockMeaningMore(t: CString, i: nat, vars: Store)
    requires i <= |t|
    ensures var m := BlockMeaning(ParseBlock(t, i), vars);
      var b := Skip(JS, t, i);
      if At(t, b) == '}' then m == Right(b + 1, true, Outcome(true, vars, []))
      else if At(t, b) == '\0' then m == Wrong
      else
        var h := StmtMeaning(ParseStmt(t, b), vars);
        if h.Wrong? then m == Wrong
        else
          && b < h.end <= |t|
          && var rest := BlockMeaning(ParseBlock(t, h.end), vars);
          && var after := BlockMeaning(ParseBlock(t, h.end), h.r.vars);
          && rest.Right? == after.Right? && (rest.Right? ==> rest.end == after.end)
          && m == InTurn(h, rest, after)
  {
    SkipTwice(JS, t, i);
  }

  // One more statement of a script.
  lemma ScriptMeaningMore(t: CString, i: nat, vars: Store)
    requires i <= |t|
    ensures var m := BlockMeaning(ParseScript(t, i), vars);
      var b := Skip(JS, t, i);
      if At(t, b) in {'\0', '}'} then m == Right(b, true, Outcome(true, vars, []))
      else
        var h := StmtMeaning(ParseStmt(t, b), vars);
        if h.Wrong? then m == Wrong
        else
          && b < h.end <= |t|
          && var rest := BlockMeaning(ParseScript(t, h.end), vars);
          && var after := BlockMeaning(ParseScript(t, h.end), h.r.vars);
          && rest.Right? == after.Right? && (rest.Right? ==> rest.end == after.end)
          && m == InTurn(h, rest, after)
  {
    SkipTwice(JS, t, i);
  }

  // A loop of which `laps` rounds are left, with its condition at `again`.
  ghost function LoopMeaning(t: CString, again: nat, vars: Store, laps: nat): Meaning
    requires again <= |t|
  {
    var g := ParseGuardRest(t, again);
    if g.Bad? then Wrong
    else
      var y := ParseBody(t, g.end);
      if y.Bad? then Wrong
      else Right(y.end, EvalCond(g.tree, vars).Some? && SkippableBody(y.tree, vars), ExecLoop(true, g.tree, y.tree, vars, laps))
  }

  lemma WhileMeaning(t: CString, i: nat, vars: Store)
    requires i <= |t|
    ensures var b := Skip(JS, t, i);
      StmtMeaning(ParseWhile(t, i), vars) == if At(t, b) != '(' then Wrong else LoopMeaning(t, b + 1, vars, MAX_LAPS)
  {
  }

  // The loop m has run some rounds, which wrote what lies between out0 and out.
  ghost predicate LoopAhead(m: Meaning, rest: Meaning, out0: seq<Event>, out: seq<Event>) {
    if m.Wrong? then rest.Wrong?
    else rest.Right? && rest.end == m.end && out0 + m.r.out == out + rest.r.out && m.r.ok == rest.r.ok && m.r.vars == rest.r.vars
  }

  // The block m has been run, or skipped, up to a rest of it.
  ghost predicate BlockAhead(exec: bool, m: Meaning, rest: Meaning, out0: seq<Event>, out: seq<Event>) {
    if m.Wrong? then rest.Wrong?
    else if exec then LoopAhead(m, rest, out0, out)
    else rest.Right? && rest.end == m.end && rest.skips == m.skips
  }

  // One round of a loop: its condition c, its body y, and the rounds that follow.
  ghost function InRounds(c: Option<bool>, y: Meaning, rest: Meaning, vars: Store): Meaning
    requires y.Right? ==> rest.Right?
  {
    if y.Wrong? then Wrong
    else if c.None? then Right(y.end, false, Outcome(false, vars, []))
    else if !c.value then Right(y.end, y.skips, Outcome(y.skips, vars, []))
    else Right(y.end, y.skips, if y.r.ok then Prepend(y.r.out, rest.r) else y.r)
  }

  lemma LapMeaning(t: CString, again: nat, vars: Store, laps: nat)
    requires again <= |t| && laps > 0
    ensures var m := LoopMeaning(t, again, vars, laps);
      var g := ParseGuardRest(t, again);
      if g.Bad? then m == Wrong
      else
        var y := BodyMeaning(ParseBody(t, g.end), vars);
        var rest := LoopMeaning(t, again, if y.Right? then y.r.vars else vars, laps - 1);
        && y.Right? == rest.Right? && (y.Right? ==> rest.end == y.end)
        && m == InRounds(EvalCond(g.tree, vars), y, rest, vars)
  {
  }

  // A statement h of a block has been run, or skipped: the rest lies ahead, or an error ended it.
  lemma StepInTurn(exec: bool, m: Meaning, h: Meaning, rest: Meaning, after: Meaning,
                   out0: seq<Event>, out: seq<Event>, pos: nat, vars': Store, out': seq<Event>, err: bool)
    requires rest.Right? == after.Right? && (rest.Right? ==> rest.end == after.end)
    requires BlockAhead(exec, m, InTurn(h, rest, after), out0, out)
    requires Ran(h, exec, pos, vars', out, out', err)
    ensures m.Right? && err && !exec ==> !m.skips
    ensures m.Right? && err && exec ==> !m.r.ok && vars' == m.r.vars && out' == out0 + m.r.out
    ensures m.Wrong? && !err ==> rest.Wrong?
    ensures m.Right? && !err && !exec ==> rest.Right? && rest.end == m.end && rest.skips == m.skips
    ensures m.Right? && !err && exec ==> LoopAhead(m, after, out0, out')
  {
    if m.Right? && exec && h.r.ok {
      assert out + (h.r.out + after.r.out) == out' + after.r.out;
    }
  }

  lemma BlockStep(exec: bool, t: CString, i: nat, m: Meaning, vars: Store, out0: seq<Event>, out: seq<Event>,
                  pos: nat, vars': Store, out': seq<Event>, err: bool)
    requires i <= |t| && pos <= |t| && At(t, Skip(JS, t, i)) !in {'\0', '}'}
    requires BlockAhead(exec, m, BlockMeaning(ParseBlock(t, i), vars), out0, out)
    requires Ran(StmtMeaning(ParseStmt(t, Skip(JS, t, i)), vars), exec, pos, vars', out, out', err)
    requires !exec ==> vars' == vars && out' == out
    ensures if err then Ran(m, exec, pos, vars', out0, out', err)
            else BlockAhead(exec, m, BlockMeaning(ParseBlock(t, pos), vars'), out0, out')
  {
    BlockMeaningMore(t, i, vars);
    var h := StmtMeaning(ParseStmt(t, Skip(JS, t, i)), vars);
    if h.Right? {
      var rest := BlockMeaning(ParseBlock(t, h.end), vars);
      var after := BlockMeaning(ParseBlock(t, h.end), h.r.vars);
      StepInTurn(exec, m, h, rest, after, out0, out, pos, vars', out', err);
    }
  }

  lemma ScriptStep(t: CString, i: nat, m: Meaning, vars: Store, out0: seq<Event>, out: seq<Event>,
                   pos: nat, vars': Store, out': seq<Event>, err: bool)
    requires i <= |t| && pos <= |t| && At(t, Skip(JS, t, i)) !in {'\0', '}'}
    requires LoopAhead(m, BlockMeaning(ParseScript(t, i), vars), out0, out)
    requires Ran(StmtMeaning(ParseStmt(t, Skip(JS, t, i)), vars), true, pos, vars', out, out', err)
    ensures err && m.Right? ==> !m.r.ok && vars' == m.r.vars && out' == out0 + m.r.out
    ensures !err ==> pos > Skip(JS, t, i)
    ensures !err ==> LoopAhead(m, BlockMeaning(ParseScript(t, pos), vars'), out0, out')
  {
    ScriptMeaningMore(t, i, vars);
    var h := StmtMeaning(ParseStmt(t, Skip(JS, t, i)), vars);
    if h.Right? {
      var rest := BlockMeaning(ParseScript(t, h.end), vars);
      var after := BlockMeaning(ParseScript(t, h.end), h.r.vars);
      StepInTurn(true, m, h, rest, after, out0, out, pos, vars', out', err);
    }
  }

  // What one round promises, of a loop with its condition at `again`.
  ghost predicate LapRan(exec: bool, t: CString, again: nat, vars: Store, out: seq<Event>,
                         pos: nat, vars': Store, out': seq<Event>, err: bool, stop: bool)
    requires again <= |t|
  {
    var g := ParseGuardRest(t, again);
    if g.Bad? then err && stop
    else
      var y := BodyMeaning(ParseBody(t, g.end), vars);
      RoundRan(exec, EvalCond(g.tree, vars), y, vars, out, pos, vars', out', err, stop)
  }

  ghost predicate RoundRan(exec: bool, c: Option<bool>, y: Meaning, vars: Store, out: seq<Event>,
                           pos: nat, vars': Store, out': seq<Event>, err: bool, stop: bool) {
    if c.None? then err && stop && (y.Right? ==> vars' == vars && out' == out)
    else
      && Ran(y, exec && c.value, pos, vars', out, out', err)
      && stop == (!c.value || err)
      && (!c.value ==> vars' == vars && out' == out)
  }

  lemma StepInRounds(m: Meaning, c: Option<bool>, y: Meaning, rest: Meaning, vars: Store, out0: seq<Event>, out: seq<Event>,
                     pos: nat, vars': Store, out': seq<Event>, err: bool, stop: bool)
    requires y.Right? == rest.Right? && (y.Right? ==> rest.end == y.end)
    requires LoopAhead(m, InRounds(c, y, rest, vars), out0, out)
    requires RoundRan(true, c, y, vars, out, pos, vars', out', err, stop)
    ensures stop ==> Ran(m, true, pos, vars', out0, out', err)
    ensures !stop ==> !err && m.Right? && y.Right? && pos == m.end && vars' == y.r.vars && LoopAhead(m, rest, out0, out')
  {
    if y.Right? && c == Some(true) && y.r.ok {
      assert out + (y.r.out + rest.r.out) == out' + rest.r.out;
    }
  }

  // A round of a loop has been run: other rounds lie ahead, or the loop has ended.
  lemma LapStep(t: CString, again: nat, m: Meaning, vars: Store, laps: nat, out0: seq<Event>, out: seq<Event>,
                pos: nat, vars': Store, out': seq<Event>, err: bool, stop: bool)
    requires again <= |t| && laps > 0
    requires LapRan(true, t, again, vars, out, pos, vars', out', err, stop)
    requires LoopAhead(m, LoopMeaning(t, again, vars, laps), out0, out)
    ensures stop ==> Ran(m, true, pos, vars', out0, out', err)
    ensures !stop ==> !err && m.Right? && pos == m.end && LoopAhead(m, LoopMeaning(t, again, vars', laps - 1), out0, out')
  {
    LapMeaning(t, again, vars, laps);
    var g := ParseGuardRest(t, again);
    if g.Ok? {
      var y := BodyMeaning(ParseBody(t, g.end), vars);
      var rest := LoopMeaning(t, again, if y.Right? then y.r.vars else vars, laps - 1);
      StepInRounds(m, EvalCond(g.tree, vars), y, rest, vars, out0, out, pos, vars', out', err, stop);
    }
  }

  // A round has been skipped.
  lemma LapSkipped(t: CString, again: nat, vars: Store, out: seq<Event>, pos: nat, err: bool, stop: bool)
    requires again <= |t| && LapRan(false, t, again, vars, out, pos, vars, out, err, stop)
    ensures var m := LoopMeaning(t, again, vars, MAX_LAPS);
      && (stop ==> Ran(m, false, pos, vars, out, out, err))
      && (!stop ==> !err && m.Right? && pos == m.end && m.skips)
  {
    LapMeaning(t, again, vars, MAX_LAPS);
  }

  class Browser {
    const text: CString
    var js: nat
    var jsErr: bool
    const jvars: VarTable
    var out: seq<Event>

    ghost predicate Valid()
      reads this, jvars, jvars.slots
    {
      js <= |text| && jvars.Valid() && jvars.slots.Length == VAR_MAX
    }

    ghost function Vars(): Store
      reads jvars, jvars.slots
      requires jvars.Valid()
    {
      jvars.Vars()
    }

    constructor (text: CString)
      ensures Valid() && this.text == text && out == [] && fresh(jvars) && fresh(jvars.slots)
    {
      this.text := text;
      js, jsErr, out := 0, false, [];
      jvars := new VarTable(VAR_MAX);
    }

    method JsSkip()
      requires Valid()
      modifies this`js
      ensures js == Skip(JS, text, old(js))
    {
      while true
        invariant js <= |text| && Skip(JS, text, js) == Skip(JS, text, old(js))
        decreases |text| - js
      {
        var c := At(text, js);
        if c == ' ' || c == '\t' || c == '\n' || c == '\r' || c == ';' {
          js := js + 1;
        } else if c == '/' && At(text, js + 1) == '/' {
          ghost var start := js;
          while At(text, js) != '\0' && At(text, js) != '\n'
            invariant start <= js <= |text| && (js == start || LineEnd(text, js) == LineEnd(text, start + 1))
            decreases |text| - js
          {
            js := js + 1;
          }
          assert js == LineEnd(text, start + 1);
        } else {
          break;
        }
      }
    }

    method JsAccept(c: char) returns (accepted: bool)
      requires Valid() && c != '\0'
      modifies this`js
      ensures var b := Skip(JS, text, old(js));
        accepted == (At(text, b) == c) && js == if accepted then b + 1 else b
      ensures js <= |text|
    {
      JsSkip();
      if At(text, js) == c {
        js := js + 1;
        return true;
      }
      return false;
    }

    method JsKw(kw: CString) returns (accepted: bool)
      requires Valid()
      modifies this`js
      ensures var b := Skip(JS, text, old(js));
        accepted == KeywordAt(text, b, kw) && js == if accepted then b + |kw| else b
    {
      JsSkip();
      var n := |kw|;
      IsSlice(text, js, js + n, kw);
      if js + n > |text| || text[js..js + n] != kw {
        return false;
      }
      if IsWordChar(At(text, js + n)) {
        return false;
      }
      js := js + n;
      return true;
    }

    // Copies the name at the cursor; `digits` tells the factors' loop from the statements'.
    method JsName(digits: bool) returns (name: string)
      requires js <= |text|
      modifies this`js
      ensures js == NameEnd(text, old(js), JS.nameMax, digits) && name == Piece(text, old(js), js)
    {
      ghost var start := js;
      name := "";
      while (IsLetter(At(text, js)) || (digits && IsDigit(At(text, js)))) && |name| + 1 < 24
        invariant start <= js <= |text| && name == Piece(text, start, js) && |name| <= 23
        invariant NameEnd(text, js, 23 - |name|, digits) == NameEnd(text, start, 23, digits)
        decreases |text| - js
      {
        name := name + [text[js]];
        js := js + 1;
      }
    }

    method JsNumber() returns (v: int64)
      requires js <= |text|
      modifies this`js
      ensures js == DigitsEnd(text, old(js)) && v == Wrap(NumberAt(text, old(js), js))
    {
      v := 0;
      ghost var start := js;
      while IsDigit(At(text, js))
        invariant start <= js <= |text| && DigitsEnd(text, js) == DigitsEnd(text, start)
        invariant (forall k :: start <= k < js ==> IsDigit(text[k])) && v == Wrap(NumberAt(text, start, js))
        decreases |text| - js
      {
        DigitRead(text, start, js, v);
        v := Wrap(v * 10 + DigitValue(text[js]));
        js := js + 1;
      }
    }

    method JsFactor() returns (v: int64)
      requires Valid()
      modifies this`js, this`jsErr
      ensures Valid() && js >= old(js) && (old(jsErr) ==> jsErr)
      ensures jsErr || js > old(js)
      ensures Found(FactorVal(JS, text, old(js), Vars()), v, js, old(jsErr), jsErr)
      decreases |text| - js, 0
    {
      JsSkip();
      var c := At(text, js);
      if c == '(' {
        js := js + 1;
        v := JsExpr();
        var closed := JsAccept(')');
        if !closed {
          jsErr := true;
        }
        return;
      }
      if c == '-' {
        js := js + 1;
        v := JsFactor();
        v := Wrap(0 - v);
        return;
      }
      if '0' <= c <= '9' {
        v := JsNumber();
        return;
      }
      if c == '"' {
        jsErr := true;
        return 0;
      }
      if !IsLetter(c) {
        jsErr := true;
        return 0;
      }
      v := JsVariable();
    }

    // The value of the variable whose name starts at the cursor; an error if it is unknown.
    method JsVariable() returns (v: int64)
      requires Valid() && IsLetter(At(text, js))
      modifies this`js, this`jsErr
      ensures Valid() && js > old(js) && (old(jsErr) ==> jsErr)
      ensures var k := NameEnd(text, old(js), JS.nameMax, true);
        var x := Piece(text, old(js), k);
        if x in Vars() then v == Vars()[x] && js == k && jsErr == old(jsErr) else jsErr
    {
      var name := JsName(true);
      var slot := JsVar(name);
      if slot < 0 {
        jsErr := true;
        return 0;
      }
      v := jvars.Load(slot);
    }

    // js_var(name, false)
    method JsVar(name: string) returns (slot: int)
      requires Valid()
      ensures slot == -1 || (0 <= slot < jvars.slots.Length && jvars.slots[slot].used && jvars.slots[slot].name == name)
      ensures slot == -1 <==> name !in Vars()
    {
      slot := jvars.Lookup(name);
    }

    // Takes the sign that continues a product, or else a sum, if one stands there.
    method JsSign(product: bool) returns (c: char)
      requires Valid()
      modifies this`js
      ensures var b := Skip(JS, text, old(js));
        if (if product then ProductSign(At(text, b)) else SumSign(At(text, b))) then c == At(text, b) && js == b + 1
        else c == '\0' && js == b
      ensures js <= |text|
    {
      JsSkip();
      c := At(text, js);
      if (product && c != '*' && c != '/' && c != '%') || (!product && c != '+' && c != '-') {
        return '\0';
      }
      js := js + 1;
    }

    method JsTerm() returns (v: int64)
      requires Valid()
      modifies this`js, this`jsErr
      ensures Valid() && js >= old(js) && (old(jsErr) ==> jsErr)
      ensures jsErr || js > old(js)
      ensures Found(TermVal(JS, text, old(js), Vars()), v, js, old(jsErr), jsErr)
      decreases |text| - js, 3
    {
      ghost var vars := Vars();
      ghost var whole := TermVal(JS, text, js, vars);
      v := JsFactor();
      while true
        invariant Valid() && Vars() == vars && js >= old(js) && (old(jsErr) ==> jsErr)
        invariant jsErr || js > old(js)
        invariant Underway(whole, TermRestVal(JS, text, js, v, vars), old(jsErr), jsErr)
        decreases |text| - js
      {
        var more, w := JsNextFactor(v, whole, old(jsErr));
        if !more {
          break;
        }
        if w.None? {
          return 0;
        }
        v := w.value;
      }
    }

    // The next factor of a term, if there is one, and v multiplied or divided by it.
    method JsNextFactor(v: int64, ghost whole: Reading, ghost err0: bool) returns (more: bool, w: Option<int64>)
      requires Valid() && Underway(whole, TermRestVal(JS, text, js, v, Vars()), err0, jsErr)
      modifies this`js, this`jsErr
      ensures Valid() && js >= old(js) && (old(jsErr) ==> jsErr)
      ensures !more ==> Found(whole, v, js, err0, jsErr)
      ensures more ==> js > old(js)
      ensures more && w.None? ==> Found(whole, 0, js, err0, jsErr)
      ensures more && w.Some? ==> Underway(whole, TermRestVal(JS, text, js, w.value, Vars()), err0, jsErr)
      decreases |text| - js, 2
    {
      ghost var vars, k, err := Vars(), js, jsErr;
      var c := JsSign(true);
      if c == '\0' {
        ProductEnds(JS, text, k, v, vars, whole, err0, err);
        return false, None;
      }
      w := JsProduct(c, v);
      ProductStep(JS, text, k, v, vars, whole, w, js, err0, err, jsErr);
      more := true;
    }

    // The factor behind the sign c, and v multiplied or divided by it.
    method JsProduct(c: char, v: int64) returns (w: Option<int64>)
      requires Valid() && ProductSign(c)
      modifies this`js, this`jsErr
      ensures Valid() && js >= old(js) && (old(jsErr) ==> jsErr)
      ensures Operated(FactorVal(JS, text, old(js), Vars()), ProductOp(c), v, w, js, old(jsErr), jsErr)
      decreases |text| - js, 1
    {
      var r := JsFactor();
      if (c == '/' || c == '%') && r == 0 {
        jsErr := true;
        return None;
      }
      if c == '*' {
        return Some(Wrap(v * r));
      } else if c == '/' {
        return Some(Wrap(TruncDiv(v, r)));
      } else {
        return Some(Wrap(TruncMod(v, r)));
      }
    }

    method JsExpr() returns (v: int64)
      requires Valid()
      modifies this`js, this`jsErr
      ensures Valid() && js >= old(js) && (old(jsErr) ==> jsErr)
      ensures jsErr || js > old(js)
      ensures Found(ExprVal(JS, text, old(js), Vars()), v, js, old(jsErr), jsErr)
      decreases |text| - js, 5
    {
      ghost var vars := Vars();
      ghost var whole := ExprVal(JS, text, js, vars);
      v := JsTerm();
      while true
        invariant Valid() && Vars() == vars && js >= old(js) && (old(jsErr) ==> jsErr)
        invariant jsErr || js > old(js)
        invariant Underway(whole, ExprRestVal(JS, text, js, v, vars), old(jsErr), jsErr)
        decreases |text| - js
      {
        var c := JsSign(false);
        if c == '\0' {
          break;
        }
        v := JsSum(c, v);
      }
    }

    // The term behind the sign c, added to v or subtracted from it.
    method JsSum(c: char, v: int64) returns (w: int64)
      requires Valid() && SumSign(c)
      modifies this`js, this`jsErr
      ensures Valid() && js >= old(js) && (old(jsErr) ==> jsErr)
      ensures Operated(TermVal(JS, text, old(js), Vars()), SumOp(c), v, Some(w), js, old(jsErr), jsErr)
      decreases |text| - js, 4
    {
      var r := JsTerm();
      w := if c == '+' then Wrap(v + r) else Wrap(v - r);
    }

    // The comparison operator at the cursor, if one stands there.
    method JsComparison() returns (op: Option<Comparison>)
      requires js <= |text|
      modifies this`js
      ensures op == ComparisonAt(text, old(js))
      ensures js == old(js) + if op.None? then 0 else |ComparisonText(op.value)|
    {
      var c, e := At(text, js), At(text, js + 1);
      var two := e == '=' && (c == '=' || c == '!' || c == '<' || c == '>');
      if two {
        js := js + 2;
      } else if c == '<' || c == '>' {
        js := js + 1;
      } else {
        return None;
      }
      return Some(if two then (if c == '=' then Eq else if c == '!' then Ne else if c == '<' then Le else Ge)
                  else if c == '<' then Lt else Gt);
    }

    method JsCond() returns (v: bool)
      requires Valid()
      modifies this`js, this`jsErr
      ensures Valid() && js >= old(js) && (old(jsErr) ==> jsErr)
      ensures jsErr || js > old(js)
      ensures Decides(ParseCond(text, old(js)), Vars(), v, js, old(jsErr), jsErr)
    {
      ExprValIs(JS, text, js, Vars());
      var a := JsExpr();
      v := JsCompare(a);
    }

    // The rest of a condition of which a has been read.
    method JsCompare(a: int64) returns (v: bool)
      requires Valid()
      modifies this`js, this`jsErr
      ensures Valid() && js >= old(js) && (old(jsErr) ==> jsErr)
      ensures var k := Skip(JS, text, old(js));
        var op := ComparisonAt(text, k);
        if op.None? then v == (a != 0) && js == k && jsErr == old(jsErr)
        else
          var b := Valued(ParseExpr(JS, text, k + |ComparisonText(op.value)|), Vars());
          if b.Stuck? then jsErr else v == Holds(op.value, a, b.v) && js == b.end && jsErr == old(jsErr)
    {
      JsSkip();
      var op := JsComparison();
      if op.None? {
        return a != 0;
      }
      ExprValIs(JS, text, js, Vars());
      var b := JsExpr();
      v := match op.value
        case Eq => a == b
        case Ne => a != b
        case Le => a <= b
        case Ge => a >= b
        case Lt => a < b
        case Gt => a > b;
    }

    // The rest of a declaration, after `var`.
    method JsVarDecl(exec: bool)
      requires Valid()
      modifies this`js, this`jsErr, jvars.slots
      ensures Valid() && js >= old(js) && (old(jsErr) ==> jsErr)
      ensures !exec || old(jsErr) ==> Vars() == old(Vars())
      ensures !old(jsErr) ==>
        Ran(StmtMeaning(ParseVar(text, old(js)), old(Vars())), exec, js, Vars(), out, out, jsErr)
    {
      JsSkip();
      var name := JsName(false);
      JsDeclared(exec, name);
    }

    // The rest of a declaration, after its name.
    method JsDeclared(exec: bool, name: string)
      requires Valid()
      modifies this`js, this`jsErr, jvars.slots
      ensures Valid() && js >= old(js) && (old(jsErr) ==> jsErr)
      ensures !exec || old(jsErr) ==> Vars() == old(Vars())
      ensures !old(jsErr) ==>
        Ran(StmtMeaning(ParseInit(text, old(js), name), old(Vars())), exec, js, Vars(), out, out, jsErr)
    {
      InitMeaning(text, js, name, Vars());
      var v := JsInit();
      if exec && !jsErr {
        var _ := jvars.Declare(name, v);
      }
      var _ := JsAccept(';');
    }

    // The initial value of a declaration, 0 without one.
    method JsInit() returns (v: int64)
      requires Valid()
      modifies this`js, this`jsErr
      ensures Valid() && js >= old(js) && (old(jsErr) ==> jsErr)
      ensures var n := Skip(JS, text, old(js));
        if At(text, n) != '=' then v == 0 && js == n && Skip(JS, text, js) == n && jsErr == old(jsErr)
        else Found(ExprVal(JS, text, n + 1, Vars()), v, js, old(jsErr), jsErr)
    {
      v := 0;
      SkipTwice(JS, text, js);
      var init := JsAccept('=');
      if init {
        v := JsExpr();
      }
    }

    // The rest of an output statement, after `print` or `alert`.
    method JsShow(exec: bool, alert: bool)
      requires Valid()
      modifies this`js, this`jsErr, this`out
      ensures Valid() && js >= old(js) && (old(jsErr) ==> jsErr)
      ensures !exec || old(jsErr) ==> out == old(out)
      ensures !old(jsErr) ==>
        Ran(StmtMeaning(ParseShow(text, old(js), alert), old(Vars())), exec, js, Vars(), old(out), out, jsErr)
    {
      var paren := JsAccept('(');
      if !paren {
        jsErr := true;
        return;
      }
      JsShown(exec, alert);
    }

    // What is put out: quoted text or a value.
    method JsShown(exec: bool, alert: bool)
      requires Valid()
      modifies this`js, this`jsErr, this`out
      ensures Valid() && js >= old(js) && (old(jsErr) ==> jsErr)
      ensures !exec || old(jsErr) ==> out == old(out)
      ensures !old(jsErr) ==>
        Ran(StmtMeaning(ParseShown(text, old(js), alert), old(Vars())), exec, js, Vars(), old(out), out, jsErr)
    {
      JsSkip();
      if At(text, js) == '"' {
        js := js + 1;
        JsShowText(exec, alert);
      } else {
        JsShowValue(exec, alert);
      }
    }

    method JsShowText(exec: bool, alert: bool)
      requires Valid()
      modifies this`js, this`jsErr, this`out
      ensures Valid() && js >= old(js) && (old(jsErr) ==> jsErr)
      ensures !exec || old(jsErr) ==> out == old(out)
      ensures !old(jsErr) ==>
        Ran(StmtMeaning(ParseShowText(text, old(js), alert), old(Vars())), exec, js, Vars(), old(out), out, jsErr)
    {
      ShowTextMeaning(text, js, alert, Vars());
      var s := JsQuote();
      if At(text, js) == '"' {
        js := js + 1;
      }
      if exec && !jsErr {
        out := out + [if alert then Status(s) else Line(s)];
      }
      JsShowEnd();
    }

    method JsShowValue(exec: bool, ghost alert: bool)
      requires Valid()
      modifies this`js, this`jsErr, this`out
      ensures Valid() && js >= old(js) && (old(jsErr) ==> jsErr)
      ensures !exec || old(jsErr) ==> out == old(out)
      ensures !old(jsErr) ==>
        Ran(StmtMeaning(ParseShowValue(text, old(js), alert), old(Vars())), exec, js, Vars(), old(out), out, jsErr)
    {
      ShowValueMeaning(text, js, alert, Vars());
      var v := JsExpr();
      if exec && !jsErr {
        var s := FormatInt(v);
        out := out + [Line(s)];
      }
      JsShowEnd();
    }

    method JsShowEnd()
      requires Valid()
      modifies this`js, this`jsErr
      ensures js <= |text| && js >= old(js)
      ensures var n := Skip(JS, text, old(js));
        if At(text, n) != ')' then jsErr else jsErr == old(jsErr) && js == Skip(JS, text, n + 1)
    {
      var closed := JsAccept(')');
      if !closed {
        jsErr := true;
      }
      var _ := JsAccept(';');
    }

    // Copies quoted text up to the quote, or as far as the buffer allows.
    method JsQuote() returns (s: string)
      requires js <= |text|
      modifies this`js
      ensures js == QuoteEnd(text, old(js), TEXT_MAX) && s == Piece(text, old(js), js)
    {
      ghost var start := js;
      s := "";
      while At(text, js) != '\0' && At(text, js) != '"' && |s| + 1 < 128
        invariant start <= js <= |text| && s == Piece(text, start, js) && |s| <= TEXT_MAX
        invariant QuoteEnd(text, js, TEXT_MAX - |s|) == QuoteEnd(text, start, TEXT_MAX)
        decreases |text| - js
      {
        s := s + [text[js]];
        js := js + 1;
      }
    }

    // An assignment or a bare expression.
    method JsAssign(exec: bool)
      requires Valid()
      modifies this`js, this`jsErr, jvars.slots
      ensures Valid() && js >= old(js) && (old(jsErr) ==> jsErr)
      ensures jsErr || js > old(js)
      ensures !exec || old(jsErr) ==> Vars() == old(Vars())
      ensures !old(jsErr) ==>
        Ran(StmtMeaning(ParseAssign(text, old(js)), old(Vars())), exec, js, Vars(), out, out, jsErr)
    {
      var save := js;
      var name := JsName(false);
      JsSkip();
      if |name| > 0 && At(text, js) == '=' && At(text, js + 1) != '=' {
        js := js + 1;
        JsAssigned(exec, name);
        return;
      }
      js := save;
      JsEvaluate(exec);
    }

    method JsEvaluate(ghost exec: bool)
      requires Valid()
      modifies this`js, this`jsErr
      ensures Valid() && js >= old(js) && (old(jsErr) ==> jsErr)
      ensures jsErr || js > old(js)
      ensures !old(jsErr) ==>
        Ran(StmtMeaning(ParseEvaluate(text, old(js)), Vars()), exec, js, Vars(), out, out, jsErr)
    {
      EvaluateMeaning(text, js, Vars());
      var _ := JsExpr();
      var _ := JsAccept(';');
    }

    // The rest of an assignment, after its '='.
    method JsAssigned(exec: bool, name: string)
      requires Valid()
      modifies this`js, this`jsErr, jvars.slots
      ensures Valid() && js >= old(js) && (old(jsErr) ==> jsErr)
      ensures !exec || old(jsErr) ==> Vars() == old(Vars())
      ensures !old(jsErr) ==>
        Ran(StmtMeaning(ParseAssigned(text, old(js), name), old(Vars())), exec, js, Vars(), out, out, jsErr)
    {
      AssignedMeaning(text, js, name, Vars());
      var v := JsExpr();
      if exec && !jsErr {
        var known := jvars.Assign(name, v);
        if !known {
          jsErr := true;
        }
      }
      var _ := JsAccept(';');
    }

    method JsStmt(exec: bool)
      requires Valid()
      modifies this`js, this`jsErr, this`out, jvars.slots
      ensures Valid() && js >= old(js) && (old(jsErr) ==> jsErr)
      ensures jsErr || js > old(js) || At(text, js) in {'\0', '}'}
      ensures !exec || old(jsErr) ==> Vars() == old(Vars()) && out == old(out)
      ensures !old(jsErr) ==>
        Ran(StmtMeaning(ParseStmt(text, old(js)), old(Vars())), exec, js, Vars(), old(out), out, jsErr)
      decreases |text| - js, 2
    {
      SkipTwice(JS, text, js);
      JsSkip();
      if At(text, js) == '\0' || At(text, js) == '}' {
        return;
      }
      var kw := JsKw("var");
      if kw {
        JsVarDecl(exec);
        return;
      }
      JsNoVar(exec);
    }

    // A statement that declares nothing.
    method JsNoVar(exec: bool)
      requires Valid() && Skip(JS, text, js) == js
      modifies this`js, this`jsErr, this`out, jvars.slots
      ensures Valid() && js >= old(js) && (old(jsErr) ==> jsErr)
      ensures jsErr || js > old(js)
      ensures !exec || old(jsErr) ==> Vars() == old(Vars()) && out == old(out)
      ensures !old(jsErr) ==>
        Ran(StmtMeaning(ParseNoVar(text, old(js)), old(Vars())), exec, js, Vars(), old(out), out, jsErr)
      decreases |text| - js, 1
    {
      var output, alert := JsOutputKw();
      if output {
        JsShow(exec, alert);
        return;
      }
      JsControl(exec);
    }

    // One of the words of output, if it comes next.
    method JsOutputKw() returns (output: bool, alert: bool)
      requires Valid() && Skip(JS, text, js) == js
      modifies this`js
      ensures alert == KeywordAt(text, old(js), "alert") && output == (alert || KeywordAt(text, old(js), "print"))
      ensures js == old(js) + (if output then 5 else 0) && js <= |text|
    {
      alert := JsKw("alert");
      output := alert;
      if !alert {
        output := JsKw("print");
      }
    }

    // The statements that begin with none of the words above.
    method JsControl(exec: bool)
      requires Valid() && Skip(JS, text, js) == js
      modifies this`js, this`jsErr, this`out, jvars.slots
      ensures Valid() && js >= old(js) && (old(jsErr) ==> jsErr)
      ensures jsErr || js > old(js)
      ensures !exec || old(jsErr) ==> Vars() == old(Vars()) && out == old(out)
      ensures !old(jsErr) ==>
        Ran(StmtMeaning(ParseControl(text, old(js)), old(Vars())), exec, js, Vars(), old(out), out, jsErr)
      decreases |text| - js, 0
    {
      var kw := JsKw("if");
      if kw {
        JsIf(exec);
        return;
      }
      kw := JsKw("while");
      if kw {
        JsWhile(exec);
        return;
      }
      JsAssign(exec);
    }

    // A condition in brackets; `bad` when a bracket is missing.
    method JsGuard() returns (c: bool, bad: bool)
      requires Valid()
      modifies this`js, this`jsErr
      ensures Valid() && js >= old(js) && (old(jsErr) ==> jsErr) && (bad ==> jsErr)
      ensures bad || js > old(js)
      ensures Decides(ParseGuard(text, old(js)), Vars(), c, js, old(jsErr), jsErr)
    {
      c, bad := false, true;
      var paren := JsAccept('(');
      if !paren {
        jsErr := true;
        return;
      }
      c := JsCond();
      var closed := JsAccept(')');
      if !closed {
        jsErr := true;
        return;
      }
      bad := false;
    }

    // The rest of a conditional, after `if`.
    method JsIf(exec: bool)
      requires Valid()
      modifies this`js, this`jsErr, this`out, jvars.slots
      ensures Valid() && js >= old(js) && (old(jsErr) ==> jsErr)
      ensures !exec || old(jsErr) ==> Vars() == old(Vars()) && out == old(out)
      ensures !old(jsErr) ==>
        Ran(StmtMeaning(ParseIf(text, old(js)), old(Vars())), exec, js, Vars(), old(out), out, jsErr)
      decreases |text| - js, 5
    {
      IfMeaning(text, js, Vars());
      var c, bad := JsGuard();
      if bad {
        return;
      }
      JsBlockOrStmt(exec && c && !jsErr);
    }

    // The rest of a loop, after `while`.
    method JsWhile(exec: bool)
      requires Valid()
      modifies this`js, this`jsErr, this`out, jvars.slots
      ensures Valid() && js >= old(js) && (old(jsErr) ==> jsErr)
      ensures !exec || old(jsErr) ==> Vars() == old(Vars()) && out == old(out)
      ensures !old(jsErr) ==>
        Ran(StmtMeaning(ParseWhile(text, old(js)), old(Vars())), exec, js, Vars(), old(out), out, jsErr)
      decreases |text| - js, 5
    {
      WhileMeaning(text, js, Vars());
      var paren := JsAccept('(');
      if !paren {
        jsErr := true;
        return;
      }
      JsLaps(exec);
    }

    // The rounds of a loop whose condition stands at the cursor.
    method JsLaps(exec: bool)
      requires Valid()
      modifies this`js, this`jsErr, this`out, jvars.slots
      ensures Valid() && js >= old(js) && (old(jsErr) ==> jsErr)
      ensures !exec || old(jsErr) ==> Vars() == old(Vars()) && out == old(out)
      ensures !old(jsErr) ==>
        Ran(LoopMeaning(text, old(js), old(Vars()), MAX_LAPS), exec, js, Vars(), old(out), out, jsErr)
      decreases |text| - js, 7
    {
      ghost var vars, out0 := Vars(), out;
      var again := js;
      ghost var m := LoopMeaning(text, again, vars, MAX_LAPS);
      for it := 0 to 200
        invariant Valid() && js >= again && old(jsErr) == jsErr
        invariant !exec || jsErr ==> Vars() == vars && out == out0
        invariant !jsErr && it > 0 ==> m.Right? && js == m.end && (!exec ==> m.skips)
        invariant !jsErr && exec ==> LoopAhead(m, LoopMeaning(text, again, Vars(), 200 - it), out0, out)
      {
        ghost var v, o := Vars(), out;
        js := again;
        var stop := JsLap(exec);
        if !old(jsErr) && exec {
          LapStep(text, again, m, v, 200 - it, out0, o, js, Vars(), out, jsErr, stop);
        } else if !old(jsErr) {
          LapSkipped(text, again, vars, out, js, jsErr, stop);
        }
        if stop {
          return;
        }
      }
    }

    // One round of a loop whose condition stands at the cursor.
    method JsLap(exec: bool) returns (stop: bool)
      requires Valid()
      modifies this`js, this`jsErr, this`out, jvars.slots
      ensures Valid() && js >= old(js) && (old(jsErr) ==> jsErr)
      ensures stop || !jsErr
      ensures !exec || old(jsErr) ==> Vars() == old(Vars()) && out == old(out)
      ensures !old(jsErr) ==> LapRan(exec, text, old(js), old(Vars()), old(out), js, Vars(), out, jsErr, stop)
      decreases |text| - js, 6
    {
      var c := JsCond();
      var closed := JsAccept(')');
      if !closed {
        jsErr := true;
        return true;
      }
      if !c || jsErr {
        JsBlockOrStmt(false);
        return true;
      }
      JsBlockOrStmt(exec && !jsErr);
      return jsErr;
    }

    method JsBlockOrStmt(exec: bool)
      requires Valid()
      modifies this`js, this`jsErr, this`out, jvars.slots
      ensures Valid() && js >= old(js) && (old(jsErr) ==> jsErr)
      ensures !exec || old(jsErr) ==> Vars() == old(Vars()) && out == old(out)
      ensures !old(jsErr) ==>
        Ran(BodyMeaning(ParseBody(text, old(js)), old(Vars())), exec, js, Vars(), old(out), out, jsErr)
      decreases |text| - js, 4
    {
      SkipTwice(JS, text, js);
      JsSkip();
      var brace := JsAccept('{');
      if brace {
        JsBlock(exec);
        return;
      }
      JsStmt(exec);
    }

    // Whether the block ends here, with its '}' or, which is an error, with the text.
    method JsBlockEnds() returns (ended: bool)
      requires Valid()
      modifies this`js, this`jsErr
      ensures var b := Skip(JS, text, old(js));
        && ended == (At(text, b) in {'\0', '}'})
        && js == (if At(text, b) == '}' then b + 1 else b) && jsErr == (old(jsErr) || At(text, b) == '\0')
      ensures js <= |text|
    {
      SkipTwice(JS, text, js);
      JsSkip();
      var brace := JsAccept('}');
      if brace {
        return true;
      }
      if At(text, js) == '\0' {
        jsErr := true;
        return true;
      }
      return false;
    }

    // The statements of a block, up to its '}'.
    method JsBlock(exec: bool)
      requires Valid()
      modifies this`js, this`jsErr, this`out, jvars.slots
      ensures Valid() && js >= old(js) && (old(jsErr) ==> jsErr)
      ensures !exec || old(jsErr) ==> Vars() == old(Vars()) && out == old(out)
      ensures !old(jsErr) ==>
        Ran(BlockMeaning(ParseBlock(text, old(js)), old(Vars())), exec, js, Vars(), old(out), out, jsErr)
      decreases |text| - js, 3
    {
      ghost var vars, out0 := Vars(), out;
      ghost var m := BlockMeaning(ParseBlock(text, js), vars);
      while !jsErr
        invariant Valid() && js >= old(js) && (old(jsErr) ==> jsErr)
        invariant !exec || old(jsErr) ==> Vars() == vars && out == out0
        invariant !old(jsErr) && !jsErr ==> BlockAhead(exec, m, BlockMeaning(ParseBlock(text, js), Vars()), out0, out)
        invariant !old(jsErr) && jsErr ==> Ran(m, exec, js, Vars(), out0, out, jsErr)
        decreases |text| - js, !jsErr
      {
        ghost var i, v, o := js, Vars(), out;
        var ended := JsBlockEnds();
        if ended {
          BlockMeaningMore(text, i, v);
          break;
        }
        JsStmt(exec);
        BlockStep(exec, text, i, m, v, out0, o, js, Vars(), out, jsErr);
      }
    }

    // Runs the whole text.  Where a '}' stands instead of a statement, the source's loop calls
    // js_stmt again and again without effect; here that is reported as `stuck`.  It comes to that
    // exactly if the statements before such a '}' are run without an error.
    method ScriptRun() returns (stuck: bool)
      requires Valid()
      modifies this`js, this`jsErr, this`out, jvars.slots
      ensures Valid()
      ensures var m := BlockMeaning(ParseScript(text, 0), map[]);
        if m.Wrong? then jsErr && !stuck
        else
          && jsErr == !m.r.ok && stuck == (m.r.ok && At(text, m.end) == '}') && Vars() == m.r.vars
          && out == old(out) + m.r.out + if jsErr then [Status("script erro")] else []
      ensures stuck ==> !jsErr && At(text, js) == '}' && StmtMeaning(ParseStmt(text, js), Vars()) == Right(js, true, Outcome(true, Vars(), []))
    {
      jvars.Clear();
      js, jsErr, stuck := 0, false, false;
      ghost var out0 := out;
      ghost var m := BlockMeaning(ParseScript(text, 0), map[]);
      while At(text, js) != '\0' && !jsErr
        invariant Valid()
        invariant !jsErr ==> LoopAhead(m, BlockMeaning(ParseScript(text, js), Vars()), out0, out)
        invariant jsErr && m.Right? ==> !m.r.ok && Vars() == m.r.vars && out == out0 + m.r.out
        decreases |text| - js, !jsErr
      {
        ghost var i, v, o := js, Vars(), out;
        ScriptMeaningMore(text, i, v);
        SkipTwice(JS, text, js);
        JsSkip();
        if At(text, js) == '\0' {
          break;
        }
        var before := js;
        JsStmt(true);
        if js == before && !jsErr {
          assert At(text, js) == '}';
          return true;
        }
        ScriptStep(text, i, m, v, out0, o, js, Vars(), out, jsErr);
      }
      if !jsErr {
        ScriptMeaningMore(text, js, Vars());
      }
      if jsErr {
        out := out + [Status("script erro")];
      }
    }
  }
}
