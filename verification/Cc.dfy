// The interpreter of cc.c: recursive descent over a cursor, with a sticky error flag and a table
// of 64 variables.
//
// Each method is proved against the tree its text stands for (CcSyntax) and the meaning of that
// tree (CcSemantics).
module Cc {
  import opened Options
  import opened Int64
  import opened Lexing
  import opened Expressions
  import opened OnePass
  import opened Variables
  import opened CcSyntax
  import opened CcSemantics

  // What a piece of text amounts to: an error, or a text that ends at `end`, has the effect r and
  // is a return or not.
  datatype Meaning = Fails | Does(end: nat, r: Outcome, returns_: bool)

  ghost function StmtMeaning(p: Parsed<Stmt>, vars: Store): Meaning {
    if p.Bad? || !ExecStmt(p.tree, vars).ok then Fails
    else Does(p.end, ExecStmt(p.tree, vars), p.tree.Return?)
  }

  ghost function BlockMeaning(p: Parsed<seq<Stmt>>, vars: Store): Meaning {
    if p.Bad? || !Exec(p.tree, vars).ok then Fails
    else Does(p.end, Exec(p.tree, vars), false)
  }

  // What a routine promises that runs a piece of text, when no error was raised before.
  ghost predicate Ran(m: Meaning, pos: nat, vars: Store, out0: seq<int64>, out: seq<int64>, err: bool) {
    if m.Fails? then err else !err && pos == m.end && vars == m.r.vars && out == out0 + m.r.printed
  }

  ghost predicate RanStmt(m: Meaning, pos: nat, vars: Store, out0: seq<int64>, out: seq<int64>, err: bool,
                          returned: bool, ret: int64) {
    && Ran(m, pos, vars, out0, out, err)
    && (m.Does? ==> returned == m.returns_ && (returned ==> ret == m.r.ret))
  }

  // The block m has been run up to a rest of it.
  ghost predicate BlockAhead(m: Meaning, rest: Meaning, out0: seq<int64>, out: seq<int64>) {
    if m.Fails? then rest.Fails?
    else
      && rest.Does? && rest.end == m.end && rest.r.vars == m.r.vars && rest.r.ret == m.r.ret
      && out0 + m.r.printed == out + rest.r.printed
  }

  // The end of a statement: what it does counts only if a ';' follows.
  ghost function Ended(t: CString, i: nat, r: Outcome, returns_: bool): Meaning
    requires i <= |t|
  {
    var k := Skip(CC, t, i);
    if At(t, k) == ';' && r.ok then Does(k + 1, r, returns_) else Fails
  }

  lemma InitMeaning(t: CString, i: nat, x: string, vars: Store)
    requires i <= |t|
    ensures var k := Skip(CC, t, i);
      var room := x in vars || |vars| < VAR_MAX;
      StmtMeaning(ParseInit(t, i, x), vars) ==
        if At(t, k) == '=' then
          var r := ExprVal(CC, t, k + 1, vars);
          if r.Stuck? then Fails
          else Ended(t, r.end, if room then Outcome(true, vars[x := r.v], [], 0) else FAILED, false)
        else
          Ended(t, k, if room then Outcome(true, vars[x := 0], [], 0) else FAILED, false)
  {
    if At(t, Skip(CC, t, i)) == '=' {
      InitializedMeaning(t, i, x, vars);
    }
  }

  lemma InitializedMeaning(t: CString, i: nat, x: string, vars: Store)
    requires i <= |t| && At(t, Skip(CC, t, i)) == '='
    ensures var r := ExprVal(CC, t, Skip(CC, t, i) + 1, vars);
      StmtMeaning(ParseInit(t, i, x), vars) ==
        if r.Stuck? then Fails
        else Ended(t, r.end, if x in vars || |vars| < VAR_MAX then Outcome(true, vars[x := r.v], [], 0) else FAILED, false)
  {
    ExprValIs(CC, t, Skip(CC, t, i) + 1, vars);
  }

  lemma PrintedMeaning(t: CString, i: nat, vars: Store)
    requires i <= |t|
    ensures StmtMeaning(ParsePrinted(t, i), vars) ==
      var r := ExprVal(CC, t, i, vars);
      if r.Stuck? then Fails
      else
        var k := Skip(CC, t, r.end);
        if At(t, k) != ')' then Fails else Ended(t, k + 1, Outcome(true, vars, [r.v], 0), false)
  {
    ExprValIs(CC, t, i, vars);
  }

  lemma ReturnMeaning(t: CString, i: nat, vars: Store)
    requires i <= |t|
    ensures var b := Skip(CC, t, i);
      StmtMeaning(ParseReturn(t, i), vars) ==
        if At(t, b) == ';' then Does(b + 1, Outcome(true, vars, [], 0), true)
        else
          var r := ExprVal(CC, t, b, vars);
          if r.Stuck? then Fails else Ended(t, r.end, Outcome(true, vars, [], r.v), true)
  {
    ExprValIs(CC, t, Skip(CC, t, i), vars);
  }

  lemma AssignedMeaning(t: CString, i: nat, x: string, vars: Store)
    requires i <= |t|
    ensures StmtMeaning(ParseAssigned(t, i, x), vars) ==
      var r := ExprVal(CC, t, i, vars);
      if r.Stuck? then Fails
      else Ended(t, r.end, if x in vars then Outcome(true, vars[x := r.v], [], 0) else FAILED, false)
  {
    ExprValIs(CC, t, i, vars);
  }

  lemma EvaluateMeaning(t: CString, i: nat, vars: Store)
    requires i <= |t|
    ensures StmtMeaning(ParseEvaluate(t, i), vars) ==
      var r := ExprVal(CC, t, i, vars);
      if r.Stuck? then Fails else Ended(t, r.end, Outcome(true, vars, [], 0), false)
  {
    ExprValIs(CC, t, i, vars);
  }

  // One more statement of a block.
  lemma BlockMeaningMore(t: CString, i: nat, vars: Store)
    requires i <= |t|
    ensures var b := Skip(CC, t, i);
      BlockMeaning(ParseBlock(t, i), vars) ==
        if At(t, b) == '\0' || At(t, b) == '}' then Does(b, Outcome(true, vars, [], 0), false)
        else
          var h := StmtMeaning(ParseStmt(t, b), vars);
          if h.Fails? then Fails
          else if h.returns_ then Does(h.end, h.r, false)
          else if h.end <= |t| then Then(h, BlockMeaning(ParseBlock(t, h.end), h.r.vars))
          else Fails
  {
    var b := Skip(CC, t, i);
    if At(t, b) != '\0' && At(t, b) != '}' {
      var s := ParseStmt(t, b);
      if s.Ok? && !s.tree.Return? {
        var p := ParseBlock(t, s.end);
        if p.Ok? {
          assert ([s.tree] + p.tree)[1..] == p.tree;
        }
      }
    }
  }

  ghost function Then(h: Meaning, rest: Meaning): Meaning {
    if h.Fails? || rest.Fails? then Fails else Does(rest.end, rest.r.(printed := h.r.printed + rest.r.printed), false)
  }

  // A statement h of a block has been run, with `rest` to come.
  lemma StepInBlock(m: Meaning, h: Meaning, rest: Meaning, out0: seq<int64>, out: seq<int64>,
                    pos: nat, vars': Store, out': seq<int64>, err: bool, returned: bool, ret: int64)
    requires BlockAhead(m, if h.Fails? then Fails else if h.returns_ then Does(h.end, h.r, false) else Then(h, rest), out0, out)
    requires RanStmt(h, pos, vars', out, out', err, returned, ret)
    ensures h.Fails? ==> m.Fails? && err
    ensures h.Does? && returned ==> m.Does? && ret == m.r.ret && Ran(m, pos, vars', out0, out', err)
    ensures h.Does? && !returned ==> !err && pos == h.end && vars' == h.r.vars && BlockAhead(m, rest, out0, out')
  {
    if h.Does? && rest.Does? && !returned {
      assert out + (h.r.printed + rest.r.printed) == out' + rest.r.printed;
    }
  }

  lemma BlockStep(t: CString, i: nat, m: Meaning, vars: Store, out0: seq<int64>, out: seq<int64>,
                  pos: nat, vars': Store, out': seq<int64>, err: bool, returned: bool, ret: int64)
    requires i <= |t| && pos <= |t| && At(t, Skip(CC, t, i)) !in {'\0', '}'}
    requires BlockAhead(m, BlockMeaning(ParseBlock(t, i), vars), out0, out)
    requires RanStmt(StmtMeaning(ParseStmt(t, Skip(CC, t, i)), vars), pos, vars', out, out', err, returned, ret)
    ensures err ==> m.Fails?
    ensures !err && returned ==> m.Does? && ret == m.r.ret && Ran(m, pos, vars', out0, out', err)
    ensures !err && !returned ==> BlockAhead(m, BlockMeaning(ParseBlock(t, pos), vars'), out0, out')
  {
    BlockMeaningMore(t, i, vars);
    var h := StmtMeaning(ParseStmt(t, Skip(CC, t, i)), vars);
    var rest := if h.Does? && h.end <= |t| then BlockMeaning(ParseBlock(t, h.end), h.r.vars) else Fails;
    StepInBlock(m, h, rest, out0, out, pos, vars', out', err, returned, ret);
  }

  class Interpreter {
    const src: CString
    var pos: nat
    var err: bool
    const table: VarTable
    var out: seq<int64>

    ghost predicate Valid()
      reads this, table, table.slots
    {
      pos <= |src| && table.Valid() && table.slots.Length == VAR_MAX
    }

    ghost function Vars(): Store
      reads table, table.slots
      requires table.Valid()
    {
      table.Vars()
    }

    constructor (src: CString)
      ensures Valid() && this.src == src && pos == 0 && !err && out == [] && Vars() == map[]
      ensures fresh(table) && fresh(table.slots)
    {
      this.src := src;
      pos, err, out := 0, false, [];
      table := new VarTable(VAR_MAX);
    }

    method CcSkip()
      requires pos <= |src|
      modifies this`pos
      ensures pos == Skip(CC, src, old(pos))
    {
      while true
        invariant pos <= |src| && Skip(CC, src, pos) == Skip(CC, src, old(pos))
        decreases |src| - pos
      {
        var c := At(src, pos);
        if c == ' ' || c == '\t' || c == '\n' || c == '\r' {
          pos := pos + 1;
        } else if c == '/' && At(src, pos + 1) == '/' {
          ghost var start := pos;
          while At(src, pos) != '\0' && At(src, pos) != '\n'
            invariant start <= pos <= |src| && (pos == start || LineEnd(src, pos) == LineEnd(src, start + 1))
            decreases |src| - pos
          {
            pos := pos + 1;
          }
          assert pos == LineEnd(src, start + 1);
        } else {
          break;
        }
      }
    }

    method CcAccept(c: char) returns (accepted: bool)
      requires pos <= |src| && c != '\0'
      modifies this`pos
      ensures var b := Skip(CC, src, old(pos));
        accepted == (At(src, b) == c) && pos == if accepted then b + 1 else b
      ensures pos <= |src|
    {
      CcSkip();
      if At(src, pos) == c {
        pos := pos + 1;
        return true;
      }
      return false;
    }

    method CcAcceptKw(kw: CString) returns (accepted: bool)
      requires pos <= |src|
      modifies this`pos
      ensures var b := Skip(CC, src, old(pos));
        accepted == KeywordAt(src, b, kw) && pos == if accepted then b + |kw| else b
      ensures pos <= |src|
    {
      CcSkip();
      var n := |kw|;
      IsSlice(src, pos, pos + n, kw);
      if pos + n <= |src| && src[pos..pos + n] == kw {
        if IsWordChar(At(src, pos + n)) {
          return false;
        }
        pos := pos + n;
        return true;
      }
      return false;
    }

    method CcParseIdent() returns (found: bool, name: string)
      requires pos <= |src|
      modifies this`pos
      ensures var b := Skip(CC, src, old(pos));
        && found == IsLetter(At(src, b))
        && pos == (if found then NameEnd(src, b, CC.nameMax, true) else b)
        && (found ==> name == Piece(src, b, pos))
      ensures pos <= |src|
    {
      CcSkip();
      name := "";
      if !IsLetter(At(src, pos)) {
        return false, name;
      }
      ghost var start := pos;
      while IsWordChar(At(src, pos)) && |name| + 1 < 32
        invariant start <= pos <= |src| && name == Piece(src, start, pos) && |name| <= 31
        invariant NameEnd(src, pos, 31 - |name|, true) == NameEnd(src, start, 31, true)
        decreases |src| - pos
      {
        name := name + [src[pos]];
        pos := pos + 1;
      }
      return true, name;
    }

    method CcNumber() returns (v: int64)
      requires pos <= |src|
      modifies this`pos, this`err
      ensures var b := Skip(CC, src, old(pos));
        && pos == DigitsEnd(src, b) && v == Wrap(NumberAt(src, b, pos))
        && err == (old(err) || !IsDigit(At(src, b)))
    {
      CcSkip();
      var any;
      v, any := CcDigits();
      if !any {
        err := true;
      }
    }

    method CcDigits() returns (v: int64, any: bool)
      requires pos <= |src|
      modifies this`pos
      ensures pos == DigitsEnd(src, old(pos)) && v == Wrap(NumberAt(src, old(pos), pos)) && any == (pos > old(pos))
    {
      v, any := 0, false;
      ghost var start := pos;
      while IsDigit(At(src, pos))
        invariant start <= pos <= |src| && DigitsEnd(src, pos) == DigitsEnd(src, start) && any == (pos > start)
        invariant (forall k :: start <= k < pos ==> IsDigit(src[k])) && v == Wrap(NumberAt(src, start, pos))
        decreases |src| - pos
      {
        DigitRead(src, start, pos, v);
        v := Wrap(v * 10 + DigitValue(src[pos]));
        pos := pos + 1;
        any := true;
      }
    }

    method CcFactor() returns (v: int64)
      requires Valid()
      modifies this`pos, this`err
      ensures Valid() && pos >= old(pos) && (old(err) ==> err)
      ensures err || pos > old(pos)
      ensures Found(FactorVal(CC, src, old(pos), Vars()), v, pos, old(err), err)
      decreases |src| - pos, 0
    {
      SkipTwice(CC, src, pos);
      CcSkip();
      var c := At(src, pos);
      if c == '(' {
        pos := pos + 1;
        v := CcExpr();
        var closed := CcAccept(')');
        if !closed {
          err := true;
        }
        return;
      }
      if c == '-' {
        pos := pos + 1;
        v := CcFactor();
        v := Wrap(0 - v);
        return;
      }
      if '0' <= c <= '9' {
        v := CcNumber();
        return;
      }
      v := CcVariable();
    }

    // The value of the variable at the cursor; an error without a name or with an unknown one.
    method CcVariable() returns (v: int64)
      requires Valid() && Skip(CC, src, pos) == pos
      modifies this`pos, this`err
      ensures Valid() && pos >= old(pos) && (old(err) ==> err)
      ensures err || pos > old(pos)
      ensures var k := NameEnd(src, old(pos), CC.nameMax, true);
        var x := Piece(src, old(pos), k);
        if IsLetter(At(src, old(pos))) && x in Vars() then v == Vars()[x] && pos == k && err == old(err) else err
    {
      var found, name := CcParseIdent();
      if found {
        var slot := table.Lookup(name);
        if slot < 0 {
          err := true;
          return 0;
        }
        v := table.Load(slot);
        return;
      }
      err := true;
      return 0;
    }

    // Takes the sign that continues a product, or else a sum, if one stands there.
    method CcSign(product: bool) returns (c: char)
      requires pos <= |src|
      modifies this`pos
      ensures var b := Skip(CC, src, old(pos));
        if (if product then ProductSign(At(src, b)) else SumSign(At(src, b))) then c == At(src, b) && pos == b + 1
        else c == '\0' && pos == b
      ensures pos <= |src|
    {
      CcSkip();
      c := At(src, pos);
      if (product && c != '*' && c != '/' && c != '%') || (!product && c != '+' && c != '-') {
        return '\0';
      }
      pos := pos + 1;
    }

    method CcTerm() returns (v: int64)
      requires Valid()
      modifies this`pos, this`err
      ensures Valid() && pos >= old(pos) && (old(err) ==> err)
      ensures err || pos > old(pos)
      ensures Found(TermVal(CC, src, old(pos), Vars()), v, pos, old(err), err)
      decreases |src| - pos, 3
    {
      ghost var vars := Vars();
      ghost var whole := TermVal(CC, src, pos, vars);
      v := CcFactor();
      while true
        invariant Valid() && Vars() == vars && pos >= old(pos) && (old(err) ==> err)
        invariant err || pos > old(pos)
        invariant Underway(whole, TermRestVal(CC, src, pos, v, vars), old(err), err)
        decreases |src| - pos
      {
        var more, w := CcNextFactor(v, whole, old(err));
        if !more {
          break;
        }
        if w.None? {
          return 0;
        }
        v := w.value;
      }
    }

    // The next factor of a term, if there is one, and v multiplied or divided by it.
    method CcNextFactor(v: int64, ghost whole: Reading, ghost err0: bool) returns (more: bool, w: Option<int64>)
      requires Valid() && Underway(whole, TermRestVal(CC, src, pos, v, Vars()), err0, err)
      modifies this`pos, this`err
      ensures Valid() && pos >= old(pos) && (old(err) ==> err)
      ensures !more ==> Found(whole, v, pos, err0, err)
      ensures more ==> pos > old(pos)
      ensures more && w.None? ==> Found(whole, 0, pos, err0, err)
      ensures more && w.Some? ==> Underway(whole, TermRestVal(CC, src, pos, w.value, Vars()), err0, err)
      decreases |src| - pos, 2
    {
      ghost var vars, k, err1 := Vars(), pos, err;
      var c := CcSign(true);
      if c == '\0' {
        ProductEnds(CC, src, k, v, vars, whole, err0, err1);
        return false, None;
      }
      w := CcProduct(c, v);
      ProductStep(CC, src, k, v, vars, whole, w, pos, err0, err1, err);
      more := true;
    }

    // The factor behind the sign c, and v multiplied or divided by it.
    method CcProduct(c: char, v: int64) returns (w: Option<int64>)
      requires Valid() && ProductSign(c)
      modifies this`pos, this`err
      ensures Valid() && pos >= old(pos) && (old(err) ==> err)
      ensures Operated(FactorVal(CC, src, old(pos), Vars()), ProductOp(c), v, w, pos, old(err), err)
      decreases |src| - pos, 1
    {
      var r := CcFactor();
      if (c == '/' || c == '%') && r == 0 {
        err := true;
        return None;
      }
      if c == '*' {
        return Some(Wrap(v * r));
      } else if c == '/' {
        return Some(Wrap(TruncDiv(v, r)));
      } else {
        return Some(Wrap(TruncMod(v, r)));
      }
    }

    method CcExpr() returns (v: int64)
      requires Valid()
      modifies this`pos, this`err
      ensures Valid() && pos >= old(pos) && (old(err) ==> err)
      ensures err || pos > old(pos)
      ensures Found(ExprVal(CC, src, old(pos), Vars()), v, pos, old(err), err)
      decreases |src| - pos, 5
    {
      ghost var vars := Vars();
      ghost var whole := ExprVal(CC, src, pos, vars);
      v := CcTerm();
      while true
        invariant Valid() && Vars() == vars && pos >= old(pos) && (old(err) ==> err)
        invariant err || pos > old(pos)
        invariant Underway(whole, ExprRestVal(CC, src, pos, v, vars), old(err), err)
        decreases |src| - pos
      {
        var c := CcSign(false);
        if c == '\0' {
          break;
        }
        v := CcSum(c, v);
      }
    }

    // The term behind the sign c, added to v or subtracted from it.
    method CcSum(c: char, v: int64) returns (w: int64)
      requires Valid() && SumSign(c)
      modifies this`pos, this`err
      ensures Valid() && pos >= old(pos) && (old(err) ==> err)
      ensures Operated(TermVal(CC, src, old(pos), Vars()), SumOp(c), v, Some(w), pos, old(err), err)
      decreases |src| - pos, 4
    {
      var r := CcTerm();
      w := if c == '+' then Wrap(v + r) else Wrap(v - r);
    }

    // Requires the ';' that ends a statement.
    method CcEnd() returns (ended: bool)
      requires pos <= |src|
      modifies this`pos, this`err
      ensures var k := Skip(CC, src, old(pos));
        ended == (At(src, k) == ';') && pos == (if ended then k + 1 else k) && err == (old(err) || !ended)
      ensures pos <= |src|
    {
      ended := CcAccept(';');
      if !ended {
        err := true;
      }
    }

    // The end of a declaration, once the value is known.
    method CcDeclared(name: string, v: int64)
      requires Valid()
      modifies this`pos, this`err, table.slots
      ensures Valid() && pos >= old(pos) && (old(err) ==> err)
      ensures var vars := old(Vars());
        var r := if name in vars || |vars| < VAR_MAX then Outcome(true, vars[name := v], [], 0) else FAILED;
        !old(err) ==> Ran(Ended(src, old(pos), r, false), pos, Vars(), out, out, err)
    {
      var ended := CcEnd();
      if !ended {
        return;
      }
      var room := table.Declare(name, v);
      if !room {
        err := true;
      }
    }

    // The rest of a declaration, after its name.
    method CcInit(name: string)
      requires Valid()
      modifies this`pos, this`err, table.slots
      ensures Valid() && pos >= old(pos) && (old(err) ==> err)
      ensures !old(err) ==> Ran(StmtMeaning(ParseInit(src, old(pos), name), old(Vars())), pos, Vars(), out, out, err)
    {
      InitMeaning(src, pos, name, Vars());
      var v: int64 := 0;
      var init := CcAccept('=');
      if init {
        v := CcExpr();
      }
      CcDeclared(name, v);
    }

    // The rest of a declaration, after `int`.
    method CcDeclare()
      requires Valid()
      modifies this`pos, this`err, table.slots
      ensures Valid() && pos >= old(pos) && (old(err) ==> err)
      ensures !old(err) ==> Ran(StmtMeaning(ParseDeclare(src, old(pos)), old(Vars())), pos, Vars(), out, out, err)
    {
      var found, name := CcParseIdent();
      if !found {
        err := true;
        return;
      }
      CcInit(name);
    }

    // The rest of an output statement, after `print`.
    method CcPrint()
      requires Valid()
      modifies this`pos, this`err, this`out
      ensures Valid() && pos >= old(pos) && (old(err) ==> err)
      ensures !old(err) ==> Ran(StmtMeaning(ParsePrint(src, old(pos)), Vars()), pos, Vars(), old(out), out, err)
    {
      var paren := CcAccept('(');
      if !paren {
        err := true;
        return;
      }
      CcPrinted();
    }

    // The part behind the bracket.
    method CcPrinted()
      requires Valid()
      modifies this`pos, this`err, this`out
      ensures Valid() && pos >= old(pos) && (old(err) ==> err)
      ensures !old(err) ==> Ran(StmtMeaning(ParsePrinted(src, old(pos)), Vars()), pos, Vars(), old(out), out, err)
    {
      PrintedMeaning(src, pos, Vars());
      var v := CcExpr();
      var closed := CcAccept(')');
      if !closed {
        err := true;
        return;
      }
      var ended := CcEnd();
      if !ended {
        return;
      }
      out := out + [v];
    }

    // The rest of a return statement, after `return`.
    method CcReturn() returns (returned: bool, ret: int64)
      requires Valid()
      modifies this`pos, this`err
      ensures Valid() && pos >= old(pos) && (old(err) ==> err) && (!returned ==> err)
      ensures !old(err) ==>
        RanStmt(StmtMeaning(ParseReturn(src, old(pos)), Vars()), pos, Vars(), out, out, err, returned, ret)
    {
      ReturnMeaning(src, pos, Vars());
      ret := 0;
      SkipTwice(CC, src, pos);
      CcSkip();
      if At(src, pos) != ';' {
        ret := CcExpr();
      }
      returned := CcEnd();
    }

    // An assignment or a bare expression.
    method CcAssign()
      requires Valid() && Skip(CC, src, pos) == pos
      modifies this`pos, this`err, table.slots
      ensures Valid() && pos >= old(pos) && (old(err) ==> err)
      ensures err || pos > old(pos)
      ensures !old(err) ==> Ran(StmtMeaning(ParseAssign(src, old(pos)), old(Vars())), pos, Vars(), out, out, err)
    {
      var save := pos;
      var found, name := CcParseIdent();
      if found {
        CcSkip();
        if At(src, pos) == '=' && At(src, pos + 1) != '=' {
          pos := pos + 1;
          CcAssigned(name);
          return;
        }
        pos := save;
      }
      CcEvaluate();
    }

    method CcEvaluate()
      requires Valid()
      modifies this`pos, this`err
      ensures Valid() && pos >= old(pos) && (old(err) ==> err)
      ensures err || pos > old(pos)
      ensures !old(err) ==> Ran(StmtMeaning(ParseEvaluate(src, old(pos)), Vars()), pos, Vars(), out, out, err)
    {
      EvaluateMeaning(src, pos, Vars());
      var _ := CcExpr();
      var _ := CcEnd();
    }

    // The rest of an assignment, after its '='.
    method CcAssigned(name: string)
      requires Valid()
      modifies this`pos, this`err, table.slots
      ensures Valid() && pos >= old(pos) && (old(err) ==> err)
      ensures !old(err) ==> Ran(StmtMeaning(ParseAssigned(src, old(pos), name), old(Vars())), pos, Vars(), out, out, err)
    {
      AssignedMeaning(src, pos, name, Vars());
      var v := CcExpr();
      var ended := CcEnd();
      if !ended {
        return;
      }
      var known := table.Assign(name, v);
      if !known {
        err := true;
      }
    }

    // A return, an assignment or a bare expression.
    method CcOther() returns (returned: bool, ret: int64)
      requires Valid() && Skip(CC, src, pos) == pos
      modifies this`pos, this`err, table.slots
      ensures Valid() && pos >= old(pos) && (old(err) ==> err)
      ensures err || pos > old(pos)
      ensures !old(err) ==>
        RanStmt(StmtMeaning(ParseOther(src, old(pos)), old(Vars())), pos, Vars(), out, out, err, returned, ret)
    {
      returned, ret := false, 0;
      var kw := CcAcceptKw("return");
      if kw {
        returned, ret := CcReturn();
        return;
      }
      CcAssign();
    }

    // One statement, unless a '}' or the end of the text comes first.
    method CcStmt() returns (returned: bool, ret: int64)
      requires Valid()
      modifies this`pos, this`err, this`out, table.slots
      ensures Valid() && pos >= old(pos) && (old(err) ==> err)
      ensures err || pos > old(pos) || At(src, pos) in {'\0', '}'}
      ensures var b := Skip(CC, src, old(pos));
        if At(src, b) in {'\0', '}'} then
          pos == b && err == old(err) && out == old(out) && Vars() == old(Vars()) && !returned
        else !old(err) ==>
          RanStmt(StmtMeaning(ParseStmt(src, b), old(Vars())), pos, Vars(), old(out), out, err, returned, ret)
    {
      returned, ret := false, 0;
      SkipTwice(CC, src, pos);
      CcSkip();
      if At(src, pos) == '\0' || At(src, pos) == '}' {
        return;
      }
      returned, ret := CcCommand();
    }

    method CcCommand() returns (returned: bool, ret: int64)
      requires Valid() && Skip(CC, src, pos) == pos
      modifies this`pos, this`err, this`out, table.slots
      ensures Valid() && pos >= old(pos) && (old(err) ==> err)
      ensures err || pos > old(pos)
      ensures !old(err) ==>
        RanStmt(StmtMeaning(ParseStmt(src, old(pos)), old(Vars())), pos, Vars(), old(out), out, err, returned, ret)
    {
      returned, ret := false, 0;
      var kw := CcAcceptKw("int");
      if kw {
        CcDeclare();
        return;
      }
      returned, ret := CcNoDeclare();
    }

    method CcNoDeclare() returns (returned: bool, ret: int64)
      requires Valid() && Skip(CC, src, pos) == pos
      modifies this`pos, this`err, this`out, table.slots
      ensures Valid() && pos >= old(pos) && (old(err) ==> err)
      ensures err || pos > old(pos)
      ensures !old(err) ==>
        RanStmt(StmtMeaning(ParseNoDeclare(src, old(pos)), old(Vars())), pos, Vars(), old(out), out, err, returned, ret)
    {
      returned, ret := false, 0;
      var kw := CcAcceptKw("print");
      if kw {
        CcPrint();
        return;
      }
      returned, ret := CcOther();
    }

    // Statements up to a '}', the end of the text, a return, or an error.
    method CcBlock() returns (ret: int64)
      requires Valid()
      modifies this`pos, this`err, this`out, table.slots
      ensures Valid() && pos >= old(pos) && (old(err) ==> err)
      ensures !old(err) ==>
        var m := BlockMeaning(ParseBlock(src, old(pos)), old(Vars()));
        Ran(m, pos, Vars(), old(out), out, err) && (m.Does? ==> ret == m.r.ret)
    {
      ret := 0;
      ghost var m := BlockMeaning(ParseBlock(src, pos), Vars());
      while true
        invariant Valid() && pos >= old(pos) && (old(err) ==> err) && ret == 0
        invariant err == old(err)
        invariant !old(err) ==> BlockAhead(m, BlockMeaning(ParseBlock(src, pos), Vars()), old(out), out)
        decreases |src| - pos
      {
        ghost var i, v, o := pos, Vars(), out;
        SkipTwice(CC, src, pos);
        CcSkip();
        if At(src, pos) == '\0' || At(src, pos) == '}' {
          BlockMeaningMore(src, i, v);
          break;
        }
        var returned, r := CcStmt();
        if !old(err) {
          BlockStep(src, i, m, v, old(out), o, pos, Vars(), out, err, returned, r);
        }
        if returned {
          ret := r;
          break;
        }
        if err {
          break;
        }
      }
    }

    // `int main() {`, if the text starts with that.
    method CcHeader() returns (isMain: bool)
      requires pos == 0
      modifies this`pos
      ensures pos <= |src| && isMain == HeaderEnd(src).Some? && (isMain ==> pos == HeaderEnd(src).value)
    {
      isMain := false;
      var kw := CcAcceptKw("int");
      if !kw { return; }
      var found, name := CcParseIdent();
      if !found || name != "main" { return; }
      isMain := CcBrackets();
    }

    // `() {`
    method CcBrackets() returns (isMain: bool)
      requires pos <= |src|
      modifies this`pos
      ensures pos <= |src|
      ensures var h := BracketsEnd(src, old(pos)); isMain == h.Some? && (isMain ==> pos == h.value)
    {
      isMain := false;
      var ok := CcAccept('(');
      if !ok { return; }
      ok := CcAccept(')');
      if !ok { return; }
      isMain := CcAccept('{');
    }
  }

  datatype Result = Exit(code: int64) | Finished | Failed

  // What a program does, from an empty table.
  ghost predicate RunsAs(t: CString, result: Result, printed: seq<int64>) {
    match ParseProgram(t)
    case None => result == Failed
    case Some(p) =>
      var r := Exec(p.body, map[]);
      if !r.ok then result == Failed
      else result == (if p.Main? then Exit(r.ret) else Finished) && printed == r.printed
  }

  // cc_run_file, from the point where the file has been read into its buffer.
  method CcRun(text: CString) returns (result: Result, printed: seq<int64>)
    ensures RunsAs(text, result, printed)
  {
    var l := new Interpreter(text);
    var isMain := l.CcHeader();
    if isMain {
      var ret := l.CcBlock();
      if !l.err {
        var closed := l.CcAccept('}');
        if !closed {
          l.err := true;
        }
      }
      printed := l.out;
      return if l.err then Failed else Exit(ret), printed;
    }
    l.pos := 0;
    var _ := l.CcBlock();
    l.CcSkip();
    printed := l.out;
    return if l.err || At(text, l.pos) != '\0' then Failed else Finished, printed;
  }

  // The text is one expression of the grammar, with the tree e, and blanks around its tokens.
  ghost predicate DerivesExpr(t: CString, e: Expr) {
    exists j: nat :: j <= |t| && ExprAt(CC, t, 0, j, e) && Skip(CC, t, j) == |t|
  }

  // The value of a text that is one expression without variables.
  function TextValue(s: CString): Option<int64> {
    var p := ParseExpr(CC, s, 0);
    if p.Ok? && p.end == |s| then Eval(p.tree, map[]) else None
  }

  // cc_eval_expr: the value of an expression without variables, or None.
  method CcEvalExpr(s: CString) returns (value: Option<int64>)
    ensures value == TextValue(s)
    ensures value.Some? <==> exists e :: DerivesExpr(s, e) && Eval(e, map[]).Some?
    ensures forall e :: DerivesExpr(s, e) ==> value == Eval(e, map[])
  {
    var l := new Interpreter(s);
    ExprValIs(CC, s, 0, map[]);
    var v := l.CcExpr();
    ghost var k, err := l.pos, l.err;
    l.CcSkip();
    value := if l.err || At(s, l.pos) != '\0' then None else Some(v);
    ghost var j := ExprSound(CC, s, 0);
    if j <= |s| {
      SkipTwice(CC, s, j);
    }
    EvaluatesGrammar(s, value);
  }

  // What cc_eval_expr computes, put in terms of the grammar.
  lemma EvaluatesGrammar(s: CString, value: Option<int64>)
    requires value == TextValue(s)
    ensures value.Some? <==> exists e :: DerivesExpr(s, e) && Eval(e, map[]).Some?
    ensures forall e :: DerivesExpr(s, e) ==> value == Eval(e, map[])
  {
    forall e ensures DerivesExpr(s, e) <==> ParseExpr(CC, s, 0) == Ok(e, |s|) {
      ReadsExactlyTheGrammar(CC, s, 0, e, |s|);
      forall j: nat | j <= |s| && ExprAt(CC, s, 0, j, e) && Skip(CC, s, j) == |s| ensures Follows(CC, s, j) {
      }
    }
  }

  // So the calculator gives any expression that can be written its value.
  method CalculatePrinted(e: Expr) returns (value: Option<int64>)
    requires Writable(CC, e) && '\0' !in Show(e, 0)
    ensures value == Eval(e, map[])
  {
    PrintedDerives(Show(e, 0), e);
    value := CcEvalExpr(Show(e, 0));
  }

  lemma PrintedDerives(s: CString, e: Expr)
    requires s == Show(e, 0) && Writable(CC, e)
    ensures DerivesExpr(s, e)
  {
    IsSlice(s, 0, |s|, s);
    ShowDerives(CC, s, 0, |s|, e, 0);
  }
}
