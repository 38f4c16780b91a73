// Finding the pieces that a written text is made of.
module TextPieces {
  import opened Lexing

  // Text a stands at i, and then text b up to j.
  lemma {:induction false} Split(t: string, i: nat, j: nat, a: string, b: string)
    requires Stands(t, i, j, a + b)
    ensures j == i + |a| + |b| && Stands(t, i, i + |a|, a) && Stands(t, i + |a|, j, b)
    decreases |a|
  {
    if a == "" {
      assert a + b == b;
    } else {
      assert (a + b)[1..] == a[1..] + b;
      Split(t, i + 1, j, a[1..], b);
    }
  }

  lemma {:induction false} Letters(t: string, i: nat, j: nat, a: string)
    requires Stands(t, i, j, a)
    ensures forall k :: i <= k < j ==> t[k] == a[k - i]
    decreases |a|
  {
    if a != "" {
      Letters(t, i + 1, j, a[1..]);
    }
  }

  lemma KeywordStands(d: Dialect, t: CString, i: nat, j: nat, kw: CString, rest: string)
    requires Stands(t, i, j, kw + rest) && |rest| > 0 && !IsWordChar(rest[0])
    requires |kw| > 0 && IsLetter(kw[0])
    ensures KeywordAt(t, i, kw) && Skip(d, t, i) == i && Stands(t, i + |kw|, j, rest) && j == i + |kw| + |rest|
    ensures At(t, i) == kw[0]
  {
    Split(t, i, j, kw, rest);
  }

  // A word of the text is one keyword only if it is that keyword.
  lemma OtherWord(t: CString, i: nat, m: nat, x: string, kw: CString)
    requires Stands(t, i, m, x) && x != kw && !IsWordChar(At(t, m))
    requires forall k :: 0 <= k < |x| ==> IsWordChar(x[k])
    requires forall k :: 0 <= k < |kw| ==> IsWordChar(kw[k])
    ensures !KeywordAt(t, i, kw)
  {
    if KeywordAt(t, i, kw) {
      var n := i + |kw|;
      IsSlice(t, i, n, kw);
      IsSlice(t, i, m, x);
      Letters(t, i, m, x);
      Letters(t, i, n, kw);
    }
  }
}
