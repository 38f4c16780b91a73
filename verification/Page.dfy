// The line buffer of the browser (browser.cpp): 200 rows of characters, each ended by a NUL, and
// the routines that lay out running text in it.
module Page {
  import opened WordWrap

  const NUL: char := 0 as char
  const ROW := 96

  class Page {
    const lines: array2<char>
    var nlines: nat

    // The words of each line, and how it began.
    ghost var layout: Layout

    ghost predicate RowHas(r: nat, text: string)
      requires lines.Length0 == LINES && lines.Length1 == ROW && r < LINES
      reads lines
    {
      && |text| < ROW && NoNul(text) && lines[r, |text|] == NUL
      && forall j :: 0 <= j < |text| ==> lines[r, j] == text[j]
    }

    ghost predicate Valid()
      reads this, lines
    {
      && lines.Length0 == LINES && lines.Length1 == ROW
      && nlines == |layout| <= LINES
      && forall r :: 0 <= r < |layout| ==> GoodRow(layout[r].words) && RowHas(r, Text(layout[r].words))
    }

    constructor ()
      ensures Valid() && fresh(lines) && layout == []
    {
      lines := new char[LINES, ROW]((_, _) => NUL);
      nlines, layout := 0, [];
    }

    // new_line, of which the page keeps no more than 200
    method NewLine(ghost row: Row)
      requires Valid() && row.words == []
      modifies this`nlines, this`layout, lines
      ensures Valid() && layout == if |old(layout)| < LINES then old(layout) + [row] else old(layout)
    {
      if nlines >= LINES {
        return;
      }
      lines[nlines, 0] := NUL;
      nlines := nlines + 1;
      layout := layout + [row];
    }

    method StrLen(r: nat, ghost text: string) returns (n: nat)
      requires lines.Length0 == LINES && lines.Length1 == ROW && r < LINES && RowHas(r, text)
      ensures n == |text|
    {
      n := 0;
      while lines[r, n] != NUL
        invariant n <= |text|
        decreases |text| - n
      {
        n := n + 1;
      }
    }

    // The letters of a word written from place cur on, as far as there is room.
    method Append(cur: nat, w: array<char>, wn: nat, ghost text: string)
      requires lines.Length0 == LINES && lines.Length1 == ROW && 0 < nlines <= LINES
      requires wn <= w.Length && |text| == cur && cur + wn <= WIDTH && NoNul(text) && NoNul(w[..wn])
      requires forall j :: 0 <= j < cur ==> lines[nlines - 1, j] == text[j]
      modifies lines
      ensures RowHas(nlines - 1, text + w[..wn])
      ensures forall r, j :: 0 <= r < LINES && r != nlines - 1 && 0 <= j < ROW ==> lines[r, j] == old(lines[r, j])
    {
      var k, at := 0, cur;
      while k < wn && at < WIDTH
        invariant 0 <= k <= wn && at == cur + k
        invariant forall j :: 0 <= j < at ==> lines[nlines - 1, j] == (text + w[..wn])[j]
        invariant forall r, j :: 0 <= r < LINES && r != nlines - 1 && 0 <= j < ROW ==> lines[r, j] == old(lines[r, j])
      {
        lines[nlines - 1, at] := w[k];
        at := at + 1;
        k := k + 1;
      }
      lines[nlines - 1, at] := NUL;
    }

    // The last line becomes the given one: its text kept and a space put before the word, or
    // overwritten from the start.
    method Extend(keep: nat, w: array<char>, wn: nat, ghost row: Row)
      requires Valid() && 0 < nlines && wn <= w.Length && NoNul(w[..wn]) && GoodRow(row.words)
      requires keep == 0 || keep == |Text(Last(layout).words)|
      requires Text(row.words) == (if keep == 0 then "" else Text(Last(layout).words) + " ") + w[..wn]
      modifies this`layout, lines
      ensures Valid() && layout == old(layout)[..nlines - 1] + [row]
    {
      ghost var text := if keep == 0 then "" else Text(Last(layout).words) + " ";
      var cur := keep;
      assert RowHas(nlines - 1, Text(layout[nlines - 1].words));
      if cur > 0 {
        lines[nlines - 1, cur] := ' ';
        cur := cur + 1;
      }
      Append(cur, w, wn, text);
      layout := layout[..nlines - 1] + [row];
      forall r | 0 <= r < |layout|
        ensures GoodRow(layout[r].words) && RowHas(r, Text(layout[r].words))
      {
        if r < nlines - 1 {
          assert old(RowHas(r, Text(layout[r].words)));
        }
      }
    }

    // emit_word
    method EmitWord(w: array<char>, wn: nat)
      requires Valid() && wn <= w.Length && IsWord(w[..wn])
      modifies this`nlines, this`layout, lines
      ensures Valid() && layout == AddOnPage(old(layout), Word(w[..wn]))
    {
      if nlines <= 0 {
        NewLine(Row([], true));
        WordOnEmptyPage(w[..wn]);
      }
      WordOnPage(layout, w[..wn]);
      BreakOrExtend(w, wn);
    }

    method BreakOrExtend(w: array<char>, wn: nat)
      requires Valid() && 0 < nlines && wn <= w.Length && IsWord(w[..wn])
      modifies this`nlines, this`layout, lines
      ensures Valid()
      ensures var rows, word := old(layout), w[..wn];
        var n, more := |rows| - 1, if |rows| < LINES then rows + [Row([], false)] else rows;
        layout == if Fits(rows[n].words, word)
          then rows[..n] + [Row(rows[n].words + [word], rows[n].hard)]
          else more[..|more| - 1] + [Row([word], Last(more).hard)]
    {
      var cur := LastLength(w[..wn]);
      if cur > 0 && cur + 1 + wn >= WIDTH + 1 {
        NewLine(Row([], false));
        cur := 0;
        Replace(w, wn);
      } else {
        ghost var row := Last(layout);
        Extend(cur, w, wn, Row(row.words + [w[..wn]], row.hard));
      }
    }

    // The length of the last line, which decides whether a word fits.
    method LastLength(ghost word: string) returns (cur: nat)
      requires Valid() && 0 < nlines && IsWord(word)
      ensures var words := Last(layout).words;
        && cur == |Text(words)| && Fits(words, word) == (cur == 0 || cur + 1 + |word| < WIDTH + 1)
        && GoodRow([word]) && (Fits(words, word) ==> GoodRow(words + [word]))
        && Text(words + [word]) == (if cur == 0 then "" else Text(words) + " ") + word
    {
      ghost var words := Last(layout).words;
      TextOfWords(words);
      GoodRowGrows(words, word);
      assert RowHas(nlines - 1, Text(layout[nlines - 1].words));
      cur := StrLen(nlines - 1, Text(words));
    }

    method Replace(w: array<char>, wn: nat)
      requires Valid() && 0 < nlines && wn <= w.Length && IsWord(w[..wn])
      modifies this`layout, lines
      ensures Valid() && layout == old(layout)[..|old(layout)| - 1] + [Row([w[..wn]], Last(old(layout)).hard)]
    {
      ghost var word := w[..wn];
      assert Text([word]) == word && "" + word == word;
      Extend(0, w, wn, Row([word], Last(layout).hard));
    }

    // What the end of a word at place i adds to the words and line ends read.
    static function ReadTo(s: string, i: nat, word: string, done: seq<Token>): seq<Token>
      requires i <= |s|
    {
      done + Finished(word) + if i < |s| && s[i] == '\n' then [Break] else []
    }

    static lemma TokensReadTo(s: string, i: nat, word: string, done: seq<Token>)
      requires i <= |s| && (i < |s| ==> Blank(s[i]) || |word| >= WORD)
      ensures done + Tokens(s, i, word)
           == if i == |s| then ReadTo(s, i, word, done) else ReadTo(s, i, word, done) + Tokens(s, i + 1, "")
    {
    }

    static lemma LetterAdded(s: string, i: nat, word: string)
      requires i < |s| && NoNul(s) && !Blank(s[i]) && |word| < WORD && (word == "" || IsWord(word))
      ensures IsWord(word + [s[i]]) && Tokens(s, i, word) == Tokens(s, i + 1, word + [s[i]])
    {
    }

    // emit_text
    method EmitText(s: string)
      requires Valid() && NoNul(s)
      modifies this`nlines, this`layout, lines
      ensures Valid() && layout == AddAllOnPage(old(layout), Tokens(s, 0, ""))
    {
      var word := new char[ROW];
      var wi, i := 0, 0;
      ghost var done: seq<Token> := [];
      assert word[..0] == "" && done + Tokens(s, 0, "") == Tokens(s, 0, "");
      while true
        invariant 0 <= i <= |s| && wi <= WORD && Valid() && fresh(word)
        invariant wi == 0 || IsWord(word[..wi])
        invariant layout == AddAllOnPage(old(layout), done)
        invariant Tokens(s, 0, "") == done + Tokens(s, i, word[..wi])
        decreases |s| - i
      {
        var c := if i == |s| then NUL else s[i];
        var end := c == NUL || c == ' ' || c == '\t' || c == '\n';
        if !end && wi < WORD {
          ghost var before := word[..wi];
          LetterAdded(s, i, before);
          word[wi] := c;
          assert word[..wi + 1] == before + [c];
          wi := wi + 1;
          i := i + 1;
          continue;
        }
        TokensReadTo(s, i, word[..wi], done);
        done := FinishWord(word, wi, c, s, i, done, old(layout));
        wi := 0;
        assert word[..0] == "";
        if c == NUL {
          break;
        }
        i := i + 1;
      }
    }

    // The end of a word, and of a line of the text.
    method FinishWord(word: array<char>, wi: nat, c: char, ghost s: string, ghost i: nat,
                      ghost done: seq<Token>, ghost start: Layout)
      returns (ghost more: seq<Token>)
      requires Valid() && wi <= word.Length && (wi == 0 || IsWord(word[..wi]))
      requires NoNul(s) && i <= |s| && c == (if i == |s| then NUL else s[i])
      requires layout == AddAllOnPage(start, done)
      modifies this`nlines, this`layout, lines
      ensures Valid() && more == ReadTo(s, i, word[..wi], done) && layout == AddAllOnPage(start, more)
    {
      more := FlushWord(word, wi, done, start);
      if c == '\n' {
        AddOneMore(start, more, Break);
        NewLine(Row([], true));
        more := more + [Break];
      } else {
        assert ReadTo(s, i, word[..wi], done) == more;
      }
    }

    method FlushWord(word: array<char>, wi: nat, ghost done: seq<Token>, ghost start: Layout)
      returns (ghost more: seq<Token>)
      requires Valid() && wi <= word.Length && (wi == 0 || IsWord(word[..wi]))
      requires layout == AddAllOnPage(start, done)
      modifies this`nlines, this`layout, lines
      ensures Valid() && more == done + Finished(word[..wi]) && layout == AddAllOnPage(start, more)
    {
      more := done + Finished(word[..wi]);
      if wi > 0 {
        AddOneMore(start, done, Word(word[..wi]));
        EmitWord(word, wi);
      } else {
        assert more == done;
      }
    }
  }
}
