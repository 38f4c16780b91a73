// The text of a page of the browser (browser.cpp) broken into lines: which words and line ends a
// text has, and how they are laid out on lines of 94 characters, of which there are 200.
module WordWrap {
  const LINES := 200
  const WORD := 90
  const WIDTH := 94

  datatype Token = Word(letters: string) | Break

  predicate Blank(c: char) { c == ' ' || c == '\t' || c == '\n' }

  // ----- words -----

  function Finished(word: string): seq<Token> {
    if word == "" then [] else [Word(word)]
  }

  // The words and line ends from place i on, with a word begun.  A word that is full is ended, and
  // the letter that does not fit is passed over.
  function Tokens(s: string, i: nat, word: string): seq<Token>
    requires i <= |s|
    decreases |s| - i
  {
    if i == |s| then Finished(word)
    else if !Blank(s[i]) && |word| < WORD then Tokens(s, i + 1, word + [s[i]])
    else Finished(word) + (if s[i] == '\n' then [Break] else []) + Tokens(s, i + 1, "")
  }

  predicate IsWord(w: string) {
    0 < |w| <= WORD && forall k :: 0 <= k < |w| ==> !Blank(w[k]) && w[k] != 0 as char
  }

  predicate IsToken(t: Token) { t.Word? ==> IsWord(t.letters) }

  // A text as C keeps it.
  predicate NoNul(s: string) { forall k :: 0 <= k < |s| ==> s[k] != 0 as char }

  lemma {:induction false} TokensAreWords(s: string, i: nat, word: string)
    requires i <= |s| && NoNul(s) && (word == "" || IsWord(word))
    ensures forall k :: 0 <= k < |Tokens(s, i, word)| ==> IsToken(Tokens(s, i, word)[k])
    decreases |s| - i
  {
    if i < |s| {
      if !Blank(s[i]) && |word| < WORD {
        TokensAreWords(s, i + 1, word + [s[i]]);
      } else {
        TokensAreWords(s, i + 1, "");
      }
    }
  }

  // The letters of a text, and of its words.
  function Letters(s: string, i: nat): string
    requires i <= |s|
    decreases |s| - i
  {
    if i == |s| then "" else (if Blank(s[i]) then "" else [s[i]]) + Letters(s, i + 1)
  }

  function Spelled(ts: seq<Token>): string {
    if ts == [] then "" else (if ts[0].Word? then ts[0].letters else "") + Spelled(ts[1..])
  }

  // No word longer than a line can take, n letters of one already read.
  predicate ShortWords(s: string, i: nat, n: nat)
    requires i <= |s|
    decreases |s| - i
  {
    i == |s| || (if Blank(s[i]) then ShortWords(s, i + 1, 0) else n < WORD && ShortWords(s, i + 1, n + 1))
  }

  lemma {:induction false} SpelledJoins(a: seq<Token>, b: seq<Token>)
    ensures Spelled(a + b) == Spelled(a) + Spelled(b)
  {
    if a == [] {
      assert a + b == b;
    } else {
      assert (a + b)[1..] == a[1..] + b;
      SpelledJoins(a[1..], b);
    }
  }

  // A word ends at place i.
  lemma WordEnds(s: string, i: nat, word: string)
    requires i < |s| && (Blank(s[i]) || |word| >= WORD)
    ensures Spelled(Tokens(s, i, word)) == word + Spelled(Tokens(s, i + 1, ""))
  {
    var middle := if s[i] == '\n' then [Break] else [];
    SpelledJoins(Finished(word) + middle, Tokens(s, i + 1, ""));
    SpelledJoins(Finished(word), middle);
    assert Spelled(Finished(word)) == word && Spelled(middle) == "";
  }

  lemma SamePrefix(p: string, a: string, b: string)
    ensures p + a == p + b <==> a == b
  {
    if p + a == p + b {
      assert (p + a)[|p|..] == a && (p + b)[|p|..] == b;
    }
  }

  // Every letter is in a word, in order, exactly if no word is too long.
  lemma {:induction false} LettersKept(s: string, i: nat, word: string)
    requires i <= |s| && |word| <= WORD
    ensures |Spelled(Tokens(s, i, word))| <= |word| + |Letters(s, i)|
    ensures Spelled(Tokens(s, i, word)) == word + Letters(s, i) <==> ShortWords(s, i, |word|)
    decreases |s| - i
  {
    if i < |s| {
      if !Blank(s[i]) && |word| < WORD {
        LettersKept(s, i + 1, word + [s[i]]);
        assert word + [s[i]] + Letters(s, i + 1) == word + Letters(s, i);
      } else {
        LettersKept(s, i + 1, "");
        WordEnds(s, i, word);
        SamePrefix(word, Spelled(Tokens(s, i + 1, "")), Letters(s, i + 1));
        assert "" + Letters(s, i + 1) == Letters(s, i + 1);
      }
    } else {
      assert Spelled(Finished(word)) == word == word + Letters(s, i);
    }
  }

  // A word of 91 letters is cut after 90, and the last letter is lost.
  lemma {:induction false} LongWordIsCut(s: string, i: nat)
    requires |s| == WORD + 1 && i <= WORD && forall k :: 0 <= k < |s| ==> !Blank(s[k])
    ensures Tokens(s, i, s[..i]) == [Word(s[..WORD])]
    decreases WORD - i
  {
    if i < WORD {
      assert s[..i] + [s[i]] == s[..i + 1];
      LongWordIsCut(s, i + 1);
    } else {
      assert Tokens(s, WORD + 1, "") == [];
    }
  }

  lemma LetterIsLost()
    ensures var s := seq(91, _ => 'x'); |Letters(s, 0)| == 91 && |Spelled(Tokens(s, 0, ""))| == 90
  {
    var s := seq(91, _ => 'x');
    LongWordIsCut(s, 0);
    assert s[..0] == "";
    assert Spelled([Word(s[..WORD])]) == s[..WORD] + "";
    NoBlanks(s, 0);
  }

  lemma {:induction false} NoBlanks(s: string, i: nat)
    requires i <= |s| && forall k :: i <= k < |s| ==> !Blank(s[k])
    ensures Letters(s, i) == s[i..]
    decreases |s| - i
  {
    if i < |s| {
      NoBlanks(s, i + 1);
    }
  }

  // ----- lines -----

  // hard: the line began at a line end of the text, and not because a word did not fit.
  datatype Row = Row(words: seq<string>, hard: bool)

  type Layout = seq<Row>

  // The text of a line: its words with a space between.
  function Text(words: seq<string>): string {
    var n := |words|;
    if n == 0 then "" else if n == 1 then words[0] else Text(words[..n - 1]) + " " + words[n - 1]
  }

  predicate Fits(words: seq<string>, w: string) {
    Text(words) == "" || |Text(words)| + 1 + |w| < WIDTH + 1
  }

  function Opened(rows: Layout): Layout { if rows == [] then [Row([], true)] else rows }

  function Last(rows: Layout): Row
    requires rows != []
  {
    rows[|rows| - 1]
  }

  // The layout with a word added: on a new line if it does not fit.
  function AddWord(rows: Layout, w: string): Layout {
    var o := Opened(rows);
    var n := |o| - 1;
    if Fits(o[n].words, w) then o[..n] + [Row(o[n].words + [w], o[n].hard)] else o + [Row([w], false)]
  }

  function Add(rows: Layout, t: Token): Layout {
    match t
    case Word(w) => AddWord(rows, w)
    case Break => rows + [Row([], true)]
  }

  function AddAll(rows: Layout, ts: seq<Token>): Layout {
    if ts == [] then rows else Add(AddAll(rows, ts[..|ts| - 1]), ts[|ts| - 1])
  }

  // The same on a page of 200 lines: a line end is ignored when the page is full, and a word that
  // needs another line takes the place of the last line.
  function AddOnPage(rows: Layout, t: Token): Layout {
    if |Add(rows, t)| <= LINES then Add(rows, t)
    else match t
      case Word(w) => rows[..|rows| - 1] + [Row([w], rows[|rows| - 1].hard)]
      case Break => rows
  }

  function AddAllOnPage(rows: Layout, ts: seq<Token>): Layout {
    if ts == [] then rows else AddOnPage(AddAllOnPage(rows, ts[..|ts| - 1]), ts[|ts| - 1])
  }

  lemma AddOneMore(rows: Layout, ts: seq<Token>, t: Token)
    ensures AddAllOnPage(rows, ts + [t]) == AddOnPage(AddAllOnPage(rows, ts), t)
  {
    assert (ts + [t])[..|ts|] == ts;
  }

  // A word on a page, in the two steps of the program: another line if need be, and then the word.
  lemma WordOnPage(rows: Layout, w: string)
    requires 0 < |rows| <= LINES
    ensures var n, more := |rows| - 1, if |rows| < LINES then rows + [Row([], false)] else rows;
      AddOnPage(rows, Word(w)) == if Fits(rows[n].words, w)
        then rows[..n] + [Row(rows[n].words + [w], rows[n].hard)]
        else more[..|more| - 1] + [Row([w], Last(more).hard)]
  {
  }

  lemma WordOnEmptyPage(w: string)
    ensures AddOnPage([], Word(w)) == AddOnPage([Row([], true)], Word(w))
  {
  }

  // ----- what a layout holds -----

  function WordTokens(words: seq<string>): seq<Token> {
    if words == [] then [] else WordTokens(words[..|words| - 1]) + [Word(words[|words| - 1])]
  }

  // The words of the lines in order, with the line ends.
  function Content(rows: Layout): seq<Token> {
    var n := |rows|;
    if n == 0 then []
    else if n == 1 then WordTokens(rows[0].words)
    else Content(rows[..n - 1]) + (if rows[n - 1].hard then [Break] else []) + WordTokens(rows[n - 1].words)
  }

  // A line of words that is not too long.
  predicate GoodRow(words: seq<string>) {
    |Text(words)| <= WIDTH && forall j :: 0 <= j < |words| ==> IsWord(words[j])
  }

  // A line that follows another does so at a line end, or because its first word did not fit.
  predicate Follows(above: Row, below: Row) {
    !below.hard ==> below.words != [] && !Fits(above.words, below.words[0])
  }

  predicate WellBroken(rows: Layout) {
    && (forall k :: 0 <= k < |rows| ==> GoodRow(rows[k].words))
    && (forall k :: 0 < k < |rows| ==> Follows(rows[k - 1], rows[k]))
  }

  lemma OtherLastRow(rows: Layout, row: Row)
    requires rows != [] && WellBroken(rows) && GoodRow(row.words)
    requires |rows| > 1 ==> Follows(rows[|rows| - 2], row)
    ensures WellBroken(rows[..|rows| - 1] + [row])
  {
    var n, out := |rows| - 1, rows[..|rows| - 1] + [row];
    assert forall k :: 0 <= k < n ==> out[k] == rows[k];
  }

  lemma NextRow(rows: Layout, row: Row)
    requires rows != [] && WellBroken(rows) && GoodRow(row.words) && Follows(Last(rows), row)
    ensures WellBroken(rows + [row])
  {
  }

  lemma AddKeepsContent(rows: Layout, t: Token)
    requires rows != []
    ensures Content(Add(rows, t)) == Content(rows) + [t]
  {
    var n := |rows| - 1;
    if t.Break? {
      ContentMore(rows, Row([], true));
    } else if Fits(rows[n].words, t.letters) {
      assert rows == rows[..n] + [rows[n]];
      OneMoreWord(rows[..n], rows[n], t.letters);
    } else {
      ContentMore(rows, Row([t.letters], false));
      WordTokensMore([], t.letters);
    }
  }

  lemma OneMoreWord(front: Layout, row: Row, w: string)
    ensures Content(front + [Row(row.words + [w], row.hard)]) == Content(front + [row]) + [Word(w)]
  {
    ContentMore(front, row);
    ContentMore(front, Row(row.words + [w], row.hard));
    WordTokensMore(row.words, w);
  }

  // One more line.
  lemma ContentMore(rows: Layout, row: Row)
    ensures Content(rows + [row]) ==
      if rows == [] then WordTokens(row.words)
      else Content(rows) + (if row.hard then [Break] else []) + WordTokens(row.words)
  {
    assert (rows + [row])[..|rows|] == rows;
  }

  lemma WordTokensMore(words: seq<string>, w: string)
    ensures WordTokens(words + [w]) == WordTokens(words) + [Word(w)]
  {
    assert (words + [w])[..|words|] == words;
  }

  // Adding keeps every word and line end, in order.
  lemma {:induction false} AddAllKeepsContent(rows: Layout, ts: seq<Token>)
    requires rows != []
    ensures AddAll(rows, ts) != [] && Content(AddAll(rows, ts)) == Content(rows) + ts
  {
    if ts != [] {
      var n := |ts| - 1;
      AddAllKeepsContent(rows, ts[..n]);
      AddKeepsContent(AddAll(rows, ts[..n]), ts[n]);
      assert ts == ts[..n] + [ts[n]];
    }
  }

  lemma GoodRowGrows(words: seq<string>, w: string)
    requires GoodRow(words) && IsWord(w)
    ensures GoodRow([w])
    ensures Fits(words, w) ==> GoodRow(words + [w])
    ensures Text(words + [w]) == if words == [] then w else Text(words) + " " + w
  {
    TextOfWords(words);
    TextMore(words, w);
  }

  lemma TextMore(words: seq<string>, w: string)
    ensures Text(words + [w]) == if words == [] then w else Text(words) + " " + w
  {
    assert (words + [w])[..|words|] == words;
  }

  lemma AddKeepsBroken(rows: Layout, t: Token)
    requires rows != [] && WellBroken(rows) && IsToken(t)
    ensures WellBroken(Add(rows, t))
  {
    var row := Last(rows);
    if t.Word? {
      GoodRowGrows(row.words, t.letters);
      TextOfWords(row.words);
      if Fits(row.words, t.letters) {
        OtherLastRow(rows, Row(row.words + [t.letters], row.hard));
      } else {
        NextRow(rows, Row([t.letters], false));
      }
    } else {
      NextRow(rows, Row([], true));
    }
  }

  lemma {:induction false} TextOfWords(words: seq<string>)
    requires forall j :: 0 <= j < |words| ==> IsWord(words[j])
    ensures Text(words) == "" <==> words == []
    ensures NoNul(Text(words))
  {
    if |words| > 1 {
      TextOfWords(words[..|words| - 1]);
    }
  }

  // On well broken lines no line but the last could take another word, unless a line end follows.
  lemma NoRoomLeft(rows: Layout, k: nat)
    requires WellBroken(rows) && 0 < k < |rows| && !rows[k].hard
    ensures rows[k].words != [] && |Text(rows[k - 1].words + [rows[k].words[0]])| > 94
  {
    assert Follows(rows[k - 1], rows[k]) && GoodRow(rows[k - 1].words) && GoodRow(rows[k].words);
    FitsExactly(rows[k - 1].words, rows[k].words[0]);
  }

  lemma {:induction false} AddAllKeepsBroken(rows: Layout, ts: seq<Token>)
    requires rows != [] && WellBroken(rows) && forall k :: 0 <= k < |ts| ==> IsToken(ts[k])
    ensures AddAll(rows, ts) != [] && WellBroken(AddAll(rows, ts))
  {
    if ts != [] {
      var n := |ts| - 1;
      AddAllKeepsBroken(rows, ts[..n]);
      AddKeepsBroken(AddAll(rows, ts[..n]), ts[n]);
    }
  }

  // ----- the one layout -----

  // The last word or line end taken off again.
  lemma TakeOff(rows: Layout) returns (front: Layout, t: Token)
    requires rows != [] && WellBroken(rows) && (|rows| > 1 || rows[0].words != [])
    ensures front != [] && WellBroken(front) && front[0].hard == rows[0].hard
    ensures Add(front, t) == rows && Content(rows) == Content(front) + [t]
  {
    var words := Last(rows).words;
    if words == [] {
      front, t := rows[..|rows| - 1], Break;
      assert rows == front + [Last(rows)];
    } else {
      t := Word(words[|words| - 1]);
      front := TakeOffWord(rows);
    }
    AddKeepsContent(front, t);
  }

  lemma TakeOffWord(rows: Layout) returns (front: Layout)
    requires rows != [] && WellBroken(rows) && Last(rows).words != []
    ensures front != [] && WellBroken(front) && front[0].hard == rows[0].hard
    ensures AddWord(front, Last(rows).words[|Last(rows).words| - 1]) == rows
  {
    var n, words := |rows| - 1, Last(rows).words;
    if n > 0 && |words| == 1 && !rows[n].hard {
      front := rows[..n];
      assert rows == front + [rows[n]] && words == [words[0]];
    } else {
      front := Shortened(rows);
    }
  }

  // The last word of a line taken off.
  lemma Shortened(rows: Layout) returns (front: Layout)
    requires rows != [] && WellBroken(rows) && Last(rows).words != []
    requires |Last(rows).words| > 1 || Last(rows).hard || |rows| == 1
    ensures front != [] && WellBroken(front) && front[0].hard == rows[0].hard
    ensures AddWord(front, Last(rows).words[|Last(rows).words| - 1]) == rows
  {
    var n, words := |rows| - 1, Last(rows).words;
    var row := Row(words[..|words| - 1], rows[n].hard);
    front := rows[..n] + [row];
    GoodRowShrinks(words);
    OtherLastRow(rows, row);
    LastRowBack(rows, row.words, words[|words| - 1]);
  }

  lemma LastRowBack(rows: Layout, words: seq<string>, w: string)
    requires rows != [] && Last(rows).words == words + [w] && Fits(words, w)
    ensures AddWord(rows[..|rows| - 1] + [Row(words, Last(rows).hard)], w) == rows
  {
    var n := |rows| - 1;
    var front := rows[..n] + [Row(words, rows[n].hard)];
    assert front[..n] == rows[..n];
    assert rows == rows[..n] + [rows[n]];
  }

  lemma GoodRowShrinks(words: seq<string>)
    requires GoodRow(words) && words != []
    ensures GoodRow(words[..|words| - 1]) && Fits(words[..|words| - 1], words[|words| - 1])
  {
    var front, w := words[..|words| - 1], words[|words| - 1];
    assert front + [w] == words;
    TextOfWords(front);
  }

  // Nothing but the words and line ends decides the layout: well broken lines with this content
  // are those that adding one after the other yields.
  lemma {:induction false} OnlyOneLayout(rows: Layout)
    requires rows != [] && WellBroken(rows)
    ensures rows == AddAll([Row([], rows[0].hard)], Content(rows))
    decreases |Content(rows)|
  {
    if |rows| > 1 || rows[0].words != [] {
      var front, t := TakeOff(rows);
      OnlyOneLayout(front);
      var ts := Content(rows);
      assert ts[..|ts| - 1] == Content(front);
    } else {
      assert rows == [Row([], rows[0].hard)];
    }
  }

  // ----- the page of 200 lines -----

  const FRESH: Layout := [Row([], true)]

  lemma ContentOnPage(rows: Layout, t: Token)
    requires 0 < |rows| <= LINES
    ensures 0 < |AddOnPage(rows, t)| <= LINES
    ensures |Content(AddOnPage(rows, t))| <= |Content(rows)| + 1
    ensures |Add(rows, t)| > LINES ==> |Content(AddOnPage(rows, t))| <= |Content(rows)|
  {
    AddKeepsContent(rows, t);
    if |Add(rows, t)| > LINES && t.Word? {
      var n := |rows| - 1;
      assert rows == rows[..n] + [rows[n]];
      OtherLastWord(rows[..n], rows[n], t.letters);
    }
  }

  lemma OtherLastWord(front: Layout, row: Row, w: string)
    requires row.words != []
    ensures |Content(front + [Row([w], row.hard)])| <= |Content(front + [row])|
  {
    ContentMore(front, row);
    ContentMore(front, Row([w], row.hard));
    WordTokensMore([], w);
    assert |WordTokens(row.words)| > 0;
  }

  // The page holds every word and line end exactly if they need no more lines than it has, and then
  // they are laid out as without a limit.
  lemma {:induction false} PageHoldsAll(rows: Layout, ts: seq<Token>)
    requires 0 < |rows| <= LINES
    ensures var page, all := AddAllOnPage(rows, ts), AddAll(rows, ts);
      && 0 < |page| <= LINES && |page| <= |all|
      && |Content(page)| <= |Content(rows)| + |ts|
      && (Content(page) == Content(rows) + ts <==> |all| <= LINES)
      && (|all| <= LINES ==> page == all)
      && (|all| > LINES ==> |Content(page)| < |Content(rows)| + |ts|)
  {
    AddAllKeepsContent(rows, ts);
    if ts != [] {
      var n := |ts| - 1;
      PageHoldsAll(rows, ts[..n]);
      ContentOnPage(AddAllOnPage(rows, ts[..n]), ts[n]);
    }
  }

  // A text of 201 empty lines does not fit: a line end is lost.
  lemma LineIsLost()
    ensures var s := seq(200, _ => '\n');
      var ts := Tokens(s, 0, "");
      |AddAll(FRESH, ts)| == 201 && |ts| == 200 && |Content(AddAllOnPage(FRESH, ts))| < 200
  {
    var s := seq(200, _ => '\n');
    OnlyLineEnds(s, 0);
    EmptyLines(Tokens(s, 0, ""));
    PageHoldsAll(FRESH, Tokens(s, 0, ""));
  }

  lemma {:induction false} OnlyLineEnds(s: string, i: nat)
    requires i <= |s| && forall k :: i <= k < |s| ==> s[k] == '\n'
    ensures var ts := Tokens(s, i, ""); |ts| == |s| - i && forall k :: 0 <= k < |ts| ==> ts[k] == Break
    decreases |s| - i
  {
    if i < |s| {
      OnlyLineEnds(s, i + 1);
    }
  }

  lemma {:induction false} EmptyLines(ts: seq<Token>)
    requires forall k :: 0 <= k < |ts| ==> ts[k] == Break
    ensures |AddAll(FRESH, ts)| == |ts| + 1
  {
    if ts != [] {
      EmptyLines(ts[..|ts| - 1]);
    }
  }

  // ----- reading a line again -----

  // What stands before place n does not matter for the words after it.
  lemma {:induction false} TokensFrom(t: string, n: nat, s: string, i: nat, word: string)
    requires i <= |s| && n + |s| == |t| && forall k :: 0 <= k < |s| ==> t[n + k] == s[k]
    ensures Tokens(t, n + i, word) == Tokens(s, i, word)
    decreases |s| - i
  {
    if i < |s| {
      if !Blank(s[i]) && |word| < WORD {
        TokensFrom(t, n, s, i + 1, word + [s[i]]);
      } else {
        TokensFrom(t, n, s, i + 1, "");
      }
    }
  }

  lemma {:induction false} TokensApart(a: string, b: string, i: nat, word: string)
    requires i <= |a|
    ensures Tokens(a + " " + b, i, word) == Tokens(a, i, word) + Tokens(b, 0, "")
    decreases |a| - i
  {
    var s, rest := a + " " + b, Tokens(b, 0, "");
    if i < |a| {
      assert s[i] == a[i];
      if !Blank(a[i]) && |word| < WORD {
        TokensApart(a, b, i + 1, word + [a[i]]);
      } else {
        TokensApart(a, b, i + 1, "");
        var head := Finished(word) + if a[i] == '\n' then [Break] else [];
        assert head + (Tokens(a, i + 1, "") + rest) == (head + Tokens(a, i + 1, "")) + rest;
      }
    } else {
      TokensFrom(s, i + 1, b, 0, "");
      assert s[i] == ' ' && Finished(word) + [] == Finished(word);
    }
  }

  lemma {:induction false} TokensOfWord(w: string, i: nat)
    requires IsWord(w) && i <= |w|
    ensures Tokens(w, i, w[..i]) == [Word(w)]
    decreases |w| - i
  {
    if i < |w| {
      assert w[..i] + [w[i]] == w[..i + 1];
      TokensOfWord(w, i + 1);
    } else {
      assert w[..i] == w;
    }
  }

  // The words of a line are those that its text shows.
  lemma {:induction false} LineReadsBack(words: seq<string>)
    requires forall j :: 0 <= j < |words| ==> IsWord(words[j])
    ensures Tokens(Text(words), 0, "") == WordTokens(words)
  {
    var n := |words| - 1;
    if n >= 0 {
      TokensOfWord(words[n], 0);
      assert words[n][..0] == "";
      if n > 0 {
        LineReadsBack(words[..n]);
        TokensApart(Text(words[..n]), words[n], 0, "");
      } else {
        assert words[..0] == [];
        assert WordTokens(words) == [Word(words[0])];
      }
    }
  }

  // A word of at most 90 letters ends at a blank, a tab or a line feed, and the last is a line end too.
  lemma WordAtFront(w: string, c: char, rest: string)
    requires |w| <= 90 && (c == ' ' || c == '\t' || c == '\n')
    requires forall k :: 0 <= k < |w| ==> w[k] != ' ' && w[k] != '\t' && w[k] != '\n'
    ensures Tokens(w + [c] + rest, 0, "")
         == (if w == "" then [] else [Word(w)]) + (if c == '\n' then [Break] else []) + Tokens(rest, 0, "")
  {
    var s := w + [c] + rest;
    LettersInFront(s, w, 0);
    assert w[..0] == "" && s[|w|] == c;
    TokensFrom(s, |w| + 1, rest, 0, "");
  }

  lemma {:induction false} LettersInFront(s: string, w: string, i: nat)
    requires i <= |w| <= 90 && |w| <= |s| && forall k :: 0 <= k < |w| ==> s[k] == w[k] && !Blank(w[k])
    ensures Tokens(s, i, w[..i]) == Tokens(s, |w|, w)
    decreases |w| - i
  {
    if i < |w| {
      assert w[..i] + [s[i]] == w[..i + 1];
      LettersInFront(s, w, i + 1);
    } else {
      assert w[..i] == w;
    }
  }

  // A word fits a line exactly if the line with it has at most 94 characters.
  lemma FitsExactly(words: seq<string>, w: string)
    requires IsWord(w) && forall j :: 0 <= j < |words| ==> IsWord(words[j])
    ensures Fits(words, w) <==> |Text(words + [w])| <= 94
  {
    TextOfWords(words);
    TextMore(words, w);
  }

  // ----- a text on a fresh page -----

  // If it has no overlong word and needs no more than the lines of the page, every word is there,
  // in order, on lines broken only where they must be.
  lemma TextOnFreshPage(s: string)
    requires NoNul(s) && ShortWords(s, 0, 0) && |AddAll(FRESH, Tokens(s, 0, ""))| <= 200
    ensures var page := AddAllOnPage(FRESH, Tokens(s, 0, ""));
      && Content(page) == Tokens(s, 0, "") && Spelled(Content(page)) == Letters(s, 0)
      && WellBroken(page) && |page| <= 200 && forall k :: 0 <= k < |page| ==> |Text(page[k].words)| <= 94
  {
    var ts := Tokens(s, 0, "");
    TokensAreWords(s, 0, "");
    LettersKept(s, 0, "");
    assert "" + Letters(s, 0) == Letters(s, 0);
    PageHoldsAll(FRESH, ts);
    assert Content(FRESH) == [];
    AddAllKeepsBroken(FRESH, ts);
  }
}
