// Characters, blanks and names, as the scanners of browser.cpp and cc.c read them.
// Positions are offsets into a NUL-terminated text; the terminator sits at |t|.
module Lexing {
  type CString = s: string | '\0' !in s

  // What differs between the two scanners: browser.cpp treats ';' as a blank, and its name
  // buffers hold 23 characters where those of cc.c hold 31.
  datatype Dialect = Dialect(semicolonIsBlank: bool, nameMax: nat)

  const JS := Dialect(true, 23)
  const CC := Dialect(false, 31)

  function At(t: CString, i: nat): char {
    if i < |t| then t[i] else '\0'
  }

  predicate IsDigit(c: char) { '0' <= c <= '9' }

  predicate IsLetter(c: char) { 'a' <= c <= 'z' || 'A' <= c <= 'Z' || c == '_' }

  predicate IsWordChar(c: char) { IsLetter(c) || IsDigit(c) }

  predicate IsBlank(d: Dialect, c: char) {
    c == ' ' || c == '\t' || c == '\n' || c == '\r' || (d.semicolonIsBlank && c == ';')
  }

  // The end of the line that holds position i.
  function LineEnd(t: CString, i: nat): (r: nat)
    requires i <= |t|
    ensures i <= r <= |t|
    decreases |t| - i
  {
    if i < |t| && t[i] != '\n' then LineEnd(t, i + 1) else i
  }

  // The first position at or after i that is neither blank nor inside a `//` comment.
  function Skip(d: Dialect, t: CString, i: nat): (r: nat)
    requires i <= |t|
    ensures i <= r <= |t|
    ensures r < |t| ==> !IsBlank(d, t[r])
    decreases |t| - i
  {
    if i == |t| then i
    else if IsBlank(d, t[i]) then Skip(d, t, i + 1)
    else if t[i] == '/' && At(t, i + 1) == '/' then Skip(d, t, LineEnd(t, i + 1))
    else i
  }

  lemma {:induction false} SkipTwice(d: Dialect, t: CString, i: nat)
    requires i <= |t|
    ensures Skip(d, t, Skip(d, t, i)) == Skip(d, t, i)
    decreases |t| - i
  {
    if i == |t| {
    } else if IsBlank(d, t[i]) {
      SkipTwice(d, t, i + 1);
    } else if t[i] == '/' && At(t, i + 1) == '/' {
      SkipTwice(d, t, LineEnd(t, i + 1));
    }
  }

  function DigitsEnd(t: CString, i: nat): (r: nat)
    requires i <= |t|
    ensures i <= r <= |t|
    ensures !IsDigit(At(t, r))
    ensures forall k :: i <= k < r ==> IsDigit(t[k])
    ensures IsDigit(At(t, i)) ==> i < r
    decreases |t| - i
  {
    if i < |t| && IsDigit(t[i]) then DigitsEnd(t, i + 1) else i
  }

  // The end of the name that starts at i, of at most `room` characters.
  function NameEnd(t: CString, i: nat, room: nat, digits: bool): (r: nat)
    requires i <= |t|
    ensures i <= r <= |t| && r <= i + room
    ensures room > 0 && IsLetter(At(t, i)) ==> i < r
    decreases |t| - i
  {
    if room > 0 && i < |t| && (IsLetter(t[i]) || (digits && IsDigit(t[i]))) then
      NameEnd(t, i + 1, room - 1, digits)
    else
      i
  }

  // The text a stands in t from i to j.
  predicate Stands(t: string, i: nat, j: nat, a: string): (r: bool)
    ensures r ==> i <= j <= |t| && j == i + |a|
    decreases |a|
  {
    if a == "" then i == j <= |t| else i < |t| && t[i] == a[0] && Stands(t, i + 1, j, a[1..])
  }

  // A keyword stands at i when its letters do and no word character follows.
  predicate KeywordAt(t: CString, i: nat, kw: CString)
    requires i <= |t|
  {
    Stands(t, i, i + |kw|, kw) && !IsWordChar(At(t, i + |kw|))
  }

  // The characters of t from i up to j.
  function Piece(t: string, i: nat, j: nat): (s: string)
    requires i <= j <= |t|
    ensures |s| == j - i
    decreases j - i
  {
    if i == j then "" else Piece(t, i, j - 1) + [t[j - 1]]
  }

  // ----- what the characters are -----

  lemma CharacterCodes(c: char)
    ensures IsDigit(c) <==> 48 <= c as int <= 57
    ensures IsLetter(c) <==> 65 <= c as int <= 90 || 97 <= c as int <= 122 || c as int == 95
    ensures IsDigit(c) ==> DigitValue(c) == c as int - 48
  {
  }

  lemma {:induction false} LineEndIs(t: CString, i: nat, j: nat)
    requires i <= j <= |t| && (forall k :: i <= k < j ==> t[k] as int != 10) && (j < |t| ==> t[j] as int == 10)
    ensures LineEnd(t, i) == j
    decreases j - i
  {
    if i < j {
      LineEndIs(t, i + 1, j);
    }
  }

  // Blanks are passed over, in scripts also semicolons; so is a comment up to the end of its line; and
  // nothing else.
  lemma SkipsExactly(d: Dialect, t: CString, i: nat, j: nat)
    requires (d == JS || d == CC) && i <= j <= |t|
    requires (forall k :: i <= k < j ==> t[k] as int != 10) && (j < |t| ==> t[j] as int == 10)
    ensures var c, next := At(t, i) as int, At(t, i + 1) as int;
      Skip(d, t, i) ==
        if c == 32 || c == 9 || c == 10 || c == 13 || (c == 59 && d == JS) then Skip(d, t, i + 1)
        else if c == 47 && next == 47 then Skip(d, t, j)
        else i
  {
    if i < j {
      LineEndIs(t, i + 1, j);
    }
  }

  // A name ends at its first character that is no letter, digit or underscore, but at the latest after
  // 23 characters in scripts and 31 in programs.
  lemma {:induction false} NameEndsThere(t: CString, i: nat, j: nat, room: nat)
    requires i <= j <= |t| && j - i <= room && forall k :: i <= k < j ==> IsWordChar(t[k])
    requires j - i == room || !IsWordChar(At(t, j))
    ensures NameEnd(t, i, room, true) == j
    decreases j - i
  {
    if i < j {
      NameEndsThere(t, i + 1, j, room - 1);
    }
  }

  lemma NameSizes(t: CString, i: nat, j: nat)
    requires i <= j <= |t| && forall k :: i <= k < j ==> IsWordChar(t[k])
    ensures j == i + 23 || (j < i + 23 && !IsWordChar(At(t, j))) ==> NameEnd(t, i, JS.nameMax, true) == j
    ensures j == i + 31 || (j < i + 31 && !IsWordChar(At(t, j))) ==> NameEnd(t, i, CC.nameMax, true) == j
  {
    if j <= i + 23 && (j == i + 23 || !IsWordChar(At(t, j))) {
      NameEndsThere(t, i, j, 23);
    }
    if j <= i + 31 && (j == i + 31 || !IsWordChar(At(t, j))) {
      NameEndsThere(t, i, j, 31);
    }
  }

  // A keyword is not the beginning of a longer name.
  lemma KeywordStandsAlone(t: CString, a: string, kw: CString, b: string)
    requires t == a + kw + b
    ensures KeywordAt(t, |a|, kw) <==> b == "" || !(IsLetter(b[0]) || IsDigit(b[0]))
  {
    IsSlice(t, |a|, |a| + |kw|, kw);
    assert t[|a|..|a| + |kw|] == kw;
    assert b != "" ==> t[|a| + |kw|] == b[0];
  }

  // -- decimal numerals --

  function DigitValue(c: char): (v: nat)
    requires IsDigit(c)
    ensures v < 10
  {
    (c as int) - ('0' as int)
  }

  function DigitChar(v: nat): (c: char)
    requires v < 10
    ensures IsDigit(c) && DigitValue(c) == v
  {
    (v + '0' as int) as char
  }

  // The number that the digits of t from i up to j write.
  function NumberAt(t: string, i: nat, j: nat): nat
    requires i <= j <= |t| && forall k :: i <= k < j ==> IsDigit(t[k])
    decreases j - i
  {
    if i == j then 0 else NumberAt(t, i, j - 1) * 10 + DigitValue(t[j - 1])
  }

  function ShowNat(n: nat): (s: string)
    ensures |s| > 0 && forall k :: 0 <= k < |s| ==> IsDigit(s[k])
  {
    if n < 10 then [DigitChar(n)] else ShowNat(n / 10) + [DigitChar(n % 10)]
  }

  function ShowInt(v: int): string {
    if v < 0 then "-" + ShowNat(-v) else ShowNat(v)
  }

  // ----- pieces of a text -----

  lemma {:induction false} IsSlice(t: string, i: nat, j: nat, a: string)
    ensures Stands(t, i, j, a) <==> i <= j <= |t| && t[i..j] == a
    decreases |a|
  {
    if a != "" {
      IsSlice(t, i + 1, j, a[1..]);
      if i < j <= |t| {
        assert t[i..j] == [t[i]] + t[i + 1..j];
        assert a == [a[0]] + a[1..];
      }
    }
  }

  lemma {:induction false} PieceIsSlice(t: string, i: nat, j: nat)
    requires i <= j <= |t|
    ensures Piece(t, i, j) == t[i..j]
    decreases j - i
  {
    if i < j {
      PieceIsSlice(t, i, j - 1);
      assert t[i..j] == t[i..j - 1] + [t[j - 1]];
    }
  }

  lemma PieceIs(t: string, i: nat, j: nat, a: string)
    requires Stands(t, i, j, a)
    ensures Piece(t, i, j) == a
  {
    IsSlice(t, i, j, a);
    PieceIsSlice(t, i, j);
  }

  // A run of word characters that is followed by another kind of character ends there.
  lemma {:induction false} DigitsEndIs(t: CString, i: nat, j: nat)
    requires i <= j <= |t| && !IsDigit(At(t, j))
    requires forall k :: i <= k < j ==> IsDigit(t[k])
    ensures DigitsEnd(t, i) == j
    decreases j - i
  {
    if i < j {
      DigitsEndIs(t, i + 1, j);
    }
  }

  lemma {:induction false} NameEndIs(t: CString, i: nat, j: nat, room: nat, digits: bool)
    requires i <= j <= |t| && j - i <= room
    requires !IsLetter(At(t, j)) && !(digits && IsDigit(At(t, j)))
    requires forall k :: i <= k < j ==> IsLetter(t[k]) || (digits && IsDigit(t[k]))
    ensures NameEnd(t, i, room, digits) == j
    decreases j - i
  {
    if i < j {
      NameEndIs(t, i + 1, j, room - 1, digits);
    }
  }

  // ----- the front of a text -----

  lemma {:induction false} LineEndInFront(t: CString, i: nat, n: nat)
    requires i <= |t| && LineEnd(t, i) < n <= |t|
    ensures LineEnd(t[..n], i) == LineEnd(t, i)
    decreases |t| - i
  {
    if t[i] != '\n' {
      LineEndInFront(t, i + 1, n);
    }
  }

  // A token is found without looking at what stands behind it.
  lemma {:induction false} SkipInFront(d: Dialect, t: CString, i: nat, n: nat)
    requires i <= |t| && Skip(d, t, i) < n <= |t|
    ensures Skip(d, t[..n], i) == Skip(d, t, i)
    decreases |t| - i
  {
    if IsBlank(d, t[i]) {
      SkipInFront(d, t, i + 1, n);
    } else if t[i] == '/' && At(t, i + 1) == '/' {
      LineEndInFront(t, i + 1, n);
      SkipInFront(d, t, LineEnd(t, i + 1), n);
    }
  }

  lemma {:induction false} DigitsEndInFront(t: CString, i: nat, n: nat)
    requires i <= |t| && DigitsEnd(t, i) <= n <= |t|
    ensures DigitsEnd(t[..n], i) == DigitsEnd(t, i)
    decreases |t| - i
  {
    if i < |t| && IsDigit(t[i]) {
      DigitsEndInFront(t, i + 1, n);
    }
  }

  lemma {:induction false} NumberInFront(t: CString, i: nat, j: nat, n: nat)
    requires i <= j <= n <= |t| && forall k :: i <= k < j ==> IsDigit(t[k])
    ensures NumberAt(t[..n], i, j) == NumberAt(t, i, j)
    decreases j - i
  {
    if i < j {
      NumberInFront(t, i, j - 1, n);
    }
  }

  lemma {:induction false} PieceInFront(t: CString, i: nat, j: nat, n: nat)
    requires i <= j <= n <= |t|
    ensures Piece(t[..n], i, j) == Piece(t, i, j)
    decreases j - i
  {
    if i < j {
      PieceInFront(t, i, j - 1, n);
    }
  }

  lemma {:induction false} NameEndInFront(t: CString, i: nat, room: nat, digits: bool, n: nat)
    requires i <= |t| && NameEnd(t, i, room, digits) <= n <= |t|
    ensures NameEnd(t[..n], i, room, digits) == NameEnd(t, i, room, digits)
    decreases |t| - i
  {
    if room > 0 && i < |t| && (IsLetter(t[i]) || (digits && IsDigit(t[i]))) {
      NameEndInFront(t, i + 1, room - 1, digits, n);
    }
  }
}
