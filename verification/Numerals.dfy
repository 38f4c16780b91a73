// Writing an int64_t in decimal, as the print statement of browser.cpp does it in place.
module Numerals {
  import opened Int64
  import opened Lexing

  const TMP_MAX: nat := 24

  function Pow10(n: nat): nat {
    if n == 0 then 1 else 10 * Pow10(n - 1)
  }

  lemma TenToThe19()
    ensures Pow10(19) == 10_000_000_000_000_000_000
  {
    assert Pow10(7) == 10_000_000;
    assert Pow10(13) == 10_000_000_000_000;
  }

  // The first digit of a numeral counts by the number of digits behind it.
  lemma {:induction false} FirstDigit(t: string, i: nat, j: nat)
    requires i < j <= |t| && forall k :: i <= k < j ==> IsDigit(t[k])
    ensures NumberAt(t, i, j) == (t[i] as int - '0' as int) * Pow10(j - i - 1) + NumberAt(t, i + 1, j)
    decreases j - i
  {
    if i + 1 < j {
      FirstDigit(t, i, j - 1);
      TenTimes(t[i] as int - '0' as int, Pow10(j - i - 2));
    } else {
      assert NumberAt(t, i, i) == 0 && Pow10(0) == 1;
    }
  }

  lemma TenTimes(d: int, p: int)
    ensures d * p * 10 == d * (10 * p)
  {
  }

  lemma TenDigits()
    ensures var t := "1234567890"; (forall k :: 0 <= k < |t| ==> IsDigit(t[k])) && NumberAt(t, 0, |t|) == 1_234_567_890
  {
    var t := "1234567890";
    assert NumberAt(t, 0, 0) == 0;
    assert NumberAt(t, 0, 1) == 1;
    assert NumberAt(t, 0, 2) == 12;
    assert NumberAt(t, 0, 3) == 123;
    assert NumberAt(t, 0, 4) == 1234;
    assert NumberAt(t, 0, 5) == 12345;
    assert NumberAt(t, 0, 6) == 123456;
    assert NumberAt(t, 0, 7) == 1234567;
    assert NumberAt(t, 0, 8) == 12345678;
    assert NumberAt(t, 0, 9) == 123456789;
  }

  // No numeral but that of 0 begins with a 0.
  lemma {:induction false} NoLeadingZero(n: nat)
    requires n > 0
    ensures ShowNat(n)[0] != '0'
  {
    if n >= 10 {
      NoLeadingZero(n / 10);
    }
  }

  function Reversed(s: string): string {
    if s == [] then [] else [s[|s| - 1]] + Reversed(s[..|s| - 1])
  }

  lemma ReversedMore(s: string, c: char)
    ensures Reversed(s + [c]) == [c] + Reversed(s)
  {
    assert (s + [c])[..|s|] == s;
  }

  // The digits of u, last digit first.
  method DigitsBackwards(n: nat) returns (tmp: string)
    requires n < 10_000_000_000_000_000_000
    ensures Reversed(tmp) == ShowNat(n) && |tmp| <= 19
  {
    if n == 0 {
      return "0";
    }
    var u: nat := n;
    tmp := "";
    ghost var room: nat := 19;
    TenToThe19();
    while u > 0 && |tmp| < TMP_MAX
      invariant |tmp| + room == 19 && u < Pow10(room)
      invariant ShowNat(n) == if u == 0 then Reversed(tmp) else ShowNat(u) + Reversed(tmp)
      decreases u
    {
      ReversedMore(tmp, DigitChar(u % 10));
      DropDigit(u, Reversed(tmp));
      tmp := tmp + [DigitChar(u % 10)];
      u := u / 10;
      room := room - 1;
    }
  }

  lemma DropDigit(u: nat, s: string)
    requires u > 0
    ensures ShowNat(u) + s ==
      (if u / 10 == 0 then [] else ShowNat(u / 10)) + ([DigitChar(u % 10)] + s)
  {
  }

  lemma TakeLast(b: string, s: string, k: nat)
    requires k < |s|
    ensures b + Reversed(s[..k + 1]) == b + [s[k]] + Reversed(s[..k])
  {
    assert s[..k + 1][..k] == s[..k];
  }

  // The digits go into `tmp` backwards, and from there into `b` behind the sign.
  method FormatInt(v: int64) returns (b: string)
    ensures b == ShowInt(v)
  {
    var n: nat := if v < 0 then -(v + 1) + 1 else v;
    var tmp := DigitsBackwards(n);
    b := if v < 0 then "-" else "";
    var k := |tmp|;
    assert tmp[..k] == tmp;
    while k > 0 && |b| < TMP_MAX - 1
      invariant 0 <= k <= |tmp| <= 19 && |b| <= 20 - k
      invariant b + Reversed(tmp[..k]) == ShowInt(v)
      decreases k
    {
      k := k - 1;
      TakeLast(b, tmp, k);
      b := b + [tmp[k]];
    }
  }
}
