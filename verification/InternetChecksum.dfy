// The Internet checksum (ip_checksum of net.c; section 1 of RFC 1071, section 3.1 of RFC 791).
module InternetChecksum {
  import opened Bytes

  const TWO_32: int := 0x1_0000_0000

  // The sum of the 16-bit words of p; a last odd byte counts as the high half of a word.
  function WordSum(p: seq<byte>): nat {
    if |p| == 0 then 0
    else if |p| == 1 then Word(p[0], 0)
    else Word(p[0], p[1]) + WordSum(p[2..])
  }

  // Adding the carries back in until none is left.
  function Fold(s: nat): (r: nat)
    ensures r < 0x1_0000
  {
    if s < 0x1_0000 then s else Fold(s % 0x1_0000 + s / 0x1_0000)
  }

  function Complement(w: word): word { 0xFFFF - w }

  // The checksum of a buffer whose sum fits in 32 bits.
  function Checksum(p: seq<byte>): word {
    Complement(Fold(WordSum(p)))
  }

  // ----- the code -----

  // The sum of the words in a uint32_t, which wraps around.
  method AddUp(p: array<byte>, start: nat, n: nat) returns (s: int)
    requires start + n <= p.Length
    ensures s == WordSum(p[start..start + n]) % TWO_32
  {
    ghost var q := p[start..start + n];
    s := 0;
    var i := 0;
    ghost var carried := 0;
    while i + 1 < n
      invariant 0 <= i <= n && 0 <= s < TWO_32
      invariant s + carried * TWO_32 + WordSum(q[i..]) == WordSum(q)
    {
      SumMore(q, i);
      var w := Word(p[start + i], p[start + i + 1]);
      carried := carried + (s + w) / TWO_32;
      s := (s + w) % TWO_32;
      i := i + 2;
    }
    SumLast(q, i);
    if i < n {
      var w := Word(p[start + i], 0);
      carried := carried + (s + w) / TWO_32;
      s := (s + w) % TWO_32;
    }
    Remainder(WordSum(q), s, carried);
  }

  // With at most 131074 bytes the sum does not wrap.
  method IpChecksum(p: array<byte>, start: nat, n: nat) returns (ck: word)
    requires start + n <= p.Length
    ensures ck == Complement(Fold(WordSum(p[start..start + n]) % TWO_32))
    ensures n <= 131074 ==> ck == Checksum(p[start..start + n])
  {
    var s := AddUp(p, start, n);
    ghost var total := s;
    while s / 0x1_0000 != 0
      invariant 0 <= s < TWO_32 && Fold(s) == Fold(total)
      decreases s
    {
      s := s % 0x1_0000 + s / 0x1_0000;
    }
    ck := Complement(s);
    SumBound(p[start..start + n]);
  }

  lemma SumMore(q: seq<byte>, i: nat)
    requires i + 1 < |q|
    ensures WordSum(q[i..]) == Word(q[i], q[i + 1]) + WordSum(q[i + 2..])
  {
    assert q[i..][2..] == q[i + 2..];
  }

  lemma SumLast(q: seq<byte>, i: nat)
    requires i <= |q| <= i + 1
    ensures WordSum(q[i..]) == if i < |q| then Word(q[i], 0) else 0
  {
    assert i < |q| ==> q[i..] == [q[i]];
  }

  lemma Remainder(total: nat, s: int, carried: int)
    requires 0 <= s < TWO_32 && total == s + carried * TWO_32
    ensures s == total % TWO_32
  {
  }

  lemma {:induction false} SumBound(p: seq<byte>)
    ensures WordSum(p) <= 0xFFFF * ((|p| + 1) / 2)
    decreases |p|
  {
    if |p| >= 2 {
      SumBound(p[2..]);
    }
  }

  // ----- what it computes -----

  // Folding is the one's-complement sum: it keeps the remainder mod 65535, and only 0 gives 0.
  lemma {:induction false} FoldIsRemainder(s: nat)
    ensures Fold(s) % 0xFFFF == s % 0xFFFF
    ensures Fold(s) == 0 <==> s == 0
    decreases s
  {
    if s >= 0x1_0000 {
      var hi, lo := s / 0x1_0000, s % 0x1_0000;
      FoldIsRemainder(lo + hi);
      Casting65535(lo + hi, hi);
      assert s == lo + hi + 0xFFFF * hi;
    }
  }

  lemma Casting65535(a: nat, k: nat)
    ensures (a + 0xFFFF * k) % 0xFFFF == a % 0xFFFF
  {
  }

  // A buffer passes the check exactly when its sum is a multiple of 65535 other than 0.
  lemma PassesExactly(p: seq<byte>)
    ensures Checksum(p) == 0 <==> WordSum(p) % 0xFFFF == 0 && WordSum(p) > 0
  {
    FoldIsRemainder(WordSum(p));
  }

  function WordAt(p: seq<byte>, k: nat): word
    requires k < |p|
  {
    Word(p[k], if k + 1 < |p| then p[k + 1] else 0)
  }

  function StoreWord(p: seq<byte>, k: nat, w: word): (r: seq<byte>)
    requires k + 1 < |p|
    ensures |r| == |p|
  {
    p[k := High(w)][k + 1 := Low(w)]
  }

  lemma {:induction false} SumAfterStore(p: seq<byte>, k: nat, w: word)
    requires k % 2 == 0 && k + 1 < |p|
    ensures WordSum(StoreWord(p, k, w)) == WordSum(p) - WordAt(p, k) + w
    decreases k
  {
    var q := StoreWord(p, k, w);
    if k == 0 {
      assert q[2..] == p[2..];
      assert Word(High(w), Low(w)) == w;
    } else {
      SumAfterStore(p[2..], k - 2, w);
      assert q[2..] == StoreWord(p[2..], k - 2, w);
    }
  }

  // Storing the checksum where a zero word was makes the buffer pass the check.
  lemma StoredChecksumPasses(p: seq<byte>, k: nat)
    requires k % 2 == 0 && k + 1 < |p| && p[k] == 0 && p[k + 1] == 0
    ensures Checksum(StoreWord(p, k, Checksum(p))) == 0
  {
    var s := WordSum(p);
    FoldIsRemainder(s);
    SumAfterStore(p, k, Checksum(p));
    var q := StoreWord(p, k, Checksum(p));
    Opposite(s, Fold(s), WordSum(q));
    PassesExactly(q);
  }

  lemma Opposite(s: nat, f: nat, total: nat)
    requires f <= 0xFFFF && f % 0xFFFF == s % 0xFFFF && (f == 0 <==> s == 0)
    requires total == s + (0xFFFF - f)
    ensures total % 0xFFFF == 0 && total > 0
  {
    var a, b := s / 0xFFFF, f / 0xFFFF;
    assert total == 0xFFFF * (a - b + 1);
  }

  // Of a buffer that passes, changing one word is noticed exactly when the words differ mod 65535
  // (or when nothing but zeros is left).
  lemma ChangedWordIsNoticed(p: seq<byte>, k: nat, w: word)
    requires k % 2 == 0 && k + 1 < |p| && Checksum(p) == 0
    ensures Checksum(StoreWord(p, k, w)) != 0 <==>
      w % 0xFFFF != WordAt(p, k) % 0xFFFF || WordSum(StoreWord(p, k, w)) == 0
  {
    PassesExactly(p);
    SumAfterStore(p, k, w);
    var q := StoreWord(p, k, w);
    PassesExactly(q);
    Shifted(WordSum(p), WordAt(p, k), w, WordSum(q));
  }

  lemma Shifted(s: nat, a: nat, b: nat, r: nat)
    requires s % 0xFFFF == 0 && r == s - a + b
    ensures r % 0xFFFF == 0 <==> a % 0xFFFF == b % 0xFFFF
  {
    var q, x, y := s / 0xFFFF, a / 0xFFFF, b / 0xFFFF;
    assert r == 0xFFFF * (q - x + y) + (b % 0xFFFF - a % 0xFFFF);
  }

  // ----- the same check by long division -----

  // The bytes as one number, the first byte first.
  function Number(p: seq<byte>): nat {
    if p == [] then 0 else Number(p[..|p| - 1]) * 256 + p[|p| - 1]
  }

  lemma {:induction false} SumEndsWith(p: seq<byte>, a: byte, b: byte)
    requires |p| % 2 == 0
    ensures WordSum(p + [a, b]) == WordSum(p) + Word(a, b)
    decreases |p|
  {
    if p == [] {
      assert p + [a, b] == [a, b];
    } else {
      SumEndsWith(p[2..], a, b);
      assert (p + [a, b])[2..] == p[2..] + [a, b];
    }
  }

  lemma ShiftedNumber(n: nat, s: nat, a: byte, b: byte)
    requires n % 0xFFFF == s % 0xFFFF && (n == 0 <==> s == 0)
    ensures ((n * 256 + a) * 256 + b) % 0xFFFF == (s + Word(a, b)) % 0xFFFF
    ensures (n * 256 + a) * 256 + b == 0 <==> s + Word(a, b) == 0
  {
    var k := n / 0xFFFF - s / 0xFFFF;
    assert n == s + 0xFFFF * k;
    assert (n * 256 + a) * 256 + b == (s + Word(a, b)) + 0xFFFF * (n + k);
    if k >= 0 {
      Casting65535(s + Word(a, b), n + k);
    } else if n + k >= 0 {
      Casting65535(s + Word(a, b), n + k);
    } else {
      Casting65535((n * 256 + a) * 256 + b, -(n + k));
    }
  }

  lemma {:induction false} SumIsNumber(p: seq<byte>)
    requires |p| % 2 == 0
    ensures Number(p) % 0xFFFF == WordSum(p) % 0xFFFF && (Number(p) == 0 <==> WordSum(p) == 0)
    decreases |p|
  {
    if p != [] {
      var n := |p| - 2;
      var q, a, b := p[..n], p[n], p[n + 1];
      SumIsNumber(q);
      SumEndsWith(q, a, b);
      assert p == q + [a, b];
      assert p[..|p| - 1][..n] == q;
      ShiftedNumber(Number(q), WordSum(q), a, b);
    }
  }

  // A buffer of whole words passes the check exactly when the number it spells is a positive multiple
  // of 65535.
  lemma PassesByDivision(p: seq<byte>)
    requires |p| % 2 == 0
    ensures Checksum(p) == 0 <==> Number(p) > 0 && Number(p) % 0xFFFF == 0
  {
    SumIsNumber(p);
    PassesExactly(p);
  }

  // The example in section 3 of RFC 1071, and a buffer with an odd byte.
  lemma KnownChecksums()
    ensures Checksum([0x00, 0x01, 0xF2, 0x03, 0xF4, 0xF5, 0xF6, 0xF7]) == 0x220D
    ensures Checksum([0x01]) == 0xFEFF
  {
    var a, b, c: seq<byte> := [0x00, 0x01], [0x00, 0x01, 0xF2, 0x03], [0x00, 0x01, 0xF2, 0x03, 0xF4, 0xF5];
    SumEndsWith([], 0x00, 0x01);
    assert [] + [0x00, 0x01] == a;
    SumEndsWith(a, 0xF2, 0x03);
    assert a + [0xF2, 0x03] == b;
    SumEndsWith(b, 0xF4, 0xF5);
    assert b + [0xF4, 0xF5] == c;
    SumEndsWith(c, 0xF6, 0xF7);
    assert c + [0xF6, 0xF7] == [0x00, 0x01, 0xF2, 0x03, 0xF4, 0xF5, 0xF6, 0xF7];
    assert Fold(0x2DDF0) == Fold(0xDDF2);
  }
}
