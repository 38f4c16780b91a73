// Bytes, and memcpy between sequences of them.
module Bytes {
  type byte = x: int | 0 <= x < 256

  type word = x: int | 0 <= x < 0x1_0000

  function High(w: word): byte { w / 256 }

  function Low(w: word): byte { w % 256 }

  function Word(high: byte, low: byte): word { high * 256 + low }

  function Zeros(n: nat): (s: seq<byte>)
    ensures |s| == n
  {
    seq(n, _ => 0)
  }

  // s with t written over it from position `at`.
  function Overwrite(s: seq<byte>, at: nat, t: seq<byte>): (r: seq<byte>)
    requires at + |t| <= |s|
    ensures |r| == |s|
  {
    s[..at] + t + s[at + |t|..]
  }

  // memcpy to f[at..]
  method Put(f: array<byte>, at: nat, s: seq<byte>)
    requires at + |s| <= f.Length
    modifies f
    ensures f[..] == Overwrite(old(f[..]), at, s)
  {
    for i := 0 to |s|
      invariant forall k :: 0 <= k < f.Length ==> f[k] == if at <= k < at + i then s[k - at] else old(f[k])
    {
      f[at + i] := s[i];
    }
  }
}
