/**
 UTF-8 as section 3 of RFC 3629 defines it, and the operations of a Rust `String`
 that are stated in bytes. A `string` here is a sequence of Unicode scalar values;
 `Encode` gives the bytes such a string occupies.
 */
module Utf8 {
  type byte = b: int | 0 <= b < 256

  /** A byte that never starts a character. */
  predicate IsContinuation(b: byte) {
    0x80 <= b < 0xC0
  }

  function EncodeChar(c: char): (r: seq<byte>)
    ensures 1 <= |r| <= 4
    ensures !IsContinuation(r[0]) && forall i | 1 <= i < |r| :: IsContinuation(r[i])
    ensures r[0] < 0x80 <==> c as int < 0x80
  {
    var n := c as int;
    if n < 0x80 then [n]
    else if n < 0x800 then [0xC0 + n / 0x40, 0x80 + n % 0x40]
    else if n < 0x10000 then [0xE0 + n / 0x1000, 0x80 + n / 0x40 % 0x40, 0x80 + n % 0x40]
    else [0xF0 + n / 0x40000, 0x80 + n / 0x1000 % 0x40, 0x80 + n / 0x40 % 0x40, 0x80 + n % 0x40]
  }

  function Encode(s: string): (r: seq<byte>)
    ensures |r| >= |s|
  {
    if s == [] then [] else EncodeChar(s[0]) + Encode(s[1..])
  }

  /** Where a `String` may be cut: `str::is_char_boundary`. */
  predicate IsCharBoundary(s: string, n: nat) {
    n == 0 || n == |Encode(s)| || (n < |Encode(s)| && !IsContinuation(Encode(s)[n]))
  }

  /** `String::truncate`, which panics anywhere but on a character boundary. */
  function Truncate(s: string, n: nat): (r: string)
    requires IsCharBoundary(s, n)
    ensures r <= s && Encode(r) == Encode(s)[..n]
  {
    if n == 0 then
      []
    else
      var c := EncodeChar(s[0]);
      assert n >= |c| by {
        assert forall i | 1 <= i < |c| :: Encode(s)[i] == c[i];
      }
      assert forall i | |c| <= i < |Encode(s)| :: Encode(s)[i] == Encode(s[1..])[i - |c|];
      var r := [s[0]] + Truncate(s[1..], n - |c|);
      assert r[1..] == Truncate(s[1..], n - |c|);
      r
  }

  lemma {:induction false} EncodeConcat(s: string, t: string)
    ensures Encode(s + t) == Encode(s) + Encode(t)
  {
    if s == [] {
      assert s + t == t;
    } else {
      assert (s + t)[1..] == s[1..] + t;
      EncodeConcat(s[1..], t);
    }
  }

  /** The code point whose encoding starts `r`: what section 3 of RFC 3629 reads off the lead byte. */
  function DecodeChar(r: seq<int>): (n: int)
    requires 1 <= |r| && (r[0] < 0x80 || (r[0] < 0xE0 && |r| >= 2) || (r[0] < 0xF0 && |r| >= 3) || |r| >= 4)
  {
    if r[0] < 0x80 then r[0]
    else if r[0] < 0xE0 then (r[0] - 0xC0) * 0x40 + r[1] - 0x80
    else if r[0] < 0xF0 then (r[0] - 0xE0) * 0x1000 + (r[1] - 0x80) * 0x40 + r[2] - 0x80
    else (r[0] - 0xF0) * 0x40000 + (r[1] - 0x80) * 0x1000 + (r[2] - 0x80) * 0x40 + r[3] - 0x80
  }

  lemma CharRoundTrip(c: char, rest: seq<byte>)
    ensures DecodeChar(EncodeChar(c) + rest) == c as int
  {
    var n := c as int;
    assert n == n / 0x40 * 0x40 + n % 0x40;
    assert n / 0x40 == n / 0x1000 * 0x40 + n / 0x40 % 0x40;
    assert n / 0x1000 == n / 0x40000 * 0x40 + n / 0x1000 % 0x40;
  }

  /** No character's encoding starts another's, so the first character can be read back. */
  lemma EncodeCharPrefixFree(a: char, b: char)
    requires EncodeChar(a) <= EncodeChar(b)
    ensures a == b
  {
    var x, y := EncodeChar(a), EncodeChar(b);
    assert y == x + y[|x|..] && y + [] == y;
    CharRoundTrip(a, y[|x|..]);
    CharRoundTrip(b, []);
  }

  lemma {:induction false} EncodeInjective(s: string, t: string)
    requires Encode(s) == Encode(t)
    ensures s == t
  {
    if s != [] && t != [] {
      var x, y := EncodeChar(s[0]), EncodeChar(t[0]);
      assert x == Encode(s)[..|x|] && y == Encode(s)[..|y|];
      if |x| <= |y| {
        assert x == y[..|x|];
        EncodeCharPrefixFree(s[0], t[0]);
      } else {
        assert y == x[..|y|];
        EncodeCharPrefixFree(t[0], s[0]);
      }
      assert Encode(s[1..]) == Encode(s)[|x|..] == Encode(t[1..]);
      EncodeInjective(s[1..], t[1..]);
      assert s == [s[0]] + s[1..] && t == [t[0]] + t[1..];
    }
  }

  ghost predicate Ascii(s: string) {
    forall i | 0 <= i < |s| :: s[i] as int < 0x80
  }

  /** An ASCII text starts a string exactly when its bytes start the string's bytes. */
  lemma {:induction false} AsciiPrefix(s: string, m: string)
    requires Ascii(m)
    ensures m <= s <==> Encode(m) <= Encode(s)
  {
    if m != [] && s != [] {
      AsciiPrefix(s[1..], m[1..]);
      assert m == [m[0]] + m[1..] && s == [s[0]] + s[1..];
      assert m <= s <==> m[0] == s[0] && m[1..] <= s[1..];
      if m[0] == s[0] {
        assert Encode(m) == [m[0] as int] + Encode(m[1..]) && Encode(s) == [m[0] as int] + Encode(s[1..]);
        assert Encode(m)[1..] == Encode(m[1..]) && Encode(s)[1..] == Encode(s[1..]);
        assert Encode(m) <= Encode(s) <==> Encode(m[1..]) <= Encode(s[1..]);
      } else {
        assert Encode(m)[0] == m[0] as int && Encode(s)[0] == EncodeChar(s[0])[0];
      }
    }
  }
}
