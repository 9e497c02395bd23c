/** The 64-bit FNV-1a hash that names the migration lock (section 2 of draft-eastlake-fnv). */
module LockKey {
  const TWO_TO_THE_64: int := 0x1_0000_0000_0000_0000
  const OFFSET_BASIS: u64 := 0xcbf2_9ce4_8422_2325
  const PRIME: u64 := 0x0000_0100_0000_01b3
  /** `PRIME` is odd, so it has an inverse modulo 2^64. */
  const PRIME_INVERSE: u64 := 0xce96_5057_aff6_957b

  type u64 = n: int | 0 <= n < TWO_TO_THE_64
  type u8 = n: int | 0 <= n < 0x100

  function Pow2(n: nat): nat {
    if n == 0 then 1 else 2 * Pow2(n - 1)
  }

  /** Exclusive or of the lowest `n` bits. */
  function XorBits(x: nat, y: nat, n: nat): (r: nat)
    ensures r < Pow2(n)
  {
    if n == 0 then 0 else 2 * XorBits(x / 2, y / 2, n - 1) + (if x % 2 == y % 2 then 0 else 1)
  }

  lemma {:induction false} XorUndoes(x: nat, y: nat, n: nat)
    requires x < Pow2(n)
    ensures XorBits(XorBits(x, y, n), y, n) == x
    ensures XorBits(y, XorBits(y, x, n), n) == x
  {
    if n > 0 {
      XorUndoes(x / 2, y / 2, n - 1);
      assert XorBits(x, y, n) / 2 == XorBits(x / 2, y / 2, n - 1);
      assert XorBits(y, x, n) / 2 == XorBits(y / 2, x / 2, n - 1);
    }
  }

  /** Bit `i` of a number. */
  function Bit(x: nat, i: nat): nat {
    if i == 0 then x % 2 else Bit(x / 2, i - 1)
  }

  /** Each bit of the result is set exactly when the two bits differ. */
  lemma {:induction false} XorBitwise(x: nat, y: nat, n: nat, i: nat)
    requires i < n
    ensures Bit(XorBits(x, y, n), i) == if Bit(x, i) == Bit(y, i) then 0 else 1
  {
    assert XorBits(x, y, n) / 2 == XorBits(x / 2, y / 2, n - 1);
    if i > 0 {
      XorBitwise(x / 2, y / 2, n - 1, i - 1);
    }
  }

  lemma {:induction false} XorZero(x: nat, n: nat)
    requires x < Pow2(n)
    ensures XorBits(x, 0, n) == x
  {
    if n > 0 {
      XorZero(x / 2, n - 1);
    }
  }

  lemma {:induction false} Pow2Add(a: nat, b: nat)
    ensures Pow2(a + b) == Pow2(a) * Pow2(b)
  {
    if a > 0 {
      Pow2Add(a - 1, b);
    }
  }

  lemma Width()
    ensures Pow2(64) == TWO_TO_THE_64
  {
    assert Pow2(8) == 0x100;
    Pow2Add(8, 8);
    Pow2Add(16, 16);
    Pow2Add(32, 32);
  }

  function Xor(hash: u64, b: u64): u64 {
    Width();
    XorBits(hash, b, 64)
  }

  function WrappingMul(x: u64, y: u64): u64 {
    x * y % TWO_TO_THE_64
  }

  function Step(hash: u64, b: u8): u64 {
    WrappingMul(Xor(hash, b), PRIME)
  }

  function Unstep(hash: u64, b: u8): u64 {
    Xor(WrappingMul(hash, PRIME_INVERSE), b)
  }

  /** Hashing `bytes` from state `hash` on. */
  function Fold(hash: u64, bytes: seq<u8>): u64 {
    if bytes == [] then hash else Step(Fold(hash, bytes[..|bytes| - 1]), bytes[|bytes| - 1])
  }

  /** Walks the bytes backwards, undoing each step. */
  function Unfold(hash: u64, bytes: seq<u8>): u64
    decreases bytes
  {
    if bytes == [] then hash else Unfold(Unstep(hash, bytes[|bytes| - 1]), bytes[..|bytes| - 1])
  }

  function Fnv1a(bytes: seq<u8>): u64 {
    Fold(OFFSET_BASIS, bytes)
  }

  method Fnv1a64(bytes: seq<u8>) returns (hash: u64)
    ensures hash == Fnv1a(bytes)
  {
    hash := OFFSET_BASIS;
    var i := 0;
    while i < |bytes|
      invariant 0 <= i <= |bytes| && hash == Fold(OFFSET_BASIS, bytes[..i])
    {
      assert bytes[..i + 1][..i] == bytes[..i];
      hash := Xor(hash, bytes[i]);
      hash := WrappingMul(hash, PRIME);
      i := i + 1;
    }
    assert bytes[..|bytes|] == bytes;
  }

  lemma ModOfSum(x: u64, z: int)
    ensures (x + z * TWO_TO_THE_64) % TWO_TO_THE_64 == x
  {
  }

  lemma Distribute(x: int, factor: int, inverse: int, q: int, k: int, t: int)
    requires factor * inverse == 1 + k * t
    ensures (x * factor - q * t) * inverse == x + (k * x - q * inverse) * t
  {
    calc {
      (x * factor - q * t) * inverse;
      x * factor * inverse - q * t * inverse;
      x * (factor * inverse) - q * inverse * t;
      x * (1 + k * t) - q * inverse * t;
      x + k * x * t - q * inverse * t;
      x + (k * x - q * inverse) * t;
    }
  }

  /** `PRIME * PRIME_INVERSE` is one more than a multiple of 2^64. */
  lemma MultiplyInvertible(x: u64, factor: u64, inverse: u64)
    requires (factor == PRIME && inverse == PRIME_INVERSE) || (factor == PRIME_INVERSE && inverse == PRIME)
    ensures WrappingMul(WrappingMul(x, factor), inverse) == x
  {
    var q := x * factor / TWO_TO_THE_64;
    var k := PRIME * PRIME_INVERSE / TWO_TO_THE_64;
    assert factor * inverse == 1 + k * TWO_TO_THE_64;
    Distribute(x, factor, inverse, q, k, TWO_TO_THE_64);
    ModOfSum(x, k * x - q * inverse);
  }

  /** Each step is a bijection on the states. */
  lemma StepInvertible(hash: u64, b: u8)
    ensures Unstep(Step(hash, b), b) == hash && Step(Unstep(hash, b), b) == hash
  {
    Width();
    MultiplyInvertible(Xor(hash, b), PRIME, PRIME_INVERSE);
    XorUndoes(hash, b, 64);
    XorUndoes(WrappingMul(hash, PRIME_INVERSE), b, 64);
    MultiplyInvertible(hash, PRIME_INVERSE, PRIME);
  }

  /** And from one state, different bytes lead to different states. */
  lemma StepInjectiveInByte(hash: u64, a: u8, b: u8)
    requires Step(hash, a) == Step(hash, b)
    ensures a == b
  {
    Width();
    MultiplyInvertible(Xor(hash, a), PRIME, PRIME_INVERSE);
    MultiplyInvertible(Xor(hash, b), PRIME, PRIME_INVERSE);
    XorUndoes(a, hash, 64);
    XorUndoes(b, hash, 64);
  }

  /** Hashing any text is a bijection on the states: the state before can be read back. */
  lemma {:induction false} FoldInvertible(hash: u64, bytes: seq<u8>)
    ensures Unfold(Fold(hash, bytes), bytes) == hash
    ensures Fold(Unfold(hash, bytes), bytes) == hash
    decreases bytes
  {
    if bytes != [] {
      var init, b := bytes[..|bytes| - 1], bytes[|bytes| - 1];
      StepInvertible(Fold(hash, init), b);
      FoldInvertible(hash, init);
      FoldInvertible(Unstep(hash, b), init);
      StepInvertible(hash, b);
    }
  }

  lemma {:induction false} FoldConcat(hash: u64, s: seq<u8>, t: seq<u8>)
    ensures Fold(hash, s + t) == Fold(Fold(hash, s), t)
  {
    if t == [] {
      assert s + t == s;
    } else {
      var init := t[..|t| - 1];
      assert (s + t)[..|s + t| - 1] == s + init;
      FoldConcat(hash, s, init);
    }
  }

  /** Two names of equal length that differ in one byte never share a hash. */
  lemma OneByteApart(s: seq<u8>, t: seq<u8>, k: nat)
    requires |s| == |t| && k < |s| && s[k] != t[k]
    requires forall i | 0 <= i < |s| && i != k :: s[i] == t[i]
    ensures Fnv1a(s) != Fnv1a(t)
  {
    var before, after := s[..k], s[k + 1..];
    assert s == before + [s[k]] + after && t == before + [t[k]] + after;
    var hash := Fold(OFFSET_BASIS, before);
    FoldConcat(OFFSET_BASIS, before + [s[k]], after);
    FoldConcat(OFFSET_BASIS, before + [t[k]], after);
    assert (before + [s[k]])[..k] == before && (before + [t[k]])[..k] == before;
    FoldInvertible(Step(hash, s[k]), after);
    FoldInvertible(Step(hash, t[k]), after);
    if Fnv1a(s) == Fnv1a(t) {
      StepInjectiveInByte(hash, s[k], t[k]);
    }
  }

  /** `hash as i64`: the same bits, read as two's complement. */
  function AsSigned(hash: u64): (key: int)
    ensures -0x8000_0000_0000_0000 <= key < 0x8000_0000_0000_0000
    ensures (key - hash) % TWO_TO_THE_64 == 0
  {
    if hash < 0x8000_0000_0000_0000 then hash else hash - TWO_TO_THE_64
  }

  /** So apps whose lock names are that close still get different lock keys. */
  lemma KeysOneByteApart(s: seq<u8>, t: seq<u8>, k: nat)
    requires |s| == |t| && k < |s| && s[k] != t[k]
    requires forall i | 0 <= i < |s| && i != k :: s[i] == t[i]
    ensures AsSigned(Fnv1a(s)) != AsSigned(Fnv1a(t))
  {
    OneByteApart(s, t, k);
  }

  /** The hash of "a" in the test vectors of draft-eastlake-fnv: exclusive or first, multiplication second. */
  lemma KnownHash()
    ensures Fnv1a([0x61]) == 0xaf63_dc4c_8601_ec8c
  {
    Width();
    Pow2Add(7, 57);
    XorZero(0x197e539c9084446, 57);
    assert XorBits(0x197e539c9084446, 0x0, 57) == 0x197e539c9084446;
    assert XorBits(0x32fca739210888c, 0x1, 58) == 0x32fca739210888d;
    assert XorBits(0x65f94e724211119, 0x3, 59) == 0x65f94e72421111a;
    assert XorBits(0xcbf29ce48422232, 0x6, 60) == 0xcbf29ce48422234;
    assert XorBits(0x197e539c90844464, 0xc, 61) == 0x197e539c90844468;
    assert XorBits(0x32fca739210888c9, 0x18, 62) == 0x32fca739210888d1;
    assert XorBits(0x65f94e7242111192, 0x30, 63) == 0x65f94e72421111a2;
    assert XorBits(0xcbf29ce484222325, 0x61, 64) == 0xcbf29ce484222344;
  }
}
