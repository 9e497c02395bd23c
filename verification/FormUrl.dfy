/**
 `application/x-www-form-urlencoded`: section 5.2 of the WHATWG URL Standard for
 serializing and section 5.1 for parsing. Parsed names and values are left as bytes.
 */
module FormUrl {
  import opened Segments
  import opened Utf8

  type Pair = (string, string)
  type Bytes = seq<byte>

  predicate Unreserved(c: char) {
    'a' <= c <= 'z' || 'A' <= c <= 'Z' || '0' <= c <= '9' || c == '*' || c == '-' || c == '.' || c == '_'
  }

  function HexDigit(n: int): (c: char)
    requires 0 <= n < 16
  {
    if n < 10 then '0' + n as char else 'A' + (n - 10) as char
  }

  predicate IsHex(c: char) {
    '0' <= c <= '9' || 'A' <= c <= 'F' || 'a' <= c <= 'f'
  }

  function HexValue(c: char): (n: int)
    requires IsHex(c)
    ensures 0 <= n < 16
  {
    if c <= '9' then c as int - '0' as int
    else if c <= 'F' then c as int - 'A' as int + 10
    else c as int - 'a' as int + 10
  }

  function SerializeByte(b: byte): string {
    if b == 0x20 then "+"
    else if b < 0x80 && Unreserved(b as char) then [b as char]
    else ['%', HexDigit(b / 16), HexDigit(b % 16)]
  }

  function SerializeBytes(bs: Bytes): string {
    if bs == [] then "" else SerializeByte(bs[0]) + SerializeBytes(bs[1..])
  }

  function SerializePair(p: Pair): string {
    SerializeBytes(Encode(p.0)) + "=" + SerializeBytes(Encode(p.1))
  }

  /** What `Serializer::append_pair` has built after all the pairs. */
  function SerializePairs(pairs: seq<Pair>): string {
    if pairs == [] then ""
    else if |pairs| == 1 then SerializePair(pairs[0])
    else SerializePairs(pairs[..|pairs| - 1]) + "&" + SerializePair(pairs[|pairs| - 1])
  }

  /** `+` is a space and `%XY` a byte; a `%` without two hexadecimal digits stands for itself. */
  function Decode(s: string): Bytes {
    if s == [] then []
    else if s[0] == '+' then [0x20] + Decode(s[1..])
    else if s[0] == '%' && |s| >= 3 && IsHex(s[1]) && IsHex(s[2]) then
      [HexValue(s[1]) * 16 + HexValue(s[2])] + Decode(s[3..])
    else EncodeChar(s[0]) + Decode(s[1..])
  }

  function ParsePiece(piece: string): (Bytes, Bytes) {
    var i := IndexOf(piece, '=');
    (Decode(piece[..i]), if i < |piece| then Decode(piece[i + 1..]) else [])
  }

  function ParsePieces(pieces: seq<string>): seq<(Bytes, Bytes)> {
    if pieces == [] then []
    else (if pieces[0] == "" then [] else [ParsePiece(pieces[0])]) + ParsePieces(pieces[1..])
  }

  function Parse(query: string): seq<(Bytes, Bytes)> {
    ParsePieces(Split(query, '&'))
  }

  function EncodePair(p: Pair): (Bytes, Bytes) {
    (Encode(p.0), Encode(p.1))
  }

  function EncodePairs(pairs: seq<Pair>): (r: seq<(Bytes, Bytes)>)
    ensures |r| == |pairs| && forall i | 0 <= i < |pairs| :: r[i] == EncodePair(pairs[i])
  {
    if pairs == [] then [] else EncodePairs(pairs[..|pairs| - 1]) + [EncodePair(pairs[|pairs| - 1])]
  }

  /** No delimiter of a URL's query, nor a slash, backslash or colon, survives serialization. */
  predicate Inert(c: char) {
    Unreserved(c) || c == '+' || c == '%'
  }

  lemma SerializeByteInert(b: byte)
    ensures forall c | c in SerializeByte(b) :: Inert(c)
  {
    assert forall n | 0 <= n < 16 :: Unreserved(HexDigit(n));
  }

  lemma {:induction false} SerializeBytesInert(bs: Bytes)
    ensures forall c | c in SerializeBytes(bs) :: Inert(c)
  {
    if bs != [] {
      SerializeByteInert(bs[0]);
      SerializeBytesInert(bs[1..]);
    }
  }

  lemma {:induction false} SerializePairsInert(pairs: seq<Pair>)
    ensures forall c | c in SerializePairs(pairs) :: Inert(c) || c == '&' || c == '='
  {
    if pairs != [] {
      var p := pairs[|pairs| - 1];
      SerializeBytesInert(Encode(p.0));
      SerializeBytesInert(Encode(p.1));
      SerializePairsInert(pairs[..|pairs| - 1]);
    }
  }

  lemma DecodeByte(b: byte, rest: string)
    ensures Decode(SerializeByte(b) + rest) == [b] + Decode(rest)
  {
    var s := SerializeByte(b) + rest;
    if b == 0x20 || (b < 0x80 && Unreserved(b as char)) {
      assert s[1..] == rest;
    } else {
      assert s[3..] == rest;
      HexRoundTrip(b / 16);
      HexRoundTrip(b % 16);
    }
  }

  /** Spot values of section 5.2: a space, a byte that stays, one that does not, and one beyond ASCII. */
  lemma KnownSerializations()
    ensures SerializeByte(0x20) == "+" && SerializeByte(0x2A) == "*"
    ensures SerializeByte(0x7E) == "%7E" && SerializeByte(0xE9) == "%E9"
  {
  }

  lemma HexRoundTrip(n: int)
    requires 0 <= n < 16
    ensures IsHex(HexDigit(n)) && HexValue(HexDigit(n)) == n
  {
  }

  /** Every byte text survives serializing and decoding. */
  lemma {:induction false} DecodeSerialized(bs: Bytes)
    ensures Decode(SerializeBytes(bs)) == bs
  {
    if bs != [] {
      DecodeSerialized(bs[1..]);
      DecodeByte(bs[0], SerializeBytes(bs[1..]));
    }
  }

  lemma ParseAtSign(name: string, value: string)
    requires forall k | 0 <= k < |name| :: name[k] != '='
    ensures ParsePiece(name + "=" + value) == (Decode(name), Decode(value))
  {
    var s := name + "=" + value;
    assert forall k | 0 <= k < |name| :: s[k] == name[k];
    IndexOfUnique(s, '=', |name|);
    assert s[..|name|] == name && s[|name| + 1..] == value;
  }

  lemma InertSerialized(bs: Bytes, k: nat)
    requires k < |SerializeBytes(bs)|
    ensures SerializeBytes(bs)[k] != '=' && SerializeBytes(bs)[k] != '&'
  {
    SerializeBytesInert(bs);
    assert Inert(SerializeBytes(bs)[k]);
  }

  lemma ParseSerializedPair(p: Pair)
    ensures ParsePiece(SerializePair(p)) == EncodePair(p)
  {
    forall k | 0 <= k < |SerializeBytes(Encode(p.0))|
      ensures SerializeBytes(Encode(p.0))[k] != '='
    {
      InertSerialized(Encode(p.0), k);
    }
    ParseAtSign(SerializeBytes(Encode(p.0)), SerializeBytes(Encode(p.1)));
    DecodeSerialized(Encode(p.0));
    DecodeSerialized(Encode(p.1));
  }

  lemma PairIsOnePiece(p: Pair)
    ensures IndexOf(SerializePair(p), '&') == |SerializePair(p)|
  {
    var name := |SerializeBytes(Encode(p.0))|;
    forall k | 0 <= k < |SerializePair(p)|
      ensures SerializePair(p)[k] != '&'
    {
      if k < name {
        InertSerialized(Encode(p.0), k);
      } else if k > name {
        InertSerialized(Encode(p.1), k - name - 1);
      }
    }
    IndexOfUnique(SerializePair(p), '&', |SerializePair(p)|);
  }

  lemma {:induction false} ParsePiecesConcat(a: seq<string>, b: seq<string>)
    ensures ParsePieces(a + b) == ParsePieces(a) + ParsePieces(b)
  {
    if a == [] {
      assert a + b == b;
    } else {
      assert (a + b)[1..] == a[1..] + b;
      ParsePiecesConcat(a[1..], b);
    }
  }

  /** Parsing distributes over `&`, whatever is on its two sides. */
  lemma ParseConcat(q: string, r: string)
    ensures Parse(q + "&" + r) == Parse(q) + Parse(r)
  {
    SplitConcat(q, r, '&');
    ParsePiecesConcat(Split(q, '&'), Split(r, '&'));
  }

  lemma ParseOne(p: Pair)
    ensures Parse(SerializePair(p)) == [EncodePair(p)]
  {
    ParseSerializedPair(p);
    PairIsOnePiece(p);
    assert Split(SerializePair(p), '&') == [SerializePair(p)];
    assert ParsePieces([SerializePair(p)][1..]) == [];
  }

  /** Parsing a serialized list of pairs gives the list. */
  lemma {:induction false} ParseSerialized(pairs: seq<Pair>)
    requires pairs != []
    ensures Parse(SerializePairs(pairs)) == EncodePairs(pairs)
  {
    var last := pairs[|pairs| - 1];
    ParseOne(last);
    if |pairs| > 1 {
      var init := pairs[..|pairs| - 1];
      ParseSerialized(init);
      ParseConcat(SerializePairs(init), SerializePair(last));
    }
  }

  lemma {:induction false} SerializeConcat(a: seq<Pair>, b: seq<Pair>)
    requires a != [] && b != []
    ensures SerializePairs(a + b) == SerializePairs(a) + "&" + SerializePairs(b)
  {
    var init := b[..|b| - 1];
    assert (a + b)[..|a + b| - 1] == a + init;
    if |b| == 1 {
      assert a + init == a;
    } else {
      SerializeConcat(a, init);
    }
  }
}
