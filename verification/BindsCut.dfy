/**
 How `diesel-sentry` renders a query: everything up to diesel's binds marker, whatever
 the chunks the query's `Display` is written in.
 */
module BindsCut {
  import opened Options
  import opened Search
  import opened Utf8

  /** What diesel writes between the SQL and its bind values. */
  const BINDS_MARKER: string := " -- binds:"

  lemma MarkerIsAscii()
    ensures Ascii(BINDS_MARKER) && BINDS_MARKER != []
  {
  }

  /** The marker starts with its only ` ` that is followed by `-`: no suffix of it starts it. */
  lemma MarkerUnbordered()
    ensures Unbordered(BINDS_MARKER)
  {
    forall k: nat | 0 < k < |BINDS_MARKER|
      ensures !Border(BINDS_MARKER, k)
    {
      var m := BINDS_MARKER;
      assert k >= 4 ==> m[..k][1] != m[|m| - k..][1] || m[..k][0] != m[|m| - k..][0];
      assert k < 4 ==> m[..k][0] != m[|m| - k..][0];
    }
  }

  lemma {:induction false} AsciiBytes(s: string)
    requires Ascii(s)
    ensures Encode(s) == seq(|s|, i requires 0 <= i < |s| => s[i] as int)
  {
    if s != [] {
      AsciiBytes(s[1..]);
      assert Encode(s) == [s[0] as int] + Encode(s[1..]);
    }
  }

  lemma PrefixOccurs<T>(s: seq<T>, m: seq<T>, k: nat)
    requires k <= |s|
    ensures OccursAt(s, m, k) <==> m <= s[k..]
  {
    if k + |m| <= |s| {
      assert s[k..][..|m|] == s[k..k + |m|];
    }
  }

  /**
   Searching the bytes finds an occurrence exactly where searching the characters does,
   because an ASCII pattern can only start on a character boundary.
   */
  lemma CharOccurrence(s: string, m: string, k: nat)
    requires Ascii(m) && k <= |s|
    ensures OccursAt(s, m, k) <==> OccursAt(Encode(s), Encode(m), |Encode(s[..k])|)
  {
    assert s == s[..k] + s[k..];
    EncodeConcat(s[..k], s[k..]);
    AsciiPrefix(s[k..], m);
    var b, j := Encode(s), |Encode(s[..k])|;
    AsciiBytes(m);
    PrefixOccurs(s, m, k);
    assert b[j..] == Encode(s[k..]);
    PrefixOccurs(b, Encode(m), j);
  }

  /** A byte occurrence starts on a character boundary, and the character there starts an occurrence. */
  lemma ByteOccurrence(s: string, m: string, j: nat) returns (k: nat)
    requires Ascii(m) && m != [] && OccursAt(Encode(s), Encode(m), j)
    ensures k <= |s| && IsCharBoundary(s, j) && Truncate(s, j) == s[..k] && j == |Encode(s[..k])|
    ensures OccursAt(s, m, k)
  {
    AsciiBytes(m);
    assert Encode(s)[j] == Encode(s)[j..j + |Encode(m)|][0] == m[0] as int;
    k := |Truncate(s, j)|;
    CharOccurrence(s, m, k);
  }

  lemma EncodeMonotone(s: string, i: nat, k: nat)
    requires i <= k <= |s|
    ensures |Encode(s[..i])| <= |Encode(s[..k])|
  {
    assert s[..k] == s[..i] + s[i..k];
    EncodeConcat(s[..i], s[i..k]);
  }

  lemma NoEarlierByteOccurrence(s: string, m: string, k: nat, i: nat)
    requires Ascii(m) && m != []
    requires k <= |s| && i < |Encode(s[..k])| && forall j | 0 <= j < k :: !OccursAt(s, m, j)
    ensures !OccursAt(Encode(s), Encode(m), i)
  {
    if OccursAt(Encode(s), Encode(m), i) {
      var j := ByteOccurrence(s, m, i);
      if k <= j {
        EncodeMonotone(s, k, j);
      }
    }
  }

  lemma FirstByteOccurrence(s: string, m: string, k: nat)
    requires Ascii(m) && m != [] && OccursAt(s, m, k) && forall j | 0 <= j < k :: !OccursAt(s, m, j)
    ensures Contains(Encode(s), Encode(m)) && CutAt(Encode(s), Encode(m)) == Encode(s[..k])
  {
    var b := |Encode(s[..k])|;
    CharOccurrence(s, m, k);
    forall i | 0 <= i < b
      ensures !OccursAt(Encode(s), Encode(m), i)
    {
      NoEarlierByteOccurrence(s, m, k, i);
    }
    CutAtUnique(Encode(s), Encode(m), b);
    assert s == s[..k] + s[k..];
    EncodeConcat(s[..k], s[k..]);
  }

  lemma NoByteOccurrence(s: string, m: string)
    requires Ascii(m) && m != [] && !Contains(s, m)
    ensures !Contains(Encode(s), Encode(m))
  {
    if i :| OccursAt(Encode(s), Encode(m), i) {
      var j := ByteOccurrence(s, m, i);
    }
  }

  /** The byte search and the character search stop at the same place. */
  lemma SearchesAgree(s: string, m: string)
    requires Ascii(m) && m != []
    ensures Contains(s, m) <==> Contains(Encode(s), Encode(m))
    ensures CutAt(Encode(s), Encode(m)) == Encode(CutAt(s, m))
  {
    if Contains(s, m) {
      FirstByteOccurrence(s, m, |CutAt(s, m)|);
    } else {
      NoByteOccurrence(s, m);
    }
  }

  /** A chunk can only complete a marker whose start lies within one marker length of the old end. */
  lemma LookBackSuffices<T>(before: seq<T>, chunk: seq<T>, m: seq<T>, i: nat)
    requires !Contains(before, m) && OccursAt(before + chunk, m, i)
    ensures i + |m| > |before|
  {
    if i + |m| <= |before| {
      assert (before + chunk)[i..i + |m|] == before[i..i + |m|];
      assert OccursAt(before, m, i);
    }
  }

  /** One marker length before the end, in bytes: `len().saturating_sub(BINDS_MARKER.len())`. */
  function LookBack(len: nat, marker: nat): nat {
    if len >= marker then len - marker else 0
  }

  lemma SliceOfSuffix<T>(s: seq<T>, from: nat, i: nat, n: nat)
    requires from <= i <= i + n <= |s|
    ensures s[from..][i - from..i - from + n] == s[i..i + n]
  {
  }

  lemma OccurrenceInSuffix<T>(before: seq<T>, chunk: seq<T>, m: seq<T>, i: nat)
    requires !Contains(before, m)
    ensures var from := LookBack(|before|, |m|);
            OccursAt(before + chunk, m, i) <==> i >= from && OccursAt((before + chunk)[from..], m, i - from)
  {
    var s, from := before + chunk, LookBack(|before|, |m|);
    if i >= from && i + |m| <= |s| {
      SliceOfSuffix(s, from, i, |m|);
    } else if OccursAt(s, m, i) {
      LookBackSuffices(before, chunk, m, i);
    }
  }

  lemma ShortSearchFinds<T>(before: seq<T>, chunk: seq<T>, m: seq<T>, from: nat, at: nat)
    requires !Contains(before, m) && from == LookBack(|before|, |m|)
    requires OccursAt((before + chunk)[from..], m, at) && forall i | 0 <= i < at :: !OccursAt((before + chunk)[from..], m, i)
    ensures Contains(before + chunk, m) && from + at <= |before + chunk|
    ensures CutAt(before + chunk, m) == (before + chunk)[..from + at]
  {
    forall i | 0 <= i < from + at
      ensures !OccursAt(before + chunk, m, i)
    {
      OccurrenceInSuffix(before, chunk, m, i);
    }
    OccurrenceInSuffix(before, chunk, m, from + at);
    CutAtUnique(before + chunk, m, from + at);
  }

  lemma ShortSearchMisses<T>(before: seq<T>, chunk: seq<T>, m: seq<T>, from: nat)
    requires !Contains(before, m) && from == LookBack(|before|, |m|)
    requires forall i | 0 <= i :: !OccursAt((before + chunk)[from..], m, i)
    ensures !Contains(before + chunk, m)
  {
    forall i: nat
      ensures !OccursAt(before + chunk, m, i)
    {
      OccurrenceInSuffix(before, chunk, m, i);
    }
    NowhereIsNotContained(before + chunk, m);
  }

  /** In a text that was free of `m` before `chunk`, a search starting one pattern length back finds all. */
  lemma ShortSearch<T>(before: seq<T>, chunk: seq<T>, m: seq<T>, from: nat, found: Option<nat>)
    requires !Contains(before, m) && from == LookBack(|before|, |m|)
    requires found == FindFrom((before + chunk)[from..], m, 0)
    ensures found.Some? ==> Contains(before + chunk, m) && from + found.value <= |before + chunk|
    ensures found.Some? ==> CutAt(before + chunk, m) == (before + chunk)[..from + found.value]
    ensures found.None? ==> !Contains(before + chunk, m)
  {
    if found.Some? {
      ShortSearchFinds(before, chunk, m, from, found.value);
    } else {
      ShortSearchMisses(before, chunk, m, from);
    }
  }

  lemma NowhereIsNotContained<T>(s: seq<T>, m: seq<T>)
    requires forall i: nat :: !OccursAt(s, m, i)
    ensures !Contains(s, m)
  {
  }

  /** Byte `i` is a place to truncate at, and what is left is `r`. */
  ghost predicate TruncatesTo(s: string, i: nat, r: string) {
    IsCharBoundary(s, i) && Truncate(s, i) == r
  }

  /** Cutting the bytes at the marker is truncating the text there, on a character boundary. */
  lemma CutIsCharBoundary(s: string, m: string, i: nat)
    requires Ascii(m) && m != [] && i <= |Encode(s)|
    requires Contains(Encode(s), Encode(m)) && CutAt(Encode(s), Encode(m)) == Encode(s)[..i]
    ensures TruncatesTo(s, i, CutAt(s, m)) && Contains(s, m)
  {
    var k := ByteOccurrence(s, m, i);
    SearchesAgree(s, m);
    EncodeInjective(Truncate(s, i), CutAt(s, m));
  }

  /** The position of the first `m` at or after `from`. */
  function PositionFrom<T(==)>(s: seq<T>, m: seq<T>, from: nat): Option<nat>
    requires from <= |s|
  {
    match FindFrom(s[from..], m, 0)
    case Some(i) => Some(from + i)
    case None => None
  }

  lemma PositionIsCut<T>(before: seq<T>, s: seq<T>, m: seq<T>, from: nat)
    requires before <= s && !Contains(before, m) && from == LookBack(|before|, |m|)
    ensures var at := PositionFrom(s, m, from);
            && (at.Some? <==> Contains(s, m))
            && (at.Some? ==> at.value <= |s| && CutAt(s, m) == s[..at.value])
  {
    assert s == before + s[|before|..];
    ShortSearch(before, s[|before|..], m, from, FindFrom(s[from..], m, 0));
  }

  /** What the byte search finds one marker length back is where the bytes have to be cut. */
  lemma FoundIsCut(before: string, chunk: string, s: string, m: string)
    requires Ascii(m) && m != [] && !Contains(before, m) && s == before + chunk
    ensures |Encode(before)| <= |Encode(s)|
    ensures var at := PositionFrom(Encode(s), Encode(m), LookBack(|Encode(before)|, |Encode(m)|));
            && (at.Some? <==> Contains(s, m))
            && (at.Some? ==> at.value <= |Encode(s)| && Contains(Encode(s), Encode(m))
                             && CutAt(Encode(s), Encode(m)) == Encode(s)[..at.value])
  {
    EncodeConcat(before, chunk);
    SearchesAgree(before, m);
    SearchesAgree(s, m);
    PositionIsCut(Encode(before), Encode(s), Encode(m), LookBack(|Encode(before)|, |Encode(m)|));
  }

  /** A found marker stays found, at the same place, when more text follows. */
  lemma CutIsFinal<T>(s: seq<T>, t: seq<T>, m: seq<T>)
    requires Contains(s, m)
    ensures Contains(s + t, m) && CutAt(s + t, m) == CutAt(s, m)
  {
    var at := |CutAt(s, m)|;
    assert (s + t)[at..at + |m|] == s[at..at + |m|];
    forall j | 0 <= j < at
      ensures !OccursAt(s + t, m, j)
    {
      assert !OccursAt(s, m, j);
      assert (s + t)[j..j + |m|] == s[j..j + |m|];
    }
    CutAtUnique(s + t, m, at);
  }

  /** Unicode's `White_Space` property, which `str::trim_end` trims by. */
  predicate IsWhitespace(c: char) {
    var n := c as int;
    9 <= n <= 13 || n == 0x20 || n == 0x85 || n == 0xA0 || n == 0x1680 || 0x2000 <= n <= 0x200A
    || n == 0x2028 || n == 0x2029 || n == 0x202F || n == 0x205F || n == 0x3000
  }

  function TrimEnd(s: string): (r: string)
    ensures r <= s && (r == [] || !IsWhitespace(r[|r| - 1]))
    ensures forall i | |r| <= i < |s| :: IsWhitespace(s[i])
  {
    if s != [] && IsWhitespace(s[|s| - 1]) then TrimEnd(s[..|s| - 1]) else s
  }

  /** What a span and a key are made from: the text before the binds marker, trimmed. */
  function SqlText(rendered: string): string {
    TrimEnd(CutAt(rendered, BINDS_MARKER))
  }

  /** It is all that precedes the first marker, or everything when there is none, up to the whitespace at its end. */
  lemma SqlTextIsWhatPrecedes(rendered: string, end: nat)
    requires end <= |rendered| && forall i | 0 <= i < end :: !OccursAt(rendered, BINDS_MARKER, i)
    requires OccursAt(rendered, BINDS_MARKER, end) || (end == |rendered| && !Contains(rendered, BINDS_MARKER))
    ensures SqlText(rendered) <= rendered[..end]
    ensures SqlText(rendered) == "" || !IsWhitespace(SqlText(rendered)[|SqlText(rendered)| - 1])
    ensures forall i | |SqlText(rendered)| <= i < end :: IsWhitespace(rendered[i])
  {
    if OccursAt(rendered, BINDS_MARKER, end) {
      CutAtUnique(rendered, BINDS_MARKER, end);
    }
    assert CutAt(rendered, BINDS_MARKER) == rendered[..end];
  }

  /** No bind value survives, and rendering the rendered text changes nothing more. */
  lemma SqlTextHasNoBinds(rendered: string)
    ensures !Contains(SqlText(rendered), BINDS_MARKER)
    ensures SqlText(SqlText(rendered)) == SqlText(rendered)
  {
    var m, t := BINDS_MARKER, SqlText(rendered);
    forall i: nat
      ensures !OccursAt(t, m, i)
    {
      if i + |m| <= |t| {
        assert t[i..i + |m|] == rendered[i..i + |m|];
        assert i < |CutAt(rendered, m)| ==> !OccursAt(rendered, m, i);
      }
    }
  }

  /** Diesel's start renders binds and its finish need not: both render to the same SQL text. */
  lemma StartAndFinishRenderAlike(sql: string, suffix: string)
    ensures SqlText(sql + " -- binds:" + suffix) == SqlText(sql)
  {
    MarkerUnbordered();
    CutAtAppend(sql, BINDS_MARKER, suffix);
  }

  /** The text that a sequence of writes adds up to. */
  function Concat(chunks: seq<string>): string {
    if chunks == [] then "" else Concat(chunks[..|chunks| - 1]) + chunks[|chunks| - 1]
  }

  lemma {:induction false} ConcatSplit(chunks: seq<string>, i: nat)
    requires i <= |chunks|
    ensures Concat(chunks[..i]) <= Concat(chunks)
  {
    if i < |chunks| {
      var init := chunks[..|chunks| - 1];
      assert chunks[..i] == init[..i];
      ConcatSplit(init, i);
    } else {
      assert chunks[..i] == chunks;
    }
  }

  /**
   Where to cut `text` at the marker, if the chunk just written has brought it. The marker
   may straddle the old end, so the search starts one marker length before that.
   */
  method FindMarker(before: string, chunk: string, text: string, m: string) returns (at: Option<nat>)
    requires Ascii(m) && m != [] && !Contains(before, m) && text == before + chunk
    ensures at.Some? <==> Contains(text, m)
    ensures at.Some? ==> TruncatesTo(text, at.value, CutAt(text, m))
  {
    var bytes, marker := Encode(text), Encode(m);
    var from := LookBack(|Encode(before)|, |marker|);
    FoundIsCut(before, chunk, text, m);
    at := PositionFrom(bytes, marker, from);
    if at.Some? {
      CutIsCharBoundary(text, m, at.value);
    }
  }

  /** The `fmt::Write` sink that refuses every write once the marker has been written. */
  class UntilBinds {
    var buf: string
    var cut: bool
    /** Everything that was offered so far, refused or not. */
    ghost var offered: string

    ghost predicate Valid()
      reads this
    {
      buf == CutAt(offered, BINDS_MARKER) && (cut <==> Contains(offered, BINDS_MARKER))
    }

    constructor ()
      ensures Valid() && offered == "" && buf == "" && !cut
    {
      buf, cut, offered := "", false, "";
      new;
      assert forall i :: !OccursAt("", BINDS_MARKER, i);
    }

    /** The marker is found by its bytes; the truncation there is on a character boundary, so it does not panic. */
    method WriteStr(chunk: string) returns (ok: bool)
      requires Valid()
      modifies this
      ensures Valid() && offered == old(offered) + chunk
      ensures ok <==> !cut
      ensures old(cut) ==> buf == old(buf)
    {
      offered := offered + chunk;
      if cut {
        CutIsFinal(old(offered), chunk, BINDS_MARKER);
        return false;
      }
      MarkerIsAscii();
      var found := FindMarker(buf, chunk, buf + chunk, BINDS_MARKER);
      buf := buf + chunk;
      if found.Some? {
        buf := Truncate(buf, found.value);
        cut := true;
      }
      ok := found.None?;
    }
  }

  /**
   `write_sql`: `chunks` are the writes of the query's `Display`, which may stop at the
   first refusal (`heedsErrors`) or go on writing.
   */
  method WriteSql(chunks: seq<string>, heedsErrors: bool) returns (sql: string)
    ensures sql == SqlText(Concat(chunks))
  {
    var sink := new UntilBinds();
    var i, ok := 0, true;
    while i < |chunks| && (ok || !heedsErrors)
      invariant 0 <= i <= |chunks| && sink.Valid() && fresh(sink)
      invariant sink.offered == Concat(chunks[..i]) && (ok <==> !sink.cut)
    {
      ok := sink.WriteStr(chunks[i]);
      assert chunks[..i + 1][..i] == chunks[..i];
      i := i + 1;
    }
    assert chunks[..|chunks|] == chunks;
    if i < |chunks| {
      ConcatSplit(chunks, i);
      var offered := Concat(chunks[..i]);
      assert Concat(chunks) == offered + Concat(chunks)[|offered|..];
      CutIsFinal(offered, Concat(chunks)[|offered|..], BINDS_MARKER);
    }
    sql := TrimEnd(sink.buf);
  }
}
