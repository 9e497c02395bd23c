/** Splitting a text at every occurrence of one character, as `str::split` does. */
module Segments {
  /** The first position of `c`, or the length. */
  function IndexOf(s: string, c: char): (i: nat)
    ensures i <= |s| && (forall k | 0 <= k < i :: s[k] != c) && (i < |s| ==> s[i] == c)
  {
    if s == [] || s[0] == c then 0 else 1 + IndexOf(s[1..], c)
  }

  lemma IndexOfUnique(s: string, c: char, i: nat)
    requires i <= |s| && (forall k | 0 <= k < i :: s[k] != c) && (i < |s| ==> s[i] == c)
    ensures IndexOf(s, c) == i
  {
  }

  function Split(s: string, c: char): (r: seq<string>)
    ensures |r| >= 1
    decreases |s|
  {
    var i := IndexOf(s, c);
    if i == |s| then [s] else [s[..i]] + Split(s[i + 1..], c)
  }

  function Join(parts: seq<string>, c: char): string
    requires |parts| >= 1
  {
    if |parts| == 1 then parts[0] else parts[0] + [c] + Join(parts[1..], c)
  }

  lemma SplitOnce(head: string, rest: string, c: char)
    requires forall k | 0 <= k < |head| :: head[k] != c
    ensures Split(head + [c] + rest, c) == [head] + Split(rest, c)
  {
    var s := head + [c] + rest;
    assert forall k | 0 <= k < |head| :: s[k] == head[k];
    IndexOfUnique(s, c, |head|);
    assert s[..|head|] == head && s[|head| + 1..] == rest;
  }

  lemma Regroup(a: string, b: string, t: string, c: char)
    ensures a + [c] + b + [c] + t == a + [c] + (b + [c] + t)
  {
  }

  lemma PutFirst(head: string, a: seq<string>, b: seq<string>)
    ensures [head] + (a + b) == ([head] + a) + b
  {
  }

  /** Splitting at a separator splits what is on either side of it. */
  lemma {:induction false} SplitConcat(s: string, t: string, c: char)
    ensures Split(s + [c] + t, c) == Split(s, c) + Split(t, c)
    decreases |s|
  {
    var i := IndexOf(s, c);
    if i == |s| {
      SplitOnce(s, t, c);
    } else {
      var head, rest := s[..i], s[i + 1..];
      assert s + [c] + t == head + [c] + (rest + [c] + t) by {
        assert s == head + [c] + rest;
        Regroup(head, rest, t, c);
      }
      SplitConcat(rest, t, c);
      SplitOnce(head, rest + [c] + t, c);
      PutFirst(head, Split(rest, c), Split(t, c));
      assert Split(s, c) == [head] + Split(rest, c);
    }
  }

  lemma JoinCons(head: string, parts: seq<string>, c: char)
    requires |parts| >= 1
    ensures Join([head] + parts, c) == head + [c] + Join(parts, c)
  {
    assert ([head] + parts)[1..] == parts;
  }

  /** Joining with the separator gives the text back. */
  lemma {:induction false} JoinSplit(s: string, c: char)
    ensures Join(Split(s, c), c) == s
    decreases |s|
  {
    var i := IndexOf(s, c);
    if i < |s| {
      var head, rest := s[..i], s[i + 1..];
      var parts := Split(rest, c);
      JoinSplit(rest, c);
      JoinCons(head, parts, c);
      assert Split(s, c) == [head] + parts;
      assert s == head + [c] + rest;
    }
  }

  lemma {:induction false} JoinConcat(a: seq<string>, b: seq<string>, c: char)
    requires |a| >= 1 && |b| >= 1
    ensures Join(a + b, c) == Join(a, c) + [c] + Join(b, c)
  {
    if |a| == 1 {
      assert (a + b)[1..] == b;
    } else {
      assert (a + b)[1..] == a[1..] + b;
      JoinConcat(a[1..], b, c);
    }
  }

  /** `t` is `s`, or `s` and a separator and more. */
  predicate Within(t: string, s: string, c: char) {
    t == s || (s <= t && |t| > |s| && t[|s|] == c)
  }

  lemma WithinConcat(s: string, x: string, c: char)
    ensures Within(s + [c] + x, s, c)
  {
    assert (s + [c] + x)[..|s|] == s;
  }

  lemma WithinSplits(t: string, s: string, c: char) returns (x: string)
    requires Within(t, s, c) && t != s
    ensures t == s + [c] + x
  {
    x := t[|s| + 1..];
  }

  lemma SegmentsWithin(t: string, s: string, c: char, rest: seq<string>)
    requires Split(t, c) == Split(s, c) + rest
    ensures Within(t, s, c)
  {
    JoinSplit(s, c);
    JoinSplit(t, c);
    if rest == [] {
      assert Split(t, c) == Split(s, c);
    } else {
      JoinConcat(Split(s, c), rest, c);
      WithinConcat(s, Join(rest, c), c);
    }
  }

  /** Being within `s` is having the segments of `s` first. */
  lemma WithinIffSegments(t: string, s: string, c: char)
    ensures Within(t, s, c) <==> Split(s, c) <= Split(t, c)
  {
    if Split(s, c) <= Split(t, c) {
      SegmentsWithin(t, s, c, Split(t, c)[|Split(s, c)|..]);
    } else if Within(t, s, c) {
      var x := WithinSplits(t, s, c);
      SplitConcat(s, x, c);
    }
  }
}
