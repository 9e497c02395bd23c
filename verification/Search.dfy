/** Leftmost search for a pattern in a sequence, and cutting a sequence at a marker. */
module Search {
  import opened Options

  predicate OccursAt<T(==)>(s: seq<T>, m: seq<T>, i: int) {
    0 <= i <= i + |m| <= |s| && s[i..i + |m|] == m
  }

  ghost predicate Contains<T>(s: seq<T>, m: seq<T>) {
    exists i :: OccursAt(s, m, i)
  }

  /** `s.windows(m.len()).position(|window| window == m)`, starting at `from`. */
  function FindFrom<T(==)>(s: seq<T>, m: seq<T>, from: nat): (r: Option<nat>)
    ensures r.Some? ==> from <= r.value && OccursAt(s, m, r.value)
    ensures r.Some? ==> forall i | from <= i < r.value :: !OccursAt(s, m, i)
    ensures r.None? ==> forall i | from <= i :: !OccursAt(s, m, i)
    decreases |s| - from
  {
    if from + |m| > |s| then None
    else if OccursAt(s, m, from) then Some(from)
    else FindFrom(s, m, from + 1)
  }

  /** What comes before the first occurrence of `m`; all of `s` when there is none. */
  function CutAt<T(==)>(s: seq<T>, m: seq<T>): (r: seq<T>)
    ensures r <= s
    ensures Contains(s, m) ==> OccursAt(s, m, |r|) && forall i | 0 <= i < |r| :: !OccursAt(s, m, i)
    ensures !Contains(s, m) ==> r == s
  {
    match FindFrom(s, m, 0)
    case Some(i) => s[..i]
    case None => s
  }

  /** The clauses of `CutAt` leave no freedom. */
  lemma CutAtUnique<T>(s: seq<T>, m: seq<T>, i: nat)
    requires OccursAt(s, m, i) && forall j | 0 <= j < i :: !OccursAt(s, m, j)
    ensures Contains(s, m) && CutAt(s, m) == s[..i]
  {
    var r := CutAt(s, m);
    assert Contains(s, m);
    assert |r| < i ==> !OccursAt(s, m, |r|);
  }

  /** A border is a proper, non-empty suffix of `m` that is also a prefix of it. */
  predicate Border<T(==)>(m: seq<T>, k: nat) {
    0 < k < |m| && m[..k] == m[|m| - k..]
  }

  ghost predicate Unbordered<T>(m: seq<T>) {
    forall k: nat | 0 < k < |m| :: !Border(m, k)
  }

  ghost predicate CutIgnoresSuffix<T(!new)>(m: seq<T>) {
    forall s: seq<T>, suffix: seq<T> :: CutAt(s + m + suffix, m) == CutAt(s, m)
  }

  /** Two occurrences of `m` that overlap show a border, as long as their overlap. */
  lemma OverlapIsBorder<T>(s: seq<T>, m: seq<T>, i: nat, j: nat)
    requires i < j < i + |m| && OccursAt(s, m, i) && OccursAt(s, m, j)
    ensures Border(m, i + |m| - j)
  {
    var k := i + |m| - j;
    assert m[|m| - k..] == s[i..i + |m|][|m| - k..] == s[j..j + k];
    assert m[..k] == s[j..j + |m|][..k] == s[j..j + k];
  }

  /** Appending the marker and anything after it never moves the cut of an unbordered marker. */
  lemma CutAtAppend<T>(s: seq<T>, m: seq<T>, suffix: seq<T>)
    requires m != [] && Unbordered(m)
    ensures CutAt(s + m + suffix, m) == CutAt(s, m)
  {
    var whole := s + m + suffix;
    var at := |CutAt(s, m)|;
    forall j | 0 <= j <= |s| - |m|
      ensures OccursAt(whole, m, j) == OccursAt(s, m, j)
    {
      assert whole[j..j + |m|] == s[j..j + |m|];
    }
    assert OccursAt(whole, m, |s|) by {
      assert whole[|s|..|s| + |m|] == m;
    }
    forall j | 0 <= j < at
      ensures !OccursAt(whole, m, j)
    {
      if j > |s| - |m| && OccursAt(whole, m, j) {
        OverlapIsBorder(whole, m, j, |s|);
      } else {
        assert !OccursAt(s, m, j);
      }
    }
    CutAtUnique(whole, m, at);
  }

  /** With a bordered marker the text that ends just before its border is cut too early. */
  lemma BorderedCutMoves<T>(m: seq<T>, k: nat)
    requires Border(m, k)
    ensures CutAt(m[..|m| - k] + m + [], m) == [] && CutAt(m[..|m| - k], m) == m[..|m| - k] != []
  {
    var s := m[..|m| - k];
    var whole := s + m + [];
    assert m == s + m[..k];
    assert whole[0..|m|] == m;
    CutAtUnique(whole, m, 0);
    assert !Contains(s, m);
  }

  /** Having no border is exactly what makes the cut independent of what follows the marker. */
  lemma CutIgnoresSuffixIffUnbordered<T(!new)>(m: seq<T>)
    requires m != []
    ensures CutIgnoresSuffix(m) <==> Unbordered(m)
  {
    if Unbordered(m) {
      forall s: seq<T>, suffix: seq<T>
        ensures CutAt(s + m + suffix, m) == CutAt(s, m)
      {
        CutAtAppend(s, m, suffix);
      }
    } else {
      var k: nat :| 0 < k < |m| && Border(m, k);
      BorderedCutMoves(m, k);
      assert CutAt(m[..|m| - k] + m + [], m) != CutAt(m[..|m| - k], m);
    }
  }
}
