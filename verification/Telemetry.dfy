/** The process-wide slot of telemetry layers: one layer per type, and the crates hidden from all of them. */
module Telemetry {
  import opened Options

  /** A layer's type, and a layer. */
  type Kind = nat
  type Layer = nat

  /** `position(|known| known == kind)`. */
  function Position(kinds: seq<Kind>, kind: Kind): (r: Option<nat>)
    ensures r.Some? ==> r.value < |kinds| && kinds[r.value] == kind && kind !in kinds[..r.value]
    ensures r.None? ==> kind !in kinds
  {
    if kinds == [] then None
    else if kinds[0] == kind then Some(0)
    else
      match Position(kinds[1..], kind)
      case Some(i) =>
        assert kinds[..i + 1] == [kinds[0]] + kinds[1..][..i];
        Some(i + 1)
      case None => None
  }

  /** The two vectors that are changed together under one lock. */
  datatype Stack = Stack(kinds: seq<Kind>, layers: seq<Layer>)

  ghost predicate InStep(s: Stack) {
    |s.kinds| == |s.layers|
  }

  function Attach(s: Stack, kind: Kind, layer: Layer): Stack {
    match Position(s.kinds, kind)
    case Some(i) => if i < |s.layers| then s.(layers := s.layers[i := layer]) else s
    case None => Stack(s.kinds + [kind], s.layers + [layer])
  }

  /** `target` is the crate itself or one of its modules. */
  predicate InCrate(target: string, krate: string) {
    krate <= target && (|target| == |krate| || (|target| >= |krate| + 2 && target[|krate|..|krate| + 2] == "::"))
  }

  /** The list of excluded crates, each listed once, in the order of their first mention. */
  function WithExcluded(excluded: seq<string>, targets: seq<string>): seq<string> {
    if targets == [] then excluded
    else
      var before, last := WithExcluded(excluded, targets[..|targets| - 1]), targets[|targets| - 1];
      if last in before then before else before + [last]
  }

  predicate Hidden(excluded: seq<string>, target: string) {
    exists k | k in excluded :: InCrate(target, k)
  }

  class Slot {
    var kinds: seq<Kind>
    var layers: seq<Layer>
    var excluded: seq<string>

    ghost predicate Valid()
      reads this
    {
      InStep(Stack(kinds, layers))
    }

    constructor ()
      ensures Valid() && kinds == [] && layers == [] && excluded == []
    {
      kinds, layers, excluded := [], [], [];
    }

    /** `locked` and `reloaded` say whether the lock was taken and the stack could be modified. */
    method AddLayer(kind: Kind, layer: Layer, locked: bool, reloaded: bool)
      requires Valid()
      modifies this
      ensures Valid() && excluded == old(excluded)
      ensures Stack(kinds, layers)
              == if locked && reloaded then Attach(Stack(old(kinds), old(layers)), kind, layer) else Stack(old(kinds), old(layers))
    {
      if !locked {
        return;
      }
      var index := Position(kinds, kind);
      if index.Some? {
        if reloaded && index.value < |layers| {
          layers := layers[index.value := layer];
        }
      } else if reloaded {
        layers := layers + [layer];
        kinds := kinds + [kind];
      }
    }

    method ExcludeTargets(targets: seq<string>, locked: bool)
      modifies this
      ensures kinds == old(kinds) && layers == old(layers)
      ensures excluded == if locked then WithExcluded(old(excluded), targets) else old(excluded)
    {
      if !locked {
        return;
      }
      for i := 0 to |targets|
        invariant kinds == old(kinds) && layers == old(layers)
        invariant excluded == WithExcluded(old(excluded), targets[..i])
      {
        assert targets[..i + 1][..i] == targets[..i];
        if targets[i] !in excluded {
          excluded := excluded + [targets[i]];
        }
      }
      assert targets[..|targets|] == targets;
    }

    /** Whether a target is hidden; when the list cannot be read, nothing is. */
    method IsExcluded(target: string, readable: bool) returns (hidden: bool)
      ensures hidden <==> readable && exists k | k in excluded :: InCrate(target, k)
    {
      hidden := false;
      if readable {
        for i := 0 to |excluded|
          invariant !hidden && forall j | 0 <= j < i :: !InCrate(target, excluded[j])
        {
          if InCrate(target, excluded[i]) {
            return true;
          }
        }
      }
    }
  }

  // ---- runs of add_layer ----

  /** `ok` is whether the lock was taken and the stack could be modified. */
  datatype Attempt = Attempt(kind: Kind, layer: Layer, ok: bool)

  function Run(attempts: seq<Attempt>): Stack {
    if attempts == [] then Stack([], [])
    else
      var s, a := Run(attempts[..|attempts| - 1]), attempts[|attempts| - 1];
      if a.ok then Attach(s, a.kind, a.layer) else s
  }

  ghost predicate Succeeds(attempts: seq<Attempt>, i: int, kind: Kind) {
    0 <= i < |attempts| && attempts[i].ok && attempts[i].kind == kind
  }

  ghost predicate IsFirst(attempts: seq<Attempt>, i: int, kind: Kind) {
    Succeeds(attempts, i, kind) && forall j | 0 <= j < i :: !Succeeds(attempts, j, kind)
  }

  ghost predicate IsLast(attempts: seq<Attempt>, i: int, kind: Kind) {
    Succeeds(attempts, i, kind) && forall j | i < j < |attempts| :: !Succeeds(attempts, j, kind)
  }

  /** Type `a` was attached before type `b` ever was. */
  ghost predicate CameFirst(attempts: seq<Attempt>, a: Kind, b: Kind) {
    exists i, j :: IsFirst(attempts, i, a) && IsFirst(attempts, j, b) && i < j
  }

  /**
   `first[n]` and `last[n]` are the first and last successful attempts for the type in slot
   n; the slots are in the order of the first ones, and hold the layers of the last ones.
   */
  ghost predicate Witnessed(attempts: seq<Attempt>, s: Stack, first: seq<nat>, last: seq<nat>) {
    && |first| == |last| == |s.kinds| == |s.layers|
    && (forall n | 0 <= n < |s.kinds| :: IsFirst(attempts, first[n], s.kinds[n]))
    && (forall n | 0 <= n < |s.kinds| :: IsLast(attempts, last[n], s.kinds[n]) && s.layers[n] == attempts[last[n]].layer)
    && (forall n, m | 0 <= n < m < |s.kinds| :: first[n] < first[m])
    && (forall i | 0 <= i < |attempts| && attempts[i].ok :: attempts[i].kind in s.kinds)
  }

  lemma OlderAttempts(init: seq<Attempt>, a: Attempt, i: int, kind: Kind)
    requires i < |init|
    ensures Succeeds(init + [a], i, kind) <==> Succeeds(init, i, kind)
    ensures IsFirst(init, i, kind) ==> IsFirst(init + [a], i, kind)
    ensures IsLast(init, i, kind) && !(a.ok && a.kind == kind) ==> IsLast(init + [a], i, kind)
  {
    forall j | 0 <= j < |init|
      ensures Succeeds(init + [a], j, kind) <==> Succeeds(init, j, kind)
    {
    }
  }

  lemma NeverSucceeded(attempts: seq<Attempt>, s: Stack, first: seq<nat>, last: seq<nat>, kind: Kind, i: int)
    requires Witnessed(attempts, s, first, last) && kind !in s.kinds
    ensures !Succeeds(attempts, i, kind)
  {
  }

  lemma AttachWitnessed(init: seq<Attempt>, a: Attempt, s: Stack, first: seq<nat>, last: seq<nat>)
    returns (first': seq<nat>, last': seq<nat>)
    requires Witnessed(init, s, first, last)
    ensures Witnessed(init + [a], if a.ok then Attach(s, a.kind, a.layer) else s, first', last')
  {
    var all := init + [a];
    var at := Position(s.kinds, a.kind);
    first', last' := first, last;
    forall n | 0 <= n < |s.kinds|
      ensures IsFirst(all, first[n], s.kinds[n])
      ensures !(a.ok && a.kind == s.kinds[n]) ==> IsLast(all, last[n], s.kinds[n])
    {
      OlderAttempts(init, a, first[n], s.kinds[n]);
      OlderAttempts(init, a, last[n], s.kinds[n]);
    }
    if a.ok {
      assert IsLast(all, |init|, a.kind);
      if at.Some? {
        last' := last[at.value := |init|];
        KindsDistinct(init, s, first, last);
      } else {
        first', last' := first + [|init|], last + [|init|];
        forall j | 0 <= j < |init|
          ensures !Succeeds(all, j, a.kind)
        {
          NeverSucceeded(init, s, first, last, a.kind, j);
        }
      }
    }
  }

  lemma KindsDistinct(attempts: seq<Attempt>, s: Stack, first: seq<nat>, last: seq<nat>)
    requires Witnessed(attempts, s, first, last)
    ensures forall n, m | 0 <= n < m < |s.kinds| :: s.kinds[n] != s.kinds[m]
  {
  }

  lemma {:induction false} RunWitnessed(attempts: seq<Attempt>) returns (first: seq<nat>, last: seq<nat>)
    ensures Witnessed(attempts, Run(attempts), first, last)
  {
    if attempts == [] {
      first, last := [], [];
    } else {
      var init, a := attempts[..|attempts| - 1], attempts[|attempts| - 1];
      first, last := RunWitnessed(init);
      first, last := AttachWitnessed(init, a, Run(init), first, last);
      assert init + [a] == attempts;
    }
  }

  /** After any run, with failures or not: the two vectors are in step and no type is there twice. */
  lemma OneLayerPerType(attempts: seq<Attempt>)
    ensures var s := Run(attempts);
            && InStep(s)
            && (forall n, m | 0 <= n < m < |s.kinds| :: s.kinds[n] != s.kinds[m])
            && (forall k :: k in s.kinds <==> exists i :: Succeeds(attempts, i, k))
            && (forall n | 0 <= n < |s.kinds| ::
                  exists i :: IsLast(attempts, i, s.kinds[n]) && s.layers[n] == attempts[i].layer)
            && (forall n, m | 0 <= n < m < |s.kinds| :: CameFirst(attempts, s.kinds[n], s.kinds[m]))
  {
    var s := Run(attempts);
    var first, last := RunWitnessed(attempts);
    KindsDistinct(attempts, s, first, last);
    forall k
      ensures k in s.kinds <==> exists i :: Succeeds(attempts, i, k)
    {
      if k in s.kinds {
        var n :| 0 <= n < |s.kinds| && s.kinds[n] == k;
        assert Succeeds(attempts, first[n], k);
      }
    }
    forall n, m | 0 <= n < m < |s.kinds|
      ensures CameFirst(attempts, s.kinds[n], s.kinds[m])
    {
      assert IsFirst(attempts, first[n], s.kinds[n]) && IsFirst(attempts, first[m], s.kinds[m]) && first[n] < first[m];
    }
  }

  // ---- hidden targets ----

  predicate StartsWithColons(s: string) {
    |s| >= 2 && s[0] == ':' && s[1] == ':'
  }

  function Prepend(c: char, parts: seq<string>): seq<string>
    requires |parts| >= 1
  {
    [[c] + parts[0]] + parts[1..]
  }

  /** The `::`-separated segments of a path. */
  function PathSegments(s: string): (r: seq<string>)
    ensures |r| >= 1
  {
    if StartsWithColons(s) then [""] + PathSegments(s[2..])
    else if s == "" then [""]
    else Prepend(s[0], PathSegments(s[1..]))
  }

  function JoinPath(parts: seq<string>): string
    requires |parts| >= 1
  {
    if |parts| == 1 then parts[0] else parts[0] + "::" + JoinPath(parts[1..])
  }

  /** The path ends in a `:` that is not part of a `::`. No path of Rust modules does. */
  predicate LoneColonAtEnd(s: string) {
    if StartsWithColons(s) then LoneColonAtEnd(s[2..])
    else s == ":" || (|s| >= 2 && LoneColonAtEnd(s[1..]))
  }

  lemma Regroup(a: string, b: string, c: string, d: string)
    ensures (a + b) + c + d == a + (b + c + d)
  {
  }

  lemma JoinPrepend(c: char, parts: seq<string>)
    requires |parts| >= 1
    ensures JoinPath(Prepend(c, parts)) == [c] + JoinPath(parts)
  {
    var head, rest := parts[0], parts[1..];
    assert Prepend(c, parts)[1..] == rest && Prepend(c, parts)[0] == [c] + head;
    if rest != [] {
      assert JoinPath(Prepend(c, parts)) == ([c] + head) + "::" + JoinPath(rest);
      Regroup([c], head, "::", JoinPath(rest));
    }
  }

  lemma {:induction false} JoinPathSegments(s: string)
    ensures JoinPath(PathSegments(s)) == s
  {
    if StartsWithColons(s) {
      JoinPathSegments(s[2..]);
      assert ([""] + PathSegments(s[2..]))[1..] == PathSegments(s[2..]);
      assert s == "::" + s[2..];
    } else if s != "" {
      JoinPathSegments(s[1..]);
      JoinPrepend(s[0], PathSegments(s[1..]));
      assert s == [s[0]] + s[1..];
    }
  }

  lemma {:induction false} JoinPathConcat(a: seq<string>, b: seq<string>)
    requires |a| >= 1 && |b| >= 1
    ensures JoinPath(a + b) == JoinPath(a) + "::" + JoinPath(b)
  {
    if |a| == 1 {
      assert (a + b)[1..] == b;
    } else {
      assert (a + b)[1..] == a[1..] + b;
      JoinPathConcat(a[1..], b);
    }
  }

  lemma PrependConcat(c: char, a: seq<string>, b: seq<string>)
    requires |a| >= 1 && |b| >= 1
    ensures Prepend(c, a + b) == Prepend(c, a) + b
  {
    assert (a + b)[1..] == a[1..] + b;
  }

  lemma {:induction false} SegmentsConcat(k: string, r: string)
    requires !LoneColonAtEnd(k)
    ensures PathSegments(k + "::" + r) == PathSegments(k) + PathSegments(r)
  {
    var t := k + "::" + r;
    if StartsWithColons(k) {
      SegmentsConcat(k[2..], r);
      assert t[2..] == k[2..] + "::" + r;
      Regroup2(PathSegments(k[2..]), PathSegments(r));
    } else if k == "" {
      assert t[2..] == r;
    } else {
      assert |k| >= 2 ==> t[0] == k[0] && t[1] == k[1];
      SegmentsConcat(k[1..], r);
      assert t[1..] == k[1..] + "::" + r;
      PrependConcat(k[0], PathSegments(k[1..]), PathSegments(r));
    }
  }

  lemma Regroup2(a: seq<string>, b: seq<string>)
    ensures [""] + (a + b) == ([""] + a) + b
  {
  }

  lemma SegmentsAreInCrate(t: string, k: string, rest: seq<string>)
    requires PathSegments(t) == PathSegments(k) + rest
    ensures InCrate(t, k)
  {
    JoinPathSegments(t);
    JoinPathSegments(k);
    if rest == [] {
      assert PathSegments(t) == PathSegments(k);
    } else {
      JoinPathConcat(PathSegments(k), rest);
      var x := JoinPath(rest);
      assert (k + "::" + x)[..|k|] == k && (k + "::" + x)[|k|..|k| + 2] == "::";
    }
  }

  lemma CrateSplits(t: string, k: string) returns (x: string)
    requires InCrate(t, k) && t != k
    ensures t == k + "::" + x
  {
    x := t[|k| + 2..];
  }

  /** For the crates that can be named, matching is by whole segments. */
  lemma InCrateBySegments(t: string, k: string)
    requires !LoneColonAtEnd(k)
    ensures InCrate(t, k) <==> PathSegments(k) <= PathSegments(t)
  {
    if PathSegments(k) <= PathSegments(t) {
      SegmentsAreInCrate(t, k, PathSegments(t)[|PathSegments(k)|..]);
    } else if InCrate(t, k) && t != k {
      var x := CrateSplits(t, k);
      SegmentsConcat(k, x);
    }
  }

  lemma {:induction false} LoneColonBreaks(k: string)
    requires LoneColonAtEnd(k)
    ensures !(PathSegments(k) <= PathSegments(k + "::"))
  {
    var t := k + "::";
    if StartsWithColons(k) {
      LoneColonBreaks(k[2..]);
      assert t[2..] == k[2..] + "::";
      assert PathSegments(t)[1..] == PathSegments(k[2..] + "::") && PathSegments(k)[1..] == PathSegments(k[2..]);
    } else if k == ":" {
      assert StartsWithColons(t) && PathSegments(t)[0] == "" && PathSegments(k)[0] == [':'] + PathSegments(k[1..])[0];
    } else {
      LoneColonBreaks(k[1..]);
      assert t[0] == k[0] && t[1] == k[1] && t[1..] == k[1..] + "::";
      if PathSegments(k) <= PathSegments(t) {
        PrependPrefix(k[0], PathSegments(k[1..]), PathSegments(k[1..] + "::"));
      }
    }
  }

  lemma PrependPrefix(c: char, a: seq<string>, b: seq<string>)
    requires |a| >= 1 && |b| >= 1 && Prepend(c, a) <= Prepend(c, b)
    ensures a <= b
  {
    var x, y := Prepend(c, a), Prepend(c, b);
    assert x[0][1..] == a[0] && y[0][1..] == b[0];
    assert forall i | 1 <= i < |a| :: x[i] == a[i] && y[i] == b[i];
  }

  /** And for exactly these crates it is. */
  lemma SegmentMatchingIff(k: string)
    ensures (forall t :: InCrate(t, k) <==> PathSegments(k) <= PathSegments(t)) <==> !LoneColonAtEnd(k)
  {
    if LoneColonAtEnd(k) {
      LoneColonBreaks(k);
      assert InCrate(k + "::", k);
    } else {
      forall t
        ensures InCrate(t, k) <==> PathSegments(k) <= PathSegments(t)
      {
        InCrateBySegments(t, k);
      }
    }
  }

  lemma {:induction false} ExcludedMembers(excluded: seq<string>, targets: seq<string>)
    ensures forall k :: k in WithExcluded(excluded, targets) <==> k in excluded || k in targets
    ensures Distinct(excluded) ==> Distinct(WithExcluded(excluded, targets))
  {
    if targets != [] {
      var init, last := targets[..|targets| - 1], targets[|targets| - 1];
      ExcludedMembers(excluded, init);
      assert targets == init + [last];
    }
  }

  ghost predicate Distinct(excluded: seq<string>) {
    forall i, j | 0 <= i < j < |excluded| :: excluded[i] != excluded[j]
  }

  /** A call of `exclude_targets`, and whether it got the lock. */
  datatype Exclusion = Exclusion(targets: seq<string>, locked: bool)

  function ExcludedAfter(calls: seq<Exclusion>): seq<string> {
    if calls == [] then []
    else
      var before, last := ExcludedAfter(calls[..|calls| - 1]), calls[|calls| - 1];
      if last.locked then WithExcluded(before, last.targets) else before
  }

  ghost predicate NamedIn(calls: seq<Exclusion>, i: int, krate: string) {
    0 <= i < |calls| && calls[i].locked && krate in calls[i].targets
  }

  lemma {:induction false} ExcludedIffNamed(calls: seq<Exclusion>, krate: string)
    ensures krate in ExcludedAfter(calls) <==> exists i :: NamedIn(calls, i, krate)
    ensures Distinct(ExcludedAfter(calls))
  {
    if calls != [] {
      var init, last := calls[..|calls| - 1], calls[|calls| - 1];
      ExcludedIffNamed(init, krate);
      ExcludedMembers(ExcludedAfter(init), last.targets);
      assert forall i :: NamedIn(calls, i, krate) <==> NamedIn(init, i, krate) || (i == |init| && last.locked && krate in last.targets);
      assert last.locked && krate in last.targets ==> NamedIn(calls, |init|, krate);
    }
  }

  /** After any run of exclusions, a target is hidden exactly when a crate named in one that got the lock is the start of its path. */
  lemma HiddenBySegments(calls: seq<Exclusion>, target: string)
    requires forall i, k | NamedIn(calls, i, k) :: !LoneColonAtEnd(k)
    ensures Hidden(ExcludedAfter(calls), target)
            <==> exists i, k :: NamedIn(calls, i, k) && PathSegments(k) <= PathSegments(target)
  {
    if Hidden(ExcludedAfter(calls), target) {
      var k :| k in ExcludedAfter(calls) && InCrate(target, k);
      ExcludedIffNamed(calls, k);
      var i :| NamedIn(calls, i, k);
      InCrateBySegments(target, k);
    }
    if i, k :| NamedIn(calls, i, k) && PathSegments(k) <= PathSegments(target) {
      ExcludedIffNamed(calls, k);
      InCrateBySegments(target, k);
    }
  }
}
