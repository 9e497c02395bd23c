/** Redirect targets: keeping them on-site, adding query parameters, and sending a refusal back. */
module Redirect {
  import opened FormUrl
  import opened Options
  import opened Segments
  import opened Utf8

  // ---- with_query ----

  /** What precedes the fragment. */
  function Base(path: string): string {
    path[..IndexOf(path, '#')]
  }

  /** The fragment with its `#`, or nothing. */
  function Tail(path: string): string {
    path[IndexOf(path, '#')..]
  }

  function Separator(base: string): string {
    if IndexOf(base, '?') < |base| then "&" else "?"
  }

  function Grown(base: string, query: string): string {
    base + (Separator(base) + query)
  }

  /** `path` with `pairs` appended to its query, before any fragment. */
  function Appended(path: string, pairs: seq<Pair>): string {
    if pairs == [] then path else Grown(Base(path), SerializePairs(pairs)) + Tail(path)
  }

  lemma SerializeNext(pairs: seq<Pair>, i: nat)
    requires i < |pairs|
    ensures SerializePairs(pairs[..i + 1])
            == (if i == 0 then "" else SerializePairs(pairs[..i]) + "&") + SerializePair(pairs[i])
    ensures SerializePair(pairs[i]) != ""
  {
    assert pairs[..i + 1][..i] == pairs[..i];
  }

  method AppendPairs(pairs: seq<Pair>) returns (query: string)
    ensures query == SerializePairs(pairs)
  {
    query := "";
    for i := 0 to |pairs|
      invariant query == SerializePairs(pairs[..i]) && (query == "" <==> i == 0)
    {
      SerializeNext(pairs, i);
      if query != "" {
        query := query + "&";
      }
      query := query + SerializePair(pairs[i]);
    }
    assert pairs[..|pairs|] == pairs;
  }

  lemma PutBack(out: string, path: string, at: nat)
    requires at == IndexOf(path, '#') < |path|
    ensures out + "#" + path[at + 1..] == out + Tail(path)
  {
    assert Tail(path) == "#" + path[at + 1..];
    Regrouped(out, "#", path[at + 1..]);
  }

  lemma Regrouped(a: string, b: string, c: string)
    ensures a + b + c == a + (b + c)
  {
  }

  method WithQuery(path: string, pairs: seq<Pair>) returns (out: string)
    ensures out == Appended(path, pairs)
  {
    if pairs == [] {
      return path;
    }
    var at := IndexOf(path, '#');
    var query := AppendPairs(pairs);
    out := path[..at] + (Separator(path[..at]) + query);
    if at < |path| {
      PutBack(out, path, at);
      out := out + "#";
      out := out + path[at + 1..];
    }
  }

  /** What follows `#`. */
  function Fragment(path: string): Option<string> {
    if Tail(path) == "" then None else Some(Tail(path)[1..])
  }

  /** What precedes the query. */
  function Location(path: string): string {
    Base(path)[..IndexOf(Base(path), '?')]
  }

  /** The decoded query parameters, in order. */
  function Params(path: string): seq<(Bytes, Bytes)> {
    ParamsOf(Base(path))
  }

  function ParamsOf(base: string): seq<(Bytes, Bytes)> {
    var q := IndexOf(base, '?');
    if q < |base| then Parse(base[q + 1..]) else []
  }

  lemma PathParts(path: string)
    ensures Base(path) + Tail(path) == path
    ensures forall k | 0 <= k < |Base(path)| :: Base(path)[k] != '#'
    ensures Tail(path) == "" || Tail(path)[0] == '#'
  {
  }

  lemma PartsOf(base: string, tail: string)
    requires forall k | 0 <= k < |base| :: base[k] != '#'
    requires tail == "" || tail[0] == '#'
    ensures Base(base + tail) == base && Tail(base + tail) == tail
  {
    var path := base + tail;
    assert forall k | 0 <= k < |base| :: path[k] == base[k];
    assert tail != "" ==> path[|base|] == tail[0];
    IndexOfUnique(path, '#', |base|);
  }

  lemma InertIsHarmless(c: char)
    requires Inert(c) || c == '&' || c == '='
    ensures c != '#' && c != '/' && c != '\\' && c != ':' && !IsControl(c)
  {
  }

  /** None of the characters that structure a path is added, apart from one separator. */
  lemma AddedChars(base: string, pairs: seq<Pair>, k: nat)
    requires k < |Separator(base) + SerializePairs(pairs)|
    ensures var c := (Separator(base) + SerializePairs(pairs))[k];
            c != '#' && c != '/' && c != '\\' && c != ':' && !IsControl(c)
  {
    var query := SerializePairs(pairs);
    if k >= 1 {
      assert (Separator(base) + query)[k] == query[k - 1];
      assert query[k - 1] in query;
      SerializePairsInert(pairs);
      InertIsHarmless(query[k - 1]);
    }
  }

  lemma AppendedParts(path: string, pairs: seq<Pair>)
    requires pairs != []
    ensures Base(Appended(path, pairs)) == Grown(Base(path), SerializePairs(pairs))
    ensures Tail(Appended(path, pairs)) == Tail(path)
  {
    var grown := Grown(Base(path), SerializePairs(pairs));
    PathParts(path);
    forall k | 0 <= k < |grown|
      ensures grown[k] != '#'
    {
      if k >= |Base(path)| {
        AddedChars(Base(path), pairs, k - |Base(path)|);
      }
    }
    PartsOf(grown, Tail(path));
  }

  /** The query follows the first `?`, whether it was there or has just been added. */
  lemma QueryGrows(base: string, added: string)
    ensures var out, q := Grown(base, added), IndexOf(base, '?');
            && IndexOf(out, '?') == q < |out|
            && out[..q] == base[..q]
            && out[q + 1..] == if q < |base| then base[q + 1..] + "&" + added else added
  {
    var out, q := Grown(base, added), IndexOf(base, '?');
    assert forall k | 0 <= k < q :: out[k] == base[k];
    assert out[q] == '?';
    IndexOfUnique(out, '?', q);
  }

  lemma GrownParams(base: string, pairs: seq<Pair>)
    requires pairs != []
    ensures ParamsOf(Grown(base, SerializePairs(pairs))) == ParamsOf(base) + EncodePairs(pairs)
  {
    var q, added := IndexOf(base, '?'), SerializePairs(pairs);
    QueryGrows(base, added);
    ParseSerialized(pairs);
    if q < |base| {
      ParseConcat(base[q + 1..], added);
      assert ParamsOf(Grown(base, added)) == Parse(base[q + 1..] + "&" + added);
    } else {
      assert ParamsOf(Grown(base, added)) == Parse(added);
    }
  }

  /** Only the query changes: the old parameters stay, in order, and the new ones follow them. */
  lemma AppendsParams(path: string, pairs: seq<Pair>)
    ensures Params(Appended(path, pairs)) == Params(path) + EncodePairs(pairs)
    ensures Fragment(Appended(path, pairs)) == Fragment(path)
    ensures Location(Appended(path, pairs)) == Location(path)
  {
    if pairs != [] {
      AppendedParts(path, pairs);
      QueryGrows(Base(path), SerializePairs(pairs));
      GrownParams(Base(path), pairs);
    }
  }

  lemma Regrouped5(a: string, b: string, c: string, d: string, e: string)
    ensures a + (b + c) + (d + e) == a + (b + (c + d + e))
  {
  }

  lemma SeparatorAfter(base: string, x: string)
    ensures Separator(Grown(base, x)) == "&"
  {
    QueryGrows(base, x);
  }

  lemma GrownTwice(base: string, x: string, y: string)
    ensures Grown(Grown(base, x), y) == Grown(base, x + "&" + y)
  {
    SeparatorAfter(base, x);
    Regrouped5(base, Separator(base), x, "&", y);
  }

  /** Appending twice is appending everything at once. */
  lemma AppendTwice(path: string, a: seq<Pair>, b: seq<Pair>)
    ensures Appended(Appended(path, a), b) == Appended(path, a + b)
  {
    if a == [] {
      assert a + b == b;
    } else if b == [] {
      assert a + b == a;
    } else {
      AppendedParts(path, a);
      SerializeConcat(a, b);
      GrownTwice(Base(path), SerializePairs(a), SerializePairs(b));
    }
  }

  // ---- safe_next ----

  /** `char::is_control`: Unicode's category Cc. */
  predicate IsControl(c: char) {
    c as int < 0x20 || 0x7F <= c as int < 0xA0
  }

  predicate SchemeMarkAt(path: string, i: int) {
    0 <= i < |path| - 2 && path[i] == ':' && path[i + 1] == '/' && path[i + 2] == '/'
  }

  predicate OneLeadingSlash(path: string) {
    |path| >= 1 && path[0] == '/' && !(|path| >= 2 && path[1] == '/')
  }

  predicate NoBadChars(path: string) {
    forall i | 0 <= i < |path| :: path[i] != '\\' && !IsControl(path[i])
  }

  /** A path on this site: one leading `/`, and nothing a browser reads as another host. */
  predicate OnSite(path: string) {
    OneLeadingSlash(path) && NoBadChars(path) && !exists i | 0 <= i < |path| :: SchemeMarkAt(path, i)
  }

  const MAX_NEXT: nat := 2048

  function SafeNext(next: Option<string>, fallback: string): string {
    if next.Some? && OnSite(next.value) && |Encode(next.value)| <= MAX_NEXT then next.value else fallback
  }

  /** `str::contains`. */
  ghost predicate Contains(s: string, part: string) {
    exists i | 0 <= i <= |s| :: part <= s[i..]
  }

  lemma SchemeMarkIsContained(s: string)
    ensures Contains(s, "://") <==> exists i | 0 <= i < |s| :: SchemeMarkAt(s, i)
  {
    if i :| 0 <= i <= |s| && "://" <= s[i..] {
      assert s[i..][0] == ':' && s[i..][1] == '/' && s[i..][2] == '/';
      assert SchemeMarkAt(s, i);
    }
    if i :| 0 <= i < |s| && SchemeMarkAt(s, i) {
      assert "://" <= s[i..];
    }
  }

  lemma OneLeadingSlashMeans(s: string)
    ensures OneLeadingSlash(s) <==> "/" <= s && !("//" <= s)
  {
  }

  lemma NoBadCharsMeans(s: string)
    ensures NoBadChars(s) <==> '\\' !in s && forall c | c in s :: !(c as int < 0x20 || 0x7F <= c as int < 0xA0)
  {
    if '\\' !in s && forall c | c in s :: !(c as int < 0x20 || 0x7F <= c as int < 0xA0) {
      forall i | 0 <= i < |s|
        ensures s[i] != '\\' && !IsControl(s[i])
      {
        assert s[i] in s;
      }
    }
  }

  /** Exactly these targets are accepted; anything else, and no target at all, becomes the fallback. */
  lemma AcceptedIff(next: string, fallback: string)
    requires fallback != next
    ensures SafeNext(Some(next), fallback) == next <==>
              && "/" <= next && !("//" <= next)
              && '\\' !in next
              && !Contains(next, "://")
              && (forall c | c in next :: !(c as int < 0x20 || 0x7F <= c as int < 0xA0))
              && |Encode(next)| <= 2048
    ensures SafeNext(Some(next), fallback) == next || SafeNext(Some(next), fallback) == fallback
    ensures SafeNext(None, fallback) == fallback
  {
    SchemeMarkIsContained(next);
    OneLeadingSlashMeans(next);
    NoBadCharsMeans(next);
  }

  /** What a browser makes of a target: tabs and line ends are dropped, and a backslash is as good as a slash. */
  function Reading(path: string): string {
    if path == "" then ""
    else if path[0] == '\t' || path[0] == '\n' || path[0] == '\r' then Reading(path[1..])
    else [if path[0] == '\\' then '/' else path[0]] + Reading(path[1..])
  }

  predicate IsLetter(c: char) {
    'a' <= c <= 'z' || 'A' <= c <= 'Z'
  }

  /** It begins with a scheme (section 3.1 of RFC 3986), so it is a URL of its own. */
  ghost predicate HasScheme(url: string) {
    exists i | 0 < i < |url| ::
      url[i] == ':' && IsLetter(url[0])
      && forall j | 0 < j < i :: IsLetter(url[j]) || '0' <= url[j] <= '9' || url[j] == '+' || url[j] == '-' || url[j] == '.'
  }

  /** A browser on this site that follows the target stays: it reads a path, neither a URL nor `//host`. */
  ghost predicate StaysHere(path: string) {
    "/" <= Reading(path) && !("//" <= Reading(path)) && !HasScheme(Reading(path))
  }

  lemma {:induction false} ReadAsWritten(path: string)
    requires NoBadChars(path)
    ensures Reading(path) == path
  {
    if path != "" {
      assert !IsControl(path[0]) && path[0] != '\\';
      ReadAsWritten(path[1..]);
    }
  }

  lemma OnSiteStaysHere(path: string)
    requires OnSite(path)
    ensures StaysHere(path)
  {
    ReadAsWritten(path);
    assert !IsLetter('/');
  }

  /** Nothing that is accepted takes a browser off the site. */
  lemma AcceptedStaysHere(next: Option<string>, fallback: string)
    ensures StaysHere(SafeNext(next, fallback)) || SafeNext(next, fallback) == fallback
  {
    if SafeNext(next, fallback) != fallback {
      OnSiteStaysHere(SafeNext(next, fallback));
    }
  }

  /** An accepted `next` is accepted again, whatever the fallback; the fallback itself is only kept by itself. */
  lemma SafeNextStable(next: Option<string>, fallback: string)
    ensures SafeNext(Some(SafeNext(next, fallback)), fallback) == SafeNext(next, fallback)
    ensures (forall other :: SafeNext(Some(SafeNext(next, fallback)), other) == SafeNext(next, fallback))
            <==> OnSite(SafeNext(next, fallback)) && |Encode(SafeNext(next, fallback))| <= MAX_NEXT
  {
    var r := SafeNext(next, fallback);
    assert SafeNext(Some(r), r + "x") == r ==> OnSite(r) && |Encode(r)| <= MAX_NEXT by {
      assert |r + "x"| != |r|;
    }
  }

  ghost predicate Harmless(middle: string) {
    forall i | 0 <= i < |middle| :: middle[i] != '/' && middle[i] != '\\' && middle[i] != ':' && !IsControl(middle[i])
  }

  lemma SchemeMarkInsert(base: string, middle: string, tail: string)
    requires Harmless(middle) && |middle| >= 1 && (tail == "" || tail[0] == '#')
    ensures (exists i :: SchemeMarkAt(base + middle + tail, i)) <==> (exists i :: SchemeMarkAt(base + tail, i))
  {
    var p, out, n, m := base + tail, base + middle + tail, |base|, |middle|;
    assert forall k | n <= k < n + m :: out[k] == middle[k - n];
    if i :| SchemeMarkAt(p, i) {
      assert SchemeMarkAt(out, if i < n then i else i + m);
    }
    if i :| SchemeMarkAt(out, i) {
      assert SchemeMarkAt(p, if i < n then i else i - m);
    }
  }

  lemma CharsInsert(base: string, middle: string, tail: string)
    requires Harmless(middle)
    ensures NoBadChars(base + middle + tail) <==> NoBadChars(base + tail)
  {
    var p, out, n, m := base + tail, base + middle + tail, |base|, |middle|;
    if NoBadChars(p) {
      forall i | 0 <= i < |out|
        ensures out[i] != '\\' && !IsControl(out[i])
      {
        if i < n {
          assert out[i] == p[i];
        } else if i < n + m {
          assert out[i] == middle[i - n];
        } else {
          assert out[i] == p[i - m];
        }
      }
    }
    if NoBadChars(out) {
      assert forall i | 0 <= i < |p| :: p[i] == out[if i < n then i else i + m];
    }
  }

  lemma StartInsert(base: string, middle: string, tail: string)
    requires Harmless(middle) && |middle| >= 1 && (tail == "" || tail[0] == '#')
    ensures OneLeadingSlash(base + middle + tail) <==> OneLeadingSlash(base + tail)
  {
    var p, out := base + tail, base + middle + tail;
    if |base| == 0 {
      assert out[0] == middle[0];
    } else if |base| == 1 {
      assert out[0] == p[0] && out[1] == middle[0];
    } else {
      assert out[0] == p[0] && out[1] == p[1];
    }
  }

  /** Appending parameters can neither make a path leave the site nor bring one back. */
  lemma OnSiteClosed(path: string, pairs: seq<Pair>)
    ensures OnSite(Appended(path, pairs)) <==> OnSite(path)
  {
    if pairs != [] {
      var base, tail := Base(path), Tail(path);
      var middle := Separator(base) + SerializePairs(pairs);
      forall i | 0 <= i < |middle|
        ensures middle[i] != '/' && middle[i] != '\\' && middle[i] != ':' && !IsControl(middle[i])
      {
        AddedChars(base, pairs, i);
      }
      PathParts(path);
      StartInsert(base, middle, tail);
      CharsInsert(base, middle, tail);
      SchemeMarkInsert(base, middle, tail);
    }
  }

  // ---- sending a refusal back ----

  datatype Refusal = Refusal(code: string, param: Option<string>)

  /** The page a flow ends on, and whether the flow adds an identity to a user who is signed in. */
  datatype Return = Return(next: string, link: bool)

  /** The parts of the sign-in flow's settings that redirects are made from. */
  datatype Paths = Paths(signIn: string, defaultNext: string, errorParam: string)

  /** `Flow::refuse`: the target the browser is sent to. */
  function Refuse(paths: Paths, refusal: Refusal, back: Option<Return>): string {
    var param := if refusal.param.Some? then refusal.param.value else paths.errorParam;
    match back
    case Some(Return(next, true)) => Appended(next, [(param, refusal.code)])
    case Some(Return(next, false)) => Appended(paths.signIn, [(param, refusal.code), ("next", next)])
    case None => Appended(paths.signIn, [(param, refusal.code)])
  }

  /** A refusal on the way to `next` leaves the code and, on the sign-in page, `next` itself as its last parameter. */
  lemma RefuseParams(paths: Paths, refusal: Refusal, next: string)
    ensures var param := if refusal.param.Some? then refusal.param.value else paths.errorParam;
            && Params(Refuse(paths, refusal, Some(Return(next, false))))
               == Params(paths.signIn) + [EncodePair((param, refusal.code)), EncodePair(("next", next))]
            && Params(Refuse(paths, refusal, Some(Return(next, true))))
               == Params(next) + [EncodePair((param, refusal.code))]
            && (OnSite(Refuse(paths, refusal, Some(Return(next, true)))) <==> OnSite(next))
  {
    var param := if refusal.param.Some? then refusal.param.value else paths.errorParam;
    var both: seq<Pair> := [(param, refusal.code), ("next", next)];
    AppendsParams(paths.signIn, both);
    AppendsParams(next, [(param, refusal.code)]);
    OnSiteClosed(next, [(param, refusal.code)]);
    assert EncodePairs(both) == [EncodePair(both[0]), EncodePair(both[1])];
    assert EncodePairs([both[0]]) == [EncodePair(both[0])];
  }

  /** How the sign-in page reads a parameter: the first one of that name; `decode` turns bytes into text. */
  function FirstNamed(params: seq<(Bytes, Bytes)>, decode: Bytes -> string, name: string): Option<string> {
    if params == [] then None
    else if decode(params[0].0) == name then Some(decode(params[0].1))
    else FirstNamed(params[1..], decode, name)
  }

  lemma {:induction false} FirstNamedConcat(a: seq<(Bytes, Bytes)>, b: seq<(Bytes, Bytes)>, decode: Bytes -> string, name: string)
    ensures FirstNamed(a + b, decode, name)
            == if FirstNamed(a, decode, name).Some? then FirstNamed(a, decode, name) else FirstNamed(b, decode, name)
  {
    if a == [] {
      assert a + b == b;
    } else {
      assert (a + b)[1..] == a[1..] + b;
      FirstNamedConcat(a[1..], b, decode, name);
    }
  }

  /** Decoding undoes encoding; on bytes that encode no text it may do anything. */
  ghost predicate Decodes(decode: Bytes -> string) {
    forall s: string :: decode(Encode(s)) == s
  }

  /** What the sign-in page takes for the destination after this refusal. */
  function NextRead(paths: Paths, decode: Bytes -> string, refusal: Refusal, next: string): Option<string> {
    FirstNamed(Params(Refuse(paths, refusal, Some(Return(next, false)))), decode, "next")
  }

  /** No parameter called `next` comes before the one that is meant, or it says the same. */
  predicate NextIsFirst(paths: Paths, decode: Bytes -> string, refusal: Refusal, next: string) {
    var param := if refusal.param.Some? then refusal.param.value else paths.errorParam;
    match FirstNamed(Params(paths.signIn), decode, "next")
    case Some(other) => other == next
    case None => param == "next" ==> refusal.code == next
  }

  lemma FirstOfTwo(decode: Bytes -> string, param: string, code: string, next: string)
    requires Decodes(decode)
    ensures FirstNamed([EncodePair((param, code)), EncodePair(("next", next))], decode, "next")
            == Some(if param == "next" then code else next)
  {
    var params := [EncodePair((param, code)), EncodePair(("next", next))];
    assert params[1..] == [EncodePair(("next", next))];
  }

  /** The page reads the destination back exactly under that condition. */
  lemma NextReadIff(paths: Paths, decode: Bytes -> string, refusal: Refusal, next: string)
    requires Decodes(decode)
    ensures NextRead(paths, decode, refusal, next).Some?
    ensures NextRead(paths, decode, refusal, next) == Some(next) <==> NextIsFirst(paths, decode, refusal, next)
  {
    var param := if refusal.param.Some? then refusal.param.value else paths.errorParam;
    var added := [EncodePair((param, refusal.code)), EncodePair(("next", next))];
    RefuseParams(paths, refusal, next);
    FirstNamedConcat(Params(paths.signIn), added, decode, "next");
    FirstOfTwo(decode, param, refusal.code, next);
  }

  /** The destination after the sign-in page has sent the `next` it read back through `start` once per refusal. */
  function AfterRefusals(paths: Paths, decode: Bytes -> string, next: string, refusals: seq<Refusal>): string {
    if refusals == [] then next
    else
      var init, last := refusals[..|refusals| - 1], refusals[|refusals| - 1];
      SafeNext(NextRead(paths, decode, last, AfterRefusals(paths, decode, next, init)), paths.defaultNext)
  }

  /** After every one of the refusals, the page reads the destination that was first asked for. */
  predicate NextReadThroughout(paths: Paths, decode: Bytes -> string, next: string, refusals: seq<Refusal>) {
    refusals != [] ==>
      var init, last := refusals[..|refusals| - 1], refusals[|refusals| - 1];
      && NextReadThroughout(paths, decode, next, init)
      && NextRead(paths, decode, last, AfterRefusals(paths, decode, next, init)) == Some(next)
  }

  /** Any number of refusals later, a sign-in still goes where it was going at first, exactly when none of them hides `next`. */
  lemma {:induction false} RefusalsKeepNext(paths: Paths, decode: Bytes -> string, asked: Option<string>, refusals: seq<Refusal>)
    requires Decodes(decode)
    ensures var next := SafeNext(asked, paths.defaultNext);
            && (NextReadThroughout(paths, decode, next, refusals)
                <==> forall r | r in refusals :: NextIsFirst(paths, decode, r, next))
            && (NextReadThroughout(paths, decode, next, refusals) ==> AfterRefusals(paths, decode, next, refusals) == next)
  {
    if refusals != [] {
      var next := SafeNext(asked, paths.defaultNext);
      var init, last := refusals[..|refusals| - 1], refusals[|refusals| - 1];
      assert refusals == init + [last];
      RefusalsKeepNext(paths, decode, asked, init);
      NextReadIff(paths, decode, last, next);
      SafeNextStable(asked, paths.defaultNext);
    }
  }

  /** A refusal that puts its code in `next` sends the sign-in somewhere else, wherever it was going. */
  lemma RefusalTakesNext(paths: Paths, decode: Bytes -> string, refusal: Refusal, next: string)
    requires Decodes(decode) && paths.signIn == "/" && refusal.param == Some("next") && refusal.code == "banned"
    ensures NextRead(paths, decode, refusal, next) == Some(refusal.code)
    ensures AfterRefusals(paths, decode, next, [refusal]) == paths.defaultNext
  {
    assert Params(paths.signIn) == [];
    RefuseParams(paths, refusal, next);
    var added := [EncodePair((refusal.param.value, refusal.code)), EncodePair(("next", next))];
    assert [] + added == added;
    FirstOfTwo(decode, refusal.param.value, refusal.code, next);
    assert [refusal][..0] == [] && !OneLeadingSlash(refusal.code);
  }
}
