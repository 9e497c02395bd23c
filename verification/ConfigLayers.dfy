/**
 Layered configuration: environment over file, and conventional variables under both.
 `Join` and `Merge` are figment's two ways to lay one tree over another.
 */
module ConfigLayers {
  import opened Options
  import opened Segments

  /** A table, or anything else. */
  datatype Value = Leaf(text: string) | Dict(entries: map<string, Value>)

  /** Adds what is missing: the first tree wins. */
  function Join(a: Value, b: Value): Value
    decreases a
  {
    if a.Dict? && b.Dict? then
      Dict(map k | k in a.entries.Keys + b.entries.Keys ::
             if k !in b.entries then a.entries[k] else if k !in a.entries then b.entries[k]
             else Join(a.entries[k], b.entries[k]))
    else a
  }

  /** Overrides: the second tree wins. */
  function Merge(a: Value, b: Value): Value
    decreases b
  {
    if a.Dict? && b.Dict? then
      Dict(map k | k in a.entries.Keys + b.entries.Keys ::
             if k !in a.entries then b.entries[k] else if k !in b.entries then a.entries[k]
             else Merge(a.entries[k], b.entries[k]))
    else b
  }

  /** The two are the same with the arguments exchanged. */
  lemma {:induction false} MergeIsJoin(a: Value, b: Value)
    ensures Merge(a, b) == Join(b, a)
    decreases b
  {
    if a.Dict? && b.Dict? {
      forall k | k in a.entries && k in b.entries
        ensures Merge(a.entries[k], b.entries[k]) == Join(b.entries[k], a.entries[k])
      {
        MergeIsJoin(a.entries[k], b.entries[k]);
      }
    }
  }

  type Path = seq<string>

  /** The tree has something at `path`, or a non-table value on the way that leaves no room for it. */
  predicate Speaks(v: Value, path: Path) {
    path == [] || v.Leaf? || (path[0] in v.entries && Speaks(v.entries[path[0]], path[1..]))
  }

  /** The non-table value at `path`. */
  function LeafAt(v: Value, path: Path): (r: Option<string>)
    ensures r.Some? ==> Speaks(v, path)
  {
    if path == [] then (if v.Leaf? then Some(v.text) else None)
    else if v.Dict? && path[0] in v.entries then LeafAt(v.entries[path[0]], path[1..])
    else None
  }

  /** For any two trees, clashing or not: a path is read from the first one that has a say about it. */
  lemma {:induction false} JoinLeaf(a: Value, b: Value, path: Path)
    ensures LeafAt(Join(a, b), path) == if Speaks(a, path) then LeafAt(a, path) else LeafAt(b, path)
    ensures Speaks(a, path) ==> Speaks(Join(a, b), path)
    decreases path
  {
    if path != [] && a.Dict? && b.Dict? && path[0] in a.entries && path[0] in b.entries {
      JoinLeaf(a.entries[path[0]], b.entries[path[0]], path[1..]);
    }
  }

  // ---- compatible layers ----

  /** No path is a table in one tree and not in the other. */
  ghost predicate Compatible(a: Value, b: Value)
    decreases a
  {
    (a.Dict? <==> b.Dict?)
    && (a.Dict? && b.Dict? ==> forall k | k in a.entries && k in b.entries :: Compatible(a.entries[k], b.entries[k]))
  }

  lemma {:induction false} CompatibleSpeaks(a: Value, b: Value, path: Path)
    requires Compatible(a, b)
    ensures Speaks(a, path) && LeafAt(b, path).Some? ==> LeafAt(a, path).Some?
    ensures Speaks(Join(a, b), path) <==> Speaks(a, path) || Speaks(b, path)
    decreases path
  {
    if path != [] && a.Dict? && path[0] in a.entries && path[0] in b.entries {
      CompatibleSpeaks(a.entries[path[0]], b.entries[path[0]], path[1..]);
    }
  }

  lemma {:induction false} JoinCompatible(a: Value, b: Value, c: Value)
    requires Compatible(a, b) && Compatible(a, c) && Compatible(b, c)
    ensures Compatible(Join(a, b), c)
    decreases a
  {
    if a.Dict? {
      forall k | k in Join(a, b).entries && k in c.entries
        ensures Compatible(Join(a, b).entries[k], c.entries[k])
      {
        if k in a.entries && k in b.entries {
          JoinCompatible(a.entries[k], b.entries[k], c.entries[k]);
        }
      }
    }
  }

  /** `fold(first, Figment::join)`. */
  function JoinAll(first: Value, rest: seq<Value>): Value {
    if rest == [] then first else Join(JoinAll(first, rest[..|rest| - 1]), rest[|rest| - 1])
  }

  function FirstLeaf(layers: seq<Value>, path: Path): Option<string> {
    if layers == [] then None
    else if FirstLeaf(layers[..|layers| - 1], path).Some? then FirstLeaf(layers[..|layers| - 1], path)
    else LeafAt(layers[|layers| - 1], path)
  }

  ghost predicate AllCompatible(layers: seq<Value>) {
    forall i, j | 0 <= i < j < |layers| :: Compatible(layers[i], layers[j])
  }

  // ---- what a layer hides ----

  predicate HasLeaf(v: Value) {
    v.Leaf? || exists k | k in v.entries :: HasLeaf(v.entries[k])
  }

  /** Somewhere a value of `a` covers a table of `b` that is not empty, or a table of `a` covers a value of `b`. */
  predicate Hides(a: Value, b: Value)
    decreases a
  {
    if a.Leaf? then b.Dict? && HasLeaf(b)
    else b.Leaf? || exists k | k in a.entries && k in b.entries :: Hides(a.entries[k], b.entries[k])
  }

  lemma {:induction false} LeafSomewhere(v: Value) returns (path: Path)
    requires HasLeaf(v)
    ensures LeafAt(v, path).Some? && (v.Dict? ==> path != [])
  {
    path := [];
    if v.Dict? {
      var k :| k in v.entries && HasLeaf(v.entries[k]);
      path := LeafSomewhere(v.entries[k]);
      path := [k] + path;
    }
  }

  lemma {:induction false} LeafIsSomewhere(v: Value, path: Path)
    requires LeafAt(v, path).Some?
    ensures HasLeaf(v)
    decreases path
  {
    if path != [] {
      LeafIsSomewhere(v.entries[path[0]], path[1..]);
    }
  }

  /** The leaf of `b` at this path is hidden: `a` has a say about the path, and no leaf there. */
  ghost predicate HiddenAt(a: Value, b: Value, path: Path) {
    Speaks(a, path) && LeafAt(a, path).None? && LeafAt(b, path).Some?
  }

  lemma {:induction false} HiddenSomewhere(a: Value, b: Value) returns (path: Path)
    requires Hides(a, b)
    ensures HiddenAt(a, b, path)
    decreases a
  {
    if a.Leaf? {
      path := LeafSomewhere(b);
    } else if b.Leaf? {
      path := [];
    } else {
      var k :| k in a.entries && k in b.entries && Hides(a.entries[k], b.entries[k]);
      path := HiddenSomewhere(a.entries[k], b.entries[k]);
      path := [k] + path;
    }
  }

  lemma {:induction false} HiddenOnlyIfHides(a: Value, b: Value, path: Path)
    requires HiddenAt(a, b, path)
    ensures Hides(a, b)
    decreases path
  {
    if a.Leaf? {
      LeafIsSomewhere(b, path);
    } else if path != [] && b.Dict? {
      HiddenOnlyIfHides(a.entries[path[0]], b.entries[path[0]], path[1..]);
    }
  }

  lemma {:induction false} CompatibleHideNothing(a: Value, b: Value)
    requires Compatible(a, b)
    ensures !Hides(a, b)
    decreases a
  {
    if a.Dict? {
      forall k | k in a.entries && k in b.entries
        ensures !Hides(a.entries[k], b.entries[k])
      {
        CompatibleHideNothing(a.entries[k], b.entries[k]);
      }
    }
  }

  /** No layer has a leaf that is hidden by what the layers before it add up to. */
  predicate NothingHidden(first: Value, rest: seq<Value>) {
    rest != [] ==>
      NothingHidden(first, rest[..|rest| - 1]) && !Hides(JoinAll(first, rest[..|rest| - 1]), rest[|rest| - 1])
  }

  /** Every leaf, at any depth, comes from the first layer that has it. */
  ghost predicate FirstLeafEverywhere(first: Value, rest: seq<Value>) {
    forall path :: LeafAt(JoinAll(first, rest), path) == FirstLeaf([first] + rest, path)
  }

  lemma FirstLeafNext(first: Value, init: seq<Value>, last: Value, path: Path)
    ensures FirstLeaf([first] + (init + [last]), path)
            == if FirstLeaf([first] + init, path).Some? then FirstLeaf([first] + init, path) else LeafAt(last, path)
    ensures JoinAll(first, init + [last]) == Join(JoinAll(first, init), last)
  {
    var layers := [first] + (init + [last]);
    assert layers[..|layers| - 1] == [first] + init && layers[|layers| - 1] == last;
    assert (init + [last])[..|init|] == init;
  }

  lemma {:induction false} FirstLeafCons(a: Value, rest: seq<Value>, path: Path)
    ensures FirstLeaf([a] + rest, path) == if LeafAt(a, path).Some? then LeafAt(a, path) else FirstLeaf(rest, path)
  {
    var all := [a] + rest;
    if rest == [] {
      assert all[..0] == [];
    } else {
      assert all[..|all| - 1] == [a] + rest[..|rest| - 1];
      FirstLeafCons(a, rest[..|rest| - 1], path);
    }
  }

  /** A leaf that is read is one that some layer has. */
  lemma {:induction false} ReadFromALayer(first: Value, rest: seq<Value>, path: Path)
    requires LeafAt(JoinAll(first, rest), path).Some?
    ensures FirstLeaf([first] + rest, path).Some?
  {
    if rest == [] {
      assert [first][..0] == [] && [first][0] == first;
    } else {
      var init, last := rest[..|rest| - 1], rest[|rest| - 1];
      assert rest == init + [last];
      FirstLeafNext(first, init, last, path);
      JoinLeaf(JoinAll(first, init), last, path);
      if LeafAt(JoinAll(first, init), path).Some? {
        ReadFromALayer(first, init, path);
      }
    }
  }

  /** Once some layers miss the first leaf at a path, laying another one under them does not bring it back. */
  lemma MissedForGood(first: Value, init: seq<Value>, last: Value, path: Path)
    requires LeafAt(JoinAll(first, init), path) != FirstLeaf([first] + init, path)
    requires FirstLeaf([first] + init, path).Some? ==> Speaks(JoinAll(first, init), path)
    ensures LeafAt(JoinAll(first, init + [last]), path) != FirstLeaf([first] + (init + [last]), path)
  {
    FirstLeafNext(first, init, last, path);
    JoinLeaf(JoinAll(first, init), last, path);
    if LeafAt(JoinAll(first, init), path).Some? {
      ReadFromALayer(first, init, path);
    }
  }

  /** Whatever a layer has a leaf at, the layers together have a say about. */
  lemma {:induction false} SaidIsSpoken(first: Value, rest: seq<Value>, path: Path)
    requires FirstLeaf([first] + rest, path).Some?
    ensures Speaks(JoinAll(first, rest), path)
  {
    if rest == [] {
      assert [first][..0] == [] && [first][0] == first;
    } else {
      var init, last := rest[..|rest| - 1], rest[|rest| - 1];
      assert rest == init + [last];
      FirstLeafNext(first, init, last, path);
      JoinLeaf(JoinAll(first, init), last, path);
      if FirstLeaf([first] + init, path).Some? {
        SaidIsSpoken(first, init, path);
      }
    }
  }

  lemma LastLayerIff(first: Value, init: seq<Value>, last: Value)
    requires FirstLeafEverywhere(first, init)
    ensures FirstLeafEverywhere(first, init + [last]) <==> !Hides(JoinAll(first, init), last)
  {
    var joined := JoinAll(first, init);
    forall path
      ensures LeafAt(JoinAll(first, init + [last]), path) == FirstLeaf([first] + (init + [last]), path)
              <==> !HiddenAt(joined, last, path)
    {
      FirstLeafNext(first, init, last, path);
      JoinLeaf(joined, last, path);
    }
    if Hides(joined, last) {
      var path := HiddenSomewhere(joined, last);
    } else {
      forall path
        ensures !HiddenAt(joined, last, path)
      {
        if HiddenAt(joined, last, path) {
          HiddenOnlyIfHides(joined, last, path);
        }
      }
    }
  }

  /** For any layers at all: every leaf comes from the first layer that has it, exactly when nothing is hidden. */
  lemma {:induction false} FirstLayerWinsIff(first: Value, rest: seq<Value>)
    ensures FirstLeafEverywhere(first, rest) <==> NothingHidden(first, rest)
  {
    if rest == [] {
      forall path
        ensures LeafAt(JoinAll(first, rest), path) == FirstLeaf([first] + rest, path)
      {
        FirstLeafCons(first, rest, path);
      }
    } else {
      var init, last := rest[..|rest| - 1], rest[|rest| - 1];
      assert rest == init + [last];
      FirstLayerWinsIff(first, init);
      if FirstLeafEverywhere(first, init) {
        LastLayerIff(first, init, last);
      } else {
        var path :| LeafAt(JoinAll(first, init), path) != FirstLeaf([first] + init, path);
        if FirstLeaf([first] + init, path).Some? {
          SaidIsSpoken(first, init, path);
        }
        MissedForGood(first, init, last, path);
      }
    }
  }

  lemma LastCompatible(first: Value, rest: seq<Value>)
    requires rest != [] && AllCompatible([first] + rest)
    ensures Compatible(first, rest[|rest| - 1])
    ensures forall i | 0 <= i < |rest| - 1 :: Compatible(rest[i], rest[|rest| - 1])
    ensures AllCompatible([first] + rest[..|rest| - 1])
  {
    var layers := [first] + rest;
    assert Compatible(layers[0], layers[|rest|]);
    forall i | 0 <= i < |rest| - 1
      ensures Compatible(rest[i], rest[|rest| - 1])
    {
      assert Compatible(layers[i + 1], layers[|rest|]);
    }
    var shorter := [first] + rest[..|rest| - 1];
    forall i, j | 0 <= i < j < |shorter|
      ensures Compatible(shorter[i], shorter[j])
    {
      assert Compatible(layers[i], layers[j]);
    }
  }

  lemma {:induction false} JoinAllCompatible(first: Value, rest: seq<Value>, c: Value)
    requires AllCompatible([first] + rest) && Compatible(first, c) && forall i | 0 <= i < |rest| :: Compatible(rest[i], c)
    ensures Compatible(JoinAll(first, rest), c)
  {
    if rest != [] {
      var init, last := rest[..|rest| - 1], rest[|rest| - 1];
      LastCompatible(first, rest);
      JoinAllCompatible(first, init, c);
      JoinAllCompatible(first, init, last);
      JoinCompatible(JoinAll(first, init), last, c);
    }
  }

  /** Layers that agree on what is a table hide nothing from each other. */
  lemma {:induction false} FirstLayerWins(first: Value, rest: seq<Value>)
    requires AllCompatible([first] + rest)
    ensures NothingHidden(first, rest) && FirstLeafEverywhere(first, rest)
  {
    if rest != [] {
      var init, last := rest[..|rest| - 1], rest[|rest| - 1];
      LastCompatible(first, rest);
      FirstLayerWins(first, init);
      JoinAllCompatible(first, init, last);
      CompatibleHideNothing(JoinAll(first, init), last);
    }
    FirstLayerWinsIff(first, rest);
  }

  /** Where shapes clash, the order of joining matters: joining is not associative. */
  lemma JoinNotAssociative()
    ensures exists a, b, c :: Join(Join(a, b), c) != Join(a, Join(b, c))
  {
    var a, b, c := Dict(map[]), Leaf("5"), Dict(map["y" := Leaf("2")]);
    var left, right := Join(Join(a, b), c), Join(a, Join(b, c));
    assert "y" in left.entries && "y" !in right.entries;
  }

  // ---- a plugin's section ----

  /** `EnvFallback`: a conventional variable that stands in for one key of the section. */
  datatype Fallback = Fallback(variable: string, key: string)

  /** What an application reads at start-up; `parse` is figment's reading of one variable's text. */
  datatype Sources = Sources(file: Value, env: Value, variables: map<string, string>, parse: string -> Value)

  /** `load_figment_from`: the environment over the file. */
  function Loaded(s: Sources): Value {
    Merge(s.file, s.env)
  }

  /** `FallbackValue::read` and its one-key tree; an unset or empty variable is skipped. */
  function Layer(s: Sources, section: string, f: Fallback): Option<Value> {
    if f.variable in s.variables && s.variables[f.variable] != "" then
      Some(Dict(map[section := Dict(map[f.key := s.parse(s.variables[f.variable])])]))
    else None
  }

  /** The `filter_map` over the fallbacks. */
  function Layers(s: Sources, section: string, fs: seq<Fallback>): seq<Value> {
    if fs == [] then []
    else
      Layers(s, section, fs[..|fs| - 1])
      + (match Layer(s, section, fs[|fs| - 1]) case Some(v) => [v] case None => [])
  }

  function WithFallbacks(s: Sources, section: string, fs: seq<Fallback>): Value {
    JoinAll(Loaded(s), Layers(s, section, fs))
  }

  /** `find_value`: down the dotted path, stopping at an empty segment. */
  function Find(v: Value, keys: Path): Option<Value> {
    if keys == [] || keys[0] == "" then Some(v)
    else if v.Dict? && keys[0] in v.entries then Find(v.entries[keys[0]], keys[1..])
    else None
  }

  /** `Sections::get_or_env`: the tree the plugin's type is read from; `None` is the type's default. */
  function GetOrEnv(s: Sources, prefix: string, fs: seq<Fallback>): Option<Value> {
    if prefix == "" then None
    else if Layers(s, prefix, fs) == [] then Find(Loaded(s), Split(prefix, '.'))
    else Find(WithFallbacks(s, prefix, fs), Split(prefix, '.'))
  }

  /** The first fallback for `key` whose variable is set, if it is not itself a table. */
  function FallbackLeaf(s: Sources, key: string, fs: seq<Fallback>): Option<string> {
    match FallbackFor(s, key, fs)
    case Some(Leaf(text)) => Some(text)
    case _ => None
  }

  function FallbackFor(s: Sources, key: string, fs: seq<Fallback>): Option<Value> {
    if fs == [] then None
    else
      var f := fs[|fs| - 1];
      var earlier := FallbackFor(s, key, fs[..|fs| - 1]);
      if earlier.Some? then earlier
      else if f.key == key && f.variable in s.variables && s.variables[f.variable] != "" then Some(s.parse(s.variables[f.variable]))
      else None
  }

  lemma TwoLevels(v: Value, section: string, k: string)
    ensures Speaks(v, [section, k])
            <==> v.Leaf? || (section in v.entries && (v.entries[section].Leaf? || k in v.entries[section].entries))
    ensures LeafAt(v, [section, k])
            == if v.Dict? && section in v.entries && v.entries[section].Dict? && k in v.entries[section].entries
                  && v.entries[section].entries[k].Leaf?
               then Some(v.entries[section].entries[k].text) else None
  {
    assert [section, k][1..] == [k] && [k][1..] == [];
    if v.Dict? && section in v.entries {
      var inner := v.entries[section];
      assert LeafAt(v, [section, k]) == LeafAt(inner, [k]);
      assert Speaks(v, [section, k]) == Speaks(inner, [k]);
      if inner.Dict? && k in inner.entries {
        assert Speaks(inner, [k]) == Speaks(inner.entries[k], []);
        assert LeafAt(inner, [k]) == LeafAt(inner.entries[k], []);
      }
    }
  }

  lemma JoinOneKey(a: Value, section: string, key: string, value: Value, k: string)
    ensures var layer := Dict(map[section := Dict(map[key := value])]);
            && (Speaks(Join(a, layer), [section, k]) <==> Speaks(a, [section, k]) || key == k)
            && LeafAt(Join(a, layer), [section, k])
               == if Speaks(a, [section, k]) then LeafAt(a, [section, k])
                  else if key == k && value.Leaf? then Some(value.text) else None
  {
    var layer := Dict(map[section := Dict(map[key := value])]);
    JoinLeaf(a, layer, [section, k]);
    TwoLevels(a, section, k);
    TwoLevels(layer, section, k);
    TwoLevels(Join(a, layer), section, k);
  }

  /** Whatever the trees look like: a key the configuration is silent about gets its first fallback. */
  lemma {:induction false} FallbackFills(s: Sources, section: string, fs: seq<Fallback>, key: string)
    ensures var whole, path := WithFallbacks(s, section, fs), [section, key];
            && (Speaks(whole, path) <==> Speaks(Loaded(s), path) || FallbackFor(s, key, fs).Some?)
            && LeafAt(whole, path)
               == if Speaks(Loaded(s), path) then LeafAt(Loaded(s), path) else FallbackLeaf(s, key, fs)
  {
    if fs != [] {
      var init, f := fs[..|fs| - 1], fs[|fs| - 1];
      FallbackFills(s, section, init, key);
      var layers := Layers(s, section, init);
      if Layer(s, section, f).Some? {
        var v := Layer(s, section, f).value;
        assert (layers + [v])[..|layers + [v]| - 1] == layers;
        JoinOneKey(WithFallbacks(s, section, init), section, f.key, s.parse(s.variables[f.variable]), key);
      } else {
        assert Layers(s, section, fs) == layers;
      }
    }
  }

  /** The leaf that a plugin reads at a path inside its section. */
  function Reads(s: Sources, prefix: string, fs: seq<Fallback>, rest: Path): Option<string> {
    match GetOrEnv(s, prefix, fs)
    case Some(view) => LeafAt(view, rest)
    case None => None
  }

  lemma UndottedFind(v: Value, prefix: string)
    requires prefix != "" && '.' !in prefix
    ensures Find(v, Split(prefix, '.')) == if v.Dict? && prefix in v.entries then Some(v.entries[prefix]) else None
  {
    IndexOfUnique(prefix, '.', |prefix|);
    assert Split(prefix, '.') == [prefix] && [prefix][1..] == [];
  }

  /** A section's name, with no empty part between its dots. */
  predicate SectionName(prefix: string) {
    prefix != "" && forall i | 0 <= i < |Split(prefix, '.')| :: Split(prefix, '.')[i] != ""
  }

  lemma UndottedName(prefix: string)
    requires prefix != "" && '.' !in prefix
    ensures Split(prefix, '.') == [prefix] && SectionName(prefix)
  {
    IndexOfUnique(prefix, '.', |prefix|);
  }

  lemma {:induction false} FoundLeaf(v: Value, keys: Path, rest: Path)
    requires forall i | 0 <= i < |keys| :: keys[i] != ""
    ensures (match Find(v, keys) case Some(w) => LeafAt(w, rest) case None => None) == LeafAt(v, keys + rest)
  {
    if keys == [] {
      assert keys + rest == rest;
    } else {
      assert (keys + rest)[1..] == keys[1..] + rest;
      if v.Dict? && keys[0] in v.entries {
        FoundLeaf(v.entries[keys[0]], keys[1..], rest);
      }
    }
  }

  /** The section is what lies below its dotted name. */
  lemma ReadsSection(s: Sources, prefix: string, fs: seq<Fallback>, rest: Path)
    requires SectionName(prefix)
    ensures Reads(s, prefix, fs, rest) == LeafAt(WithFallbacks(s, prefix, fs), Split(prefix, '.') + rest)
  {
    FoundLeaf(WithFallbacks(s, prefix, fs), Split(prefix, '.'), rest);
  }

  /** A plugin without a section gets its defaults, whatever is configured. */
  lemma NoSectionReadsNothing(s: Sources, fs: seq<Fallback>, rest: Path)
    ensures GetOrEnv(s, "", fs) == None && Reads(s, "", fs, rest) == None
  {
  }

  /** The whole configuration is one fold, from the environment down. */
  lemma {:induction false} OneFold(file: Value, env: Value, layers: seq<Value>)
    ensures JoinAll(Merge(file, env), layers) == JoinAll(env, [file] + layers)
  {
    MergeIsJoin(file, env);
    if layers == [] {
      assert [file][..0] == [] && [file] + [] == [file];
    } else {
      var all := [file] + layers;
      assert all[..|all| - 1] == [file] + layers[..|layers| - 1];
      OneFold(file, env, layers[..|layers| - 1]);
    }
  }

  /**
   Unless something is hidden, as it never is without clashes, every leaf of a plugin's section,
   at any depth, is the environment's, else the file's, else that of the first fallback that has it.
   */
  lemma ThreeTiers(s: Sources, prefix: string, fs: seq<Fallback>, rest: Path)
    requires SectionName(prefix)
    requires NothingHidden(s.env, [s.file] + Layers(s, prefix, fs))
    ensures var path := Split(prefix, '.') + rest;
            Reads(s, prefix, fs, rest)
            == if LeafAt(s.env, path).Some? then LeafAt(s.env, path)
               else if LeafAt(s.file, path).Some? then LeafAt(s.file, path)
               else FirstLeaf(Layers(s, prefix, fs), path)
  {
    var layers := Layers(s, prefix, fs);
    var path := Split(prefix, '.') + rest;
    ReadsSection(s, prefix, fs, rest);
    OneFold(s.file, s.env, layers);
    FirstLayerWinsIff(s.env, [s.file] + layers);
    FirstLeafCons(s.env, [s.file] + layers, path);
    FirstLeafCons(s.file, layers, path);
  }

  /** Under one key of the section it takes just an environment and a file without clashes, whatever the fallbacks. */
  lemma ThreeTiersOfKey(s: Sources, prefix: string, fs: seq<Fallback>, key: string)
    requires prefix != "" && '.' !in prefix && Compatible(s.env, s.file)
    ensures var path := [prefix, key];
            Reads(s, prefix, fs, [key])
            == if LeafAt(s.env, path).Some? then LeafAt(s.env, path)
               else if LeafAt(s.file, path).Some? then LeafAt(s.file, path)
               else if Speaks(s.env, path) || Speaks(s.file, path) then None
               else FallbackLeaf(s, key, fs)
  {
    var path := [prefix, key];
    UndottedName(prefix);
    ReadsSection(s, prefix, fs, [key]);
    assert [prefix] + [key] == path;
    FallbackFills(s, prefix, fs, key);
    MergeIsJoin(s.file, s.env);
    JoinLeaf(s.env, s.file, path);
    CompatibleSpeaks(s.env, s.file, path);
  }

  /** The environment's leaf if it has one at this path, else the file's. */
  predicate EnvElseFile(s: Sources, path: Path) {
    LeafAt(Loaded(s), path) == if LeafAt(s.env, path).Some? then LeafAt(s.env, path) else LeafAt(s.file, path)
  }

  /** The file's leaves are read wherever the environment has none, exactly when the environment hides nothing of the file. */
  lemma FileIsReadIff(s: Sources)
    ensures (forall path :: EnvElseFile(s, path)) <==> !Hides(s.env, s.file)
  {
    assert [s.file][..0] == [] && JoinAll(s.env, [s.file][..0]) == s.env;
    MergeIsJoin(s.file, s.env);
    forall path
      ensures EnvElseFile(s, path) <==> LeafAt(JoinAll(s.env, [s.file]), path) == FirstLeaf([s.env] + [s.file], path)
    {
      FirstLeafCons(s.env, [s.file], path);
    }
    FirstLayerWinsIff(s.env, [s.file]);
  }

  /** A clash: a scalar in the environment hides the file's whole section. */
  lemma ClashHidesFile(parse: string -> Value)
    ensures var s := Sources(Dict(map["db" := Dict(map["url" := Leaf("file")])]), Dict(map["db" := Leaf("1")]), map[], parse);
            LeafAt(s.env, ["db", "url"]).None? && LeafAt(s.file, ["db", "url"]) == Some("file")
            && LeafAt(Loaded(s), ["db", "url"]).None?
  {
    var s := Sources(Dict(map["db" := Dict(map["url" := Leaf("file")])]), Dict(map["db" := Leaf("1")]), map[], parse);
    TwoLevels(s.env, "db", "url");
    TwoLevels(s.file, "db", "url");
    TwoLevels(Loaded(s), "db", "url");
  }

  /** The loaded configuration decides: no fallback changes a leaf it has, at any depth, nor another section. */
  lemma {:induction false} FallbacksOnlyAdd(s: Sources, section: string, fs: seq<Fallback>, path: Path, other: string)
    ensures Speaks(Loaded(s), path) ==>
              Speaks(WithFallbacks(s, section, fs), path) && LeafAt(WithFallbacks(s, section, fs), path) == LeafAt(Loaded(s), path)
    ensures Loaded(s).Dict? && other != section ==>
              var whole := WithFallbacks(s, section, fs);
              whole.Dict? && (other in whole.entries <==> other in Loaded(s).entries)
              && (other in whole.entries ==> whole.entries[other] == Loaded(s).entries[other])
  {
    if fs != [] {
      var init, f := fs[..|fs| - 1], fs[|fs| - 1];
      FallbacksOnlyAdd(s, section, init, path, other);
      var layers := Layers(s, section, init);
      if Layer(s, section, f).Some? {
        var v := Layer(s, section, f).value;
        assert (layers + [v])[..|layers + [v]| - 1] == layers;
        JoinLeaf(WithFallbacks(s, section, init), v, path);
      } else {
        assert Layers(s, section, fs) == layers;
      }
    }
  }

  /** The fallbacks of a section with a dotted name sit under a key that is never looked up. */
  lemma DottedIgnoresFallbacks(s: Sources, prefix: string, fs: seq<Fallback>)
    requires prefix != "" && prefix[0] != '.' && '.' in prefix && Loaded(s).Dict?
    ensures GetOrEnv(s, prefix, fs) == GetOrEnv(s, prefix, [])
  {
    var i := IndexOf(prefix, '.');
    assert i > 0 && i < |prefix|;
    var first := prefix[..i];
    FallbacksOnlyAdd(s, prefix, fs, [], first);
    assert Split(prefix, '.')[0] == first && first != prefix;
  }

  lemma UndottedFallbackShows(prefix: string, parse: string -> Value)
    requires prefix != "" && '.' !in prefix
    ensures var s := Sources(Dict(map[]), Dict(map[]), map["V" := "v"], parse);
            Loaded(s) == Dict(map[]) && GetOrEnv(s, prefix, [Fallback("V", "k")]) != GetOrEnv(s, prefix, [])
  {
    var s := Sources(Dict(map[]), Dict(map[]), map["V" := "v"], parse);
    var fs := [Fallback("V", "k")];
    var layer := Dict(map[prefix := Dict(map["k" := parse("v")])]);
    assert fs[..0] == [];
    assert Layers(s, prefix, []) == [] && Layers(s, prefix, fs) == [layer];
    assert JoinAll(Loaded(s), [layer][..0]) == Loaded(s);
    UndottedFind(Loaded(s), prefix);
    UndottedFind(WithFallbacks(s, prefix, fs), prefix);
  }

  /** So fallbacks are without effect, whatever the sources, exactly for dotted section names. */
  lemma FallbacksReachIffUndotted(prefix: string)
    requires prefix != "" && prefix[0] != '.'
    ensures (forall s: Sources, fs: seq<Fallback> | Loaded(s).Dict? :: GetOrEnv(s, prefix, fs) == GetOrEnv(s, prefix, []))
            <==> '.' in prefix
  {
    if '.' in prefix {
      forall s: Sources, fs: seq<Fallback> | Loaded(s).Dict?
        ensures GetOrEnv(s, prefix, fs) == GetOrEnv(s, prefix, [])
      {
        DottedIgnoresFallbacks(s, prefix, fs);
      }
    } else {
      var parse := (text: string) => Leaf(text);
      UndottedFallbackShows(prefix, parse);
      var s := Sources(Dict(map[]), Dict(map[]), map["V" := "v"], parse);
      assert Loaded(s).Dict? && GetOrEnv(s, prefix, [Fallback("V", "k")]) != GetOrEnv(s, prefix, []);
    }
  }
}
