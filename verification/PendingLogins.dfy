/** The sign-ins in progress that a session remembers, by state token. */
module PendingLogins {
  import opened Options

  const MAX_PENDING: nat := 4
  const PENDING_TTL_SECS: nat := 600

  datatype PendingLogin = PendingLogin(
    provider: string, state: string, pkceVerifier: Option<string>, nonce: Option<string>,
    next: string, link: bool, createdAt: nat)

  type PendingMap = map<string, PendingLogin>

  datatype Outcome<+T> = Ok(value: T) | Err

  /** `now.saturating_sub(created_at)`: a clock that went back makes an attempt new, not old. */
  function Age(now: nat, createdAt: nat): nat {
    if now >= createdAt then now - createdAt else 0
  }

  predicate Fresh(attempt: PendingLogin, now: nat) {
    Age(now, attempt.createdAt) < PENDING_TTL_SECS
  }

  /** That is, until ten minutes after it was created, and never before that. */
  lemma FreshUntil(attempt: PendingLogin, now: nat)
    ensures Fresh(attempt, now) <==> now < attempt.createdAt + 600
  {
  }

  function Retained(m: PendingMap, now: nat): PendingMap {
    map k | k in m && Fresh(m[k], now) :: m[k]
  }

  function Entries(pending: Option<PendingMap>): PendingMap {
    if pending.Some? then pending.value else map[]
  }

  predicate IsOldest(m: PendingMap, k: string) {
    k in m && forall j | j in m :: m[k].createdAt <= m[j].createdAt
  }

  lemma OldestExists(m: PendingMap, keys: set<string>) returns (k: string)
    requires keys != {} && keys <= m.Keys
    ensures k in keys && forall j | j in keys :: m[k].createdAt <= m[j].createdAt
  {
    k :| k in keys;
    if keys != {k} {
      var rest := keys - {k};
      assert keys == rest + {k};
      var j := OldestExists(m, rest);
      if m[j].createdAt < m[k].createdAt {
        k := j;
      }
    }
  }

  /**
   What `remember` may leave: the fresh attempts, minus just enough of the oldest to make
   room, plus the new one. Which of equally old attempts go is up to the map's order.
   */
  ghost predicate Remembered(m: PendingMap, p: PendingLogin, now: nat, evicted: set<string>, after: PendingMap) {
    var kept := Retained(m, now);
    && evicted <= kept.Keys
    && |evicted| == (if |kept| >= MAX_PENDING then |kept| - (MAX_PENDING - 1) else 0)
    && (forall a, b | a in evicted && b in kept && b !in evicted :: kept[a].createdAt <= kept[b].createdAt)
    && after == (kept - evicted)[p.state := p]
  }

  /** What `take` finds. */
  function Taken(pending: Option<PendingMap>, state: string, now: nat): Option<PendingLogin> {
    if state in Entries(pending) && Fresh(Entries(pending)[state], now) then Some(Entries(pending)[state]) else None
  }

  /** What `take` leaves: the attempt is gone even when it was too old. */
  function AfterTake(pending: Option<PendingMap>, state: string): Option<PendingMap> {
    var rest := Entries(pending) - {state};
    if pending.None? || rest == map[] then None else Some(rest)
  }

  /** Halfway through the eviction: `m` is what is left of `kept`, and no younger than what is gone. */
  ghost predicate Evicting(kept: PendingMap, evicted: set<string>, m: PendingMap) {
    && evicted <= kept.Keys && m == kept - evicted && |m| + |evicted| == |kept|
    && (evicted == {} || |m| >= MAX_PENDING - 1)
    && (forall a, b | a in evicted && b in m :: kept[a].createdAt <= kept[b].createdAt)
  }

  lemma EvictOne(kept: PendingMap, evicted: set<string>, m: PendingMap, k: string)
    requires Evicting(kept, evicted, m) && |m| >= MAX_PENDING && IsOldest(m, k)
    ensures Evicting(kept, evicted + {k}, m - {k}) && |m - {k}| == |m| - 1
  {
    assert (m - {k}).Keys == m.Keys - {k};
    assert |m| == |m.Keys| && |m - {k}| == |(m - {k}).Keys|;
    assert m - {k} == kept - (evicted + {k});
  }

  lemma EvictedEnough(m: PendingMap, p: PendingLogin, now: nat, evicted: set<string>, rest: PendingMap)
    requires Evicting(Retained(m, now), evicted, rest) && |rest| < MAX_PENDING
    ensures Remembered(m, p, now, evicted, rest[p.state := p])
  {
    assert evicted == {} ==> |evicted| == 0;
    assert evicted != {} ==> |evicted| > 0;
  }

  class Session {
    /** The value under the session's pending key, if there is one. */
    var pending: Option<PendingMap>

    constructor ()
      ensures pending == None
    {
      pending := None;
    }

    /** `readable` and `writable` say whether the session store answers. */
    method Remember(p: PendingLogin, now: nat, readable: bool, writable: bool) returns (ok: bool, ghost evicted: set<string>)
      modifies this
      ensures ok <==> readable && writable
      ensures ok ==> pending.Some? && Remembered(Entries(old(pending)), p, now, evicted, pending.value)
      ensures !ok ==> pending == old(pending)
    {
      evicted := {};
      if !readable {
        return false, evicted;
      }
      var m := Retained(Entries(pending), now);
      ghost var kept := m;
      while |m| >= MAX_PENDING
        invariant pending == old(pending)
        invariant Evicting(kept, evicted, m)
        decreases |m|
      {
        var oldest := OldestKey(m);
        if oldest.None? {
          assert false; // the map is not empty, so it has an oldest entry
          break;
        }
        EvictOne(kept, evicted, m, oldest.value);
        evicted := evicted + {oldest.value};
        m := m - {oldest.value};
      }
      EvictedEnough(Entries(pending), p, now, evicted, m);
      m := m[p.state := p];
      if !writable {
        return false, evicted;
      }
      pending := Some(m);
      ok := true;
    }

    method Take(state: string, now: nat, readable: bool, writable: bool) returns (r: Outcome<Option<PendingLogin>>)
      modifies this
      ensures r.Ok? <==> readable && (old(pending).None? || writable)
      ensures r.Ok? ==> r.value == Taken(old(pending), state, now) && pending == AfterTake(old(pending), state)
      ensures r.Err? ==> pending == old(pending)
    {
      if !readable {
        return Err;
      }
      if pending.None? {
        return Ok(None);
      }
      var m := pending.value;
      var found := if state in m then Some(m[state]) else None;
      m := m - {state};
      if !writable {
        return Err;
      }
      pending := if m == map[] then None else Some(m);
      r := Ok(if found.Some? && Fresh(found.value, now) then found else None);
    }
  }

  /** `min_by_key(created_at)`; the tie-break is left open. */
  method OldestKey(m: PendingMap) returns (r: Option<string>)
    ensures r.None? <==> m == map[]
    ensures r.Some? ==> IsOldest(m, r.value)
  {
    if m == map[] {
      return None;
    }
    assert exists k :: IsOldest(m, k) by {
      assert m.Keys != {};
      var k := OldestExists(m, m.Keys);
      assert IsOldest(m, k);
    }
    var k :| k in m && IsOldest(m, k);
    r := Some(k);
  }

  // ---- runs of one session ----

  /** `Clear` is the session being flushed; `Other` is anything that leaves the attempts alone. */
  datatype Op =
    | Remember(p: PendingLogin, now: nat)
    | Take(state: string, now: nat, got: Option<PendingLogin>)
    | Clear(now: nat)
    | Other(now: nat)

  ghost predicate Step(s: Option<PendingMap>, op: Op, t: Option<PendingMap>) {
    match op
    case Remember(p, now) => t.Some? && exists evicted :: Remembered(Entries(s), p, now, evicted, t.value)
    case Take(state, now, got) => got == Taken(s, state, now) && t == AfterTake(s, state)
    case Clear(_) => t == None
    case Other(_) => t == s
  }

  /** `states[i]` is what the session held before `ops[i]`. */
  ghost predicate Execution(ops: seq<Op>, states: seq<Option<PendingMap>>) {
    && |states| == |ops| + 1 && states[0] == None
    && forall i | 0 <= i < |ops| :: Step(states[i], ops[i], states[i + 1])
  }

  /** At most four attempts, each under its own state token, and never an empty map. */
  ghost predicate WellKept(s: Option<PendingMap>) {
    s.Some? ==> 1 <= |s.value| <= 4 && forall k | k in s.value :: s.value[k].state == k
  }

  lemma RememberSize(m: PendingMap, p: PendingLogin, now: nat, evicted: set<string>, after: PendingMap)
    requires Remembered(m, p, now, evicted, after)
    ensures after.Keys == (Retained(m, now).Keys - evicted) + {p.state}
    ensures |Retained(m, now).Keys - evicted| == |Retained(m, now)| - |evicted|
    ensures 1 <= |after| <= MAX_PENDING
  {
    var kept := Retained(m, now);
    assert (kept - evicted).Keys == kept.Keys - evicted;
    assert |kept| == |kept.Keys| && |after| == |after.Keys|;
  }

  /** Evicting anything leaves three others, whether or not the newcomer replaces one of them. */
  lemma RoomAfterEviction(m: PendingMap, p: PendingLogin, now: nat, evicted: set<string>, after: PendingMap)
    requires Remembered(m, p, now, evicted, after) && evicted != {}
    ensures |after| >= 3 && (p.state !in m ==> |after| == 4)
  {
    RememberSize(m, p, now, evicted, after);
    var others := Retained(m, now).Keys - evicted;
    KeysSubset(others, after.Keys);
    assert |evicted| > 0 && |others| == 3 && |after| == |after.Keys|;
    assert p.state !in m ==> p.state !in others;
  }

  /**
   The newcomer is in, whatever is too old is out, and a fresh attempt only gives way to
   three others that are no older than it.
   */
  lemma RememberKeepsFresh(m: PendingMap, p: PendingLogin, now: nat, evicted: set<string>, after: PendingMap)
    requires Remembered(m, p, now, evicted, after)
    ensures p.state in after && after[p.state] == p
    ensures forall k | k in after && k != p.state :: k in m && after[k] == m[k] && now < m[k].createdAt + 600
    ensures forall k | k in m && k != p.state && now < m[k].createdAt + 600 && k !in after ::
              |after| >= 3 && (p.state !in m ==> |after| == 4) && forall j | j in after && j != p.state :: m[k].createdAt <= m[j].createdAt
  {
    var kept := Retained(m, now);
    if evicted != {} {
      RoomAfterEviction(m, p, now, evicted, after);
    }
    forall k | k in m && k != p.state && now < m[k].createdAt + 600 && k !in after
      ensures k in evicted
    {
      assert k in kept;
    }
  }

  lemma TakeSize(m: PendingMap, state: string)
    ensures |m - {state}| <= |m| && (m - {state} == map[] || |m - {state}| >= 1)
  {
    var rest := m - {state};
    assert |rest| == |rest.Keys| && |m| == |m.Keys|;
    KeysSubset(rest.Keys, m.Keys);
    assert rest != map[] ==> rest.Keys != {};
  }

  lemma RememberKeepsWell(m: PendingMap, p: PendingLogin, now: nat, evicted: set<string>, after: PendingMap)
    requires (forall k | k in m :: m[k].state == k) && Remembered(m, p, now, evicted, after)
    ensures WellKept(Some(after))
  {
    RememberSize(m, p, now, evicted, after);
  }

  lemma StepKeepsWell(s: Option<PendingMap>, op: Op, t: Option<PendingMap>)
    requires WellKept(s) && Step(s, op, t)
    ensures WellKept(t)
  {
    match op
    case Remember(p, now) =>
      var evicted :| Remembered(Entries(s), p, now, evicted, t.value);
      RememberKeepsWell(Entries(s), p, now, evicted, t.value);
    case Take(state, now, got) =>
      if t.Some? {
        TakeSize(s.value, state);
      }
    case _ =>
  }

  lemma {:induction false} KeysSubset(a: set<string>, b: set<string>)
    requires a <= b
    ensures |a| <= |b|
  {
    assert b == a + (b - a);
  }

  lemma {:induction false} AlwaysWellKept(ops: seq<Op>, states: seq<Option<PendingMap>>, n: nat)
    requires Execution(ops, states) && n < |states|
    ensures WellKept(states[n])
  {
    if n > 0 {
      AlwaysWellKept(ops, states, n - 1);
      StepKeepsWell(states[n - 1], ops[n - 1], states[n]);
    }
  }

  /** `ops[i]` remembered `p`, and nothing between `i` and `n` took or replaced what it stored. */
  ghost predicate Pending(ops: seq<Op>, i: nat, n: nat, p: PendingLogin) {
    && i < n <= |ops| && ops[i].Remember? && ops[i].p == p
    && forall j | i < j < n :: !Concerns(ops[j], p.state)
  }

  predicate Concerns(op: Op, state: string) {
    match op
    case Remember(q, _) => q.state == state
    case Take(s, _, _) => s == state
    case Clear(_) => true
    case Other(_) => false
  }

  lemma NewcomerStored(ops: seq<Op>, states: seq<Option<PendingMap>>, n: nat)
    requires Execution(ops, states) && n < |ops| && ops[n].Remember?
    ensures ops[n].p.state in Entries(states[n + 1]) && Entries(states[n + 1])[ops[n].p.state] == ops[n].p
  {
    assert Step(states[n], ops[n], states[n + 1]);
  }

  /** An entry that the last operation did not put there was there before, untouched by it. */
  lemma StillThere(ops: seq<Op>, states: seq<Option<PendingMap>>, n: nat, k: string)
    requires Execution(ops, states) && n < |ops| && k in Entries(states[n + 1])
    requires ops[n].Remember? ==> ops[n].p.state != k
    ensures k in Entries(states[n]) && Entries(states[n])[k] == Entries(states[n + 1])[k] && !Concerns(ops[n], k)
  {
    assert Step(states[n], ops[n], states[n + 1]);
  }

  lemma PendingExtends(ops: seq<Op>, i: nat, n: nat, p: PendingLogin)
    requires n < |ops| && Pending(ops, i, n, p) && !Concerns(ops[n], p.state)
    ensures Pending(ops, i, n + 1, p)
  {
  }

  ghost predicate Holds(s: Option<PendingMap>, p: PendingLogin) {
    p.state in Entries(s) && Entries(s)[p.state] == p
  }

  /** Everything in the map was put there by the latest operation on its token. */
  lemma {:induction false} EntriesWereRemembered(ops: seq<Op>, states: seq<Option<PendingMap>>, n: nat, p: PendingLogin) returns (i: nat)
    requires Execution(ops, states) && n < |states| && Holds(states[n], p)
    ensures Pending(ops, i, n, p)
  {
    assert n > 0 by {
      assert Entries(states[0]) == map[];
    }
    var last := ops[n - 1];
    if last.Remember? && last.p.state == p.state {
      NewcomerStored(ops, states, n - 1);
      i := n - 1;
    } else {
      StillThere(ops, states, n - 1, p.state);
      i := EntriesWereRemembered(ops, states, n - 1, p);
      PendingExtends(ops, i, n - 1, p);
    }
  }

  /** What `take` returns was remembered under that token, is still fresh, and was not taken or replaced since. */
  lemma TakenWasRemembered(ops: seq<Op>, states: seq<Option<PendingMap>>, n: nat) returns (i: nat)
    requires Execution(ops, states) && n < |ops| && ops[n].Take? && ops[n].got.Some?
    ensures ops[n].got.value.state == ops[n].state && ops[n].now < ops[n].got.value.createdAt + 600
    ensures Pending(ops, i, n, ops[n].got.value)
  {
    assert Step(states[n], ops[n], states[n + 1]);
    AlwaysWellKept(ops, states, n);
    i := EntriesWereRemembered(ops, states, n, ops[n].got.value);
  }

  /** Only one operation can have stored what is there. */
  lemma PendingUnique(ops: seq<Op>, i: nat, j: nat, n: nat, p: PendingLogin, q: PendingLogin)
    requires Pending(ops, i, n, p) && Pending(ops, j, n, q) && p.state == q.state
    ensures i == j
  {
    assert Concerns(ops[i], p.state) && Concerns(ops[j], p.state);
  }

  /** No two takes return what one `remember` stored: a replayed callback finds nothing. */
  lemma TakenOnce(ops: seq<Op>, states: seq<Option<PendingMap>>, n: nat, m: nat, i: nat)
    requires Execution(ops, states) && n < m < |ops|
    requires ops[n].Take? && ops[n].got.Some? && ops[m].Take? && ops[m].got.Some?
    requires Pending(ops, i, n, ops[n].got.value)
    ensures !Pending(ops, i, m, ops[m].got.value)
  {
    var k := TakenWasRemembered(ops, states, n);
    assert Concerns(ops[n], ops[n].got.value.state);
  }

  // ---- how long an attempt survives ----

  /** Requests come one after the other, the clock does not go back, and no state token is drawn twice. */
  ghost predicate Orderly(ops: seq<Op>) {
    && (forall i, j | 0 <= i < j < |ops| :: ops[i].now <= ops[j].now)
    && (forall i, j | 0 <= i < j < |ops| && ops[i].Remember? && ops[j].Remember? ::
          ops[i].p.createdAt <= ops[j].p.createdAt && ops[i].p.state != ops[j].p.state)
  }

  /** The tokens of the other attempts remembered so far that are no older than `p`. */
  ghost function Rivals(ops: seq<Op>, n: nat, p: PendingLogin): set<string>
    requires n <= |ops|
  {
    set i | 0 <= i < n && ops[i].Remember? && ops[i].p.state != p.state && ops[i].p.createdAt >= p.createdAt :: ops[i].p.state
  }

  ghost predicate Survives(ops: seq<Op>, states: seq<Option<PendingMap>>, n: nat, p: PendingLogin)
    requires n < |states| && n <= |ops|
  {
    Holds(states[n], p) || |Rivals(ops, n, p)| >= MAX_PENDING
  }

  /** Being evicted takes three survivors and a newcomer, all no older. */
  lemma EvictionNeedsRivals(ops: seq<Op>, states: seq<Option<PendingMap>>, n: nat, p: PendingLogin, i: nat, evicted: set<string>)
    requires Execution(ops, states) && Orderly(ops) && i < n < |ops| && ops[i].Remember? && ops[i].p == p
    requires ops[n].Remember? && states[n + 1].Some?
    requires Remembered(Entries(states[n]), ops[n].p, ops[n].now, evicted, states[n + 1].value)
    requires p.state in evicted && Entries(states[n])[p.state] == p
    ensures |Rivals(ops, n + 1, p)| >= MAX_PENDING
  {
    var kept, q := Retained(Entries(states[n]), ops[n].now), ops[n].p;
    var others := kept.Keys - evicted;
    RememberSize(Entries(states[n]), q, ops[n].now, evicted, states[n + 1].value);
    forall k | k in others
      ensures k in Rivals(ops, n + 1, p) && k != q.state
    {
      AlwaysWellKept(ops, states, n);
      var j := EntriesWereRemembered(ops, states, n, kept[k]);
      assert kept[p.state].createdAt <= kept[k].createdAt;
      assert ops[j].p == kept[k];
    }
    assert q.state in Rivals(ops, n + 1, p);
    assert |evicted| > 0 by {
      assert evicted != {};
    }
    assert |others + {q.state}| == MAX_PENDING;
    KeysSubset(others + {q.state}, Rivals(ops, n + 1, p));
  }

  lemma RivalsGrow(ops: seq<Op>, n: nat, p: PendingLogin)
    requires n < |ops|
    ensures |Rivals(ops, n, p)| <= |Rivals(ops, n + 1, p)|
  {
    KeysSubset(Rivals(ops, n, p), Rivals(ops, n + 1, p));
  }

  lemma SurvivesStep(ops: seq<Op>, states: seq<Option<PendingMap>>, n: nat, p: PendingLogin, i: nat)
    requires Execution(ops, states) && Orderly(ops) && i < n < |ops| && ops[i].Remember? && ops[i].p == p
    requires Survives(ops, states, n, p) && !Concerns(ops[n], p.state) && Fresh(p, ops[n].now)
    ensures Survives(ops, states, n + 1, p)
  {
    RivalsGrow(ops, n, p);
    assert Step(states[n], ops[n], states[n + 1]);
    if |Rivals(ops, n, p)| < MAX_PENDING && ops[n].Remember? {
      var evicted :| Remembered(Entries(states[n]), ops[n].p, ops[n].now, evicted, states[n + 1].value);
      if p.state in evicted {
        EvictionNeedsRivals(ops, states, n, p, i, evicted);
      }
    }
  }

  lemma {:induction false} SurvivesUntil(ops: seq<Op>, states: seq<Option<PendingMap>>, n: nat, p: PendingLogin, i: nat, now: nat)
    requires Execution(ops, states) && Orderly(ops) && Pending(ops, i, n, p)
    requires (forall j | i < j < n :: ops[j].now <= now) && Fresh(p, now)
    ensures Survives(ops, states, n, p)
  {
    if n == i + 1 {
      assert Step(states[i], ops[i], states[n]);
    } else {
      SurvivesUntil(ops, states, n - 1, p, i, now);
      SurvivesStep(ops, states, n - 1, p, i);
    }
  }

  /** A fresh attempt that nobody took is found, unless four others no older than it have been remembered. */
  lemma FreshIsFoundUnlessFourRivals(ops: seq<Op>, states: seq<Option<PendingMap>>, n: nat, p: PendingLogin, i: nat)
    requires Execution(ops, states) && Orderly(ops) && n < |ops| && Pending(ops, i, n, p)
    requires ops[n].Take? && ops[n].state == p.state && ops[n].now < p.createdAt + 600
    ensures ops[n].got == Some(p) || |Rivals(ops, n, p)| >= 4
  {
    SurvivesUntil(ops, states, n, p, i, ops[n].now);
    assert Step(states[n], ops[n], states[n + 1]);
  }

  // ---- and why four suffice ----

  lemma YoungerStep(ops: seq<Op>, states: seq<Option<PendingMap>>, n: nat, p: PendingLogin, q: PendingLogin)
    requires Execution(ops, states) && n < |ops| && p.createdAt < q.createdAt
    requires Holds(states[n + 1], p) && !Concerns(ops[n], p.state)
    requires Holds(states[n], q) && !Concerns(ops[n], q.state)
    requires Fresh(q, ops[n].now)
    ensures Holds(states[n], p)
    ensures Holds(states[n + 1], q)
  {
    assert Step(states[n], ops[n], states[n + 1]);
    if ops[n].Remember? {
      var evicted :| Remembered(Entries(states[n]), ops[n].p, ops[n].now, evicted, states[n + 1].value);
      var kept := Retained(Entries(states[n]), ops[n].now);
      assert p.state in kept && p.state !in evicted;
      assert q.state in kept;
    }
  }

  /** While an attempt is in the map, so is every fresh, untaken, strictly younger one. */
  lemma {:induction false} YoungerOutlive(ops: seq<Op>, states: seq<Option<PendingMap>>, n: nat,
                                          p: PendingLogin, i: nat, q: PendingLogin, j: nat, now: nat)
    requires Execution(ops, states) && Pending(ops, i, n, p) && Pending(ops, j, n, q)
    requires i < j && p.createdAt < q.createdAt && now < q.createdAt + 600 && forall m | j < m < n :: ops[m].now <= now
    requires Holds(states[n], p)
    ensures Holds(states[n], q)
  {
    if n == j + 1 {
      assert Step(states[j], ops[j], states[n]);
    } else {
      StillThere(ops, states, n - 1, p.state);
      YoungerOutlive(ops, states, n - 1, p, i, q, j, now);
      YoungerStep(ops, states, n - 1, p, q);
    }
  }

  /** The tokens of the attempts that were started after `p`, are strictly younger, fresh, and still untaken. */
  ghost function Younger(ops: seq<Op>, n: nat, i: nat, p: PendingLogin, now: nat): set<string>
    requires n <= |ops|
  {
    set j | i < j < n && ops[j].Remember? && Pending(ops, j, n, ops[j].p) && ops[j].p.createdAt > p.createdAt
            && now < ops[j].p.createdAt + 600 :: ops[j].p.state
  }

  /** So an attempt still in the map has at most three of them: the fourth pushes it out. */
  lemma FourthYoungerEvicts(ops: seq<Op>, states: seq<Option<PendingMap>>, n: nat, p: PendingLogin, i: nat, now: nat)
    requires Execution(ops, states) && Pending(ops, i, n, p) && forall m | i < m < n :: ops[m].now <= now
    requires Holds(states[n], p)
    ensures |Younger(ops, n, i, p, now)| < 4
  {
    var m := Entries(states[n]);
    forall k | k in Younger(ops, n, i, p, now)
      ensures k in m.Keys - {p.state}
    {
      var j :| i < j < n && ops[j].Remember? && Pending(ops, j, n, ops[j].p) && ops[j].p.createdAt > p.createdAt
               && now < ops[j].p.createdAt + 600 && ops[j].p.state == k;
      YoungerOutlive(ops, states, n, p, i, ops[j].p, j, now);
    }
    KeysSubset(Younger(ops, n, i, p, now), m.Keys - {p.state});
    AlwaysWellKept(ops, states, n);
    assert |m.Keys - {p.state}| == |m.Keys| - 1 && |m.Keys| == |m|;
  }
}
