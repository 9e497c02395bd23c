/**
 Several replicas running their embedded migrations against one database at once.

 Of PostgreSQL the protocol uses three rules: a READ COMMITTED statement sees what was
 committed before the statement began, while the stricter levels see what was committed
 before the transaction's first query (sections 13.2.1 and 13.2.2 of its manual); a
 transaction-level advisory lock has one holder and is released when the transaction
 ends, however it ends (section 13.3.5); and inserting a key that is there already fails,
 after waiting for any open transaction that has inserted it (its chapter on index
 uniqueness checks). The version is the migration table's primary key.
 */
module Migrations {
  import opened Options

  type Version = nat

  datatype Isolation = ReadCommitted | RepeatableRead | Serializable

  datatype Phase =
    | Idle
    | Begun
    | Pinned
    | Waiting
    | Locked
    | Applying(todo: set<Version>, done: seq<Version>)
    | Committed(done: seq<Version>) // durable, but `run` has not answered yet
    | Returned(count: nat)          // `Ok(count)`
    | Lost(done: seq<Version>)      // died between the commit and the answer
    | Rejected(version: Version)    // an error: this version was in the table already
    | Failed                        // any other error, or death, before the commit

  /** One replica: its phase, its transaction's isolation level and, if the level keeps one, its snapshot. */
  datatype Proc = Proc(phase: Phase, isolation: Isolation, snapshot: set<Version>)

  datatype Applied = Applied(runner: nat, version: Version)

  /** `applied` is the migration table; `log` says which transaction added what, in commit order. */
  datatype State = State(applied: set<Version>, log: seq<Applied>, holder: map<int, nat>, procs: seq<Proc>)

  /** The replicas' lock keys and migration sets, the server's default level, and whether the code pins it. */
  datatype Config = Config(keys: seq<int>, wants: seq<set<Version>>, default: Isolation, pins: bool)

  datatype Action =
    | Begin(r: nat)
    | Pin(r: nat)
    | Request(r: nat)
    | Acquire(r: nat)
    | Read(r: nat)
    | Apply(r: nat, v: Version)
    | Reject(r: nat, v: Version)
    | Commit(r: nat)
    | Answer(r: nat)
    | Fail(r: nat)

  ghost predicate ValidConfig(c: Config) {
    |c.keys| == |c.wants|
  }

  predicate Critical(p: Phase) {
    p.Locked? || p.Applying?
  }

  predicate Finished(p: Phase) {
    p.Returned? || p.Lost? || p.Rejected? || p.Failed?
  }

  predicate Least(todo: set<Version>, v: Version) {
    v in todo && forall w | w in todo :: v <= w
  }

  /** What a transaction has inserted and not committed yet. */
  function Inserted(p: Phase): set<Version> {
    if p.Applying? then Elements(p.done) else {}
  }

  /** Another open transaction has inserted this version. */
  predicate Blocked(s: State, r: nat, v: Version) {
    exists q | 0 <= q < |s.procs| :: q != r && v in Inserted(s.procs[q].phase)
  }

  predicate Enabled(c: Config, s: State, a: Action) {
    && a.r < |s.procs| && a.r < |c.keys| && a.r < |c.wants|
    && var p := s.procs[a.r].phase;
       match a
       case Begin(_) => p.Idle?
       case Pin(_) => p.Begun?
       case Request(_) => p.Pinned?
       case Acquire(r) => p.Waiting? && c.keys[r] !in s.holder
       case Read(_) => p.Locked?
       case Apply(r, v) => p.Applying? && Least(p.todo, v) && v !in s.applied && !Blocked(s, r, v)
       case Reject(_, v) => p.Applying? && Least(p.todo, v) && v in s.applied
       case Commit(_) => p.Applying? && p.todo == {}
       case Answer(_) => p.Committed?
       case Fail(_) => !Finished(p)
  }

  function Batch(r: nat, done: seq<Version>): seq<Applied> {
    seq(|done|, i requires 0 <= i < |done| => Applied(r, done[i]))
  }

  function Elements(done: seq<Version>): set<Version> {
    set v | v in done
  }

  function Release(c: Config, s: State, r: nat): map<int, nat>
    requires r < |c.keys|
  {
    if c.keys[r] in s.holder && s.holder[c.keys[r]] == r then s.holder - {c.keys[r]} else s.holder
  }

  function Do(c: Config, s: State, a: Action): State
    requires Enabled(c, s, a)
  {
    var r := a.r;
    var p := s.procs[r];
    match a
    case Begin(_) => s.(procs := s.procs[r := p.(phase := Begun, isolation := c.default)])
    case Pin(_) =>
      s.(procs := s.procs[r := p.(phase := Pinned, isolation := if c.pins then ReadCommitted else p.isolation)])
    // `SELECT pg_advisory_xact_lock`: the first query, so the stricter levels fix their snapshot here, before the wait.
    case Request(_) => s.(procs := s.procs[r := p.(phase := Waiting, snapshot := s.applied)])
    case Acquire(_) => s.(holder := s.holder[c.keys[r] := r], procs := s.procs[r := p.(phase := Locked)])
    case Read(_) =>
      var seen := if p.isolation == ReadCommitted then s.applied else p.snapshot;
      s.(procs := s.procs[r := p.(phase := Applying(c.wants[r] - seen, []))])
    case Apply(_, v) =>
      s.(procs := s.procs[r := p.(phase := Applying(p.phase.todo - {v}, p.phase.done + [v]))])
    case Reject(_, v) => s.(holder := Release(c, s, r), procs := s.procs[r := p.(phase := Rejected(v))])
    case Commit(_) =>
      State(s.applied + Elements(p.phase.done), s.log + Batch(r, p.phase.done), Release(c, s, r),
            s.procs[r := p.(phase := Committed(p.phase.done))])
    case Answer(_) => s.(procs := s.procs[r := p.(phase := Returned(|p.phase.done|))])
    case Fail(_) =>
      var q := if p.phase.Committed? then Lost(p.phase.done) else Failed;
      s.(holder := Release(c, s, r), procs := s.procs[r := p.(phase := q)])
  }

  function Initial(c: Config, applied: set<Version>): State {
    State(applied, [], map[], seq(|c.keys|, i => Proc(Idle, c.default, {})))
  }

  /** The state a run of actions ends in; `None` when one of them was not possible. */
  function Outcome(c: Config, s: State, actions: seq<Action>): Option<State> {
    if actions == [] then Some(s)
    else match Outcome(c, s, actions[..|actions| - 1])
         case None => None
         case Some(t) =>
           var a := actions[|actions| - 1];
           if Enabled(c, t, a) then Some(Do(c, t, a)) else None
  }

  // ---- what every reachable state keeps ----

  /** The lock table and the phases tell the same story. */
  ghost predicate LockInv(c: Config, s: State) {
    && ValidConfig(c) && |s.procs| == |c.keys|
    && (forall k | k in s.holder :: s.holder[k] < |s.procs| && c.keys[s.holder[k]] == k && Critical(s.procs[s.holder[k]].phase))
    && (forall r | 0 <= r < |s.procs| && Critical(s.procs[r].phase) :: c.keys[r] in s.holder && s.holder[c.keys[r]] == r)
  }

  lemma LockStep(c: Config, s: State, a: Action)
    requires LockInv(c, s) && Enabled(c, s, a)
    ensures LockInv(c, Do(c, s, a))
  {
  }

  ghost predicate Ascending(done: seq<Version>) {
    forall i, j | 0 <= i < j < |done| :: done[i] < done[j]
  }

  /** No part of a replica's set is lost from sight, and nothing it has inserted is in the table. */
  ghost predicate ProcInv(c: Config, s: State, r: nat)
    requires r < |s.procs| && r < |c.wants|
  {
    var p := s.procs[r];
    match p.phase
    case Waiting => p.snapshot <= s.applied
    case Locked => p.snapshot <= s.applied
    case Applying(todo, done) =>
      && Ascending(done) && (forall i, w | 0 <= i < |done| && w in todo :: done[i] < w)
      && todo <= c.wants[r] && Elements(done) <= c.wants[r]
      && c.wants[r] <= s.applied + todo + Elements(done)
      && Elements(done) !! s.applied
    case Committed(_) => c.wants[r] <= s.applied
    case Returned(_) => c.wants[r] <= s.applied
    case Lost(_) => c.wants[r] <= s.applied
    case _ => true
  }

  /** No two open transactions have inserted the same version. */
  ghost predicate InsertsApart(s: State) {
    forall q, r | 0 <= q < |s.procs| && 0 <= r < |s.procs| && q != r ::
      Inserted(s.procs[q].phase) !! Inserted(s.procs[r].phase)
  }

  ghost predicate DataInv(c: Config, s: State) {
    LockInv(c, s) && InsertsApart(s) && forall r | 0 <= r < |s.procs| :: ProcInv(c, s, r)
  }

  lemma ElementsAppend(done: seq<Version>, v: Version)
    ensures Elements(done + [v]) == Elements(done) + {v}
  {
  }

  lemma ApartStep(c: Config, s: State, a: Action)
    requires InsertsApart(s) && Enabled(c, s, a)
    ensures InsertsApart(Do(c, s, a))
  {
    var t := Do(c, s, a);
    if a.Apply? {
      ElementsAppend(s.procs[a.r].phase.done, a.v);
    }
    forall q | 0 <= q < |t.procs| && q != a.r
      ensures Inserted(t.procs[q].phase) !! Inserted(t.procs[a.r].phase)
    {
      assert t.procs[q] == s.procs[q];
      assert a.Apply? ==> a.v !in Inserted(s.procs[q].phase);
    }
  }

  lemma OwnStep(c: Config, s: State, a: Action)
    requires LockInv(c, s) && Enabled(c, s, a) && ProcInv(c, s, a.r)
    ensures ProcInv(c, Do(c, s, a), a.r)
  {
    if a.Apply? {
      ElementsAppend(s.procs[a.r].phase.done, a.v);
    }
  }

  lemma DataStep(c: Config, s: State, a: Action)
    requires DataInv(c, s) && Enabled(c, s, a)
    ensures DataInv(c, Do(c, s, a))
  {
    LockStep(c, s, a);
    ApartStep(c, s, a);
    OwnStep(c, s, a);
    var t := Do(c, s, a);
    forall r | 0 <= r < |t.procs| && r != a.r
      ensures ProcInv(c, t, r)
    {
      assert ProcInv(c, s, r) && t.procs[r] == s.procs[r];
      assert a.Commit? ==> Inserted(s.procs[r].phase) !! Inserted(s.procs[a.r].phase);
    }
  }

  lemma AppendSize(init: seq<Version>, v: Version)
    requires forall i | 0 <= i < |init| :: init[i] < v
    ensures |Elements(init + [v])| == |Elements(init)| + 1
  {
    ElementsAppend(init, v);
    assert v !in Elements(init);
  }

  lemma {:induction false} AscendingSize(done: seq<Version>)
    requires Ascending(done)
    ensures |Elements(done)| == |done|
  {
    if done != [] {
      var init := done[..|done| - 1];
      AscendingSize(init);
      AppendSize(init, done[|done| - 1]);
      assert done == init + [done[|done| - 1]];
    }
  }

  /**
   A commit is all or nothing: it adds the whole of the replica's migration set that was
   missing, in ascending order, and nothing else; no other step changes the table or the log.
   */
  lemma CommitIsWhole(c: Config, s: State, a: Action)
    requires DataInv(c, s) && Enabled(c, s, a)
    ensures !a.Commit? ==> Do(c, s, a).applied == s.applied && Do(c, s, a).log == s.log
    ensures a.Commit? ==>
              var done := s.procs[a.r].phase.done;
              && Ascending(done) && Elements(done) == c.wants[a.r] - s.applied && |done| == |c.wants[a.r] - s.applied|
              && Do(c, s, a).applied == s.applied + c.wants[a.r]
              && Do(c, s, a).log == s.log + Batch(a.r, done)
              && Do(c, s, a).procs[a.r].phase == Committed(done)
  {
    if a.Commit? {
      BatchIsWhole(c, s, a.r);
      assert s.applied + Elements(s.procs[a.r].phase.done) == s.applied + c.wants[a.r];
    }
  }

  lemma BatchIsWhole(c: Config, s: State, r: nat)
    requires DataInv(c, s) && r < |s.procs| && s.procs[r].phase.Applying? && s.procs[r].phase.todo == {}
    ensures var done := s.procs[r].phase.done;
            Ascending(done) && Elements(done) == c.wants[r] - s.applied && |done| == |c.wants[r] - s.applied|
  {
    assert ProcInv(c, s, r);
    AscendingSize(s.procs[r].phase.done);
    assert Elements(s.procs[r].phase.done) == c.wants[r] - s.applied;
  }

  // ---- the log and the counts ----

  function Versions(log: seq<Applied>): set<Version> {
    set e | e in log :: e.version
  }

  ghost predicate NoDuplicates(log: seq<Applied>) {
    forall i, j | 0 <= i < j < |log| :: log[i].version != log[j].version
  }

  function Sum(procs: seq<Proc>, weight: Phase -> nat): nat {
    if procs == [] then 0 else Sum(procs[..|procs| - 1], weight) + weight(procs[|procs| - 1].phase)
  }

  /** The count that `Ok` carried. */
  function Answered(p: Phase): nat {
    match p case Returned(n) => n case _ => 0
  }

  /** The size of a batch that is committed and whose count never left, or has not left yet, the replica. */
  function Unanswered(p: Phase): nat {
    match p case Committed(done) => |done| case Lost(done) => |done| case _ => 0
  }

  lemma {:induction false} SumUpdate(procs: seq<Proc>, weight: Phase -> nat, r: nat, p: Proc)
    requires r < |procs|
    ensures Sum(procs[r := p], weight) + weight(procs[r].phase) == Sum(procs, weight) + weight(p.phase)
  {
    var last := |procs| - 1;
    if r < last {
      assert procs[r := p][..last] == procs[..last][r := p];
      SumUpdate(procs[..last], weight, r, p);
    } else {
      assert procs[r := p][..last] == procs[..last];
    }
  }

  /** The table is what was there plus what the log says, each version once, and the counts cover the log. */
  ghost predicate Accounted(applied: set<Version>, s: State) {
    && NoDuplicates(s.log)
    && Versions(s.log) !! applied
    && s.applied == applied + Versions(s.log)
    && |s.log| == Sum(s.procs, Answered) + Sum(s.procs, Unanswered)
  }

  lemma BatchAppended(log: seq<Applied>, r: nat, done: seq<Version>)
    requires NoDuplicates(log) && Ascending(done) && Elements(done) !! Versions(log)
    ensures NoDuplicates(log + Batch(r, done))
    ensures Versions(log + Batch(r, done)) == Versions(log) + Elements(done)
  {
    var all, b := log + Batch(r, done), Batch(r, done);
    forall i, j | 0 <= i < j < |all|
      ensures all[i].version != all[j].version
    {
      if i < |log| <= j {
        assert all[j].version == done[j - |log|] && done[j - |log|] in Elements(done);
        assert all[i] in log && all[i].version in Versions(log);
      }
    }
    forall v
      ensures v in Versions(all) <==> v in Versions(log) || v in Elements(done)
    {
      if v in Elements(done) {
        var k :| 0 <= k < |done| && done[k] == v;
        assert b[k] == Applied(r, v) && all[|log| + k] == b[k];
      }
      if v in Versions(log) {
        var e :| e in log && e.version == v;
        assert e in all;
      }
    }
  }

  function Counted(p: Phase): nat {
    Answered(p) + Unanswered(p)
  }

  /** Only a commit adds to what is owed or answered; an answer or a death just moves it. */
  lemma CountedStep(c: Config, s: State, a: Action)
    requires Enabled(c, s, a)
    ensures var t := Do(c, s, a);
            && t.procs == s.procs[a.r := t.procs[a.r]]
            && Counted(t.procs[a.r].phase)
               == Counted(s.procs[a.r].phase) + (if a.Commit? then |s.procs[a.r].phase.done| else 0)
  {
  }

  lemma CountStep(c: Config, s: State, a: Action)
    requires Enabled(c, s, a)
    ensures var t := Do(c, s, a);
            Sum(t.procs, Answered) + Sum(t.procs, Unanswered)
            == Sum(s.procs, Answered) + Sum(s.procs, Unanswered) + (if a.Commit? then |s.procs[a.r].phase.done| else 0)
  {
    var p := Do(c, s, a).procs[a.r];
    CountedStep(c, s, a);
    SumUpdate(s.procs, Answered, a.r, p);
    SumUpdate(s.procs, Unanswered, a.r, p);
  }

  lemma BatchAccounted(applied: set<Version>, s: State, t: State, r: nat, done: seq<Version>)
    requires Accounted(applied, s) && Ascending(done) && Elements(done) !! s.applied
    requires t.applied == s.applied + Elements(done) && t.log == s.log + Batch(r, done)
    requires Sum(t.procs, Answered) + Sum(t.procs, Unanswered) == Sum(s.procs, Answered) + Sum(s.procs, Unanswered) + |done|
    ensures Accounted(applied, t)
  {
    BatchAppended(s.log, r, done);
  }

  lemma AccountedStep(c: Config, applied: set<Version>, s: State, a: Action)
    requires DataInv(c, s) && Accounted(applied, s) && Enabled(c, s, a)
    ensures Accounted(applied, Do(c, s, a))
  {
    CommitIsWhole(c, s, a);
    CountStep(c, s, a);
    if a.Commit? {
      var done := s.procs[a.r].phase.done;
      assert s.applied + c.wants[a.r] == s.applied + Elements(done);
      BatchAccounted(applied, s, Do(c, s, a), a.r, done);
    }
  }

  lemma {:induction false} SumIdle(procs: seq<Proc>)
    requires forall p | p in procs :: p.phase == Idle
    ensures Sum(procs, Answered) == Sum(procs, Unanswered) == 0
  {
    if procs != [] {
      SumIdle(procs[..|procs| - 1]);
    }
  }

  lemma {:induction false} Always(c: Config, applied: set<Version>, actions: seq<Action>)
    requires ValidConfig(c) && Outcome(c, Initial(c, applied), actions).Some?
    ensures DataInv(c, Outcome(c, Initial(c, applied), actions).value)
    ensures Accounted(applied, Outcome(c, Initial(c, applied), actions).value)
  {
    if actions == [] {
      SumIdle(Initial(c, applied).procs);
    } else {
      var init := actions[..|actions| - 1];
      Always(c, applied, init);
      var s, a := Outcome(c, Initial(c, applied), init).value, actions[|actions| - 1];
      DataStep(c, s, a);
      AccountedStep(c, applied, s, a);
    }
  }

  /** At most one replica per key is between acquiring the lock and ending its transaction. */
  lemma MutualExclusion(c: Config, applied: set<Version>, actions: seq<Action>, i: nat, j: nat)
    requires ValidConfig(c) && Outcome(c, Initial(c, applied), actions).Some?
    requires i < |c.keys| && j < |c.keys| && c.keys[i] == c.keys[j]
    ensures var s := Outcome(c, Initial(c, applied), actions).value;
            && |s.procs| == |c.keys|
            && (forall r | r == i || r == j :: Critical(s.procs[r].phase) <==> s.procs[r].phase.Locked? || s.procs[r].phase.Applying?)
            && (Critical(s.procs[i].phase) && Critical(s.procs[j].phase) ==> i == j)
  {
    Always(c, applied, actions);
  }

  /** After `Ok`, and in fact from the commit on, all of the replica's migrations are in the table, for good. */
  lemma OkMeansMigrated(c: Config, applied: set<Version>, actions: seq<Action>, r: nat)
    requires ValidConfig(c) && Outcome(c, Initial(c, applied), actions).Some? && r < |c.keys|
    ensures var s := Outcome(c, Initial(c, applied), actions).value;
            r < |s.procs|
            && (s.procs[r].phase.Committed? || s.procs[r].phase.Returned? || s.procs[r].phase.Lost? ==> c.wants[r] <= s.applied)
  {
    Always(c, applied, actions);
    assert ProcInv(c, Outcome(c, Initial(c, applied), actions).value, r);
  }

  lemma {:induction false} DistinctSize(log: seq<Applied>)
    requires NoDuplicates(log)
    ensures |Versions(log)| == |log|
  {
    if log != [] {
      var init, e := log[..|log| - 1], log[|log| - 1];
      DistinctSize(init);
      assert Versions(log) == Versions(init) + {e.version} by {
        assert log == init + [e];
      }
      assert e.version !in Versions(init);
    }
  }

  /** Over every interleaving: no version is applied twice, and the counts sum to the versions added. */
  lemma AppliedOnceAndCounted(c: Config, applied: set<Version>, actions: seq<Action>)
    requires ValidConfig(c) && Outcome(c, Initial(c, applied), actions).Some?
    ensures var s := Outcome(c, Initial(c, applied), actions).value;
            && NoDuplicates(s.log) && Versions(s.log) == s.applied - applied && applied <= s.applied
            && Sum(s.procs, Answered) + Sum(s.procs, Unanswered) == |s.applied| - |applied|
  {
    Always(c, applied, actions);
    var s := Outcome(c, Initial(c, applied), actions).value;
    DistinctSize(s.log);
    assert |applied + Versions(s.log)| == |applied| + |Versions(s.log)|;
  }

  // ---- a replica with nothing to do ----

  /** The replica's whole set is in the table, and whatever it reports is 0. */
  ghost predicate NothingLeft(c: Config, s: State, r: nat) {
    && r < |s.procs| && r < |c.wants| && c.wants[r] <= s.applied
    && match s.procs[r].phase
       case Committed(done) => done == []
       case Lost(done) => done == []
       case Returned(n) => n == 0
       case _ => true
  }

  lemma NothingLeftStep(c: Config, s: State, a: Action, r: nat)
    requires DataInv(c, s) && Enabled(c, s, a) && NothingLeft(c, s, r)
    ensures NothingLeft(c, Do(c, s, a), r)
  {
    CommitIsWhole(c, s, a);
    if a.r != r {
      assert Do(c, s, a).procs[r] == s.procs[r];
    } else if a.Commit? {
      assert |s.procs[r].phase.done| == 0;
    }
  }

  /** From a reachable state where it has nothing left, `Ok(0)` is the only count a replica can answer. */
  lemma {:induction false} UpToDateReturnsZero(c: Config, applied: set<Version>, before: seq<Action>, after: seq<Action>, r: nat)
    requires ValidConfig(c)
    requires Outcome(c, Initial(c, applied), before).Some? && Outcome(c, Initial(c, applied), before + after).Some?
    requires NothingLeft(c, Outcome(c, Initial(c, applied), before).value, r)
    ensures NothingLeft(c, Outcome(c, Initial(c, applied), before + after).value, r)
  {
    if after == [] {
      assert before + after == before;
    } else {
      var init := after[..|after| - 1];
      assert (before + after)[..|before + after| - 1] == before + init;
      UpToDateReturnsZero(c, applied, before, init, r);
      Always(c, applied, before + init);
      var s, a := Outcome(c, Initial(c, applied), before + init).value, after[|after| - 1];
      assert (before + after)[|before + after| - 1] == a;
      NothingLeftStep(c, s, a, r);
    }
  }

  // ---- dying ----

  /** The replica is done, one way or another. */
  ghost predicate Over(p: Phase) {
    p.Returned? || p.Lost? || p.Rejected? || p.Failed?
  }

  /** `r` has died in `s`, leaving `t`: its transaction is gone without a trace, unless it had been committed. */
  ghost predicate DiedIn(c: Config, s: State, t: State, r: nat)
    requires r < |s.procs| && r < |c.keys|
  {
    && t.applied == s.applied && t.log == s.log && |t.procs| == |s.procs|
    && (forall q | 0 <= q < |s.procs| && q != r :: t.procs[q] == s.procs[q])
    && t.procs[r].phase == (if s.procs[r].phase.Committed? then Lost(s.procs[r].phase.done) else Failed)
    && (forall k | k in t.holder :: t.holder[k] != r)
    && (forall k | k in s.holder && s.holder[k] != r :: k in t.holder && t.holder[k] == s.holder[k])
  }

  /**
   In every reachable state any replica that is not done can die, in the midst of its batch
   too. The lock goes with it: whoever waits for that key can have it in the next step.
   */
  lemma MayDieAnytime(c: Config, applied: set<Version>, actions: seq<Action>, r: nat)
    requires ValidConfig(c) && Outcome(c, Initial(c, applied), actions).Some? && r < |c.keys|
    ensures var s, end := Outcome(c, Initial(c, applied), actions).value, Outcome(c, Initial(c, applied), actions + [Fail(r)]);
            && |s.procs| == |c.keys|
            && (!Over(s.procs[r].phase) ==>
                  && end.Some? && DiedIn(c, s, end.value, r)
                  && (s.procs[r].phase.Locked? || s.procs[r].phase.Applying? ==>
                        forall q: nat | q < |c.keys| && c.keys[q] == c.keys[r] && s.procs[q].phase.Waiting? ::
                          Enabled(c, end.value, Acquire(q))))
  {
    Always(c, applied, actions);
    var s := Outcome(c, Initial(c, applied), actions).value;
    if !Over(s.procs[r].phase) {
      var longer, t := OneMore(c, Initial(c, applied), actions, s, Fail(r));
      assert LockInv(c, s);
    }
  }

  // ---- progress ----

  lemma LeastExists(todo: set<Version>) returns (v: Version)
    requires todo != {}
    ensures Least(todo, v)
  {
    v :| v in todo;
    if exists w :: w in todo && w < v {
      var w :| w in todo && w < v;
      var rest := todo - {v};
      assert w in rest && todo == rest + {v};
      v := LeastExists(rest);
    }
  }

  lemma Bound(sets: seq<set<Version>>) returns (n: nat)
    ensures forall i, v | 0 <= i < |sets| && v in sets[i] :: v < n
  {
    n := 0;
    for i := 0 to |sets|
      invariant forall j, v | 0 <= j < i && v in sets[j] :: v < n
    {
      var left := sets[i];
      while left != {}
        invariant left <= sets[i]
        invariant forall j, v | 0 <= j < i && v in sets[j] :: v < n
        invariant forall v | v in sets[i] && v !in left :: v < n
      {
        var v :| v in left;
        n := if v < n then n else v + 1;
        left := left - {v};
      }
    }
  }

  /**
   Among replicas in the midst of their batches someone can go on: whoever waits for another
   one's insert waits for one that, working in ascending order, is past that version.
   */
  lemma SomeBatchGoesOn(c: Config, s: State, r: nat, low: nat, n: nat) returns (a: Action)
    requires DataInv(c, s) && r < |s.procs| && s.procs[r].phase.Applying?
    requires forall i, v | 0 <= i < |c.wants| && v in c.wants[i] :: v < n
    requires low <= n && forall w | w in s.procs[r].phase.todo :: low <= w
    ensures !a.Fail? && Enabled(c, s, a)
    decreases n - low
  {
    assert ProcInv(c, s, r);
    var todo := s.procs[r].phase.todo;
    if todo == {} {
      a := Commit(r);
    } else {
      var v := LeastExists(todo);
      if v in s.applied {
        a := Reject(r, v);
      } else if !Blocked(s, r, v) {
        a := Apply(r, v);
      } else {
        var q: nat :| q < |s.procs| && q != r && v in Inserted(s.procs[q].phase);
        assert ProcInv(c, s, q);
        a := SomeBatchGoesOn(c, s, q, v + 1, n);
      }
    }
  }

  /** No wait is a deadlock: until every replica is finished, one of them can move on without failing. */
  lemma NeverStuck(c: Config, applied: set<Version>, actions: seq<Action>)
    requires ValidConfig(c) && Outcome(c, Initial(c, applied), actions).Some?
    ensures var s := Outcome(c, Initial(c, applied), actions).value;
            (forall p | p in s.procs :: Finished(p.phase)) || exists a: Action :: !a.Fail? && Enabled(c, s, a)
  {
    Always(c, applied, actions);
    var s := Outcome(c, Initial(c, applied), actions).value;
    if exists r :: 0 <= r < |s.procs| && !Finished(s.procs[r].phase) {
      var mover: nat :| mover < |s.procs| && !Finished(s.procs[mover].phase);
      var key := c.keys[mover];
      if s.procs[mover].phase.Waiting? && key in s.holder {
        mover := s.holder[key];
        assert mover < |s.procs| && Critical(s.procs[mover].phase);
      }
      var a := Answer(mover);
      match s.procs[mover].phase {
        case Idle => a := Begin(mover);
        case Begun => a := Pin(mover);
        case Pinned => a := Request(mover);
        case Waiting => a := Acquire(mover);
        case Locked => a := Read(mover);
        case Applying(_, _) =>
          var n := Bound(c.wants);
          a := SomeBatchGoesOn(c, s, mover, 0, n);
        case _ =>
      }
      assert !a.Fail? && Enabled(c, s, a);
    }
  }

  /** How many steps a replica has left, when no set is larger than `n`. */
  function Left(n: nat): Phase -> nat {
    (p: Phase) =>
      match p
      case Idle => n + 7
      case Begun => n + 6
      case Pinned => n + 5
      case Waiting => n + 4
      case Locked => n + 3
      case Applying(todo, _) => |todo| + 2
      case Committed(_) => 1
      case _ => 0
  }

  lemma PhaseSteps(c: Config, s: State, a: Action, n: nat)
    requires Enabled(c, s, a) && !a.Fail? && |c.wants[a.r]| <= n
    ensures var t := Do(c, s, a);
            t.procs == s.procs[a.r := t.procs[a.r]] && Left(n)(t.procs[a.r].phase) < Left(n)(s.procs[a.r].phase)
  {
    if a.Read? {
      SubsetSize(Do(c, s, a).procs[a.r].phase.todo, c.wants[a.r]);
    }
  }

  lemma StepsLeft(c: Config, s: State, a: Action, n: nat)
    requires Enabled(c, s, a) && !a.Fail? && |c.wants[a.r]| <= n
    ensures Sum(Do(c, s, a).procs, Left(n)) < Sum(s.procs, Left(n))
  {
    PhaseSteps(c, s, a, n);
    SumUpdate(s.procs, Left(n), a.r, Do(c, s, a).procs[a.r]);
  }

  lemma SubsetSize(a: set<Version>, b: set<Version>)
    requires a <= b
    ensures |a| <= |b|
  {
    assert b == a + (b - a);
  }

  lemma LargestSet(sets: seq<set<Version>>) returns (n: nat)
    ensures forall r | 0 <= r < |sets| :: |sets[r]| <= n
  {
    n := 0;
    for i := 0 to |sets|
      invariant forall r | 0 <= r < i :: |sets[r]| <= n
    {
      n := if |sets[i]| <= n then n else |sets[i]|;
    }
  }

  /** Nobody died on the way from `s` to `end`, where everyone is done. */
  ghost predicate DoneAlive(s: State, end: State) {
    && |end.procs| == |s.procs|
    && (forall r | 0 <= r < |s.procs| && Over(s.procs[r].phase) :: end.procs[r].phase == s.procs[r].phase)
    && (forall r | 0 <= r < |s.procs| && !Over(s.procs[r].phase) :: end.procs[r].phase.Returned? || end.procs[r].phase.Rejected?)
  }

  lemma DoneAliveBefore(c: Config, s: State, a: Action, end: State)
    requires Enabled(c, s, a) && !a.Fail? && DoneAlive(Do(c, s, a), end)
    ensures DoneAlive(s, end)
  {
    var t := Do(c, s, a);
    assert forall r | 0 <= r < |s.procs| && r != a.r :: t.procs[r] == s.procs[r];
    assert !Over(s.procs[a.r].phase);
  }

  lemma {:induction false} GoesOn(c: Config, applied: set<Version>, actions: seq<Action>, s: State, n: nat)
    returns (longer: seq<Action>, end: State)
    requires ValidConfig(c) && Outcome(c, Initial(c, applied), actions) == Some(s)
    requires forall r | 0 <= r < |c.wants| :: |c.wants[r]| <= n
    ensures actions <= longer && Outcome(c, Initial(c, applied), longer) == Some(end) && DoneAlive(s, end)
    decreases Sum(s.procs, Left(n))
  {
    longer, end := actions, s;
    if exists p :: p in s.procs && !Over(p.phase) {
      NeverStuck(c, applied, actions);
      var a: Action :| !a.Fail? && Enabled(c, s, a);
      StepsLeft(c, s, a, n);
      var next, t := OneMore(c, Initial(c, applied), actions, s, a);
      longer, end := GoesOn(c, applied, next, t, n);
      DoneAliveBefore(c, s, a, end);
    } else {
      assert forall r | 0 <= r < |s.procs| :: s.procs[r] in s.procs;
    }
  }

  /**
   From every reachable state, whoever has died on the way, everyone else can still get
   done: with `Ok`, or turned away by the table's key.
   */
  lemma AllCanFinish(c: Config, applied: set<Version>, actions: seq<Action>) returns (longer: seq<Action>, end: State)
    requires ValidConfig(c) && Outcome(c, Initial(c, applied), actions).Some?
    ensures actions <= longer && Outcome(c, Initial(c, applied), longer) == Some(end)
    ensures DoneAlive(Outcome(c, Initial(c, applied), actions).value, end)
  {
    var n := LargestSet(c.wants);
    longer, end := GoesOn(c, applied, actions, Outcome(c, Initial(c, applied), actions).value, n);
  }

  // ---- who can be turned away ----

  /** The isolation level the transaction runs at. */
  function Level(c: Config): Isolation {
    if c.pins then ReadCommitted else c.default
  }

  /** Replicas that share a migration share the lock's key, and see what was committed while they waited for it. */
  ghost predicate Coordinated(c: Config) {
    ValidConfig(c)
    && forall i, j | 0 <= i < |c.keys| && 0 <= j < |c.keys| && i != j && !(c.wants[i] !! c.wants[j]) ::
         c.keys[i] == c.keys[j] && Level(c) == ReadCommitted
  }

  /** The snapshot is not behind on the replica's own migrations. */
  ghost predicate UpToDate(c: Config, s: State, r: nat)
    requires r < |s.procs| && r < |c.wants|
  {
    var p := s.procs[r];
    p.isolation == Level(c) && (p.isolation == ReadCommitted || c.wants[r] * p.snapshot == c.wants[r] * s.applied)
  }

  /** Nothing that a replica is about to insert is in the table. */
  ghost predicate FreshInv(c: Config, s: State, r: nat)
    requires r < |s.procs| && r < |c.wants|
  {
    var p := s.procs[r];
    match p.phase
    case Begun => p.isolation == c.default
    case Pinned => p.isolation == Level(c)
    case Waiting => UpToDate(c, s, r)
    case Locked => UpToDate(c, s, r)
    case Applying(todo, _) => todo !! s.applied
    case Rejected(_) => false
    case _ => true
  }

  lemma FreshOwnStep(c: Config, s: State, a: Action)
    requires Coordinated(c) && Enabled(c, s, a) && FreshInv(c, s, a.r)
    ensures |Do(c, s, a).procs| == |s.procs| && FreshInv(c, Do(c, s, a), a.r)
  {
    var p := s.procs[a.r];
    if a.Read? && p.isolation != ReadCommitted {
      assert forall v | v in c.wants[a.r] && v in s.applied :: v in c.wants[a.r] * s.applied;
      assert forall v | v in c.wants[a.r] * p.snapshot :: v in p.snapshot;
    }
  }

  /** Either the sets are apart, or the level sees the commit and only one of the two holds the lock. */
  lemma FreshOtherStep(c: Config, s: State, a: Action, r: nat)
    requires Coordinated(c) && DataInv(c, s) && Enabled(c, s, a) && r < |s.procs| && FreshInv(c, s, r) && r != a.r
    ensures |Do(c, s, a).procs| == |s.procs| && FreshInv(c, Do(c, s, a), r)
  {
    CommitIsWhole(c, s, a);
    assert Do(c, s, a).procs[r] == s.procs[r];
    if a.Commit? {
      assert ProcInv(c, s, r);
      if c.wants[r] !! c.wants[a.r] {
        assert c.wants[r] * (s.applied + c.wants[a.r]) == c.wants[r] * s.applied;
      } else {
        assert Level(c) == ReadCommitted && c.keys[r] == c.keys[a.r];
        assert s.holder[c.keys[a.r]] == a.r && !Critical(s.procs[r].phase);
      }
    }
  }

  lemma {:induction false} AlwaysFresh(c: Config, applied: set<Version>, actions: seq<Action>, r: nat)
    requires Coordinated(c) && Outcome(c, Initial(c, applied), actions).Some? && r < |c.keys|
    ensures var s := Outcome(c, Initial(c, applied), actions).value;
            r < |s.procs| && FreshInv(c, s, r)
  {
    if actions != [] {
      var init := actions[..|actions| - 1];
      AlwaysFresh(c, applied, init, r);
      Always(c, applied, init);
      var s, a := Outcome(c, Initial(c, applied), init).value, actions[|actions| - 1];
      if r == a.r {
        FreshOwnStep(c, s, a);
      } else {
        FreshOtherStep(c, s, a, r);
      }
    }
  }

  ghost predicate NoneRejected(s: State) {
    forall p | p in s.procs :: !p.phase.Rejected?
  }

  /** Over every table to start from and every interleaving. */
  ghost predicate NeverRejected(c: Config) {
    forall applied: set<Version>, actions: seq<Action> | Outcome(c, Initial(c, applied), actions).Some? ::
      NoneRejected(Outcome(c, Initial(c, applied), actions).value)
  }

  lemma OneMore(c: Config, s0: State, run: seq<Action>, s: State, a: Action) returns (longer: seq<Action>, t: State)
    requires Outcome(c, s0, run) == Some(s) && Enabled(c, s, a)
    ensures longer == run + [a] && t == Do(c, s, a) && Outcome(c, s0, longer) == Some(t)
  {
    longer, t := run + [a], Do(c, s, a);
    assert longer[..|longer| - 1] == run;
  }

  /** A replica starts its transaction and asks for the lock. */
  lemma Asks(c: Config, s0: State, run: seq<Action>, s: State, r: nat) returns (longer: seq<Action>, t: State)
    requires Outcome(c, s0, run) == Some(s) && ValidConfig(c) && |s.procs| == |c.keys|
    requires r < |s.procs| && s.procs[r].phase.Idle?
    ensures Outcome(c, s0, longer) == Some(t)
    ensures t == s.(procs := s.procs[r := Proc(Waiting, Level(c), s.applied)])
  {
    longer, t := OneMore(c, s0, run, s, Begin(r));
    longer, t := OneMore(c, s0, longer, t, Pin(r));
    longer, t := OneMore(c, s0, longer, t, Request(r));
    assert t.procs == s.procs[r := Proc(Waiting, Level(c), s.applied)];
  }

  /** It takes the lock and finds `v`, and nothing else, missing. */
  lemma Finds(c: Config, s0: State, run: seq<Action>, s: State, r: nat, v: Version) returns (longer: seq<Action>, t: State)
    requires Outcome(c, s0, run) == Some(s) && ValidConfig(c) && |s.procs| == |c.keys|
    requires r < |s.procs| && s.procs[r].phase.Waiting? && c.keys[r] !in s.holder
    requires c.wants[r] - (if s.procs[r].isolation == ReadCommitted then s.applied else s.procs[r].snapshot) == {v}
    ensures Outcome(c, s0, longer) == Some(t)
    ensures t == s.(holder := s.holder[c.keys[r] := r], procs := s.procs[r := s.procs[r].(phase := Applying({v}, []))])
  {
    longer, t := OneMore(c, s0, run, s, Acquire(r));
    longer, t := OneMore(c, s0, longer, t, Read(r));
    assert t.procs == s.procs[r := s.procs[r].(phase := Applying({v}, []))];
  }

  /** It applies `v` and commits. */
  lemma Adds(c: Config, s0: State, run: seq<Action>, s: State, r: nat, v: Version) returns (longer: seq<Action>, t: State)
    requires Outcome(c, s0, run) == Some(s) && ValidConfig(c) && |s.procs| == |c.keys|
    requires r < |s.procs| && s.procs[r].phase == Applying({v}, []) && v !in s.applied && !Blocked(s, r, v)
    ensures Outcome(c, s0, longer) == Some(t)
    ensures t.applied == s.applied + {v} && t.holder == Release(c, s, r)
    ensures |t.procs| == |s.procs| && forall q | 0 <= q < |s.procs| && q != r :: t.procs[q] == s.procs[q]
  {
    longer, t := OneMore(c, s0, run, s, Apply(r, v));
    assert t.procs[r].phase.todo == {} && t.procs[r].phase.done[0] == v;
    assert Elements(t.procs[r].phase.done) == {v};
    longer, t := OneMore(c, s0, longer, t, Commit(r));
  }

  /** From a table that lacks just `v`, both ask for their locks and the first one gets into its batch. */
  lemma FirstFinds(c: Config, i: nat, j: nat, v: Version) returns (run: seq<Action>, s: State)
    requires ValidConfig(c) && i < |c.keys| && j < |c.keys| && i != j && v in c.wants[i]
    ensures var applied := (c.wants[i] + c.wants[j]) - {v};
            && Outcome(c, Initial(c, applied), run) == Some(s) && |s.procs| == |c.keys|
            && s.applied == applied && s.holder == map[c.keys[i] := i]
            && s.procs[i].phase == Applying({v}, []) && s.procs[j] == Proc(Waiting, Level(c), applied)
            && forall q | 0 <= q < |s.procs| && q != i :: Inserted(s.procs[q].phase) == {}
  {
    var applied := (c.wants[i] + c.wants[j]) - {v};
    assert c.wants[i] - applied == {v};
    var s0 := Initial(c, applied);
    run, s := Asks(c, s0, [], s0, i);
    run, s := Asks(c, s0, run, s, j);
    run, s := Finds(c, s0, run, s, i, v);
  }

  /**
   Two replicas share a migration, but not the lock's key, or they do not see what is
   committed while they wait: the second one fails where it should find nothing to do.
   */
  lemma SecondIsRejected(c: Config, i: nat, j: nat, v: Version) returns (run: seq<Action>)
    requires ValidConfig(c) && i < |c.keys| && j < |c.keys| && i != j && v in c.wants[i] && v in c.wants[j]
    requires c.keys[i] != c.keys[j] || Level(c) != ReadCommitted
    ensures var end := Outcome(c, Initial(c, (c.wants[i] + c.wants[j]) - {v}), run);
            end.Some? && |end.value.procs| == |c.keys| && end.value.procs[j].phase == Rejected(v)
            && c.wants[j] <= end.value.applied
  {
    var applied := (c.wants[i] + c.wants[j]) - {v};
    assert c.wants[j] - applied == {v} && c.wants[j] <= applied + {v};
    var s0 := Initial(c, applied);
    var s;
    run, s := FirstFinds(c, i, j, v);
    if c.keys[i] != c.keys[j] {
      run, s := Finds(c, s0, run, s, j, v);
      run, s := Adds(c, s0, run, s, i, v);
    } else {
      run, s := Adds(c, s0, run, s, i, v);
      run, s := Finds(c, s0, run, s, j, v);
    }
    run, s := OneMore(c, s0, run, s, Reject(j, v));
  }

  /** No replica is ever turned away by the table's key, in any run from any table, exactly when they are coordinated. */
  lemma NeverRejectedIff(c: Config)
    requires ValidConfig(c)
    ensures NeverRejected(c) <==> Coordinated(c)
  {
    if Coordinated(c) {
      forall applied: set<Version>, actions: seq<Action> | Outcome(c, Initial(c, applied), actions).Some?
        ensures NoneRejected(Outcome(c, Initial(c, applied), actions).value)
      {
        Always(c, applied, actions);
        forall r | 0 <= r < |c.keys|
          ensures !Outcome(c, Initial(c, applied), actions).value.procs[r].phase.Rejected?
        {
          AlwaysFresh(c, applied, actions, r);
        }
      }
    } else {
      var i: nat, j: nat :| i < |c.keys| && j < |c.keys| && i != j && !(c.wants[i] !! c.wants[j])
                            && (c.keys[i] != c.keys[j] || Level(c) != ReadCommitted);
      var v :| v in c.wants[i] && v in c.wants[j];
      var run := SecondIsRejected(c, i, j, v);
      var end := Outcome(c, Initial(c, (c.wants[i] + c.wants[j]) - {v}), run).value;
      assert end.procs[j] in end.procs && !NoneRejected(end);
    }
  }

  /** Coordinated replicas can all still return `Ok`, except those that have died. */
  lemma AllCanReturn(c: Config, applied: set<Version>, actions: seq<Action>) returns (longer: seq<Action>, end: State)
    requires Coordinated(c) && Outcome(c, Initial(c, applied), actions).Some?
    ensures actions <= longer && Outcome(c, Initial(c, applied), longer) == Some(end)
    ensures var s := Outcome(c, Initial(c, applied), actions).value;
            |end.procs| == |s.procs| && forall r | 0 <= r < |s.procs| && !Over(s.procs[r].phase) :: end.procs[r].phase.Returned?
  {
    longer, end := AllCanFinish(c, applied, actions);
    NeverRejectedIff(c);
    assert NoneRejected(end);
  }

  /** Replicas that share a migration share the lock's key. */
  ghost predicate KeysShared(c: Config) {
    ValidConfig(c)
    && forall i, j | 0 <= i < |c.keys| && 0 <= j < |c.keys| && !(c.wants[i] !! c.wants[j]) :: c.keys[i] == c.keys[j]
  }

  /** Two replicas with one key and one migration. */
  function Pair(pins: bool, default: Isolation): Config {
    Config([7, 7], [{1}, {1}], default, pins)
  }

  lemma SeeingIsEnough(c: Config)
    requires KeysShared(c) && Level(c) == ReadCommitted
    ensures NeverRejected(c)
  {
    NeverRejectedIff(c);
  }

  lemma PairNeedsPin(default: Isolation)
    requires default != ReadCommitted
    ensures KeysShared(Pair(false, default)) && !NeverRejected(Pair(false, default))
  {
    var c := Pair(false, default);
    assert 1 in c.wants[0] && 1 in c.wants[1];
    NeverRejectedIff(c);
  }

  /** For all such replicas, pinning the level, or a server whose default is READ COMMITTED, is what keeps them from failing. */
  lemma PinIsWhatMatters(pins: bool, default: Isolation)
    ensures (forall c | KeysShared(c) && c.pins == pins && c.default == default :: NeverRejected(c))
            <==> pins || default == ReadCommitted
  {
    if pins || default == ReadCommitted {
      forall c | KeysShared(c) && c.pins == pins && c.default == default
        ensures NeverRejected(c)
      {
        SeeingIsEnough(c);
      }
    } else {
      PairNeedsPin(default);
    }
  }
}
