/** Waiting for the background tasks at shutdown: one deadline, the tasks awaited in turn. */
module Shutdown {
  import opened Options

  /** `TASK_SHUTDOWN_GRACE`, in milliseconds. */
  const GRACE: nat := 10_000

  /** When a task returns, if ever, and whether it does so by panicking. */
  datatype Task = Task(name: string, finish: Option<nat>, panics: bool)

  datatype Outcomes = Outcomes(failed: seq<string>, abandoned: seq<string>)

  /** How late the runtime is: in getting to a task's first poll, and in waking its waiter up. */
  datatype Lag = Lag(first: nat, wake: nat)

  predicate Finished(task: Task, now: nat) {
    task.finish.Some? && task.finish.value <= now
  }

  predicate Failed(task: Task, now: nat) {
    Finished(task, now) && task.panics
  }

  function Names(tasks: seq<Task>, chosen: seq<bool>): seq<string>
    requires |tasks| == |chosen|
  {
    if tasks == [] then []
    else
      var n := |tasks| - 1;
      Names(tasks[..n], chosen[..n]) + (if chosen[n] then [tasks[n].name] else [])
  }

  /** Each task is judged by whether it had finished when it was polled for the last time. */
  function JudgedAt(tasks: seq<Task>, polls: seq<nat>): Outcomes
    requires |tasks| == |polls|
  {
    Outcomes(Names(tasks, seq(|tasks|, i requires 0 <= i < |tasks| => Failed(tasks[i], polls[i]))),
             Names(tasks, seq(|tasks|, i requires 0 <= i < |tasks| => !Finished(tasks[i], polls[i]))))
  }

  /** Everything is judged at once, at the deadline: no order, no waiting. */
  function JudgedTogether(tasks: seq<Task>, deadline: nat): Outcomes {
    JudgedAt(tasks, seq(|tasks|, i => deadline))
  }

  function Max(a: nat, b: nat): nat {
    if a >= b then a else b
  }

  /** When there is nothing left to wait for in a task. */
  function Due(task: Task, deadline: nat): nat {
    if Finished(task, deadline) then task.finish.value else deadline
  }

  function AllDue(tasks: seq<Task>, start: nat, deadline: nat): nat {
    if tasks == [] then start else Max(AllDue(tasks[..|tasks| - 1], start, deadline), Due(tasks[|tasks| - 1], deadline))
  }

  lemma NamesNext(tasks: seq<Task>, polls: seq<nat>, n: nat, now: nat)
    requires n < |tasks| && |polls| == n
    ensures var before, after := JudgedAt(tasks[..n], polls), JudgedAt(tasks[..n + 1], polls + [now]);
            && after.failed == before.failed + (if Failed(tasks[n], now) then [tasks[n].name] else [])
            && after.abandoned == before.abandoned + (if Finished(tasks[n], now) then [] else [tasks[n].name])
  {
    var ts, ps := tasks[..n + 1], polls + [now];
    assert ts[..n] == tasks[..n];
    var f := seq(n + 1, i requires 0 <= i < n + 1 => Failed(ts[i], ps[i]));
    var a := seq(n + 1, i requires 0 <= i < n + 1 => !Finished(ts[i], ps[i]));
    assert f[..n] == seq(n, i requires 0 <= i < n => Failed(tasks[..n][i], polls[i]));
    assert a[..n] == seq(n, i requires 0 <= i < n => !Finished(tasks[..n][i], polls[i]));
  }

  /** `timeout_at(deadline, handle)`: when it was polled for the last time. */
  method Await(task: Task, now: nat, deadline: nat, lag: Lag) returns (end: nat)
    ensures end >= now && (Finished(task, end) || end >= deadline)
    ensures lag == Lag(0, 0) && now <= deadline ==> end == Max(now, Due(task, deadline)) && end <= deadline
  {
    end := now + lag.first;
    if !Finished(task, end) && end < deadline {
      // Woken by whichever comes first, the task's end or the deadline.
      end := Due(task, deadline) + lag.wake;
    }
  }

  /**
   `join_tasks`. `polls` are the times of the last polls; awaiting a handle polls the task
   first and the timer second.
   */
  method JoinTasks(tasks: seq<Task>, start: nat, lags: seq<Lag>) returns (outcomes: Outcomes, end: nat, polls: seq<nat>)
    requires |lags| == |tasks|
    ensures |polls| == |tasks| && outcomes == JudgedAt(tasks, polls)
    ensures forall i | 0 <= i < |tasks| :: Finished(tasks[i], polls[i]) || polls[i] >= start + 10_000
    ensures forall i | 0 <= i < |tasks| :: start <= polls[i] <= end
    ensures (forall i | 0 <= i < |tasks| :: lags[i] == Lag(0, 0)) ==>
              end == AllDue(tasks, start, start + 10_000) && forall i | 0 <= i < |tasks| :: polls[i] <= start + 10_000
  {
    var deadline := start + GRACE;
    outcomes, end, polls := Outcomes([], []), start, [];
    for n := 0 to |tasks|
      invariant |polls| == n && outcomes == JudgedAt(tasks[..n], polls)
      invariant forall i | 0 <= i < n :: Finished(tasks[i], polls[i]) || polls[i] >= deadline
      invariant start <= end && forall i | 0 <= i < n :: start <= polls[i] <= end
      invariant (forall i | 0 <= i < n :: lags[i] == Lag(0, 0)) ==>
                  end == AllDue(tasks[..n], start, deadline) && end <= deadline
                  && forall i | 0 <= i < n :: polls[i] <= deadline
    {
      end := Await(tasks[n], end, deadline, lags[n]);
      NamesNext(tasks, polls, n, end);
      assert tasks[..n + 1][..n] == tasks[..n];
      polls := polls + [end];
      if Finished(tasks[n], end) {
        if tasks[n].panics {
          outcomes := outcomes.(failed := outcomes.failed + [tasks[n].name]);
        }
      } else {
        outcomes := outcomes.(abandoned := outcomes.abandoned + [tasks[n].name]);
      }
    }
    assert tasks[..|tasks|] == tasks;
  }

  /** `names` are, in the order of the list, the names of the tasks at these places. */
  ghost predicate NamesAt(tasks: seq<Task>, names: seq<string>, places: seq<nat>) {
    && |places| == |names| && (forall k | 0 <= k < |places| :: places[k] < |tasks| && names[k] == tasks[places[k]].name)
    && (forall k, l | 0 <= k < l < |places| :: places[k] < places[l])
  }

  lemma OneMorePlace(tasks: seq<Task>, names: seq<string>, places: seq<nat>, taken: bool)
    requires tasks != [] && NamesAt(tasks[..|tasks| - 1], names, places)
    ensures var n := |tasks| - 1;
            NamesAt(tasks, names + (if taken then [tasks[n].name] else []), places + (if taken then [n] else []))
  {
    assert forall k | 0 <= k < |places| :: places[k] < |tasks| - 1;
  }

  ghost predicate PlacesOf(places: seq<nat>, chosen: seq<bool>) {
    forall i: nat :: i in places <==> i < |chosen| && chosen[i]
  }

  lemma OneMoreChosen(places: seq<nat>, chosen: seq<bool>)
    requires chosen != [] && PlacesOf(places, chosen[..|chosen| - 1])
    ensures PlacesOf(places + (if chosen[|chosen| - 1] then [|chosen| - 1] else []), chosen)
  {
    var n := |chosen| - 1;
    forall i: nat
      ensures i in places + (if chosen[n] then [n] else []) <==> i < |chosen| && chosen[i]
    {
      assert i < n ==> chosen[..n][i] == chosen[i];
    }
  }

  lemma {:induction false} NamesPlaces(tasks: seq<Task>, chosen: seq<bool>) returns (places: seq<nat>)
    requires |tasks| == |chosen|
    ensures NamesAt(tasks, Names(tasks, chosen), places) && PlacesOf(places, chosen)
  {
    places := [];
    if tasks != [] {
      var n := |tasks| - 1;
      var init := NamesPlaces(tasks[..n], chosen[..n]);
      OneMorePlace(tasks, Names(tasks[..n], chosen[..n]), init, chosen[n]);
      OneMoreChosen(init, chosen);
      places := init + (if chosen[n] then [n] else []);
    }
  }

  /**
   The lists in plain terms: failed are the tasks that had panicked when last polled,
   abandoned those that had not returned by then, each once and in the order of the list.
   */
  lemma JudgedMeans(tasks: seq<Task>, polls: seq<nat>) returns (failed: seq<nat>, abandoned: seq<nat>)
    requires |tasks| == |polls|
    ensures NamesAt(tasks, JudgedAt(tasks, polls).failed, failed) && NamesAt(tasks, JudgedAt(tasks, polls).abandoned, abandoned)
    ensures forall i: nat :: i in failed <==>
              i < |tasks| && tasks[i].finish.Some? && tasks[i].finish.value <= polls[i] && tasks[i].panics
    ensures forall i: nat :: i in abandoned <==>
              i < |tasks| && (tasks[i].finish.None? || tasks[i].finish.value > polls[i])
  {
    failed := NamesPlaces(tasks, seq(|tasks|, i requires 0 <= i < |tasks| => Failed(tasks[i], polls[i])));
    abandoned := NamesPlaces(tasks, seq(|tasks|, i requires 0 <= i < |tasks| => !Finished(tasks[i], polls[i])));
  }

  /** In ideal time: who panicked by the deadline, and who had not returned by then. */
  lemma TogetherMeans(tasks: seq<Task>, deadline: nat) returns (failed: seq<nat>, abandoned: seq<nat>)
    ensures var outcomes := JudgedTogether(tasks, deadline);
            NamesAt(tasks, outcomes.failed, failed) && NamesAt(tasks, outcomes.abandoned, abandoned)
    ensures forall i: nat :: i in failed <==>
              i < |tasks| && tasks[i].finish.Some? && tasks[i].finish.value <= deadline && tasks[i].panics
    ensures forall i: nat :: i in abandoned <==>
              i < |tasks| && (tasks[i].finish.None? || tasks[i].finish.value > deadline)
  {
    failed, abandoned := JudgedMeans(tasks, seq(|tasks|, i => deadline));
  }

  /** However late the runtime runs: what finished by the deadline is never abandoned, and its panic is not lost. */
  lemma {:induction false} DeadlineRespected(tasks: seq<Task>, polls: seq<nat>, deadline: nat, i: nat)
    requires |polls| == |tasks| && i < |tasks|
    requires forall j | 0 <= j < |tasks| :: Finished(tasks[j], polls[j]) || polls[j] >= deadline
    ensures Failed(tasks[i], deadline) ==> tasks[i].name in JudgedAt(tasks, polls).failed
    ensures forall name | name in JudgedAt(tasks, polls).abandoned ::
              exists j :: 0 <= j < |tasks| && tasks[j].name == name && !Finished(tasks[j], deadline)
  {
    var f := seq(|tasks|, j requires 0 <= j < |tasks| => Failed(tasks[j], polls[j]));
    var a := seq(|tasks|, j requires 0 <= j < |tasks| => !Finished(tasks[j], polls[j]));
    if Failed(tasks[i], deadline) {
      NamesHas(tasks, f, i);
    }
    forall name | name in JudgedAt(tasks, polls).abandoned
      ensures exists j :: 0 <= j < |tasks| && tasks[j].name == name && !Finished(tasks[j], deadline)
    {
      var j := NamesFrom(tasks, a, name);
    }
  }

  lemma {:induction false} NamesHas(tasks: seq<Task>, chosen: seq<bool>, i: nat)
    requires |tasks| == |chosen| && i < |tasks| && chosen[i]
    ensures tasks[i].name in Names(tasks, chosen)
  {
    var n := |tasks| - 1;
    if i < n {
      NamesHas(tasks[..n], chosen[..n], i);
    }
  }

  lemma {:induction false} NamesFrom(tasks: seq<Task>, chosen: seq<bool>, name: string) returns (j: nat)
    requires |tasks| == |chosen| && name in Names(tasks, chosen)
    ensures j < |tasks| && chosen[j] && tasks[j].name == name
  {
    var n := |tasks| - 1;
    if chosen[n] && tasks[n].name == name {
      j := n;
    } else {
      j := NamesFrom(tasks[..n], chosen[..n], name);
    }
  }

  /** In ideal time, awaiting in turn is the same as judging all tasks together at the deadline. */
  lemma InTurnIsTogether(tasks: seq<Task>, polls: seq<nat>, deadline: nat)
    requires |polls| == |tasks|
    requires forall i | 0 <= i < |tasks| :: Finished(tasks[i], polls[i]) || polls[i] >= deadline
    requires forall i | 0 <= i < |tasks| :: polls[i] <= deadline
    ensures JudgedAt(tasks, polls) == JudgedTogether(tasks, deadline)
  {
    var late := seq(|tasks|, i => deadline);
    assert forall i | 0 <= i < |tasks| :: Finished(tasks[i], polls[i]) == Finished(tasks[i], late[i]);
    assert seq(|tasks|, i requires 0 <= i < |tasks| => Failed(tasks[i], polls[i]))
        == seq(|tasks|, i requires 0 <= i < |tasks| => Failed(tasks[i], late[i]));
    assert seq(|tasks|, i requires 0 <= i < |tasks| => !Finished(tasks[i], polls[i]))
        == seq(|tasks|, i requires 0 <= i < |tasks| => !Finished(tasks[i], late[i]));
  }

  /** A method with no lag therefore reports exactly that, and ends when the last task is due. */
  method JoinTasksOnTime(tasks: seq<Task>, start: nat) returns (outcomes: Outcomes, end: nat)
    ensures outcomes == JudgedTogether(tasks, start + 10_000)
    ensures end == AllDue(tasks, start, start + 10_000)
  {
    var polls;
    outcomes, end, polls := JoinTasks(tasks, start, seq(|tasks|, i => Lag(0, 0)));
    InTurnIsTogether(tasks, polls, start + GRACE);
  }

  /** The end is the earlier of the deadline and the last finish. */
  lemma {:induction false} AllDueMeaning(tasks: seq<Task>, start: nat, deadline: nat)
    requires start <= deadline
    ensures var end := AllDue(tasks, start, deadline);
            && start <= end <= deadline
            && (end == deadline || forall i | 0 <= i < |tasks| :: Finished(tasks[i], end))
            && (end == start || (exists i | 0 <= i < |tasks| :: tasks[i].finish == Some(end))
                || (exists i | 0 <= i < |tasks| :: !Finished(tasks[i], deadline)))
  {
    if tasks != [] {
      var init, last := tasks[..|tasks| - 1], tasks[|tasks| - 1];
      AllDueMeaning(init, start, deadline);
      assert forall i | 0 <= i < |init| :: tasks[i] == init[i];
      assert tasks[|tasks| - 1] == last;
    }
  }

  // ---- the order of the list ----

  function CountOf(tasks: seq<Task>, deadline: nat, failed: bool): multiset<string> {
    if tasks == [] then multiset{}
    else
      var t := tasks[|tasks| - 1];
      CountOf(tasks[..|tasks| - 1], deadline, failed)
      + (if (if failed then Failed(t, deadline) else !Finished(t, deadline)) then multiset{t.name} else multiset{})
  }

  lemma {:induction false} TogetherCounts(tasks: seq<Task>, deadline: nat)
    ensures multiset(JudgedTogether(tasks, deadline).failed) == CountOf(tasks, deadline, true)
    ensures multiset(JudgedTogether(tasks, deadline).abandoned) == CountOf(tasks, deadline, false)
  {
    if tasks != [] {
      var n := |tasks| - 1;
      TogetherCounts(tasks[..n], deadline);
      NamesNext(tasks, seq(n, i => deadline), n, deadline);
      assert seq(n, i => deadline) + [deadline] == seq(n + 1, i => deadline);
      assert tasks[..n + 1] == tasks;
    }
  }

  lemma {:induction false} CountConcat(a: seq<Task>, b: seq<Task>, deadline: nat, failed: bool)
    ensures CountOf(a + b, deadline, failed) == CountOf(a, deadline, failed) + CountOf(b, deadline, failed)
  {
    if b == [] {
      assert a + b == a;
    } else {
      var init := b[..|b| - 1];
      assert (a + b)[..|a + b| - 1] == a + init;
      CountConcat(a, init, deadline, failed);
    }
  }

  lemma CountTakeOut(tasks: seq<Task>, deadline: nat, failed: bool, i: nat)
    requires i < |tasks|
    ensures CountOf(tasks, deadline, failed)
            == CountOf(tasks[..i] + tasks[i + 1..], deadline, failed) + CountOf([tasks[i]], deadline, failed)
  {
    var before, t, after := tasks[..i], [tasks[i]], tasks[i + 1..];
    assert tasks == before + t + after;
    CountConcat(before + t, after, deadline, failed);
    CountConcat(before, t, deadline, failed);
    CountConcat(before, after, deadline, failed);
  }

  /** Taking the same element out of two lists with the same elements leaves lists with the same elements. */
  lemma TakeOutSame<T>(a: seq<T>, b: seq<T>) returns (i: nat)
    requires multiset(a) == multiset(b) && a != []
    ensures i < |b| && b[i] == a[0] && multiset(a[1..]) == multiset(b[..i] + b[i + 1..])
  {
    assert a[0] in multiset(b);
    i :| i < |b| && b[i] == a[0];
    assert a == [a[0]] + a[1..];
    assert b == b[..i] + [b[i]] + b[i + 1..];
    assert multiset(a[1..]) == multiset(a) - multiset{a[0]};
    assert multiset(b[..i] + b[i + 1..]) == multiset(b) - multiset{b[i]};
  }

  lemma {:induction false} CountPermuted(a: seq<Task>, b: seq<Task>, deadline: nat, failed: bool)
    requires multiset(a) == multiset(b)
    ensures CountOf(a, deadline, failed) == CountOf(b, deadline, failed)
    decreases |a|
  {
    if a == [] {
      assert |multiset(b)| == |b|;
    } else {
      var i := TakeOutSame(a, b);
      CountPermuted(a[1..], b[..i] + b[i + 1..], deadline, failed);
      CountTakeOut(b, deadline, failed, i);
      CountConcat([a[0]], a[1..], deadline, failed);
      assert a == [a[0]] + a[1..];
    }
  }

  /** Which tasks are reported does not depend on the order in which they are awaited. */
  lemma OrderDoesNotMatter(a: seq<Task>, b: seq<Task>, deadline: nat)
    requires multiset(a) == multiset(b)
    ensures multiset(JudgedTogether(a, deadline).failed) == multiset(JudgedTogether(b, deadline).failed)
    ensures multiset(JudgedTogether(a, deadline).abandoned) == multiset(JudgedTogether(b, deadline).abandoned)
  {
    TogetherCounts(a, deadline);
    TogetherCounts(b, deadline);
    CountPermuted(a, b, deadline, true);
    CountPermuted(a, b, deadline, false);
  }
}
