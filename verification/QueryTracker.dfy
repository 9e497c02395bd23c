/**
 The in-flight query spans of `diesel-sentry`: a bounded queue in which a finish is
 matched to its start by a key made from the SQL text.
 */
module QueryTracker {
  import opened Options
  import opened BindsCut
  import opened Search

  const MAX_IN_FLIGHT: nat := 32

  /** A `db.query` span; `id` counts the spans in the order they were created. */
  datatype Span = Span(id: nat, sql: string)

  datatype Entry = Entry(key: int, span: Span)

  /** Diesel's two query events, after the query is rendered to its SQL text. */
  datatype Event = Start(sql: string, enabled: bool) | Finish(sql: string)

  /** The queue, and what became of every span that was ever created. */
  datatype Tracker = Tracker(open: seq<Entry>, started: seq<Span>, finished: seq<Span>, evicted: seq<Span>)

  const EMPTY: Tracker := Tracker([], [], [], [])

  /** The oldest entry with this key: `iter().position(|(known, _)| *known == key)`. */
  function Position(q: seq<Entry>, key: int): (r: Option<nat>)
    ensures r.Some? ==> r.value < |q| && q[r.value].key == key && forall i | 0 <= i < r.value :: q[i].key != key
    ensures r.None? ==> forall i | 0 <= i < |q| :: q[i].key != key
  {
    if q == [] then None
    else if q[0].key == key then Some(0)
    else match Position(q[1..], key) case Some(i) => Some(i + 1) case None => None
  }

  function RemoveAt<T>(q: seq<T>, i: nat): seq<T>
    requires i < |q|
  {
    q[..i] + q[i + 1..]
  }

  /** Which entry `finish_query` takes out: the only one unseen, else the oldest with the key. */
  function Chosen(q: seq<Entry>, key: int): (r: Option<nat>)
    ensures r.Some? ==> r.value < |q|
  {
    if |q| <= 1 then (if q == [] then None else Some(0)) else Position(q, key)
  }

  /** Beyond the bound the oldest span is dropped. */
  function MakeRoom(t: Tracker): Tracker {
    if |t.open| == MAX_IN_FLIGHT then t.(open := t.open[1..], evicted := t.evicted + [t.open[0].span]) else t
  }

  function Push(t: Tracker, key: int, sql: string): Tracker {
    var span := Span(|t.started|, sql);
    t.(open := t.open + [Entry(key, span)], started := t.started + [span])
  }

  function Close(t: Tracker, chosen: Option<nat>): Tracker
    requires chosen.Some? ==> chosen.value < |t.open|
  {
    match chosen
    case Some(i) => t.(open := RemoveAt(t.open, i), finished := t.finished + [t.open[i].span])
    case None => t
  }

  function Step(hash: string -> int, t: Tracker, e: Event): Tracker {
    match e
    case Start(sql, enabled) => if enabled then Push(MakeRoom(t), hash(sql), sql) else t
    case Finish(sql) => Close(t, Chosen(t.open, hash(sql)))
  }

  function Run(hash: string -> int, events: seq<Event>): Tracker {
    if events == [] then EMPTY else Step(hash, Run(hash, events[..|events| - 1]), events[|events| - 1])
  }

  class SentryInstrumentation {
    const hash: string -> int
    var queries: seq<Entry>
    /** The scratch buffer each query is rendered into. */
    var sql: string
    /** How many spans `tracing` has handed out here: their identity. */
    var created: nat
    ghost var tracker: Tracker

    ghost predicate Valid()
      reads this
    {
      queries == tracker.open && |queries| <= MAX_IN_FLIGHT && created == |tracker.started|
    }

    constructor (hash: string -> int)
      ensures Valid() && tracker == EMPTY && this.hash == hash
    {
      this.hash := hash;
      queries, sql, created, tracker := [], "", 0, EMPTY;
    }

    method StartQuery(chunks: seq<string>, heedsErrors: bool, enabled: bool)
      requires Valid()
      modifies this
      ensures Valid()
      ensures tracker == Step(hash, old(tracker), Start(SqlText(Concat(chunks)), enabled))
    {
      if !enabled {
        return;
      }
      sql := WriteSql(chunks, heedsErrors);
      var span := Span(created, sql);
      created := created + 1;
      if |queries| == MAX_IN_FLIGHT {
        queries := queries[1..];
      }
      queries := queries + [Entry(hash(sql), span)];
      tracker := Step(hash, tracker, Start(sql, true));
    }

    /** Returns the entry whose span is closed, on which an error would be recorded. */
    method FinishQuery(chunks: seq<string>, heedsErrors: bool) returns (closed: Option<Entry>)
      requires Valid()
      modifies this
      ensures Valid()
      ensures tracker == Step(hash, old(tracker), Finish(SqlText(Concat(chunks))))
      ensures closed.Some? <==> |tracker.finished| > |old(tracker.finished)|
      ensures closed.Some? ==> tracker.finished == old(tracker.finished) + [closed.value.span]
      ensures |old(queries)| >= 2 && (forall e | e in old(queries) :: e.key != hash(SqlText(Concat(chunks)))) ==>
                closed == None && queries == old(queries)
    {
      tracker := Step(hash, tracker, Finish(SqlText(Concat(chunks))));
      closed := None;
      if |queries| <= 1 {
        if queries != [] {
          closed := Some(queries[0]);
          queries := queries[1..];
        }
      } else {
        sql := WriteSql(chunks, heedsErrors);
        var index := Position(queries, hash(sql));
        if index.Some? {
          closed := Some(queries[index.value]);
          queries := RemoveAt(queries, index.value);
        }
      }
    }
  }

  /** Diesel renders a start with its binds; its finish has the same text, hence the same key. */
  lemma StartAndFinishShareKey(hash: string -> int, startChunks: seq<string>, finishChunks: seq<string>,
                               sql: string, binds: string)
    requires Concat(startChunks) == sql + BINDS_MARKER + binds
    requires Concat(finishChunks) == sql || exists other :: Concat(finishChunks) == sql + BINDS_MARKER + other
    ensures SqlText(Concat(startChunks)) == SqlText(Concat(finishChunks))
    ensures hash(SqlText(Concat(startChunks))) == hash(SqlText(Concat(finishChunks)))
  {
    StartAndFinishRenderAlike(sql, binds);
    if Concat(finishChunks) != sql {
      var other :| Concat(finishChunks) == sql + BINDS_MARKER + other;
      StartAndFinishRenderAlike(sql, other);
    }
  }

  // ---- what one event does ----

  /** A start adds its span at the end, in the place of the oldest one when the queue is full; unheard, it adds nothing. */
  lemma StartTakesIn(hash: string -> int, t: Tracker, sql: string)
    ensures Step(hash, t, Start(sql, false)) == t
    ensures var u, span := Step(hash, t, Start(sql, true)), Span(|t.started|, sql);
            && u.started == t.started + [span] && u.finished == t.finished
            && (|t.open| != 32 ==> u.open == t.open + [Entry(hash(sql), span)] && u.evicted == t.evicted)
            && (|t.open| == 32 ==> u.open == t.open[1..] + [Entry(hash(sql), span)] && u.evicted == t.evicted + [t.open[0].span])
  {
  }

  /**
   A finish among several open spans takes out the first with its key, and leaves the queue
   alone when there is none; a lone span is taken out whatever its key.
   */
  lemma FinishTakesOut(hash: string -> int, t: Tracker, sql: string)
    ensures var u := Step(hash, t, Finish(sql));
            && u.started == t.started && u.evicted == t.evicted
            && (|t.open| == 0 ==> u == t)
            && (|t.open| == 1 ==> u.open == [] && u.finished == t.finished + [t.open[0].span])
            && (|t.open| >= 2 && (forall e | e in t.open :: e.key != hash(sql)) ==> u == t)
            && (forall i | 0 <= i < |t.open| && |t.open| >= 2 && t.open[i].key == hash(sql)
                           && forall j | 0 <= j < i :: t.open[j].key != hash(sql) ::
                  u.open == t.open[..i] + t.open[i + 1..] && u.finished == t.finished + [t.open[i].span])
  {
    NoPosition(t.open, hash(sql));
    forall i | 0 <= i < |t.open| && t.open[i].key == hash(sql) && forall j | 0 <= j < i :: t.open[j].key != hash(sql)
      ensures Position(t.open, hash(sql)) == Some(i)
    {
      PositionUnique(t.open, hash(sql), i);
    }
  }

  lemma NoPosition(q: seq<Entry>, key: int)
    ensures (forall e | e in q :: e.key != key) ==> Position(q, key) == None
  {
    if Position(q, key).Some? {
      assert q[Position(q, key).value] in q;
    }
  }

  lemma PositionUnique(q: seq<Entry>, key: int, i: nat)
    requires i < |q| && q[i].key == key && forall j | 0 <= j < i :: q[j].key != key
    ensures Position(q, key) == Some(i)
  {
    assert Position(q, key).Some?;
  }

  // ---- every run, well-formed or not ----

  function Spans(q: seq<Entry>): seq<Span> {
    seq(|q|, i requires 0 <= i < |q| => q[i].span)
  }

  /** The open spans are an in-order selection of the started ones, all younger than the evicted ones. */
  ghost predicate Ordered(hash: string -> int, t: Tracker) {
    && |t.open| <= 32
    && (forall i | 0 <= i < |t.started| :: t.started[i].id == i)
    && (forall i | 0 <= i < |t.open| :: t.open[i].span.id < |t.started| && t.open[i].span == t.started[t.open[i].span.id])
    && (forall i | 0 <= i < |t.open| :: t.open[i].key == hash(t.open[i].span.sql))
    && (forall i, j | 0 <= i < j < |t.open| :: t.open[i].span.id < t.open[j].span.id)
    && (forall i, j | 0 <= i < |t.evicted| && 0 <= j < |t.open| :: t.evicted[i].id < t.open[j].span.id)
    && (forall i | 0 <= i < |t.evicted| :: t.evicted[i].id < |t.started|)
  }

  /** Every started span is open, finished or evicted, and no span is two of these. */
  ghost predicate Balanced(t: Tracker) {
    multiset(t.started) == multiset(Spans(t.open)) + multiset(t.finished) + multiset(t.evicted)
  }

  lemma MultisetRemoveAt<T>(q: seq<T>, i: nat)
    requires i < |q|
    ensures multiset(q) == multiset(RemoveAt(q, i)) + multiset{q[i]}
  {
    assert q == q[..i] + [q[i]] + q[i + 1..];
  }

  lemma MakeRoomBalanced(t: Tracker)
    requires Balanced(t)
    ensures Balanced(MakeRoom(t))
  {
    if |t.open| == MAX_IN_FLIGHT {
      assert Spans(t.open) == [t.open[0].span] + Spans(t.open[1..]);
    }
  }

  lemma MakeRoomKeeps(hash: string -> int, t: Tracker)
    requires Ordered(hash, t) && Balanced(t)
    ensures Ordered(hash, MakeRoom(t)) && Balanced(MakeRoom(t)) && |MakeRoom(t).open| < MAX_IN_FLIGHT
  {
    MakeRoomBalanced(t);
  }

  lemma PushBalanced(t: Tracker, key: int, sql: string)
    requires Balanced(t)
    ensures Balanced(Push(t, key, sql))
  {
    assert Spans(Push(t, key, sql).open) == Spans(t.open) + [Span(|t.started|, sql)];
  }

  lemma PushKeeps(hash: string -> int, t: Tracker, sql: string)
    requires Ordered(hash, t) && Balanced(t) && |t.open| < MAX_IN_FLIGHT
    ensures Ordered(hash, Push(t, hash(sql), sql)) && Balanced(Push(t, hash(sql), sql))
  {
    PushBalanced(t, hash(sql), sql);
  }

  lemma CloseOrdered(hash: string -> int, t: Tracker, i: nat)
    requires Ordered(hash, t) && i < |t.open|
    ensures Ordered(hash, Close(t, Some(i)))
  {
    var q := RemoveAt(t.open, i);
    assert forall j | 0 <= j < |q| :: q[j] == t.open[if j < i then j else j + 1];
  }

  lemma CloseBalanced(t: Tracker, i: nat)
    requires Balanced(t) && i < |t.open|
    ensures Balanced(Close(t, Some(i)))
  {
    MultisetRemoveAt(Spans(t.open), i);
    assert Spans(RemoveAt(t.open, i)) == RemoveAt(Spans(t.open), i);
  }

  lemma {:induction false} RunConserves(hash: string -> int, events: seq<Event>)
    ensures Ordered(hash, Run(hash, events)) && Balanced(Run(hash, events))
  {
    if events != [] {
      var init, e := events[..|events| - 1], events[|events| - 1];
      RunConserves(hash, init);
      StepConserves(hash, Run(hash, init), e);
    }
  }

  lemma StepConserves(hash: string -> int, t: Tracker, e: Event)
    requires Ordered(hash, t) && Balanced(t)
    ensures Ordered(hash, Step(hash, t, e)) && Balanced(Step(hash, t, e))
    ensures var u := Step(hash, t, e);
            u.evicted == t.evicted || (e.Start? && |t.open| == MAX_IN_FLIGHT && u.evicted == t.evicted + [t.open[0].span])
  {
    match e
    case Start(sql, enabled) =>
      if enabled {
        MakeRoomKeeps(hash, t);
        PushKeeps(hash, MakeRoom(t), sql);
      }
    case Finish(sql) =>
      var chosen := Chosen(t.open, hash(sql));
      if chosen.Some? {
        CloseOrdered(hash, t, chosen.value);
        CloseBalanced(t, chosen.value);
      }
  }

  /** Each span is closed at most once: it is open, finished or evicted, and only one of these, once. */
  lemma ClosedAtMostOnce(hash: string -> int, events: seq<Event>, span: Span)
    ensures var t := Run(hash, events);
            && multiset(t.finished)[span] + multiset(t.evicted)[span] + multiset(Spans(t.open))[span] <= 1
            && |t.started| == |t.open| + |t.finished| + |t.evicted|
  {
    RunConserves(hash, events);
    var t := Run(hash, events);
    DistinctCount(t.started, span);
    assert |multiset(t.started)| == |t.started|;
  }

  lemma {:induction false} DistinctCount(started: seq<Span>, span: Span)
    requires forall i | 0 <= i < |started| :: started[i].id == i
    ensures multiset(started)[span] <= 1
  {
    if started != [] {
      var init := started[..|started| - 1];
      DistinctCount(init, span);
      assert started == init + [started[|started| - 1]];
    }
  }

  // ---- when a finish closes the span of its own query ----

  /** The oldest open span with this very SQL. */
  function FirstWith(q: seq<Span>, sql: string): (r: Option<nat>)
    ensures r.Some? ==> r.value < |q| && q[r.value].sql == sql && forall i | 0 <= i < r.value :: q[i].sql != sql
    ensures r.None? ==> forall i | 0 <= i < |q| :: q[i].sql != sql
  {
    if q == [] then None
    else if q[0].sql == sql then Some(0)
    else match FirstWith(q[1..], sql) case Some(i) => Some(i + 1) case None => None
  }

  /** What the tracker is meant to do: a finish closes the oldest open span of its own SQL, or nothing. */
  function IdealStep(hash: string -> int, t: Tracker, e: Event): Tracker {
    if e.Start? then Step(hash, t, e)
    else match FirstWith(Spans(t.open), e.sql)
         case Some(i) => t.(open := t.open[..i] + t.open[i + 1..], finished := t.finished + [t.open[i].span])
         case None => t
  }

  function IdealRun(hash: string -> int, events: seq<Event>): Tracker {
    if events == [] then EMPTY else IdealStep(hash, IdealRun(hash, events[..|events| - 1]), events[|events| - 1])
  }

  /** The fast path is about to close the only open span although it belongs to another query. */
  predicate LoneMismatch(t: Tracker, e: Event) {
    e.Finish? && |t.open| == 1 && t.open[0].span.sql != e.sql
  }

  ghost predicate KeysTellApart(hash: string -> int, texts: set<string>) {
    forall a, b | a in texts && b in texts && hash(a) == hash(b) :: a == b
  }

  function Texts(events: seq<Event>): set<string> {
    set e | e in events :: e.sql
  }

  /** When the key singles out the SQL, searching by key finds the oldest span of that SQL. */
  lemma {:induction false} PositionAgrees(q: seq<Entry>, key: int, sql: string)
    requires forall i | 0 <= i < |q| :: q[i].key == key <==> q[i].span.sql == sql
    ensures Position(q, key) == FirstWith(Spans(q), sql)
  {
    if q != [] {
      assert Spans(q)[1..] == Spans(q[1..]);
      PositionAgrees(q[1..], key, sql);
    }
  }

  lemma FinishIsIdealIff(hash: string -> int, t: Tracker, e: Event, texts: set<string>)
    requires Ordered(hash, t) && KeysTellApart(hash, texts) && e.sql in texts
    requires forall i | 0 <= i < |t.open| :: t.open[i].span.sql in texts
    ensures Step(hash, t, e) == IdealStep(hash, t, e) <==> !LoneMismatch(t, e)
  {
    if e.Finish? {
      PositionAgrees(t.open, hash(e.sql), e.sql);
      if LoneMismatch(t, e) {
        assert |Close(t, Some(0)).finished| != |t.finished|;
      }
    }
  }

  lemma {:induction false} OpenTextsKnown(hash: string -> int, events: seq<Event>)
    ensures forall i | 0 <= i < |Run(hash, events).open| :: Run(hash, events).open[i].span.sql in Texts(events)
  {
    if events != [] {
      var init, e := events[..|events| - 1], events[|events| - 1];
      OpenTextsKnown(hash, init);
      assert e in events && Texts(init) <= Texts(events) && e.sql in Texts(events);
      var t, u := Run(hash, init), Run(hash, events);
      assert forall entry | entry in u.open :: entry in t.open || entry.span.sql == e.sql;
    }
  }

  /** After every event so far, the tracker is in the state of the ideal one. */
  ghost predicate IdealThroughout(hash: string -> int, events: seq<Event>) {
    Run(hash, events) == IdealRun(hash, events)
    && (events != [] ==> IdealThroughout(hash, events[..|events| - 1]))
  }

  /** No finish so far met a lone span of another query. */
  ghost predicate NeverLoneMismatch(hash: string -> int, events: seq<Event>) {
    events != [] ==>
      && NeverLoneMismatch(hash, events[..|events| - 1])
      && !LoneMismatch(Run(hash, events[..|events| - 1]), events[|events| - 1])
  }

  /**
   In any run at all, bounded queue and evictions included: the tracker agrees with the
   ideal one throughout exactly when no finish ever meets a lone span of another query.
   */
  lemma {:induction false} TracksOwnQueriesIff(hash: string -> int, events: seq<Event>, texts: set<string>)
    requires KeysTellApart(hash, texts) && Texts(events) <= texts
    ensures IdealThroughout(hash, events) <==> NeverLoneMismatch(hash, events)
  {
    if events != [] {
      var init, e := events[..|events| - 1], events[|events| - 1];
      assert Texts(init) <= Texts(events) && e.sql in Texts(events);
      TracksOwnQueriesIff(hash, init, texts);
      RunConserves(hash, init);
      OpenTextsKnown(hash, init);
      FinishIsIdealIff(hash, Run(hash, init), e, texts);
    }
  }

  /**
   The fast path does close another query's span: the second query starts while nobody
   listens to spans, so it has none, and finishes while the first one is still in flight.
   */
  lemma FastPathClosesAnother(hash: string -> int)
    ensures var t := Run(hash, [Start("SELECT 1", true), Start("SELECT 2", false), Finish("SELECT 2")]);
            t.open == [] && t.finished == [Span(0, "SELECT 1")]
  {
    var one, two, three := Start("SELECT 1", true), Start("SELECT 2", false), Finish("SELECT 2");
    assert [one, two, three][..2] == [one, two] && [one, two][..1] == [one] && [one][..0] == [];
    assert Run(hash, [one]) == Step(hash, EMPTY, one);
    assert Run(hash, [one, two]) == Run(hash, [one]);
  }

  /** With both queries in the queue, and keys that differ, the same finish closes its own. */
  lemma KeySearchClosesOwn(hash: string -> int)
    requires hash("SELECT 1") != hash("SELECT 2")
    ensures var t := Run(hash, [Start("SELECT 1", true), Start("SELECT 2", true), Finish("SELECT 2")]);
            Spans(t.open) == [Span(0, "SELECT 1")] && t.finished == [Span(1, "SELECT 2")]
  {
    var one, two, three := Start("SELECT 1", true), Start("SELECT 2", true), Finish("SELECT 2");
    assert [one, two, three][..2] == [one, two] && [one, two][..1] == [one] && [one][..0] == [];
    assert Run(hash, [one]) == Step(hash, EMPTY, one);
    var entries := [Entry(hash("SELECT 1"), Span(0, "SELECT 1")), Entry(hash("SELECT 2"), Span(1, "SELECT 2"))];
    assert Run(hash, [one, two]).open == entries;
    assert Position(entries, hash("SELECT 2")) == Some(1);
  }

  // ---- well-formed runs ----

  /** A first-in-first-out queue for each SQL text: no bound, no key, no fast path. */
  datatype Fifo = Fifo(open: seq<Span>, closed: seq<Span>, started: nat)

  function FifoStep(f: Fifo, e: Event): Fifo {
    match e
    case Start(sql, _) => f.(open := f.open + [Span(f.started, sql)], started := f.started + 1)
    case Finish(sql) =>
      match FirstWith(f.open, sql)
      case Some(i) => f.(open := f.open[..i] + f.open[i + 1..], closed := f.closed + [f.open[i]])
      case None => f
  }

  function FifoRun(events: seq<Event>): Fifo {
    if events == [] then Fifo([], [], 0) else FifoStep(FifoRun(events[..|events| - 1]), events[|events| - 1])
  }

  /** Spans are enabled, every finish belongs to an open start, and at most 32 queries are open. */
  ghost predicate WellFormed(events: seq<Event>) {
    forall n | 0 <= n < |events| ::
      match events[n]
      case Start(_, enabled) => enabled && |FifoRun(events[..n]).open| < MAX_IN_FLIGHT
      case Finish(sql) => FirstWith(FifoRun(events[..n]).open, sql).Some?
  }

  ghost predicate Refines(t: Tracker, f: Fifo) {
    Spans(t.open) == f.open && t.finished == f.closed && t.evicted == [] && |t.started| == f.started
  }

  lemma FinishRefines(t: Tracker, f: Fifo, sql: string)
    requires Refines(t, f) && FirstWith(f.open, sql).Some?
    ensures Refines(Close(t, FirstWith(Spans(t.open), sql)), FifoStep(f, Finish(sql)))
    ensures |t.open| == 1 ==> t.open[0].span.sql == sql
  {
    var i := FirstWith(f.open, sql).value;
    assert Spans(RemoveAt(t.open, i)) == RemoveAt(f.open, i);
  }

  lemma StepRefines(hash: string -> int, t: Tracker, f: Fifo, e: Event, texts: set<string>)
    requires Ordered(hash, t) && Refines(t, f) && KeysTellApart(hash, texts) && e.sql in texts
    requires forall i | 0 <= i < |t.open| :: t.open[i].span.sql in texts
    requires e.Start? ==> e.enabled && |f.open| < MAX_IN_FLIGHT
    requires e.Finish? ==> FirstWith(f.open, e.sql).Some?
    ensures Refines(Step(hash, t, e), FifoStep(f, e))
  {
    if e.Finish? {
      FinishRefines(t, f, e.sql);
      FinishIsIdealIff(hash, t, e, texts);
    } else {
      assert Spans(t.open + [Entry(hash(e.sql), Span(|t.started|, e.sql))]) == f.open + [Span(f.started, e.sql)];
    }
  }

  /** In a well-formed run the tracker is that queue: it closes what the queue closes and evicts nothing. */
  lemma {:induction false} RunRefinesFifo(hash: string -> int, events: seq<Event>, texts: set<string>)
    requires WellFormed(events) && KeysTellApart(hash, texts) && Texts(events) <= texts
    ensures Refines(Run(hash, events), FifoRun(events))
  {
    if events != [] {
      var init, e := events[..|events| - 1], events[|events| - 1];
      assert forall n | 0 <= n < |init| :: init[..n] == events[..n] && init[n] == events[n];
      assert Texts(init) <= Texts(events) && e.sql in Texts(events);
      RunRefinesFifo(hash, init, texts);
      RunConserves(hash, init);
      OpenTextsKnown(hash, init);
      StepRefines(hash, Run(hash, init), FifoRun(init), e, texts);
    }
  }
}
