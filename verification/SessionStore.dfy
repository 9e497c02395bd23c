/** Sessions in the `auth_sessions` table, one row per session id. */
module SessionStore {
  import opened Options

  type Id = string

  /** A row of the table; `data` stands for the encoded key/value data. */
  datatype Row = Row(data: string, expiry: int)

  datatype Record = Record(id: Id, data: string, expiry: int)

  type Table = map<Id, Row>

  /** `WHERE id = $1 AND expiry_date > now`. */
  function Live(table: Table, id: Id, now: int): Option<Row> {
    if id in table && table[id].expiry > now then Some(table[id]) else None
  }

  /** `DELETE WHERE expiry_date < now`: a row expiring at this very instant stays, invisible already. */
  function Swept(table: Table, now: int): Table {
    map id | id in table && table[id].expiry >= now :: table[id]
  }

  /** The first of the ids that is not taken. */
  function FirstFree(table: Table, ids: seq<Id>): (r: Option<nat>)
    ensures r.Some? ==> r.value < |ids| && ids[r.value] !in table && forall i | 0 <= i < r.value :: ids[i] in table
    ensures r.None? ==> forall i | 0 <= i < |ids| :: ids[i] in table
  {
    if ids == [] then None
    else if ids[0] !in table then Some(0)
    else match FirstFree(table, ids[1..]) case Some(i) => Some(i + 1) case None => None
  }

  class DieselSessionStore {
    var rows: Table

    constructor ()
      ensures rows == map[]
    {
      rows := map[];
    }

    /**
     `draws` are the ids drawn when one is taken. `None` means that every one of them was
     taken too, so the loop is still drawing.
     */
    method Create(record: Record, draws: seq<Id>) returns (stored: Option<Record>, attempts: nat)
      modifies this
      ensures var free := FirstFree(old(rows), [record.id] + draws);
              && (stored.Some? <==> free.Some?)
              && (free.Some? ==>
                    var id := ([record.id] + draws)[free.value];
                    && attempts == free.value + 1
                    && stored == Some(record.(id := id))
                    && id !in old(rows) && rows == old(rows)[id := Row(record.data, record.expiry)])
              && (free.None? ==> rows == old(rows))
    {
      var current := record;
      ghost var ids := [record.id] + draws;
      attempts := 0;
      while attempts <= |draws|
        invariant attempts <= |ids| && rows == old(rows)
        invariant current == record.(id := current.id)
        invariant attempts < |ids| ==> current.id == ids[attempts]
        invariant forall i | 0 <= i < attempts :: ids[i] in rows
      {
        attempts := attempts + 1;
        if current.id !in rows {
          rows := rows[current.id := Row(current.data, current.expiry)];
          return Some(current), attempts;
        }
        if attempts <= |draws| {
          current := current.(id := draws[attempts - 1]);
        }
      }
      stored := None;
    }

    method Save(record: Record)
      modifies this
      ensures rows == old(rows)[record.id := Row(record.data, record.expiry)]
    {
      rows := rows[record.id := Row(record.data, record.expiry)];
    }

    method Load(id: Id, now: int) returns (r: Option<Record>)
      ensures r.Some? <==> Live(rows, id, now).Some?
      ensures r.Some? ==> r.value == Record(id, Live(rows, id, now).value.data, Live(rows, id, now).value.expiry)
    {
      if id in rows && rows[id].expiry > now {
        r := Some(Record(id, rows[id].data, rows[id].expiry));
      } else {
        r := None;
      }
    }

    method Delete(id: Id)
      modifies this
      ensures rows == old(rows) - {id}
    {
      rows := rows - {id};
    }

    method DeleteExpired(now: int)
      modifies this
      ensures rows == Swept(old(rows), now)
    {
      rows := map id | id in rows && !(rows[id].expiry < now) :: rows[id];
    }
  }

  // ---- redrawing ----

  ghost predicate Distinct(ids: seq<Id>) {
    forall i, j | 0 <= i < j < |ids| :: ids[i] != ids[j]
  }

  lemma {:induction false} DistinctIdsCounted(ids: seq<Id>, taken: set<Id>)
    requires Distinct(ids) && forall i | 0 <= i < |ids| :: ids[i] in taken
    ensures |ids| <= |taken|
  {
    if ids != [] {
      DistinctIdsCounted(ids[1..], taken - {ids[0]});
    }
  }

  /** With distinct draws, creating a record ends after at most one attempt more than there are rows. */
  lemma CreateEnds(table: Table, ids: seq<Id>)
    requires Distinct(ids) && |ids| > |table|
    ensures FirstFree(table, ids).Some? && FirstFree(table, ids).value + 1 <= |table| + 1
  {
    var free := FirstFree(table, ids);
    var tried := if free.Some? then ids[..free.value] else ids;
    assert |table.Keys| == |table|;
    DistinctIdsCounted(tried, table.Keys);
  }

  // ---- a create after a sweep ----

  /** `create`, as a whole: the row goes under the first free id. */
  function Created(table: Table, ids: seq<Id>, row: Row): Table {
    match FirstFree(table, ids)
    case Some(i) => table[ids[i] := row]
    case None => table
  }

  /** `fewer` is `table` without some of the rows that expired before `now`. */
  ghost predicate Thinned(table: Table, fewer: Table, now: int) {
    && (forall id | id in fewer :: id in table && table[id] == fewer[id])
    && (forall id | id in table && id !in fewer :: table[id].expiry < now)
  }

  /** Before each id that is taken in `table` and free in `fewer`, an id is tried that is free in both. */
  ghost predicate Unnoticed(table: Table, fewer: Table, ids: seq<Id>) {
    forall i | 0 <= i < |ids| && ids[i] in table && ids[i] !in fewer :: exists j | 0 <= j < i :: ids[j] !in table
  }

  lemma SameIdIff(table: Table, fewer: Table, now: int, ids: seq<Id>)
    requires Thinned(table, fewer, now)
    ensures FirstFree(table, ids) == FirstFree(fewer, ids) <==> Unnoticed(table, fewer, ids)
  {
    var a, b := FirstFree(table, ids), FirstFree(fewer, ids);
    if a == b {
      forall i | 0 <= i < |ids| && ids[i] in table && ids[i] !in fewer
        ensures exists j | 0 <= j < i :: ids[j] !in table
      {
        assert b.Some? && b.value <= i && ids[a.value] !in table;
      }
    }
  }

  /** A create takes the same id after a sweep exactly when, before each freed id, it tries one that was free anyway. */
  lemma CreateNoticesSweepIff(table: Table, now: int, ids: seq<Id>)
    ensures FirstFree(table, ids) == FirstFree(Swept(table, now), ids)
            <==> forall i | 0 <= i < |ids| && ids[i] in table && table[ids[i]].expiry < now ::
                   exists j | 0 <= j < i :: ids[j] !in table
  {
    var fewer := Swept(table, now);
    SameIdIff(table, fewer, now, ids);
    assert forall i | 0 <= i < |ids| && ids[i] in table :: ids[i] !in fewer <==> table[ids[i]].expiry < now;
  }

  /** A sweep that changes the id of a create, and with it what is loaded afterwards. */
  lemma SweepMovesCreate(row: Row)
    requires row.expiry > 1
    ensures var table, ids := map["a" := Row("", 0)], ["a", "b"];
            && FirstFree(table, ids) == Some(1) && FirstFree(Swept(table, 1), ids) == Some(0)
            && Live(Created(table, ids, row), "a", 1) == None
            && Live(Created(Swept(table, 1), ids, row), "a", 1) == Some(row)
  {
    var table := map["a" := Row("", 0)];
    assert "a" !in Swept(table, 1) && ["a", "b"][1..] == ["b"];
  }

  /** For a session that is not born expired, the loads tell whether the create noticed. */
  lemma CreateLoadsIff(table: Table, fewer: Table, now: int, ids: seq<Id>, row: Row)
    requires Thinned(table, fewer, now) && row.expiry > now
    ensures (forall id :: Live(Created(table, ids, row), id, now) == Live(Created(fewer, ids, row), id, now))
            <==> Unnoticed(table, fewer, ids)
  {
    SameIdIff(table, fewer, now, ids);
    var a, b := FirstFree(table, ids), FirstFree(fewer, ids);
    if a != b {
      assert b.Some? && ids[b.value] in table && (a.Some? ==> b.value < a.value);
      assert a.Some? ==> ids[a.value] != ids[b.value];
      assert Live(Created(table, ids, row), ids[b.value], now) != Live(Created(fewer, ids, row), ids[b.value], now);
    }
  }

  // ---- runs, with a sweeper at work ----

  /** `ids` are the record's own id and the ones drawn when it is taken. */
  datatype Op = Create(ids: seq<Id>, row: Row) | Write(id: Id, row: Row) | Remove(id: Id) | Read(id: Id) | Sweep

  datatype Event = Event(now: int, op: Op)

  ghost predicate Past(events: seq<Event>, now: int) {
    forall e | e in events :: e.now <= now
  }

  function Apply(table: Table, e: Event): Table {
    match e.op
    case Create(ids, row) => Created(table, ids, row)
    case Write(id, row) => table[id := row]
    case Remove(id) => table - {id}
    case Read(_) => table
    case Sweep => Swept(table, e.now)
  }

  function Exec(table: Table, events: seq<Event>): Table {
    if events == [] then table else Apply(Exec(table, events[..|events| - 1]), events[|events| - 1])
  }

  /** What an operation makes of the row last written under `id`; `at` is the id a create stored under. */
  function Then(row: Option<Row>, op: Op, at: Option<Id>, id: Id): Option<Row> {
    match op
    case Create(_, r) => if at == Some(id) then Some(r) else row
    case Write(k, r) => if k == id then Some(r) else row
    case Remove(k) => if k == id then None else row
    case Read(_) => row
    case Sweep => row
  }

  /** The id that a create stores under. */
  function StoredAt(table: Table, op: Op): Option<Id> {
    if op.Create? && FirstFree(table, op.ids).Some? then Some(op.ids[FirstFree(table, op.ids).value]) else None
  }

  /** What was last written under an id and not deleted since, given the ids that the creates returned. */
  function LastWritten(table: Table, events: seq<Event>, id: Id): Option<Row> {
    if events == [] then (if id in table then Some(table[id]) else None)
    else
      var init, last := events[..|events| - 1], events[|events| - 1];
      Then(LastWritten(table, init, id), last.op, StoredAt(Exec(table, init), last.op), id)
  }

  /** What a session is worth to a reader: its last write, as long as it has not expired. */
  function Session(table: Table, events: seq<Event>, id: Id, now: int): Option<Row> {
    match LastWritten(table, events, id)
    case Some(row) => if row.expiry > now then Some(row) else None
    case None => None
  }

  /** A load at any later time answers from the sessions' view, whenever the sweeper ran before it. */
  lemma {:induction false} LoadsSessions(table: Table, events: seq<Event>, id: Id, now: int)
    requires Past(events, now)
    ensures Live(Exec(table, events), id, now) == Session(table, events, id, now)
  {
    if events != [] {
      assert events[|events| - 1].now <= now;
      LoadsSessions(table, events[..|events| - 1], id, now);
    }
  }

  function WithoutSweeps(events: seq<Event>): seq<Event> {
    if events == [] then []
    else WithoutSweeps(events[..|events| - 1])
         + (if events[|events| - 1].op == Sweep then [] else [events[|events| - 1]])
  }

  /** What the table would be had the sweeper never run. */
  function Unswept(table: Table, events: seq<Event>): Table {
    Exec(table, WithoutSweeps(events))
  }

  lemma UnsweptStep(table: Table, init: seq<Event>, e: Event)
    ensures Unswept(table, init + [e]) == if e.op == Sweep then Unswept(table, init) else Apply(Unswept(table, init), e)
  {
    var kept := WithoutSweeps(init);
    assert (init + [e])[..|init|] == init;
    assert (kept + [e])[..|kept|] == kept;
    assert kept + [] == kept;
  }

  /** No create so far tried an id that only the sweeper had freed before one that was free anyway. */
  ghost predicate SweepsUnnoticed(table: Table, events: seq<Event>) {
    events != [] ==>
      var init, last := events[..|events| - 1], events[|events| - 1];
      && SweepsUnnoticed(table, init)
      && (last.op.Create? ==> Unnoticed(Unswept(table, init), Exec(table, init), last.op.ids))
  }

  /** While creates do not notice, the sweeper only ever removes rows that have expired. */
  lemma {:induction false} SweepsOnlyThin(table: Table, events: seq<Event>, now: int)
    requires Past(events, now) && SweepsUnnoticed(table, events)
    ensures Thinned(Unswept(table, events), Exec(table, events), now)
  {
    if events != [] {
      var init, last := events[..|events| - 1], events[|events| - 1];
      assert init + [last] == events && last.now <= now;
      SweepsOnlyThin(table, init, now);
      UnsweptStep(table, init, last);
      if last.op.Create? {
        SameIdIff(Unswept(table, init), Exec(table, init), now, last.op.ids);
      }
    }
  }

  /** In every run of saves, loads and deletes, and of creates that do not notice, sweeping changes no load. */
  lemma SweepsChangeNoLoad(table: Table, events: seq<Event>, id: Id, now: int)
    requires Past(events, now) && SweepsUnnoticed(table, events)
    ensures Live(Exec(table, events), id, now) == Live(Unswept(table, events), id, now)
  {
    SweepsOnlyThin(table, events, now);
  }

  lemma {:induction false} WithoutCreatesUnnoticed(table: Table, events: seq<Event>)
    requires forall e | e in events :: !e.op.Create?
    ensures SweepsUnnoticed(table, events)
  {
    if events != [] {
      assert events[|events| - 1] in events;
      WithoutCreatesUnnoticed(table, events[..|events| - 1]);
    }
  }

  /** The clock does not go back, and no session is born expired. */
  ghost predicate InTime(events: seq<Event>) {
    && (forall i, j | 0 <= i < j < |events| :: events[i].now <= events[j].now)
    && (forall e | e in events && e.op.Create? :: e.op.row.expiry > e.now)
  }

  ghost predicate SameLoads(table: Table, events: seq<Event>, now: int) {
    forall id :: Live(Exec(table, events), id, now) == Live(Unswept(table, events), id, now)
  }

  /** After every event so far, all loads at that time and later are those of the run without sweeps. */
  ghost predicate LoadsUnaffected(table: Table, events: seq<Event>) {
    && (forall now | Past(events, now) :: SameLoads(table, events, now))
    && (events != [] ==> LoadsUnaffected(table, events[..|events| - 1]))
  }

  lemma LastIsNow(events: seq<Event>)
    requires InTime(events) && events != []
    ensures Past(events, events[|events| - 1].now) && InTime(events[..|events| - 1])
    ensures Past(events[..|events| - 1], events[|events| - 1].now)
  {
    assert forall e | e in events[..|events| - 1] :: e in events;
  }

  lemma LastCreateUnnoticed(table: Table, init: seq<Event>, last: Event)
    requires Past(init, last.now) && SweepsUnnoticed(table, init)
    requires last.op.Create? && last.op.row.expiry > last.now && SameLoads(table, init + [last], last.now)
    ensures Unnoticed(Unswept(table, init), Exec(table, init), last.op.ids)
  {
    SweepsOnlyThin(table, init, last.now);
    UnsweptStep(table, init, last);
    assert (init + [last])[..|init|] == init;
    CreateLoadsIff(Unswept(table, init), Exec(table, init), last.now, last.op.ids, last.op.row);
  }

  /** Over whole runs, creates included: sweeping changes no load exactly when no create notices it. */
  lemma {:induction false} SweepsChangeNoLoadIff(table: Table, events: seq<Event>)
    requires InTime(events)
    ensures LoadsUnaffected(table, events) <==> SweepsUnnoticed(table, events)
  {
    if events != [] {
      var init, last := events[..|events| - 1], events[|events| - 1];
      assert init + [last] == events;
      LastIsNow(events);
      SweepsChangeNoLoadIff(table, init);
      if LoadsUnaffected(table, events) && last.op.Create? {
        LastCreateUnnoticed(table, init, last);
      }
    }
    if SweepsUnnoticed(table, events) {
      forall now, id | Past(events, now)
        ensures Live(Exec(table, events), id, now) == Live(Unswept(table, events), id, now)
      {
        SweepsChangeNoLoad(table, events, id, now);
      }
    }
  }
}
