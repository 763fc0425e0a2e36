/** Drift of cache and count after failed appends, and what the index keeps
    through every run (core/session_manager.py, core/database.py). */
module SessionFailures {
  import opened Options
  import opened MessageStore
  import opened SessionStore
  import opened SessionRuns
  import SessionSteps

  // ---------------------------------------------------------------------
  // Drift
  // ---------------------------------------------------------------------

  /** A failed append leaves the cached transcript one message ahead, and the
      next append that succeeds stores a count that is one too high. */
  lemma FailedAppendDrifts(s: State, sid: Sid, role: string, content: string, lost: Id, id: Id)
    requires Agree(s) && sid in s.db.counts && id !in Ids(s.db.rows)
    ensures var ahead := Apply(s, OpAdd(sid, role, content, lost, false));
            && ahead.db == s.db
            && ahead.cache[sid].history == View(s, sid) + [Msg(role, content, None)]
            && var after := Apply(ahead, OpAdd(sid, role, content, id, true));
               after.db.counts[sid] == |RowsOf(after.db.rows, sid)| + 1
  {
    GetReturnsView(s, sid);
    SameLength(View(s, sid), Transcript(s.db, sid));
    RowsOfAppend(s.db.rows, Row(id, sid, role, Stored(content)), sid);
    hide RowsOf, Stored, StandsFor, Agree;
    var ahead := Apply(s, OpAdd(sid, role, content, lost, false));
    assert ahead.cache[sid].history == View(s, sid) + [Msg(role, content, None)];
    var g := Get(ahead, sid);
    assert g.cache[sid].history == ahead.cache[sid].history;
  }

  /** The session's cached history, rows and count agree. */
  predicate SessionAgrees(s: State, sid: Sid) {
    && sid in s.db.counts && s.db.counts[sid] == |RowsOf(s.db.rows, sid)|
    && sid in s.cache && s.cache[sid].count == |RowsOf(s.db.rows, sid)|
    && StandsFor(s.cache[sid].history, Transcript(s.db, sid))
  }

  /** After any drift of cache and count a successful replacement makes the
      session agree again, on exactly the given messages. */
  lemma ReplacementHealsDrift(s: State, sid: Sid, messages: seq<Incoming>)
    requires TablesSound(s.db) && sid in s.db.counts
    requires FreshIds(s.db, OpReplace(sid, messages, true, true))
    ensures var after := Apply(s, OpReplace(sid, messages, true, true));
            && SessionAgrees(after, sid) && after.cache[sid].history == Given(messages)
            && Transcript(after.db, sid) == GivenStored(messages)
  {
    ReplacementStores(s, sid, messages);
    NewRowsGiven(sid, messages);
    hide RowsOf, InsertAll, DeleteRows, UniqueIds, Ids, StandsFor, Given, GivenStored;
  }

  // ---------------------------------------------------------------------
  // The index through every run
  // ---------------------------------------------------------------------

  /** `Attempted` is an operation that fails at some step or gets through; `Edit`
      is an UPDATE of one row by other code, whose key stays. */
  datatype Event =
    | Manager(op: Op)
    | Attempted(t: SessionSteps.Try)
    | Migration
    | Edit(at: nat, role: string, content: string)

  function Handle(s: State, e: Event, scrub: string -> string): State {
    match e
    case Manager(op) => Apply(s, op)
    case Attempted(t) => SessionSteps.Tried(s, t)
    case Migration => s.(db := Migrate(s.db, scrub))
    case Edit(at, role, content) =>
      if at < |s.db.rows|
      then s.(db := UpdateRow(s.db, at, s.db.rows[at].(role := role, content := content)))
      else s
  }

  ghost predicate FreshEvent(s: State, e: Event) {
    (e.Manager? ==> FreshIds(s.db, e.op)) && (e.Attempted? ==> FreshIds(s.db, e.t.op))
  }

  ghost predicate FreshEvents(s: State, events: seq<Event>, scrub: string -> string)
    decreases |events|
  {
    events != [] ==>
      && FreshEvent(s, events[0])
      && FreshEvents(Handle(s, events[0], scrub), events[1..], scrub)
  }

  function HandleAll(s: State, events: seq<Event>, scrub: string -> string): State
    decreases |events|
  {
    if events == [] then s else HandleAll(Handle(s, events[0], scrub), events[1..], scrub)
  }

  lemma {:induction false} InsertAllKeepsIndexed(db: Db, rows: seq<Row>, scrub: string -> string)
    requires Indexed(db, scrub) && UniqueIds(db.rows + rows)
    ensures Indexed(InsertAll(db, rows), scrub)
  {
    hide HasMedia, EntriesOf;
    if rows != [] {
      var front, last := rows[..|rows| - 1], rows[|rows| - 1];
      assert db.rows + rows == (db.rows + front) + [last];
      assert forall i :: 0 <= i < |db.rows + front| ==> (db.rows + front)[i] == (db.rows + rows)[i];
      assert (db.rows + rows)[|db.rows + front|] == last;
      assert forall i :: 0 <= i < |db.rows + front| ==> (db.rows + rows)[i].id != last.id;
      InsertAllKeepsIndexed(db, front, scrub);
      InsertAllRows(db, front);
      InsertKeepsIndexed(InsertAll(db, front), last, scrub);
    }
  }

  lemma CountsDoNotMatter(db: Db, counts: map<Sid, nat>, scrub: string -> string)
    requires Indexed(db, scrub)
    ensures Indexed(db.(counts := counts), scrub)
  {
  }

  lemma ReplaceKeepsIndexed(db: Db, sid: Sid, messages: seq<Incoming>, scrub: string -> string)
    requires Indexed(db, scrub) && FreshIds(db, OpReplace(sid, messages, true, true))
    ensures Indexed(InsertAll(DeleteRows(db, Ids(RowsOf(db.rows, sid))), NewRows(sid, messages)), scrub)
  {
    hide HasMedia, EntriesOf, RowsOf, WithoutRows, WithoutEntries;
    var cleared := DeleteRows(db, Ids(RowsOf(db.rows, sid)));
    DeleteKeepsIndexed(db, Ids(RowsOf(db.rows, sid)), scrub);
    NewRowsUnique(cleared.rows, sid, messages);
    InsertAllKeepsIndexed(cleared, NewRows(sid, messages), scrub);
  }

  lemma MigrateKeepsIndexed(db: Db, scrub: string -> string)
    requires Indexed(db, scrub)
    ensures Indexed(Migrate(db, scrub), scrub)
  {
    MigrationRepairs(db, scrub);
    hide EntriesOf, HasMedia, Scrub, Backfill;
  }

  lemma EditKeepsIndexed(db: Db, at: nat, role: string, content: string, scrub: string -> string)
    requires Indexed(db, scrub) && at < |db.rows|
    ensures Indexed(UpdateRow(db, at, db.rows[at].(role := role, content := content)), scrub)
  {
    UpdateKeepsIndexed(db, at, db.rows[at].(role := role, content := content), scrub);
  }

  /** A try leaves the tables as they were, or as the whole operation does. */
  lemma TryTables(s: State, t: SessionSteps.Try)
    ensures SessionSteps.Tried(s, t).db == s.db || SessionSteps.Tried(s, t).db == Apply(s, SessionSteps.Sure(t.op)).db
  {
    hide Apply, SessionSteps.Steps, SessionSteps.Attempt;
    SessionSteps.CompletedIsApply(s, t.op);
    if SessionSteps.Steps(s, t.op).Some? && t.n < |SessionSteps.All(SessionSteps.Steps(s, t.op).value)| {
      SessionSteps.FailuresKeepTables(s, t.op, t.n);
    }
  }

  /** Every operation, wherever it fails, and in any state of the cache. */
  lemma HandleKeepsIndexed(s: State, e: Event, scrub: string -> string)
    requires Indexed(s.db, scrub) && FreshEvent(s, e)
    ensures Indexed(Handle(s, e, scrub).db, scrub)
    decreases e.Attempted?
  {
    hide Stored, HasMedia, EntriesOf, RowsOf, WithoutRows, WithoutEntries, InsertAll, UniqueIds, Indexed, InsertRow, DeleteRows, UpdateRow, Migrate;
    match e
    case Migration => MigrateKeepsIndexed(s.db, scrub);
    case Edit(at, role, content) =>
      if at < |s.db.rows| {
        EditKeepsIndexed(s.db, at, role, content, scrub);
      }
    case Attempted(t) =>
      TryTables(s, t);
      SessionSteps.SureIsFresh(s, t.op);
      HandleKeepsIndexed(s, Manager(SessionSteps.Sure(t.op)), scrub);
    case Manager(op) =>
      match op {
        case OpAdd(sid, role, content, id, _) =>
          InsertKeepsIndexed(s.db, Row(id, sid, role, Stored(content)), scrub);
          var db := InsertRow(s.db, Row(id, sid, role, Stored(content)));
          CountsDoNotMatter(db, Handle(s, e, scrub).db.counts, scrub);
        case OpTruncate(sid, keep, _) =>
          if keep >= 0 {
            var rows := RowsOf(s.db.rows, sid);
            var n := if keep < |rows| then keep else |rows|;
            DeleteKeepsIndexed(s.db, Ids(rows[n..]), scrub);
            CountsDoNotMatter(DeleteRows(s.db, Ids(rows[n..])), Handle(s, e, scrub).db.counts, scrub);
          }
        case OpDeleteMessage(sid, mid, _) =>
          DeleteKeepsIndexed(s.db, {mid}, scrub);
          CountsDoNotMatter(DeleteRows(s.db, {mid}), Handle(s, e, scrub).db.counts, scrub);
        case OpReplace(sid, messages, _, _) =>
          ReplaceKeepsIndexed(s.db, sid, messages, scrub);
          CountsDoNotMatter(InsertAll(DeleteRows(s.db, Ids(RowsOf(s.db.rows, sid))), NewRows(sid, messages)),
                            Handle(s, e, scrub).db.counts, scrub);
        case OpDeleteSession(sid, _) =>
          DeleteKeepsIndexed(s.db, Ids(RowsOf(s.db.rows, sid)), scrub);
          CountsDoNotMatter(DeleteRows(s.db, Ids(RowsOf(s.db.rows, sid))), Handle(s, e, scrub).db.counts, scrub);
        case OpCreate(_, _) =>
          CountsDoNotMatter(s.db, Handle(s, e, scrub).db.counts, scrub);
        case _ =>
      }
  }

  /** From an agreeing index, every run of operations, failures, edits and
      repeated migrations keeps exactly one right entry per message. */
  lemma {:induction false} IndexStaysExact(s: State, events: seq<Event>, scrub: string -> string)
    requires Indexed(s.db, scrub) && FreshEvents(s, events, scrub)
    ensures Indexed(HandleAll(s, events, scrub).db, scrub)
    ensures var db := HandleAll(s, events, scrub).db; forall r :: r in db.rows ==> FoundRightly(db.index, r, scrub)
    decreases |events|
  {
    hide Handle, Indexed, FreshEvent, FoundRightly;
    if events != [] {
      HandleKeepsIndexed(s, events[0], scrub);
      IndexStaysExact(Handle(s, events[0], scrub), events[1..], scrub);
    } else {
      IndexedIsFound(s.db, scrub);
    }
  }

  /** In particular after the first migration over an empty index. */
  lemma IndexFromEmpty(s: State, events: seq<Event>, scrub: string -> string)
    requires UniqueIds(s.db.rows) && s.db.index == []
    requires FreshEvents(s.(db := Migrate(s.db, scrub)), events, scrub)
    ensures var db := HandleAll(s, [Migration] + events, scrub).db;
            Indexed(db, scrub) && forall r :: r in db.rows ==> FoundRightly(db.index, r, scrub)
  {
    hide Migrate, Indexed, FoundRightly;
    MigrationRepairs(s.db, scrub);
    var start := s.(db := Migrate(s.db, scrub));
    assert ([Migration] + events)[1..] == events;
    IndexStaysExact(start, events, scrub);
  }
}
