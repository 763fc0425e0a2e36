/** `SessionManager` (core/session_manager.py): the object that fills its cache
    on first use and writes through to the chat tables. */
module SessionManager {
  import opened Options
  import opened MessageStore
  import opened SessionStore

  datatype Error = KeyError | DatabaseError

  class Manager {
    var cache: map<Sid, Cached>
    var db: Db

    ghost function View(): State
      reads this
    {
      State(cache, db)
    }

    constructor (tables: Db, loaded: set<Sid>)
      ensures View() == SessionStore.Restart(State(map[], tables), loaded)
    {
      cache := map sid | sid in loaded && sid in tables.counts && tables.counts[sid] > 0 :: Cached([], tables.counts[sid]);
      db := tables;
    }

    /** `_load_session_from_db`. */
    method LoadSession(sid: Sid)
      requires sid in db.counts
      modifies this`cache
      ensures cache == old(cache)[sid := Cached(Transcript(db, sid), db.counts[sid])]
    {
      var rows := RowsOf(db.rows, sid);
      var history := [];
      for i := 0 to |rows|
        invariant history == Messages(rows[..i])
      {
        history := history + [Msg(rows[i].role, rows[i].content, Some(rows[i].id))];
      }
      assert rows[..|rows|] == rows;
      cache := cache[sid := Cached(history, db.counts[sid])];
    }

    /** `sync_session_metadata`. */
    method SyncMetadata(sid: Sid) returns (ok: bool)
      modifies this`cache
      ensures ok <==> sid in old(cache) && sid in db.counts
      ensures cache == if sid in old(cache) && sid in db.counts
                       then old(cache)[sid := old(cache)[sid].(count := db.counts[sid])] else old(cache)
    {
      if sid !in cache || sid !in db.counts {
        return false;
      }
      cache := cache[sid := cache[sid].(count := db.counts[sid])];
      ok := true;
    }

    method GetSession(sid: Sid) returns (r: Result<Cached, Error>)
      modifies this`cache
      ensures r.Ok? <==> CanGet(old(View()), sid)
      ensures if r.Ok? then View() == Get(old(View()), sid) && r.value == cache[sid] else View() == old(View())
    {
      if sid !in cache {
        if sid !in db.counts {
          return Err(KeyError);
        }
        LoadSession(sid);
      } else if cache[sid].history == [] && cache[sid].count > 0 {
        if sid !in db.counts {
          return Err(KeyError);
        }
        LoadSession(sid);
      }
      var _ := SyncMetadata(sid);
      r := Ok(cache[sid]);
    }

    method AddMessage(sid: Sid, role: string, content: string, id: Id, ok: bool) returns (r: Result<(), Error>)
      modifies this
      ensures r.Ok? <==> CanGet(old(View()), sid)
      ensures View() == if r.Ok? then Add(old(View()), sid, role, content, id, ok) else old(View())
    {
      var got := GetSession(sid);
      if got.Err? {
        return Err(got.error);
      }
      ghost var g := View();
      var history := cache[sid].history + [Msg(role, content, None)];
      cache := cache[sid := Cached(history, |history|)];
      PersistMessage(sid, id, ok);
      assert history[|history| - 1 := Msg(role, content, Some(id))] == g.cache[sid].history + [Msg(role, content, Some(id))];
      assert sid !in db.counts ==> cache == g.cache - {sid};
      assert sid in db.counts ==> cache == g.cache[sid := cache[sid]];
      r := Ok(());
    }

    /** `_persist_message` for the message that was appended last. */
    method PersistMessage(sid: Sid, id: Id, ok: bool)
      requires sid in cache && cache[sid].history != []
      modifies this
      ensures var h := old(cache)[sid].history; var m := h[|h| - 1];
              if sid !in old(db).counts then cache == old(cache) - {sid} && db == old(db)
              else if !ok then View() == old(View())
              else
                && cache == old(cache)[sid := old(cache)[sid].(history := h[|h| - 1 := m.(dbId := Some(id))])]
                && db == SetCount(InsertRow(old(db), Row(id, sid, m.role, Stored(m.content))), sid, |h|)
    {
      if sid !in db.counts {
        cache := cache - {sid};
        return;
      }
      var h := cache[sid].history;
      var m := h[|h| - 1];
      var work := InsertRow(db, Row(id, sid, m.role, Stored(m.content)));
      work := work.(counts := work.counts[sid := |cache[sid].history|]);
      if !ok {
        return;
      }
      db := work;
      cache := cache[sid := cache[sid].(history := h[|h| - 1 := m.(dbId := Some(id))])];
    }

    method TruncateMessages(sid: Sid, keep: int, ok: bool) returns (r: Result<bool, Error>)
      modifies this
      ensures r.Ok? <==> CanGet(old(View()), sid)
      ensures r.Ok? ==> r.value == (keep >= 0 && ok)
      ensures View() == if r.Ok? then Truncate(old(View()), sid, keep, ok) else old(View())
    {
      var got := GetSession(sid);
      if got.Err? {
        return Err(got.error);
      }
      if keep < 0 {
        return Ok(false);
      }
      var rows := RowsOf(db.rows, sid);
      var n := if keep < |rows| then keep else |rows|;
      var doomed: set<Id> := {};
      for i := n to |rows|
        invariant doomed == Ids(rows[n..i])
      {
        assert rows[n..i + 1] == rows[n..i] + [rows[i]];
        doomed := doomed + {rows[i].id};
      }
      assert rows[n..|rows|] == rows[n..];
      var work := SetCount(DeleteRows(db, doomed), sid, n);
      if !ok {
        return Ok(false);
      }
      db := work;
      cache := cache[sid := cache[sid].(history := First(cache[sid].history, keep))];
      r := Ok(true);
    }

    method DeleteMessage(sid: Sid, mid: Id, ok: bool) returns (r: Result<bool, Error>)
      modifies this
      ensures r.Ok? <==> CanGet(old(View()), sid)
      ensures r.Ok? ==> r.value == (mid != "" && HasMessage(old(db), sid, mid) && ok)
      ensures View() == if r.Ok? then SessionStore.DeleteMessage(old(View()), sid, mid, ok) else old(View())
    {
      var got := GetSession(sid);
      if got.Err? {
        return Err(got.error);
      }
      if mid == "" || !HasMessage(db, sid, mid) {
        return Ok(false);
      }
      var work := DeleteRows(db, {mid});
      work := SetCount(work, sid, |RowsOf(work.rows, sid)|);
      if !ok {
        return Ok(false);
      }
      db := work;
      var before := cache[sid].history;
      var history := [];
      for i := 0 to |before|
        invariant history == WithoutMsg(before[..i], mid)
      {
        assert before[..i + 1][..i] == before[..i];
        if before[i].dbId != Some(mid) {
          history := history + [before[i]];
        }
      }
      assert before[..|before|] == before;
      cache := cache[sid := Cached(history, |history|)];
      r := Ok(true);
    }

    /** `reservations` holds the outcome for each message. */
    method ReplaceMessages(sid: Sid, messages: seq<Incoming>, reservations: seq<bool>, committed: bool)
        returns (r: Result<bool, Error>)
      requires |messages| == |reservations|
      modifies this
      ensures r.Ok? <==> CanGet(old(View()), sid)
      ensures r.Ok? ==> r.value == (sid in old(db).counts && false !in reservations && committed)
      ensures View() == if r.Ok? then Replace(old(View()), sid, messages, false !in reservations, committed)
                        else old(View())
    {
      var got := GetSession(sid);
      if got.Err? {
        return Err(got.error);
      }
      if sid !in db.counts {
        return Ok(false);
      }
      var reserved := ReserveAll(reservations);
      if !reserved {
        return Ok(false);
      }
      var cleared := DeleteRows(db, Ids(RowsOf(db.rows, sid)));
      var work, history := InsertMessages(cleared, cache[sid].history, sid, messages);
      if !committed {
        cache := cache[sid := cache[sid].(history := history)];
        return Ok(false);
      }
      db := SetCount(work, sid, |messages|);
      cache := cache[sid := Cached(Given(messages), |messages|)];
      r := Ok(true);
    }

    method CreateSession(sid: Sid, ok: bool) returns (r: Result<Cached, Error>)
      modifies this
      ensures r.Ok? <==> sid !in old(db).counts && ok
      ensures View() == Create(old(View()), sid, ok)
    {
      if sid in db.counts || !ok {
        return Err(DatabaseError);
      }
      db := db.(counts := db.counts[sid := 0]);
      cache := cache[sid := Cached([], 0)];
      r := Ok(cache[sid]);
    }

    method DeleteSession(sid: Sid, ok: bool) returns (deleted: bool)
      modifies this
      ensures deleted <==> (sid in old(db).counts || sid in old(cache)) && ok
      ensures View() == SessionStore.DeleteSession(old(View()), sid, ok)
    {
      var work := DeleteRows(db, Ids(RowsOf(db.rows, sid)));
      var found := sid in work.counts;
      work := work.(counts := work.counts - {sid});
      var removedInMemory := sid in cache;
      cache := cache - {sid};
      if !found && !removedInMemory {
        return false;
      }
      if !ok {
        return false;
      }
      db := work;
      deleted := true;
    }
  }

  /** Stops at the first upload that cannot be reserved. */
  method ReserveAll(reservations: seq<bool>) returns (ok: bool)
    ensures ok <==> false !in reservations
  {
    for i := 0 to |reservations|
      invariant false !in reservations[..i]
    {
      if !reservations[i] {
        return false;
      }
      assert reservations[..i + 1] == reservations[..i] + [reservations[i]];
    }
    assert reservations[..|reservations|] == reservations;
    ok := true;
  }

  /** Inserts the rows and writes the new ids into the messages; `history` is
      the cached transcript, which may share some of them. */
  method InsertMessages(cleared: Db, before: seq<Msg>, sid: Sid, messages: seq<Incoming>)
      returns (work: Db, history: seq<Msg>)
    ensures work == InsertAll(cleared, NewRows(sid, messages))
    ensures history == Relabel(before, messages)
  {
    work, history := cleared, before;
    ghost var rows := NewRows(sid, messages);
    hide InsertRow, InsertAll, Relabel, Stored;
    StepsBegin(cleared, before);
    for i := 0 to |messages|
      invariant |rows| == |messages| && work == InsertAll(cleared, rows[..i])
      invariant history == Relabel(before, messages[..i])
    {
      var m := messages[i];
      StoreStep(cleared, rows, i);
      RelabelStep(before, messages, i);
      work := InsertRow(work, Row(m.id, sid, m.role, Stored(m.content)));
      if m.cachedAt.Some? && m.cachedAt.value < |history| {
        history := history[m.cachedAt.value := history[m.cachedAt.value].(dbId := Some(m.id))];
      }
    }
    assert rows[..|messages|] == rows && messages[..|messages|] == messages;
  }

  lemma StepsBegin(cleared: Db, before: seq<Msg>)
    ensures InsertAll(cleared, []) == cleared && Relabel(before, []) == before
  {
  }

  lemma StoreStep(cleared: Db, rows: seq<Row>, i: nat)
    requires i < |rows|
    ensures InsertAll(cleared, rows[..i + 1]) == InsertRow(InsertAll(cleared, rows[..i]), rows[i])
  {
    assert rows[..i + 1][..i] == rows[..i];
    hide InsertRow;
  }

  lemma RelabelStep(before: seq<Msg>, messages: seq<Incoming>, i: nat)
    requires i < |messages|
    ensures var h, m := Relabel(before, messages[..i]), messages[i];
            Relabel(before, messages[..i + 1]) ==
              if m.cachedAt.Some? && m.cachedAt.value < |h|
              then h[m.cachedAt.value := h[m.cachedAt.value].(dbId := Some(m.id))] else h
  {
    assert messages[..i + 1][..i] == messages[..i];
  }
}
