/** Cached sessions in front of the chat tables (core/session_manager.py), as a
    value, and what each operation of `SessionManager` does to it. Fresh message
    ids, and whether an upload reservation and a commit succeed, are arguments. */
module SessionStore {
  import opened Options
  import opened MessageStore
  import SearchIndex

  /** A cached message; `dbId` is its `_db_id` metadata. */
  datatype Msg = Msg(role: string, content: string, dbId: Option<Id>)

  datatype Cached = Cached(history: seq<Msg>, count: nat)

  datatype State = State(cache: map<Sid, Cached>, db: Db)

  /** A message passed to `replace_messages`, with the fresh id that it gets;
      `cachedAt` says that it is the object at that place of the cached history. */
  datatype Incoming = Incoming(role: string, content: string, id: Id, cachedAt: Option<nat>)

  /** `persistable_message_content` of a text: what the row holds for it. */
  function Stored(content: string): string {
    SearchIndex.StripInlineDataUrls(content)
  }

  function ToMsg(r: Row): Msg {
    Msg(r.role, r.content, Some(r.id))
  }

  function Messages(rows: seq<Row>): (h: seq<Msg>)
    ensures |h| == |rows| && forall i :: 0 <= i < |rows| ==> h[i] == ToMsg(rows[i])
  {
    seq(|rows|, i requires 0 <= i < |rows| => ToMsg(rows[i]))
  }

  function Transcript(db: Db, sid: Sid): seq<Msg> {
    Messages(RowsOf(db.rows, sid))
  }

  function WithoutMsg(h: seq<Msg>, mid: Id): seq<Msg> {
    if h == [] then []
    else WithoutMsg(h[..|h| - 1], mid) + (if h[|h| - 1].dbId == Some(mid) then [] else [h[|h| - 1]])
  }

  // ---------------------------------------------------------------------
  // Operations on values
  // ---------------------------------------------------------------------

  /** A metadata-only entry is one without history although messages are counted. */
  predicate NeedsLoad(s: State, sid: Sid) {
    sid !in s.cache || (s.cache[sid].history == [] && s.cache[sid].count > 0)
  }

  /** Otherwise `get_session` raises `KeyError`. */
  predicate CanGet(s: State, sid: Sid) {
    NeedsLoad(s, sid) ==> sid in s.db.counts
  }

  function Get(s: State, sid: Sid): State
    requires CanGet(s, sid)
  {
    var history := if NeedsLoad(s, sid) then Transcript(s.db, sid) else s.cache[sid].history;
    var count := if sid in s.db.counts then s.db.counts[sid] else s.cache[sid].count;
    s.(cache := s.cache[sid := Cached(history, count)])
  }

  function SetCount(db: Db, sid: Sid, count: nat): Db {
    if sid in db.counts then db.(counts := db.counts[sid := count]) else db
  }

  function Add(s: State, sid: Sid, role: string, content: string, id: Id, ok: bool): State
    requires CanGet(s, sid)
  {
    var g := Get(s, sid);
    var before := g.cache[sid].history;
    if sid !in g.db.counts then g.(cache := g.cache - {sid})
    else if !ok then g.(cache := g.cache[sid := Cached(before + [Msg(role, content, None)], |before| + 1)])
    else State(
      g.cache[sid := Cached(before + [Msg(role, content, Some(id))], |before| + 1)],
      SetCount(InsertRow(g.db, Row(id, sid, role, Stored(content))), sid, |before| + 1))
  }

  function Truncate(s: State, sid: Sid, keep: int, ok: bool): State
    requires CanGet(s, sid)
  {
    var g := Get(s, sid);
    if keep < 0 || !ok then g else
    var rows := RowsOf(g.db.rows, sid);
    var n := if keep < |rows| then keep else |rows|;
    State(
      g.cache[sid := g.cache[sid].(history := First(g.cache[sid].history, keep))],
      SetCount(DeleteRows(g.db, Ids(rows[n..])), sid, n))
  }

  predicate HasMessage(db: Db, sid: Sid, mid: Id) {
    mid in Ids(RowsOf(db.rows, sid))
  }

  function DeleteMessage(s: State, sid: Sid, mid: Id, ok: bool): State
    requires CanGet(s, sid)
  {
    var g := Get(s, sid);
    if mid == "" || !HasMessage(g.db, sid, mid) || !ok then g else
    var db := DeleteRows(g.db, {mid});
    var history := WithoutMsg(g.cache[sid].history, mid);
    State(g.cache[sid := Cached(history, |history|)], SetCount(db, sid, |RowsOf(db.rows, sid)|))
  }

  function NewRows(sid: Sid, messages: seq<Incoming>): (rows: seq<Row>)
    ensures |rows| == |messages|
    ensures forall i :: 0 <= i < |rows| ==> rows[i] == Row(messages[i].id, sid, messages[i].role, Stored(messages[i].content))
  {
    seq(|messages|, i requires 0 <= i < |messages| => Row(messages[i].id, sid, messages[i].role, Stored(messages[i].content)))
  }

  /** The given messages, as they are, with their new ids. */
  function Given(messages: seq<Incoming>): (h: seq<Msg>)
    ensures |h| == |messages|
    ensures forall i :: 0 <= i < |h| ==> h[i] == Msg(messages[i].role, messages[i].content, Some(messages[i].id))
  {
    seq(|messages|, i requires 0 <= i < |messages| => Msg(messages[i].role, messages[i].content, Some(messages[i].id)))
  }

  function InsertAll(db: Db, rows: seq<Row>): Db {
    if rows == [] then db else InsertRow(InsertAll(db, rows[..|rows| - 1]), rows[|rows| - 1])
  }

  /** New ids written into the message objects that the cached history shares. */
  function Relabel(history: seq<Msg>, messages: seq<Incoming>): (h: seq<Msg>)
    ensures |h| == |history|
    ensures forall i :: 0 <= i < |h| ==> h[i].role == history[i].role && h[i].content == history[i].content
    ensures (forall m :: m in messages ==> m.cachedAt == None) ==> h == history
  {
    if messages == [] then history else
    var m, h := messages[|messages| - 1], Relabel(history, messages[..|messages| - 1]);
    if m.cachedAt.Some? && m.cachedAt.value < |h|
    then h[m.cachedAt.value := h[m.cachedAt.value].(dbId := Some(m.id))]
    else h
  }

  function Replace(s: State, sid: Sid, messages: seq<Incoming>, reserved: bool, committed: bool): State
    requires CanGet(s, sid)
  {
    var g := Get(s, sid);
    var history := g.cache[sid].history;
    if sid !in g.db.counts || !reserved then g
    else if !committed then g.(cache := g.cache[sid := g.cache[sid].(history := Relabel(history, messages))])
    else
      var rows := NewRows(sid, messages);
      State(
        g.cache[sid := Cached(Given(messages), |messages|)],
        SetCount(InsertAll(DeleteRows(g.db, Ids(RowsOf(g.db.rows, sid))), rows), sid, |messages|))
  }

  function Create(s: State, sid: Sid, ok: bool): State {
    if sid in s.db.counts || !ok then s
    else State(s.cache[sid := Cached([], 0)], s.db.(counts := s.db.counts[sid := 0]))
  }

  /** The cached copy goes even when the commit fails. */
  function DeleteSession(s: State, sid: Sid, ok: bool): State {
    if (sid !in s.db.counts && sid !in s.cache) || !ok then s.(cache := s.cache - {sid})
    else
      var db := DeleteRows(s.db, Ids(RowsOf(s.db.rows, sid)));
      State(s.cache - {sid}, db.(counts := db.counts - {sid}))
  }

  /** A new process: metadata-only entries for some sessions that have messages. */
  function Restart(s: State, loaded: set<Sid>): State {
    s.(cache := map sid | sid in loaded && sid in s.db.counts && s.db.counts[sid] > 0 :: Cached([], s.db.counts[sid]))
  }
}
