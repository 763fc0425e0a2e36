/** What every run of session-manager operations keeps: the cache, the rows and
    the index agree, and the whole behaves like one plain list per session. */
module SessionRuns {
  import opened Options
  import opened MessageStore
  import opened SessionStore
  import opened Text
  import SearchIndex

  /** `ok`, `reserved` and `committed` are outcomes; ids are fresh ones. */
  datatype Op =
    | OpCreate(sid: Sid, ok: bool)
    | OpGet(sid: Sid)
    | OpAdd(sid: Sid, role: string, content: string, id: Id, ok: bool)
    | OpTruncate(sid: Sid, keep: int, ok: bool)
    | OpDeleteMessage(sid: Sid, mid: Id, ok: bool)
    | OpReplace(sid: Sid, messages: seq<Incoming>, reserved: bool, committed: bool)
    | OpDeleteSession(sid: Sid, ok: bool)
    | OpRestart(loaded: set<Sid>)

  ghost predicate DistinctIds(messages: seq<Incoming>) {
    forall i, j :: 0 <= i < j < |messages| ==> messages[i].id != messages[j].id
  }

  /** Ids are fresh uuids. */
  ghost predicate FreshIds(db: Db, op: Op) {
    match op
    case OpAdd(_, _, _, id, _) => id !in Ids(db.rows)
    case OpReplace(_, messages, _, _) =>
      DistinctIds(messages) && forall m :: m in messages ==> m.id !in Ids(db.rows)
    case _ => true
  }

  /** `get_session` raising `KeyError` ends an operation without effect. */
  function Apply(s: State, op: Op): State
  {
    match op
    case OpCreate(sid, ok) => Create(s, sid, ok)
    case OpGet(sid) => if CanGet(s, sid) then Get(s, sid) else s
    case OpAdd(sid, role, content, id, ok) => if CanGet(s, sid) then Add(s, sid, role, content, id, ok) else s
    case OpTruncate(sid, keep, ok) => if CanGet(s, sid) then Truncate(s, sid, keep, ok) else s
    case OpDeleteMessage(sid, mid, ok) => if CanGet(s, sid) then DeleteMessage(s, sid, mid, ok) else s
    case OpReplace(sid, messages, reserved, committed) =>
      if CanGet(s, sid) then Replace(s, sid, messages, reserved, committed) else s
    case OpDeleteSession(sid, ok) => DeleteSession(s, sid, ok)
    case OpRestart(loaded) => Restart(s, loaded)
  }

  // ---------------------------------------------------------------------
  // The specification: one list per session
  // ---------------------------------------------------------------------

  type ListMap = map<Sid, seq<Msg>>

  /** Per session the messages as they are stored, and as `get_session` returns
      them: a message keeps the text with which it was given until the session is
      loaded again from its rows. */
  datatype Plain = Plain(stored: ListMap, live: ListMap)

  function GivenStored(messages: seq<Incoming>): seq<Msg> {
    seq(|messages|, i requires 0 <= i < |messages| =>
      Msg(messages[i].role, Stored(messages[i].content), Some(messages[i].id)))
  }

  function PlainApply(p: Plain, op: Op): Plain {
    match op
    case OpCreate(sid, ok) =>
      if ok && sid !in p.stored then Plain(p.stored[sid := []], p.live[sid := []]) else p
    case OpAdd(sid, role, content, id, ok) =>
      if ok && sid in p.stored && sid in p.live then
        Plain(p.stored[sid := p.stored[sid] + [Msg(role, Stored(content), Some(id))]],
              p.live[sid := p.live[sid] + [Msg(role, content, Some(id))]])
      else p
    case OpTruncate(sid, keep, ok) =>
      if ok && keep >= 0 && sid in p.stored && sid in p.live then
        Plain(p.stored[sid := First(p.stored[sid], keep)], p.live[sid := First(p.live[sid], keep)])
      else p
    case OpDeleteMessage(sid, mid, ok) =>
      if ok && mid != "" && sid in p.stored && sid in p.live then
        Plain(p.stored[sid := WithoutMsg(p.stored[sid], mid)], p.live[sid := WithoutMsg(p.live[sid], mid)])
      else p
    case OpReplace(sid, messages, reserved, committed) =>
      if reserved && committed && sid in p.stored then
        Plain(p.stored[sid := GivenStored(messages)], p.live[sid := Given(messages)])
      else p
    case OpDeleteSession(sid, ok) => if ok then Plain(p.stored - {sid}, p.live - {sid}) else Reloaded(p, sid)
    case OpRestart(_) => p.(live := p.stored)
    case OpGet(_) => p
  }

  /** The cached copy has gone. */
  function Reloaded(p: Plain, sid: Sid): Plain {
    if sid in p.stored then p.(live := p.live[sid := p.stored[sid]]) else p
  }

  /** The lists that the tables hold. */
  function Lists(db: Db): ListMap {
    map sid | sid in db.counts :: Transcript(db, sid)
  }

  /** The transcript that `get_session` would return. */
  function View(s: State, sid: Sid): seq<Msg> {
    if NeedsLoad(s, sid) then Transcript(s.db, sid) else s.cache[sid].history
  }

  function Live(s: State): ListMap {
    map sid | sid in s.db.counts :: View(s, sid)
  }

  function PlainOf(s: State): Plain {
    Plain(Lists(s.db), Live(s))
  }

  // ---------------------------------------------------------------------
  // Agreement
  // ---------------------------------------------------------------------

  /** Keys are unique and every message has its session. */
  ghost predicate TablesSound(db: Db) {
    UniqueIds(db.rows) && forall r :: r in db.rows ==> r.sid in db.counts
  }

  /** Also, every count is the number of messages. */
  ghost predicate TablesAgree(db: Db) {
    && TablesSound(db)
    && (forall sid :: sid in db.counts ==> db.counts[sid] == |RowsOf(db.rows, sid)|)
  }

  /** A message in memory and its row: the text is the same, or is what was stored
      as the row's. */
  predicate Matches(m: Msg, t: Msg) {
    m.role == t.role && m.dbId == t.dbId && (m.content == t.content || Stored(m.content) == t.content)
  }

  predicate StandsFor(h: seq<Msg>, t: seq<Msg>) {
    |h| == |t| && forall i :: 0 <= i < |h| ==> Matches(h[i], t[i])
  }

  /** A cached history stands for the transcript, or will be loaded on first use. */
  ghost predicate CacheAgrees(s: State) {
    forall sid :: sid in s.cache ==>
      sid in s.db.counts && (NeedsLoad(s, sid) || StandsFor(s.cache[sid].history, Transcript(s.db, sid)))
  }

  ghost predicate Agree(s: State) {
    TablesAgree(s.db) && CacheAgrees(s)
  }

  // ---------------------------------------------------------------------
  // Rows of a session under the row operations
  // ---------------------------------------------------------------------

  lemma {:induction false} InRowsOf(rows: seq<Row>, sid: Sid, r: Row)
    ensures r in RowsOf(rows, sid) <==> r in rows && r.sid == sid
  {
    if rows != [] {
      InRowsOf(rows[..|rows| - 1], sid, r);
      assert rows == rows[..|rows| - 1] + [rows[|rows| - 1]];
    }
  }

  lemma {:induction false} RowsOfUnique(rows: seq<Row>, sid: Sid)
    requires UniqueIds(rows)
    ensures UniqueIds(RowsOf(rows, sid))
  {
    if rows != [] {
      var front, last := rows[..|rows| - 1], rows[|rows| - 1];
      RowsOfUnique(front, sid);
      forall r | r in RowsOf(front, sid)
        ensures r.id != last.id
      {
        InRowsOf(front, sid, r);
      }
    }
  }

  lemma {:induction false} RowsOfWithout(rows: seq<Row>, doomed: set<Id>, sid: Sid)
    ensures RowsOf(WithoutRows(rows, doomed), sid) == WithoutRows(RowsOf(rows, sid), doomed)
  {
    if rows != [] {
      var front, last := rows[..|rows| - 1], rows[|rows| - 1];
      RowsOfWithout(front, doomed, sid);
      RowsOfAppend(WithoutRows(front, doomed), last, sid);
      WithoutRowsAppend(RowsOf(front, sid), last, doomed);
      assert WithoutRows(front, doomed) + [] == WithoutRows(front, doomed);
      assert RowsOf(front, sid) + [] == RowsOf(front, sid);
    }
  }

  lemma {:induction false} WithoutNone(rows: seq<Row>, doomed: set<Id>)
    requires forall r :: r in rows ==> r.id !in doomed
    ensures WithoutRows(rows, doomed) == rows
  {
    if rows != [] {
      var front, last := rows[..|rows| - 1], rows[|rows| - 1];
      assert rows == front + [last] && last in rows;
      WithoutNone(front, doomed);
    }
  }

  lemma {:induction false} WithoutEvery(rows: seq<Row>, doomed: set<Id>)
    requires forall r :: r in rows ==> r.id in doomed
    ensures WithoutRows(rows, doomed) == []
  {
    if rows != [] {
      WithoutEvery(rows[..|rows| - 1], doomed);
    }
  }

  lemma {:induction false} WithoutConcat(a: seq<Row>, b: seq<Row>, doomed: set<Id>)
    ensures WithoutRows(a + b, doomed) == WithoutRows(a, doomed) + WithoutRows(b, doomed)
  {
    if b == [] {
      assert a + b == a;
    } else {
      var front, last := b[..|b| - 1], b[|b| - 1];
      WithoutConcat(a, front, doomed);
      WithoutRowsAppend(a + front, last, doomed);
      assert a + b == (a + front) + [last];
    }
  }

  /** Deleting the rows from `n` on keeps the first `n`. */
  lemma WithoutTail(rows: seq<Row>, n: nat)
    requires UniqueIds(rows) && n <= |rows|
    ensures WithoutRows(rows, Ids(rows[n..])) == rows[..n]
  {
    assert rows == rows[..n] + rows[n..];
    WithoutConcat(rows[..n], rows[n..], Ids(rows[n..]));
    forall r | r in rows[..n]
      ensures r.id !in Ids(rows[n..])
    {
      var i :| 0 <= i < n && rows[i] == r;
      assert forall q :: q in rows[n..] ==> exists j :: n <= j < |rows| && rows[j] == q;
    }
    WithoutNone(rows[..n], Ids(rows[n..]));
    WithoutEvery(rows[n..], Ids(rows[n..]));
  }

  /** Deleting rows of one session leaves the others alone. */
  lemma OtherSessionsKeepRows(rows: seq<Row>, doomed: set<Id>, sid: Sid, other: Sid)
    requires UniqueIds(rows) && doomed <= Ids(RowsOf(rows, sid)) && other != sid
    ensures RowsOf(WithoutRows(rows, doomed), other) == RowsOf(rows, other)
  {
    RowsOfWithout(rows, doomed, other);
    forall r | r in RowsOf(rows, other)
      ensures r.id !in doomed
    {
      InRowsOf(rows, other, r);
      if r.id in doomed {
        var q :| q in RowsOf(rows, sid) && q.id == r.id;
        InRowsOf(rows, sid, q);
        SameIdSameRow(rows, q, r);
      }
    }
    WithoutNone(RowsOf(rows, other), doomed);
  }

  lemma SameIdSameRow(rows: seq<Row>, q: Row, r: Row)
    requires UniqueIds(rows) && q in rows && r in rows && q.id == r.id
    ensures q == r
  {
    var i :| 0 <= i < |rows| && rows[i] == q;
    var j :| 0 <= j < |rows| && rows[j] == r;
    assert !(i < j) && !(j < i);
  }

  lemma {:induction false} RowsOfConcat(a: seq<Row>, b: seq<Row>, sid: Sid)
    ensures RowsOf(a + b, sid) == RowsOf(a, sid) + RowsOf(b, sid)
  {
    if b == [] {
      assert a + b == a;
    } else {
      var front, last := b[..|b| - 1], b[|b| - 1];
      RowsOfConcat(a, front, sid);
      RowsOfAppend(a + front, last, sid);
      assert a + b == (a + front) + [last];
    }
  }

  lemma {:induction false} RowsOfOne(rows: seq<Row>, sid: Sid, other: Sid)
    requires forall r :: r in rows ==> r.sid == sid
    ensures RowsOf(rows, other) == if other == sid then rows else []
  {
    if rows != [] {
      RowsOfOne(rows[..|rows| - 1], sid, other);
      assert rows[..|rows| - 1] + [rows[|rows| - 1]] == rows;
    }
  }

  lemma {:induction false} InsertAllRows(db: Db, added: seq<Row>)
    ensures InsertAll(db, added).rows == db.rows + added && InsertAll(db, added).counts == db.counts
  {
    if added != [] {
      InsertAllRows(db, added[..|added| - 1]);
      assert added == added[..|added| - 1] + [added[|added| - 1]];
    }
  }

  lemma {:induction false} MessagesWithout(rows: seq<Row>, mid: Id)
    ensures Messages(WithoutRows(rows, {mid})) == WithoutMsg(Messages(rows), mid)
  {
    if rows != [] {
      var front, last := rows[..|rows| - 1], rows[|rows| - 1];
      MessagesWithout(front, mid);
      assert Messages(rows)[..|rows| - 1] == Messages(front);
    }
  }

  // ---------------------------------------------------------------------
  // One operation
  // ---------------------------------------------------------------------

  lemma StandsForItself(h: seq<Msg>)
    ensures StandsFor(h, h)
  {
    hide Stored;
  }

  lemma ViewStandsFor(s: State, sid: Sid)
    requires Agree(s) && sid in s.db.counts
    ensures StandsFor(View(s, sid), Transcript(s.db, sid))
  {
    StandsForItself(Transcript(s.db, sid));
    hide StandsFor, RowsOf, TablesAgree;
  }

  /** Loading a session changes no view. */
  lemma GetKeepsViews(s: State, sid: Sid, other: Sid)
    requires Agree(s) && sid in s.db.counts
    ensures View(Get(s, sid), other) == View(s, other)
    ensures other != sid ==> (NeedsLoad(Get(s, sid), other) <==> NeedsLoad(s, other))
  {
    hide RowsOf, UniqueIds, StandsFor;
    if other == sid {
      ViewStandsFor(s, sid);
      SameLength(View(s, sid), Transcript(s.db, sid));
    }
  }

  lemma GetAgrees(s: State, sid: Sid)
    requires Agree(s) && sid in s.db.counts
    ensures Agree(Get(s, sid)) && Get(s, sid).cache[sid] == Cached(View(s, sid), |View(s, sid)|)
  {
    ViewStandsFor(s, sid);
    SameLength(View(s, sid), Transcript(s.db, sid));
    hide RowsOf, UniqueIds, StandsFor;
  }

  /** With agreeing layers `get_session` succeeds for exactly the stored sessions;
      it returns the messages of the transcript, and their number. */
  lemma GetReturnsView(s: State, sid: Sid)
    requires Agree(s)
    ensures CanGet(s, sid) <==> sid in s.db.counts
    ensures CanGet(s, sid) ==>
              && Agree(Get(s, sid)) && PlainOf(Get(s, sid)) == PlainOf(s)
              && Get(s, sid).cache[sid] == Cached(View(s, sid), |View(s, sid)|)
              && StandsFor(View(s, sid), Transcript(s.db, sid))
  {
    if CanGet(s, sid) {
      assert sid in s.db.counts;
      GetAgrees(s, sid);
      ViewStandsFor(s, sid);
      forall other
        ensures View(Get(s, sid), other) == View(s, other)
      {
        GetKeepsViews(s, sid, other);
      }
      hide Agree, View, StandsFor, Transcript;
    }
  }

  lemma SameLength(h: seq<Msg>, t: seq<Msg>)
    requires StandsFor(h, t)
    ensures |h| == |t|
  {
  }

  /** Only the rows of session `sid` changed. */
  ghost predicate OnlyChanges(before: Db, after: Db, sid: Sid) {
    && after.counts.Keys == before.counts.Keys
    && (forall other :: other != sid ==> RowsOf(after.rows, other) == RowsOf(before.rows, other))
    && (forall other :: other in before.counts && other != sid ==> after.counts[other] == before.counts[other])
  }

  /** Sessions whose rows and cached copy are the same look the same. */
  lemma SameView(s: State, t: State, sid: Sid)
    requires RowsOf(t.db.rows, sid) == RowsOf(s.db.rows, sid)
    requires sid in s.cache <==> sid in t.cache
    requires sid in s.cache ==> s.cache[sid] == t.cache[sid]
    ensures Transcript(t.db, sid) == Transcript(s.db, sid) && View(t, sid) == View(s, sid)
    ensures NeedsLoad(t, sid) <==> NeedsLoad(s, sid)
  {
    hide RowsOf;
  }

  lemma ChangedView(s: State, db: Db, sid: Sid, c: Cached)
    requires StandsFor(c.history, Transcript(db, sid))
    ensures View(State(s.cache[sid := c], db), sid) == c.history
    ensures |c.history| == |RowsOf(db.rows, sid)|
  {
    hide RowsOf;
    SameLength(c.history, Transcript(db, sid));
    assert c.history == [] ==> Transcript(db, sid) == [];
  }

  lemma OtherViews(s: State, db: Db, sid: Sid, c: Cached, other: Sid)
    requires OnlyChanges(s.db, db, sid) && other != sid
    ensures var after := State(s.cache[sid := c], db);
            && Transcript(db, other) == Transcript(s.db, other) && View(after, other) == View(s, other)
            && (NeedsLoad(after, other) <==> NeedsLoad(s, other))
  {
    SameView(s, State(s.cache[sid := c], db), other);
    hide RowsOf, View, Transcript, NeedsLoad;
  }

  lemma ListsFollow(s: State, db: Db, sid: Sid, c: Cached)
    requires sid in s.db.counts && OnlyChanges(s.db, db, sid)
    requires View(State(s.cache[sid := c], db), sid) == c.history
    ensures Lists(db) == Lists(s.db)[sid := Transcript(db, sid)]
    ensures Live(State(s.cache[sid := c], db)) == Live(s)[sid := c.history]
  {
    assert db.counts.Keys == s.db.counts.Keys;
    hide RowsOf, View, Transcript, NeedsLoad, OnlyChanges;
    forall other | other != sid
      ensures Transcript(db, other) == Transcript(s.db, other)
      ensures View(State(s.cache[sid := c], db), other) == View(s, other)
    {
      OtherViews(s, db, sid, c, other);
    }
  }

  lemma TablesFollow(db: Db, after: Db, sid: Sid)
    requires TablesAgree(db) && sid in db.counts && OnlyChanges(db, after, sid)
    requires UniqueIds(after.rows) && (forall r :: r in after.rows ==> r.sid in after.counts)
    requires after.counts[sid] == |RowsOf(after.rows, sid)|
    ensures TablesAgree(after)
  {
    hide RowsOf, UniqueIds;
  }

  lemma CopiesFollow(s: State, db: Db, sid: Sid, c: Cached)
    requires CacheAgrees(s) && sid in s.db.counts && OnlyChanges(s.db, db, sid)
    requires StandsFor(c.history, Transcript(db, sid))
    ensures CacheAgrees(State(s.cache[sid := c], db))
  {
    var after := State(s.cache[sid := c], db);
    assert db.counts.Keys == s.db.counts.Keys;
    forall other | other in after.cache
      ensures other in db.counts
      ensures NeedsLoad(after, other) || StandsFor(after.cache[other].history, Transcript(db, other))
    {
      if other != sid {
        OtherViews(s, db, sid, c, other);
        assert other in s.cache;
        hide RowsOf, StandsFor, NeedsLoad, Transcript, OnlyChanges;
      }
    }
  }

  /** A cache that stands for the new transcript of the changed session agrees again. */
  lemma CacheFollows(s: State, db: Db, sid: Sid, c: Cached)
    requires Agree(s) && sid in s.db.counts && OnlyChanges(s.db, db, sid)
    requires UniqueIds(db.rows) && (forall r :: r in db.rows ==> r.sid in db.counts)
    requires db.counts[sid] == |RowsOf(db.rows, sid)| && StandsFor(c.history, Transcript(db, sid))
    ensures Agree(State(s.cache[sid := c], db))
    ensures Lists(db) == Lists(s.db)[sid := Transcript(db, sid)]
    ensures Live(State(s.cache[sid := c], db)) == Live(s)[sid := c.history]
  {
    hide RowsOf, UniqueIds, StandsFor, View, Transcript, NeedsLoad, TablesAgree, CacheAgrees;
    ChangedView(s, db, sid, c);
    TablesFollow(s.db, db, sid);
    CopiesFollow(s, db, sid, c);
    ListsFollow(s, db, sid, c);
  }

  lemma RowsAfterDeletion(rows: seq<Row>, doomed: set<Id>, sid: Sid)
    requires UniqueIds(rows) && doomed <= Ids(RowsOf(rows, sid))
    ensures var after := WithoutRows(rows, doomed);
            && UniqueIds(after)
            && (forall r :: r in after ==> r in rows)
            && (forall other :: RowsOf(after, other) ==
                  if other == sid then WithoutRows(RowsOf(rows, sid), doomed) else RowsOf(rows, other))
  {
    WithoutRowsUnique(rows, doomed);
    forall other
      ensures RowsOf(WithoutRows(rows, doomed), other) ==
              if other == sid then WithoutRows(RowsOf(rows, sid), doomed) else RowsOf(rows, other)
    {
      if other == sid {
        RowsOfWithout(rows, doomed, sid);
      } else {
        OtherSessionsKeepRows(rows, doomed, sid, other);
      }
    }
    forall r | r in WithoutRows(rows, doomed)
      ensures r in rows
    {
      InWithoutRows(rows, doomed, r);
    }
  }

  /** Rows were deleted from session `sid`, and its count follows. */
  lemma DeletionChanges(db: Db, doomed: set<Id>, sid: Sid)
    requires TablesSound(db) && sid in db.counts && doomed <= Ids(RowsOf(db.rows, sid))
    ensures var left := WithoutRows(RowsOf(db.rows, sid), doomed);
            var after := SetCount(DeleteRows(db, doomed), sid, |left|);
            && RowsOf(after.rows, sid) == left && OnlyChanges(db, after, sid)
            && UniqueIds(after.rows) && (forall r :: r in after.rows ==> r in db.rows && r.sid in after.counts)
  {
    hide RowsOf, WithoutRows, WithoutEntries, UniqueIds, Ids;
    RowsAfterDeletion(db.rows, doomed, sid);
  }

  /** Rows were added to session `sid`. */
  lemma InsertionChanges(db: Db, added: seq<Row>, sid: Sid)
    requires TablesSound(db) && sid in db.counts
    requires UniqueIds(db.rows + added) && forall r :: r in added ==> r.sid == sid
    ensures var after := SetCount(InsertAll(db, added), sid, |RowsOf(db.rows, sid)| + |added|);
            && after.rows == db.rows + added
            && RowsOf(after.rows, sid) == RowsOf(db.rows, sid) + added && OnlyChanges(db, after, sid)
            && (forall r :: r in after.rows ==> r.sid in after.counts)
  {
    hide RowsOf, InsertAll, UniqueIds;
    InsertAllRows(db, added);
    forall other
      ensures RowsOf(db.rows + added, other) == if other == sid then RowsOf(db.rows, sid) + added else RowsOf(db.rows, other)
    {
      AddedRowsOf(db.rows, added, sid, other);
    }
  }

  lemma AddedRowsOf(rows: seq<Row>, added: seq<Row>, sid: Sid, other: Sid)
    requires forall r :: r in added ==> r.sid == sid
    ensures RowsOf(rows + added, other) == if other == sid then RowsOf(rows, sid) + added else RowsOf(rows, other)
  {
    hide RowsOf;
    RowsOfConcat(rows, added, other);
    RowsOfOne(added, sid, other);
    assert RowsOf(rows, other) + [] == RowsOf(rows, other);
  }

  lemma MessagesConcat(a: seq<Row>, b: seq<Row>)
    ensures Messages(a + b) == Messages(a) + Messages(b)
  {
  }

  /** The operation does what it does to plain lists, and the layers agree after it. */
  ghost predicate Refines(s: State, op: Op)
  {
    Agree(Apply(s, op)) && PlainOf(Apply(s, op)) == PlainApply(PlainOf(s), op)
  }

  lemma StandsForAppend(h: seq<Msg>, t: seq<Msg>, m: Msg, n: Msg)
    requires StandsFor(h, t) && Matches(m, n)
    ensures StandsFor(h + [m], t + [n])
  {
    hide Matches;
  }

  lemma AppendedTables(db: Db, sid: Sid, row: Row)
    requires TablesAgree(db) && sid in db.counts && row.sid == sid && row.id !in Ids(db.rows)
    ensures var after := SetCount(InsertRow(db, row), sid, |RowsOf(db.rows, sid)| + 1);
            && OnlyChanges(db, after, sid) && UniqueIds(after.rows)
            && (forall r :: r in after.rows ==> r.sid in after.counts)
            && after.counts[sid] == |RowsOf(after.rows, sid)|
            && Transcript(after, sid) == Transcript(db, sid) + [ToMsg(row)]
  {
    assert UniqueIds(db.rows + [row]) by {
      assert forall r :: r in db.rows ==> r.id in Ids(db.rows);
    }
    InsertionChanges(db, [row], sid);
    assert InsertAll(db, [row]) == InsertRow(db, row) by {
      assert [row][..0] == [];
    }
    MessagesConcat(RowsOf(db.rows, sid), [row]);
    assert Messages([row]) == [ToMsg(row)];
    hide RowsOf, InsertAll, InsertRow, UniqueIds;
  }

  lemma AddRefines(s: State, sid: Sid, role: string, content: string, id: Id)
    requires Agree(s) && id !in Ids(s.db.rows)
    ensures Refines(s, OpAdd(sid, role, content, id, true))
  {
    hide RowsOf, InsertAll, InsertRow, UniqueIds, Stored, StandsFor, OnlyChanges;
    GetReturnsView(s, sid);
    if CanGet(s, sid) {
      var g := Get(s, sid);
      var row := Row(id, sid, role, Stored(content));
      var h, t := g.cache[sid].history, Transcript(g.db, sid);
      SameLength(h, t);
      AppendedTables(g.db, sid, row);
      StandsForAppend(h, t, Msg(role, content, Some(id)), ToMsg(row));
      var after := Apply(s, OpAdd(sid, role, content, id, true));
      CacheFollows(g, after.db, sid, after.cache[sid]);
      assert after == State(g.cache[sid := after.cache[sid]], after.db);
      assert View(s, sid) == h;
    }
  }

  /** The rows of session `sid` from `n` on were deleted. */
  lemma TailDeletionChanges(db: Db, sid: Sid, n: nat)
    requires TablesSound(db) && sid in db.counts && n <= |RowsOf(db.rows, sid)|
    ensures var rows := RowsOf(db.rows, sid);
            var after := SetCount(DeleteRows(db, Ids(rows[n..])), sid, n);
            && RowsOf(after.rows, sid) == rows[..n] && OnlyChanges(db, after, sid)
            && sid in after.counts && after.counts[sid] == n
            && UniqueIds(after.rows) && (forall r :: r in after.rows ==> r.sid in after.counts)
  {
    var rows := RowsOf(db.rows, sid);
    RowsOfUnique(db.rows, sid);
    hide RowsOf, WithoutRows, WithoutEntries, UniqueIds;
    WithoutTail(rows, n);
    assert Ids(rows[n..]) <= Ids(rows);
    hide Ids;
    DeletionChanges(db, Ids(rows[n..]), sid);
  }

  lemma StandsForFirst(h: seq<Msg>, t: seq<Msg>, n: nat)
    requires StandsFor(h, t)
    ensures StandsFor(First(h, n), First(t, n))
  {
    hide Matches;
  }

  lemma TruncateRefines(s: State, sid: Sid, keep: int, ok: bool)
    requires Agree(s)
    ensures Refines(s, OpTruncate(sid, keep, ok))
  {
    hide RowsOf, WithoutRows, WithoutEntries, UniqueIds, Ids, DeleteRows, OnlyChanges, StandsFor;
    GetReturnsView(s, sid);
    if CanGet(s, sid) && keep >= 0 && ok {
      var g := Get(s, sid);
      var rows := RowsOf(g.db.rows, sid);
      var n := if keep < |rows| then keep else |rows|;
      TailDeletionChanges(g.db, sid, n);
      var after := Apply(s, OpTruncate(sid, keep, ok));
      assert First(Messages(rows), keep) == Messages(rows[..n]);
      StandsForFirst(g.cache[sid].history, Messages(rows), keep);
      assert after.db == SetCount(DeleteRows(g.db, Ids(rows[n..])), sid, n);
      assert Transcript(after.db, sid) == Messages(rows[..n]) && after.db.counts[sid] == n;
      CacheFollows(g, after.db, sid, after.cache[sid]);
      assert after == State(g.cache[sid := after.cache[sid]], after.db);
      assert View(s, sid) == g.cache[sid].history;
    }
  }

  lemma {:induction false} StandsForWithout(h: seq<Msg>, t: seq<Msg>, mid: Id)
    requires StandsFor(h, t)
    ensures StandsFor(WithoutMsg(h, mid), WithoutMsg(t, mid))
  {
    if h != [] {
      hide Stored;
      var (a, b) := (h[..|h| - 1], t[..|t| - 1]);
      assert Matches(h[|h| - 1], t[|t| - 1]);
      StandsForWithout(a, b, mid);
      if h[|h| - 1].dbId != Some(mid) {
        StandsForAppend(WithoutMsg(a, mid), WithoutMsg(b, mid), h[|h| - 1], t[|t| - 1]);
      } else {
        assert WithoutMsg(a, mid) + [] == WithoutMsg(a, mid) && WithoutMsg(b, mid) + [] == WithoutMsg(b, mid);
      }
    }
  }

  lemma {:induction false} NothingToRemove(h: seq<Msg>, mid: Id)
    requires forall m :: m in h ==> m.dbId != Some(mid)
    ensures WithoutMsg(h, mid) == h
  {
    if h != [] {
      var (front, last) := (h[..|h| - 1], h[|h| - 1]);
      assert h == front + [last] && last in h;
      NothingToRemove(front, mid);
    }
  }

  lemma PresentMessageRefines(g: State, sid: Sid, mid: Id, h: seq<Msg>)
    requires Agree(g) && sid in g.db.counts && HasMessage(g.db, sid, mid) && StandsFor(h, Transcript(g.db, sid))
    ensures var db := SetCount(DeleteRows(g.db, {mid}), sid, |RowsOf(DeleteRows(g.db, {mid}).rows, sid)|);
            var (history, t) := (WithoutMsg(h, mid), WithoutMsg(Transcript(g.db, sid), mid));
            var after := State(g.cache[sid := Cached(history, |history|)], db);
            Agree(after) && PlainOf(after) == Plain(Lists(g.db)[sid := t], Live(g)[sid := history])
  {
    var rows := RowsOf(g.db.rows, sid);
    MessagesWithout(rows, mid);
    assert {mid} <= Ids(rows);
    DeletionChanges(g.db, {mid}, sid);
    hide RowsOf, WithoutRows, WithoutEntries, UniqueIds, Ids, WithoutMsg, StandsFor;
    StandsForWithout(h, Transcript(g.db, sid), mid);
    var db := SetCount(DeleteRows(g.db, {mid}), sid, |RowsOf(DeleteRows(g.db, {mid}).rows, sid)|);
    var history := WithoutMsg(h, mid);
    assert RowsOf(db.rows, sid) == WithoutRows(rows, {mid});
    CacheFollows(g, db, sid, Cached(history, |history|));
  }

  lemma AbsentMessage(db: Db, sid: Sid, mid: Id, h: seq<Msg>)
    requires !HasMessage(db, sid, mid) && StandsFor(h, Transcript(db, sid))
    ensures WithoutMsg(Transcript(db, sid), mid) == Transcript(db, sid) && WithoutMsg(h, mid) == h
  {
    var rows := RowsOf(db.rows, sid);
    assert forall r :: r in rows ==> r.id in Ids(rows);
    hide RowsOf, Stored;
    forall m | m in h
      ensures m.dbId != Some(mid)
    {
      var i :| 0 <= i < |h| && h[i] == m;
      assert Matches(h[i], Messages(rows)[i]) && rows[i] in rows;
    }
    NothingToRemove(h, mid);
    NothingToRemove(Messages(rows), mid);
  }

  lemma DeleteOnGot(g: State, sid: Sid, mid: Id, h: seq<Msg>)
    requires Agree(g) && sid in g.db.counts && sid in g.cache && g.cache[sid] == Cached(h, |h|)
    requires Live(g)[sid] == h && StandsFor(h, Transcript(g.db, sid))
    ensures var db := DeleteRows(g.db, {mid});
            var (history, t) := (WithoutMsg(h, mid), WithoutMsg(Transcript(g.db, sid), mid));
            var after := if HasMessage(g.db, sid, mid)
                         then State(g.cache[sid := Cached(history, |history|)], SetCount(db, sid, |RowsOf(db.rows, sid)|))
                         else g;
            Agree(after) && PlainOf(after) == Plain(Lists(g.db)[sid := t], Live(g)[sid := history])
  {
    hide Agree, Transcript, RowsOf, WithoutMsg, DeleteRows, HasMessage, StandsFor;
    if HasMessage(g.db, sid, mid) {
      PresentMessageRefines(g, sid, mid, h);
    } else {
      AbsentMessage(g.db, sid, mid, h);
      assert Lists(g.db)[sid := Transcript(g.db, sid)] == Lists(g.db) && Live(g)[sid := h] == Live(g);
    }
  }

  lemma DeleteMessageRefines(s: State, sid: Sid, mid: Id, ok: bool)
    requires Agree(s)
    ensures Refines(s, OpDeleteMessage(sid, mid, ok))
  {
    hide Agree, RowsOf, WithoutMsg, DeleteRows, HasMessage, StandsFor, View;
    GetReturnsView(s, sid);
    if CanGet(s, sid) && mid != "" && ok {
      DeleteOnGot(Get(s, sid), sid, mid, View(s, sid));
    }
  }

  lemma NewRowsUnique(rows: seq<Row>, sid: Sid, messages: seq<Incoming>)
    requires UniqueIds(rows) && DistinctIds(messages) && forall m :: m in messages ==> m.id !in Ids(rows)
    ensures UniqueIds(rows + NewRows(sid, messages))
  {
    assert forall r :: r in rows ==> r.id in Ids(rows);
    assert forall i :: 0 <= i < |messages| ==> messages[i] in messages;
  }

  /** The tables after a replacement has cleared its session. */
  lemma ClearedSession(db: Db, sid: Sid)
    requires TablesSound(db) && sid in db.counts
    ensures var cleared := SetCount(DeleteRows(db, Ids(RowsOf(db.rows, sid))), sid, 0);
            && TablesSound(cleared) && sid in cleared.counts && RowsOf(cleared.rows, sid) == []
            && OnlyChanges(db, cleared, sid)
            && Ids(cleared.rows) <= Ids(db.rows)
  {
    hide RowsOf, WithoutRows, WithoutEntries, UniqueIds;
    var doomed := Ids(RowsOf(db.rows, sid));
    WithoutEvery(RowsOf(db.rows, sid), doomed);
    DeletionChanges(db, doomed, sid);
    var cleared := SetCount(DeleteRows(db, doomed), sid, 0);
    assert forall r :: r in cleared.rows ==> r in db.rows;
  }

  lemma CountLast(db: Db, sid: Sid, rows: seq<Row>, n: nat)
    requires sid in db.counts
    ensures SetCount(InsertAll(db, rows), sid, n).rows == SetCount(InsertAll(SetCount(db, sid, 0), rows), sid, n).rows
    ensures SetCount(InsertAll(db, rows), sid, n).counts == SetCount(InsertAll(SetCount(db, sid, 0), rows), sid, n).counts
  {
    InsertAllRows(db, rows);
    InsertAllRows(SetCount(db, sid, 0), rows);
    hide InsertAll;
  }

  lemma ReplacedTables(db: Db, sid: Sid, messages: seq<Incoming>)
    requires TablesSound(db) && sid in db.counts
    requires FreshIds(db, OpReplace(sid, messages, true, true))
    ensures var after := SetCount(InsertAll(DeleteRows(db, Ids(RowsOf(db.rows, sid))), NewRows(sid, messages)), sid, |messages|);
            && OnlyChanges(db, after, sid) && RowsOf(after.rows, sid) == NewRows(sid, messages)
            && after.counts[sid] == |messages|
            && UniqueIds(after.rows) && (forall r :: r in after.rows ==> r.sid in after.counts)
  {
    hide RowsOf, DeleteRows, InsertAll, UniqueIds, Ids;
    var deleted := DeleteRows(db, Ids(RowsOf(db.rows, sid)));
    var (cleared, rows) := (SetCount(deleted, sid, 0), NewRows(sid, messages));
    ClearedSession(db, sid);
    NewRowsUnique(cleared.rows, sid, messages);
    InsertionChanges(cleared, rows, sid);
    CountLast(deleted, sid, rows, |messages|);
    assert [] + rows == rows;
  }

  /** A committed replacement leaves exactly the given messages: as they are in
      the cache, in their stored form in the rows, and their number as the count;
      nothing is required of the cache before. */
  lemma ReplacementStores(s: State, sid: Sid, messages: seq<Incoming>)
    requires TablesSound(s.db) && sid in s.db.counts && CanGet(s, sid)
    requires FreshIds(s.db, OpReplace(sid, messages, true, true))
    ensures var after := Replace(s, sid, messages, true, true);
            && OnlyChanges(s.db, after.db, sid)
            && Transcript(after.db, sid) == GivenStored(messages) && after.db.counts[sid] == |messages|
            && after.cache[sid] == Cached(Given(messages), |messages|)
            && UniqueIds(after.db.rows) && (forall r :: r in after.db.rows ==> r.sid in after.db.counts)
  {
    hide RowsOf, DeleteRows, InsertAll, UniqueIds, Ids, OnlyChanges, TablesSound, FreshIds, NewRows, Messages, SetCount;
    hide Given, GivenStored;
    ReplacedTables(s.db, sid, messages);
    NewRowsGiven(sid, messages);
  }

  lemma NewRowsGiven(sid: Sid, messages: seq<Incoming>)
    ensures Messages(NewRows(sid, messages)) == GivenStored(messages)
    ensures StandsFor(Given(messages), GivenStored(messages))
    ensures |GivenStored(messages)| == |messages|
  {
    hide Stored;
  }

  lemma ReplaceRefines(s: State, sid: Sid, messages: seq<Incoming>)
    requires Agree(s) && FreshIds(s.db, OpReplace(sid, messages, true, true))
    ensures Refines(s, OpReplace(sid, messages, true, true))
  {
    hide RowsOf, InsertAll, DeleteRows, UniqueIds, Ids, StandsFor, Given, GivenStored, NewRows, OnlyChanges;
    GetReturnsView(s, sid);
    if CanGet(s, sid) {
      ReplacementStores(s, sid, messages);
      NewRowsGiven(sid, messages);
      var g := Get(s, sid);
      var after := Apply(s, OpReplace(sid, messages, true, true));
      CacheFollows(g, after.db, sid, after.cache[sid]);
      assert after == State(g.cache[sid := after.cache[sid]], after.db);
    }
  }

  lemma DroppingKeepsViews(s: State, sid: Sid, other: Sid)
    ensures var after := s.(cache := s.cache - {sid});
            && View(after, other) == (if other == sid then Transcript(s.db, sid) else View(s, other))
            && (other != sid ==> (NeedsLoad(after, other) <==> NeedsLoad(s, other)))
  {
    hide RowsOf;
  }

  lemma DroppingCopy(s: State, sid: Sid)
    requires Agree(s)
    ensures var after := s.(cache := s.cache - {sid});
            Agree(after) && PlainOf(after) == Reloaded(PlainOf(s), sid)
  {
    hide View, Transcript, NeedsLoad, TablesAgree, StandsFor;
    var after := s.(cache := s.cache - {sid});
    forall other
      ensures View(after, other) == if other == sid then Transcript(s.db, sid) else View(s, other)
      ensures other != sid ==> (NeedsLoad(after, other) <==> NeedsLoad(s, other))
    {
      DroppingKeepsViews(s, sid, other);
    }
    assert sid in s.db.counts ==> Live(after) == Live(s)[sid := Transcript(s.db, sid)];
    assert sid !in s.db.counts ==> Live(after) == Live(s);
  }

  lemma RemovedTables(db: Db, sid: Sid)
    requires TablesAgree(db) && sid in db.counts
    ensures var after := DeleteRows(db, Ids(RowsOf(db.rows, sid)));
            && UniqueIds(after.rows) && after.counts == db.counts
            && (forall r :: r in after.rows ==> r.sid in db.counts && r.sid != sid)
            && (forall other :: other != sid ==> RowsOf(after.rows, other) == RowsOf(db.rows, other))
  {
    hide RowsOf, WithoutRows, WithoutEntries, UniqueIds;
    var doomed := Ids(RowsOf(db.rows, sid));
    WithoutEvery(RowsOf(db.rows, sid), doomed);
    hide Ids;
    RowsAfterDeletion(db.rows, doomed, sid);
    var after := DeleteRows(db, doomed);
    forall r | r in after.rows
      ensures r.sid != sid
    {
      InRowsOf(after.rows, sid, r);
    }
  }

  lemma DeletedViews(s: State, sid: Sid, other: Sid)
    requires Agree(s) && sid in s.db.counts && other != sid
    ensures var after := DeleteSession(s, sid, true);
            && Transcript(after.db, other) == Transcript(s.db, other) && View(after, other) == View(s, other)
            && (NeedsLoad(after, other) <==> NeedsLoad(s, other))
  {
    hide RowsOf, DeleteRows, Ids, View, Transcript, NeedsLoad;
    RemovedTables(s.db, sid);
    SameView(s, DeleteSession(s, sid, true), other);
  }

  lemma DeletedAgrees(s: State, sid: Sid)
    requires Agree(s) && sid in s.db.counts
    ensures Agree(DeleteSession(s, sid, true))
  {
    hide RowsOf, DeleteRows, UniqueIds, StandsFor, Ids, Transcript, View, NeedsLoad;
    RemovedTables(s.db, sid);
    forall other | other != sid
      ensures Transcript(DeleteSession(s, sid, true).db, other) == Transcript(s.db, other)
      ensures NeedsLoad(DeleteSession(s, sid, true), other) <==> NeedsLoad(s, other)
    {
      DeletedViews(s, sid, other);
    }
  }

  lemma DeletedSession(s: State, sid: Sid)
    requires Agree(s) && sid in s.db.counts
    ensures Refines(s, OpDeleteSession(sid, true))
  {
    DeletedAgrees(s, sid);
    var after := DeleteSession(s, sid, true);
    forall other | other != sid
      ensures Transcript(after.db, other) == Transcript(s.db, other) && View(after, other) == View(s, other)
    {
      DeletedViews(s, sid, other);
    }
    hide RowsOf, DeleteRows, Agree, Ids, Transcript, View;
    assert Lists(after.db) == Lists(s.db) - {sid};
    assert Live(after) == Live(s) - {sid};
  }

  lemma DeleteSessionRefines(s: State, sid: Sid, ok: bool)
    requires Agree(s)
    ensures Refines(s, OpDeleteSession(sid, ok))
  {
    if sid in s.db.counts && ok {
      DeletedSession(s, sid);
    } else {
      hide RowsOf, DeleteRows, UniqueIds, StandsFor, Ids, Transcript;
      DroppingCopy(s, sid);
      assert Lists(s.db) - {sid} == Lists(s.db) || sid in s.db.counts;
      assert Live(s) - {sid} == Live(s) || sid in s.db.counts;
    }
  }

  lemma NoRowsYet(db: Db, sid: Sid)
    requires TablesSound(db) && sid !in db.counts
    ensures RowsOf(db.rows, sid) == []
  {
    assert |RowsOf(db.rows, sid)| > 0 ==> RowsOf(db.rows, sid)[0] in RowsOf(db.rows, sid);
    forall r
      ensures r !in RowsOf(db.rows, sid)
    {
      InRowsOf(db.rows, sid, r);
    }
    hide RowsOf;
  }

  lemma CreatedSession(s: State, sid: Sid)
    requires Agree(s) && sid !in s.db.counts
    ensures var after := Create(s, sid, true);
            && RowsOf(after.db.rows, sid) == [] && StandsFor([], Transcript(after.db, sid))
            && Transcript(after.db, sid) == [] && View(after, sid) == [] && !NeedsLoad(after, sid)
  {
    NoRowsYet(s.db, sid);
    hide RowsOf, UniqueIds;
  }

  lemma CreatedViews(s: State, sid: Sid, other: Sid)
    requires sid !in s.db.counts && other != sid
    ensures var after := Create(s, sid, true);
            && Transcript(after.db, other) == Transcript(s.db, other) && View(after, other) == View(s, other)
            && (NeedsLoad(after, other) <==> NeedsLoad(s, other))
  {
    SameView(s, Create(s, sid, true), other);
    hide View, Transcript, NeedsLoad;
  }

  lemma CreatedAgrees(s: State, sid: Sid)
    requires Agree(s) && sid !in s.db.counts
    ensures Agree(Create(s, sid, true))
  {
    hide RowsOf, UniqueIds, StandsFor, Transcript, View, NeedsLoad;
    CreatedSession(s, sid);
    forall other | other != sid
      ensures Transcript(Create(s, sid, true).db, other) == Transcript(s.db, other)
      ensures NeedsLoad(Create(s, sid, true), other) <==> NeedsLoad(s, other)
    {
      CreatedViews(s, sid, other);
    }
  }

  lemma CreatedStored(s: State, sid: Sid)
    requires Agree(s) && sid !in s.db.counts
    ensures Lists(Create(s, sid, true).db) == Lists(s.db)[sid := []]
  {
    var after := Create(s, sid, true);
    CreatedSession(s, sid);
    assert after.db.counts.Keys == s.db.counts.Keys + {sid} && after.db.rows == s.db.rows;
    hide RowsOf, Agree, Create, StandsFor, View, NeedsLoad;
  }

  lemma CreatedLive(s: State, sid: Sid)
    requires Agree(s) && sid !in s.db.counts
    ensures Live(Create(s, sid, true)) == Live(s)[sid := []]
  {
    var after := Create(s, sid, true);
    CreatedSession(s, sid);
    assert after.db.counts.Keys == s.db.counts.Keys + {sid};
    hide RowsOf, Agree, Transcript, View, StandsFor, Create, NeedsLoad;
    forall other | other != sid
      ensures View(after, other) == View(s, other)
    {
      CreatedViews(s, sid, other);
    }
  }

  lemma CreateRefines(s: State, sid: Sid, ok: bool)
    requires Agree(s)
    ensures Refines(s, OpCreate(sid, ok))
  {
    hide RowsOf, Agree, Transcript, View, StandsFor, NeedsLoad;
    if sid !in s.db.counts && ok {
      CreatedAgrees(s, sid);
      CreatedStored(s, sid);
      CreatedLive(s, sid);
    }
  }

  lemma RestartRefines(s: State, loaded: set<Sid>)
    requires Agree(s)
    ensures Refines(s, OpRestart(loaded))
  {
    hide RowsOf, UniqueIds, StandsFor;
    var after := Restart(s, loaded);
    assert forall sid :: sid in s.db.counts ==> NeedsLoad(after, sid);
  }

  /** Operations that leave the cache in step: an append that is persisted, and a
      replacement that gets through or shares no message with the cached
      history. All others may fail. */
  predicate KeepsStep(op: Op) {
    match op
    case OpAdd(_, _, _, _, ok) => ok
    case OpReplace(_, messages, reserved, committed) =>
      reserved && !committed ==> forall m :: m in messages ==> m.cachedAt == None
    case _ => true
  }

  lemma FailedReplaceKeepsCache(s: State, sid: Sid, messages: seq<Incoming>, reserved: bool)
    requires CanGet(s, sid) && (reserved ==> forall m :: m in messages ==> m.cachedAt == None)
    ensures Replace(s, sid, messages, reserved, false) == Get(s, sid)
  {
  }

  lemma ApplyRefines(s: State, op: Op)
    requires Agree(s) && FreshIds(s.db, op) && KeepsStep(op)
    ensures Refines(s, op)
  {
    match op
    case OpCreate(sid, ok) => CreateRefines(s, sid, ok);
    case OpGet(sid) => GetReturnsView(s, sid);
    case OpAdd(sid, role, content, id, _) => AddRefines(s, sid, role, content, id);
    case OpTruncate(sid, keep, ok) => TruncateRefines(s, sid, keep, ok);
    case OpDeleteMessage(sid, mid, ok) => DeleteMessageRefines(s, sid, mid, ok);
    case OpReplace(sid, messages, reserved, committed) =>
      if reserved && committed {
        ReplaceRefines(s, sid, messages);
      } else {
        if CanGet(s, sid) {
          FailedReplaceKeepsCache(s, sid, messages, reserved);
        }
        GetReturnsView(s, sid);
      }
    case OpDeleteSession(sid, ok) => DeleteSessionRefines(s, sid, ok);
    case OpRestart(loaded) => RestartRefines(s, loaded);
  }

  // ---------------------------------------------------------------------
  // Runs
  // ---------------------------------------------------------------------

  ghost predicate FreshRun(s: State, ops: seq<Op>)
    decreases |ops|
  {
    ops != [] ==> FreshIds(s.db, ops[0]) && FreshRun(Apply(s, ops[0]), ops[1..])
  }

  ghost function Run(s: State, ops: seq<Op>): State
    requires FreshRun(s, ops)
    decreases |ops|
  {
    if ops == [] then s else Run(Apply(s, ops[0]), ops[1..])
  }

  function PlainRun(p: Plain, ops: seq<Op>): Plain
    decreases |ops|
  {
    if ops == [] then p else PlainRun(PlainApply(p, ops[0]), ops[1..])
  }

  lemma {:induction false} RunRefines(s: State, ops: seq<Op>)
    requires Agree(s) && FreshRun(s, ops) && forall op :: op in ops ==> KeepsStep(op)
    ensures Agree(Run(s, ops)) && PlainOf(Run(s, ops)) == PlainRun(PlainOf(s), ops)
    decreases |ops|
  {
    hide Apply, Agree, PlainOf, PlainApply;
    if ops != [] {
      ApplyRefines(s, ops[0]);
      RunRefines(Apply(s, ops[0]), ops[1..]);
    }
  }

  /** Metadata-only entries over right tables agree, and nothing but the stored
      messages is seen. */
  lemma StartAgrees(db: Db, loaded: set<Sid>)
    requires TablesAgree(db)
    ensures var s := Restart(State(map[], db), loaded);
            Agree(s) && PlainOf(s) == Plain(Lists(db), Lists(db))
  {
    hide RowsOf, UniqueIds, StandsFor, Transcript;
    var s := Restart(State(map[], db), loaded);
    assert forall sid :: sid in db.counts ==> NeedsLoad(s, sid);
  }

  /** From metadata-only entries, after every run: `get_session` returns the
      transcript that a plain list per session has, the rows hold its messages in
      the same order in their stored form, and `message_count` is their number. */
  lemma CacheRefinesLists(db: Db, loaded: set<Sid>, ops: seq<Op>, sid: Sid)
    requires TablesAgree(db)
    requires var s := Restart(State(map[], db), loaded); FreshRun(s, ops) && forall op :: op in ops ==> KeepsStep(op)
    ensures var end := Run(Restart(State(map[], db), loaded), ops);
            var lists := PlainRun(Plain(Lists(db), Lists(db)), ops);
            && (CanGet(end, sid) <==> sid in lists.stored) && lists.live.Keys == lists.stored.Keys
            && (sid in lists.stored ==>
                  && Get(end, sid).cache[sid] == Cached(lists.live[sid], |lists.live[sid]|)
                  && Transcript(end.db, sid) == lists.stored[sid]
                  && StandsFor(lists.live[sid], lists.stored[sid])
                  && sid in end.db.counts && end.db.counts[sid] == |lists.stored[sid]|)
  {
    hide Run, PlainRun, RowsOf, UniqueIds, StandsFor;
    var s := Restart(State(map[], db), loaded);
    StartAgrees(db, loaded);
    RunRefines(s, ops);
    GetReturnsView(Run(s, ops), sid);
  }

  // ---------------------------------------------------------------------
  // Text that is changed when it is stored
  // ---------------------------------------------------------------------

  /** Every row holds a text that storing it would not change. */
  ghost predicate TablesClean(db: Db) {
    forall r :: r in db.rows ==> Stored(r.content) == r.content
  }

  /** The rows that an operation adds hold stored text. */
  lemma ApplyKeepsClean(s: State, op: Op)
    requires TablesClean(s.db)
    ensures TablesClean(Apply(s, op).db)
  {
    hide Stored, RowsOf;
    match op
    case OpAdd(sid, role, content, id, ok) =>
      SearchIndex.StripTwice(content);
      assert Stored(Stored(content)) == Stored(content) by { StoredTwice(content); }
    case OpTruncate(sid, keep, _) =>
      if CanGet(s, sid) && keep >= 0 {
        var rows := RowsOf(s.db.rows, sid);
        DeletionKeepsClean(s.db, Ids(rows[if keep < |rows| then keep else |rows|..]));
      }
      hide DeleteRows;
    case OpDeleteMessage(_, mid, _) =>
      DeletionKeepsClean(s.db, {mid});
      hide DeleteRows;
    case OpReplace(sid, messages, _, _) =>
      DeletionKeepsClean(s.db, Ids(RowsOf(s.db.rows, sid)));
      var cleared := DeleteRows(s.db, Ids(RowsOf(s.db.rows, sid)));
      InsertAllRows(cleared, NewRows(sid, messages));
      forall r | r in NewRows(sid, messages)
        ensures Stored(r.content) == r.content
      {
        var i :| 0 <= i < |messages| && r == NewRows(sid, messages)[i];
        StoredTwice(messages[i].content);
      }
      hide DeleteRows, InsertAll;
    case OpDeleteSession(sid, _) =>
      DeletionKeepsClean(s.db, Ids(RowsOf(s.db.rows, sid)));
      hide DeleteRows;
    case _ =>
  }

  lemma StoredTwice(content: string)
    ensures Stored(Stored(content)) == Stored(content)
  {
    SearchIndex.StripTwice(content);
    hide SearchIndex.StripInlineDataUrls;
  }

  lemma DeletionKeepsClean(db: Db, doomed: set<Id>)
    requires TablesClean(db)
    ensures TablesClean(DeleteRows(db, doomed))
  {
    hide Stored;
    forall r | r in DeleteRows(db, doomed).rows
      ensures Stored(r.content) == r.content
    {
      InWithoutRows(db.rows, doomed, r);
    }
  }

  lemma {:induction false} RunKeepsClean(s: State, ops: seq<Op>)
    requires FreshRun(s, ops) && TablesClean(s.db)
    ensures TablesClean(Run(s, ops).db)
    decreases |ops|
  {
    hide Apply, TablesClean;
    if ops != [] {
      ApplyKeepsClean(s, ops[0]);
      RunKeepsClean(Apply(s, ops[0]), ops[1..]);
    }
  }

  /** A message whose text has no data URL is stored as it is. */
  predicate StoredAsGiven(content: string) {
    Find(content, ";base64,") == -1 || |SearchIndex.Pieces(content)| == 1
  }

  lemma StoredAsGivenExactly(content: string)
    ensures StoredAsGiven(content) <==> Stored(content) == content
  {
    SearchIndex.StripKeepsExactly(content);
  }

  lemma MatchesItself(m: Msg, t: Msg)
    requires Matches(m, t) && Stored(t.content) == t.content
    ensures m == t <==> StoredAsGiven(m.content)
  {
    StoredAsGivenExactly(m.content);
    hide StoredAsGiven, Stored;
  }

  lemma TranscriptIsClean(db: Db, sid: Sid, i: nat)
    requires TablesClean(db) && i < |Transcript(db, sid)|
    ensures Stored(Transcript(db, sid)[i].content) == Transcript(db, sid)[i].content
  {
    InRowsOf(db.rows, sid, RowsOf(db.rows, sid)[i]);
    hide RowsOf, Stored;
  }

  /** A restart leaves the transcript of a session as it is exactly when its
      messages have the text of their rows; and where the rows hold stored text,
      exactly when no message has a data URL. Else those come back in their stored
      form. */
  lemma SurvivesRestartExactly(s: State, loaded: set<Sid>, sid: Sid)
    requires Agree(s) && sid in s.db.counts
    ensures View(Restart(s, loaded), sid) == Transcript(s.db, sid)
    ensures |View(s, sid)| == |Transcript(s.db, sid)|
    ensures View(Restart(s, loaded), sid) == View(s, sid) <==>
            forall i :: 0 <= i < |View(s, sid)| ==> View(s, sid)[i].content == Transcript(s.db, sid)[i].content
    ensures TablesClean(s.db) ==>
              (View(Restart(s, loaded), sid) == View(s, sid) <==>
               forall m :: m in View(s, sid) ==> StoredAsGiven(m.content))
  {
    ViewStandsFor(s, sid);
    var (h, t) := (View(s, sid), Transcript(s.db, sid));
    assert View(Restart(s, loaded), sid) == t;
    hide RowsOf, TablesClean, StoredAsGiven, Stored, View, Transcript;
    assert forall i :: 0 <= i < |h| ==> Matches(h[i], t[i]);
    if TablesClean(s.db) {
      forall i | 0 <= i < |h|
        ensures h[i] == t[i] <==> StoredAsGiven(h[i].content)
      {
        TranscriptIsClean(s.db, sid, i);
        MatchesItself(h[i], t[i]);
      }
      assert forall i :: 0 <= i < |h| ==> h[i] in h;
    }
  }
}
