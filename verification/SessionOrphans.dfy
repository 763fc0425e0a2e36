/** Transactions on the chat tables that run beside each other
    (core/session_manager.py): writers of messages look their session up and
    later run their statements; `delete_session` removes the messages and then
    the session row. Every look-up and every statement is a step. From its first
    statement to its commit a transaction holds the lock of the database and
    works on a copy that nobody else sees. */
module SessionOrphans {
  import opened Options
  import opened MessageStore
  import opened SessionStore
  import opened SessionRuns

  datatype Stmt = ClearRows | Insert(row: Row) | UpdateSession(count: nat) | DropSession

  /** A transaction on session `sid` with the statements that are still to come. */
  datatype Tx = Tx(sid: Sid, todo: seq<Stmt>)

  type TxId = nat

  /** `work` is the copy of the holder of the lock. */
  datatype World = World(committed: Db, open: map<TxId, Tx>, holder: Option<TxId>, work: Db)

  /** What the database and the mapper refuse: `foreignKeys` refuses a message
      whose session row is not there, `strictUpdates` an update that finds no row. */
  datatype Guards = Guards(foreignKeys: bool, strictUpdates: bool)

  datatype Step =
    | LookUp(t: TxId, sid: Sid, todo: seq<Stmt>)
    | BeginDelete(t: TxId, sid: Sid)
    | Execute(t: TxId)
    | Commit(t: TxId)
    | RollBack(t: TxId)
    | CreateSession(sid: Sid)

  // ---------------------------------------------------------------------
  // Statements
  // ---------------------------------------------------------------------

  predicate Refused(db: Db, sid: Sid, stmt: Stmt, g: Guards) {
    match stmt
    case Insert(row) => g.foreignKeys && row.sid !in db.counts
    case UpdateSession(_) => g.strictUpdates && sid !in db.counts
    case _ => false
  }

  function Effect(db: Db, sid: Sid, stmt: Stmt): Db {
    match stmt
    case ClearRows => DeleteRows(db, Ids(RowsOf(db.rows, sid)))
    case Insert(row) => InsertRow(db, row)
    case UpdateSession(count) => SetCount(db, sid, count)
    case DropSession => db.(counts := db.counts - {sid})
  }

  predicate Plain(sid: Sid, todo: seq<Stmt>) {
    forall i :: 0 <= i < |todo| ==> !todo[i].DropSession? && (todo[i].Insert? ==> todo[i].row.sid == sid)
  }

  predicate Updates(todo: seq<Stmt>) {
    exists i :: 0 <= i < |todo| && todo[i].UpdateSession?
  }

  predicate Inserts(todo: seq<Stmt>) {
    exists i :: 0 <= i < |todo| && todo[i].Insert?
  }

  /** Clearing, if at all, comes first. */
  predicate ClearsFirst(todo: seq<Stmt>) {
    forall i :: 0 < i < |todo| ==> !todo[i].ClearRows?
  }

  /** Statements of a writer: a replacement clears its rows at once; then rows of
      the session go in and the session row is updated, in an order that is left
      open, since the mapper chooses it. */
  predicate WriterTodo(sid: Sid, todo: seq<Stmt>) {
    Plain(sid, todo) && Updates(todo) && ClearsFirst(todo)
  }

  function Close(w: World, t: TxId): World {
    w.(open := w.open - {t}, holder := if w.holder == Some(t) then None else w.holder)
  }

  /** `_persist_message` and `replace_messages` return without a statement when
      the session is not there. */
  function Next(w: World, step: Step, g: Guards): World {
    match step
    case LookUp(t, sid, todo) =>
      if t !in w.open && sid in w.committed.counts && WriterTodo(sid, todo)
      then w.(open := w.open[t := Tx(sid, todo)]) else w
    case BeginDelete(t, sid) =>
      if t !in w.open then w.(open := w.open[t := Tx(sid, [ClearRows, DropSession])]) else w
    case Execute(t) =>
      if t !in w.open || w.open[t].todo == [] || (w.holder != None && w.holder != Some(t)) then w else
      var tx := w.open[t];
      var db := if w.holder == None then w.committed else w.work;
      if Refused(db, tx.sid, tx.todo[0], g) then Close(w, t)
      else World(w.committed, w.open[t := tx.(todo := tx.todo[1..])], Some(t), Effect(db, tx.sid, tx.todo[0]))
    case Commit(t) =>
      if w.holder == Some(t) && t in w.open && w.open[t].todo == [] then Close(w.(committed := w.work), t) else w
    case RollBack(t) => Close(w, t)
    case CreateSession(sid) =>
      if w.holder == None && sid !in w.committed.counts
      then w.(committed := w.committed.(counts := w.committed.counts[sid := 0])) else w
  }

  function Interleave(w: World, steps: seq<Step>, g: Guards): World
    decreases |steps|
  {
    if steps == [] then w else Interleave(Next(w, steps[0], g), steps[1..], g)
  }

  // ---------------------------------------------------------------------
  // What holds of a transaction
  // ---------------------------------------------------------------------

  ghost predicate NoOrphans(db: Db) {
    forall r :: r in db.rows ==> r.sid in db.counts
  }

  /** Rows without session are rows of `sid` that `excused` excuses for now. */
  ghost predicate OrphansOnlyOf(db: Db, sid: Sid, excused: bool) {
    forall r :: r in db.rows ==> r.sid in db.counts || (r.sid == sid && excused)
  }

  /** The copy of a transaction before its statements `todo`. A writer's session
      is there, or what lets it insert or will refuse it is still to come. */
  ghost predicate Fits(db: Db, tx: Tx, g: Guards) {
    || (Plain(tx.sid, tx.todo)
        && OrphansOnlyOf(db, tx.sid, !g.foreignKeys && Updates(tx.todo))
        && (Inserts(tx.todo) ==> tx.sid in db.counts || g.foreignKeys || Updates(tx.todo)))
    || (tx.todo == [ClearRows, DropSession] && NoOrphans(db))
    || (tx.todo == [DropSession] && NoOrphans(db) && forall r :: r in db.rows ==> r.sid != tx.sid)
  }

  /** An open transaction that has not begun may begin on any committed state. */
  ghost predicate CanBegin(tx: Tx) {
    (Plain(tx.sid, tx.todo) && Updates(tx.todo)) || tx.todo == [ClearRows, DropSession]
  }

  ghost predicate Sound(w: World, g: Guards) {
    && NoOrphans(w.committed)
    && (w.holder.Some? ==> w.holder.value in w.open && Fits(w.work, w.open[w.holder.value], g))
    && (forall t :: t in w.open && w.holder != Some(t) ==> CanBegin(w.open[t]))
  }

  lemma ClearedRows(db: Db, sid: Sid)
    ensures forall r :: r in DeleteRows(db, Ids(RowsOf(db.rows, sid))).rows ==> r in db.rows && r.sid != sid
  {
    forall r | r in DeleteRows(db, Ids(RowsOf(db.rows, sid))).rows
      ensures r in db.rows && r.sid != sid
    {
      InWithoutRows(db.rows, Ids(RowsOf(db.rows, sid)), r);
      InRowsOf(db.rows, sid, r);
    }
  }

  lemma TodoTail(sid: Sid, todo: seq<Stmt>)
    requires todo != [] && Plain(sid, todo)
    ensures Plain(sid, todo[1..]) && !todo[0].DropSession? && (todo[0].Insert? ==> todo[0].row.sid == sid)
    ensures Updates(todo) <==> todo[0].UpdateSession? || Updates(todo[1..])
    ensures Inserts(todo) <==> todo[0].Insert? || Inserts(todo[1..])
    ensures ClearsFirst(todo) ==> ClearsFirst(todo[1..])
  {
    assert forall i :: 0 <= i < |todo[1..]| ==> todo[1..][i] == todo[i + 1];
    assert forall i :: 1 <= i < |todo| ==> todo[i] == todo[1..][i - 1];
  }

  /** A statement that is not refused keeps the copy fit for the rest. */
  lemma StatementFits(db: Db, tx: Tx, g: Guards)
    requires g.foreignKeys || g.strictUpdates
    requires tx.todo != [] && Fits(db, tx, g) && !Refused(db, tx.sid, tx.todo[0], g)
    ensures Fits(Effect(db, tx.sid, tx.todo[0]), tx.(todo := tx.todo[1..]), g)
  {
    hide RowsOf, DeleteRows;
    ClearedRows(db, tx.sid);
    if Plain(tx.sid, tx.todo) {
      TodoTail(tx.sid, tx.todo);
      hide Updates, Inserts, Plain;
      if tx.todo[0].ClearRows? {
        assert DeleteRows(db, Ids(RowsOf(db.rows, tx.sid))).counts == db.counts by { DeletionKeepsCounts(db, Ids(RowsOf(db.rows, tx.sid))); }
      }
    } else if tx.todo == [ClearRows, DropSession] {
      DeletionKeepsCounts(db, Ids(RowsOf(db.rows, tx.sid)));
      assert tx.todo[1..] == [DropSession];
    } else {
      assert tx.todo[1..] == [];
      assert Plain(tx.sid, tx.todo[1..]);
    }
  }

  lemma DeletionKeepsCounts(db: Db, doomed: set<Id>)
    ensures DeleteRows(db, doomed).counts == db.counts
  {
  }

  lemma StepKeepsSound(w: World, step: Step, g: Guards)
    requires (g.foreignKeys || g.strictUpdates) && Sound(w, g)
    ensures Sound(Next(w, step, g), g)
  {
    hide Effect, Refused;
    match step
    case Execute(t) =>
      if t in w.open && w.open[t].todo != [] && (w.holder == None || w.holder == Some(t)) {
        var db := if w.holder == None then w.committed else w.work;
        assert Fits(db, w.open[t], g);
        hide Fits, CanBegin, NoOrphans;
        if !Refused(db, w.open[t].sid, w.open[t].todo[0], g) {
          StatementFits(db, w.open[t], g);
        }
      }
    case BeginDelete(t, sid) =>
      hide Fits;
    case _ =>
  }

  /** With foreign keys, or with updates that must find their row, every
      committed state of every interleaving of writers, deletions, failures and
      creations has a session row for each message. */
  lemma {:induction false} NoInterleavingOrphans(w: World, steps: seq<Step>, g: Guards)
    requires (g.foreignKeys || g.strictUpdates) && Sound(w, g)
    ensures NoOrphans(Interleave(w, steps, g).committed)
    decreases |steps|
  {
    if steps != [] {
      StepKeepsSound(w, steps[0], g);
      hide Next, Sound, NoOrphans;
      NoInterleavingOrphans(Next(w, steps[0], g), steps[1..], g);
    }
  }

  // ---------------------------------------------------------------------
  // What the look-up contributes
  // ---------------------------------------------------------------------

  predicate Deleting(tx: Tx) {
    tx.todo == [ClearRows, DropSession]
  }

  /** Sessions of open writers are there, by their look-up. */
  ghost predicate Backed(w: World) {
    && NoOrphans(w.committed)
    && (w.holder.Some? ==>
          && w.holder.value in w.open && NoOrphans(w.work)
          && BackedHolder(w.work, w.open[w.holder.value]))
    && (forall t :: t in w.open && w.holder != Some(t) && !Deleting(w.open[t]) ==>
          Plain(w.open[t].sid, w.open[t].todo) && w.open[t].sid in w.committed.counts)
  }

  ghost predicate BackedHolder(db: Db, tx: Tx) {
    || (Plain(tx.sid, tx.todo) && (Inserts(tx.todo) ==> tx.sid in db.counts))
    || Deleting(tx)
    || (tx.todo == [DropSession] && forall r :: r in db.rows ==> r.sid != tx.sid)
  }

  /** No commit takes away the session of another writer that is open. */
  ghost predicate Calm(w: World, step: Step) {
    step.Commit? && w.holder == Some(step.t) ==>
      forall u :: u in w.open && u != step.t && !Deleting(w.open[u]) ==> w.open[u].sid in w.work.counts
  }

  ghost predicate CalmRun(w: World, steps: seq<Step>, g: Guards)
    decreases |steps|
  {
    steps != [] ==> Calm(w, steps[0]) && CalmRun(Next(w, steps[0], g), steps[1..], g)
  }

  lemma StatementKeepsBacked(db: Db, tx: Tx)
    requires tx.todo != [] && NoOrphans(db) && BackedHolder(db, tx)
    ensures NoOrphans(Effect(db, tx.sid, tx.todo[0]))
    ensures BackedHolder(Effect(db, tx.sid, tx.todo[0]), tx.(todo := tx.todo[1..]))
  {
    hide RowsOf, DeleteRows;
    ClearedRows(db, tx.sid);
    DeletionKeepsCounts(db, Ids(RowsOf(db.rows, tx.sid)));
    if Plain(tx.sid, tx.todo) {
      TodoTail(tx.sid, tx.todo);
      hide Updates, Inserts, Plain;
    } else if Deleting(tx) {
      assert tx.todo[1..] == [DropSession];
    } else {
      assert tx.todo[1..] == [] && Plain(tx.sid, tx.todo[1..]);
    }
  }

  lemma StepKeepsBacked(w: World, step: Step, g: Guards)
    requires Backed(w) && Calm(w, step)
    ensures Backed(Next(w, step, g))
  {
    hide Effect, Refused;
    match step
    case Execute(t) =>
      if t in w.open && w.open[t].todo != [] && (w.holder == None || w.holder == Some(t)) {
        var db := if w.holder == None then w.committed else w.work;
        assert NoOrphans(db) && BackedHolder(db, w.open[t]);
        StatementKeepsBacked(db, w.open[t]);
        hide BackedHolder, NoOrphans;
      }
    case _ =>
      hide BackedHolder, NoOrphans;
  }

  /** Without any guard of the database, the look-up alone keeps messages and
      sessions together in every run in which no session is deleted between a
      writer's look-up and its end. */
  lemma {:induction false} LookUpSufficesWhenCalm(w: World, steps: seq<Step>, g: Guards)
    requires Backed(w) && CalmRun(w, steps, g)
    ensures NoOrphans(Interleave(w, steps, g).committed)
    decreases |steps|
  {
    if steps != [] {
      StepKeepsBacked(w, steps[0], g);
      hide Next, Backed, NoOrphans, Calm;
      LookUpSufficesWhenCalm(Next(w, steps[0], g), steps[1..], g);
    }
  }

  // ---------------------------------------------------------------------
  // A writer whose session has gone
  // ---------------------------------------------------------------------

  /** All statements that are left, and the commit. */
  function Finish(t: TxId, n: nat): seq<Step> {
    if n == 0 then [Commit(t)] else [Execute(t)] + Finish(t, n - 1)
  }

  function Fold(db: Db, sid: Sid, todo: seq<Stmt>): Db
    decreases |todo|
  {
    if todo == [] then db else Fold(Effect(db, sid, todo[0]), sid, todo[1..])
  }

  /** Whether the database refuses a writer whose session is not there. */
  predicate Barred(todo: seq<Stmt>, g: Guards) {
    (g.foreignKeys && Inserts(todo)) || (g.strictUpdates && Updates(todo))
  }

  lemma PlainKeepsSessions(db: Db, tx: Tx)
    requires tx.todo != [] && Plain(tx.sid, tx.todo)
    ensures Effect(db, tx.sid, tx.todo[0]).counts.Keys == db.counts.Keys
  {
    DeletionKeepsCounts(db, Ids(RowsOf(db.rows, tx.sid)));
    hide RowsOf, DeleteRows;
  }

  lemma FoldNext(db: Db, sid: Sid, todo: seq<Stmt>)
    requires todo != []
    ensures Fold(db, sid, todo) == Fold(Effect(db, sid, todo[0]), sid, todo[1..])
  {
    hide Effect;
  }

  /** Run to its end a writer commits all its statements, or nothing. */
  lemma {:induction false} FinishCommitsOrNot(w: World, t: TxId, g: Guards)
    requires t in w.open && (w.holder == Some(t) || (w.holder == None && w.open[t].todo != []))
    requires Plain(w.open[t].sid, w.open[t].todo)
    requires w.holder == Some(t) ==> w.work.counts.Keys == w.committed.counts.Keys
    ensures var tx := w.open[t];
            Interleave(w, Finish(t, |tx.todo|), g).committed ==
              if tx.sid !in w.committed.counts && Barred(tx.todo, g) then w.committed
              else Fold(if w.holder == None then w.committed else w.work, tx.sid, tx.todo)
    decreases |w.open[t].todo|
  {
    var tx := w.open[t];
    var db := if w.holder == None then w.committed else w.work;
    if tx.todo == [] {
      CommitAlone(w, t, g);
    } else {
      TodoTail(tx.sid, tx.todo);
      PlainKeepsSessions(db, tx);
      BarredNext(db, tx, g);
      FoldNext(db, tx.sid, tx.todo);
      FinishNext(w, t, g);
      ExecuteNext(w, t, g);
      hide Next, Effect, Fold, Plain, Barred, Finish, Interleave, Refused;
      if Refused(db, tx.sid, tx.todo[0], g) {
        NothingLeft(Close(w, t), t, |tx.todo| - 1, g);
      } else {
        FinishCommitsOrNot(Next(w, Execute(t), g), t, g);
      }
    }
  }

  lemma CommitAlone(w: World, t: TxId, g: Guards)
    requires t in w.open && w.holder == Some(t) && w.open[t].todo == []
    ensures Interleave(w, Finish(t, 0), g).committed == w.work
  {
    assert Finish(t, 0) == [Commit(t)];
    assert Interleave(Next(w, Commit(t), g), [], g) == Next(w, Commit(t), g);
  }

  lemma ExecuteNext(w: World, t: TxId, g: Guards)
    requires t in w.open && w.open[t].todo != [] && (w.holder == None || w.holder == Some(t))
    ensures var (tx, db) := (w.open[t], if w.holder == None then w.committed else w.work);
            Next(w, Execute(t), g) ==
              if Refused(db, tx.sid, tx.todo[0], g) then Close(w, t)
              else World(w.committed, w.open[t := tx.(todo := tx.todo[1..])], Some(t), Effect(db, tx.sid, tx.todo[0]))
  {
    hide Effect, Refused;
  }

  lemma BarredNext(db: Db, tx: Tx, g: Guards)
    requires tx.todo != [] && Plain(tx.sid, tx.todo)
    ensures Refused(db, tx.sid, tx.todo[0], g) ==> tx.sid !in db.counts && Barred(tx.todo, g)
    ensures !Refused(db, tx.sid, tx.todo[0], g) && tx.sid !in db.counts ==> (Barred(tx.todo, g) <==> Barred(tx.todo[1..], g))
  {
    TodoTail(tx.sid, tx.todo);
    hide Plain, Updates, Inserts;
  }

  lemma FinishNext(w: World, t: TxId, g: Guards)
    requires t in w.open && w.open[t].todo != []
    ensures var n := |w.open[t].todo|;
            Interleave(w, Finish(t, n), g) == Interleave(Next(w, Execute(t), g), Finish(t, n - 1), g)
  {
    hide Next;
    var steps := Finish(t, |w.open[t].todo|);
    assert steps[0] == Execute(t) && steps[1..] == Finish(t, |w.open[t].todo| - 1);
  }

  lemma {:induction false} NothingLeft(w: World, t: TxId, n: nat, g: Guards)
    requires t !in w.open
    ensures Interleave(w, Finish(t, n), g) == w
  {
    if n == 0 {
      assert Interleave(Next(w, Commit(t), g), [], g) == w;
    } else {
      assert Finish(t, n)[1..] == Finish(t, n - 1);
      NothingLeft(w, t, n - 1, g);
    }
  }

  lemma {:induction false} FoldRows(db: Db, sid: Sid, todo: seq<Stmt>)
    requires Plain(sid, todo) && forall i :: 0 <= i < |todo| ==> !todo[i].ClearRows?
    ensures Fold(db, sid, todo).counts.Keys == db.counts.Keys
    ensures forall r :: r in db.rows ==> r in Fold(db, sid, todo).rows
    ensures forall r :: r in Fold(db, sid, todo).rows ==> r in db.rows || r.sid == sid
    ensures Inserts(todo) ==> exists r :: r in Fold(db, sid, todo).rows && r.sid == sid
    decreases |todo|
  {
    if todo != [] {
      var next := Effect(db, sid, todo[0]);
      TodoTail(sid, todo);
      assert forall i :: 0 <= i < |todo[1..]| ==> todo[1..][i] == todo[i + 1];
      FoldRows(next, sid, todo[1..]);
      if todo[0].Insert? {
        assert todo[0].row in next.rows;
      }
    }
  }

  /** A writer that begins after its session has gone leaves an orphan exactly
      when it brings a row and the database refuses neither the row nor the
      update of the vanished session; when refused it leaves nothing. */
  lemma LateWriter(w: World, t: TxId, g: Guards)
    requires NoOrphans(w.committed) && w.holder == None && t in w.open
    requires WriterTodo(w.open[t].sid, w.open[t].todo) && w.open[t].sid !in w.committed.counts
    ensures var tx := w.open[t]; var after := Interleave(w, Finish(t, |tx.todo|), g).committed;
            && (NoOrphans(after) <==> !Inserts(tx.todo) || Barred(tx.todo, g))
            && (Barred(tx.todo, g) ==> after == w.committed)
  {
    var tx := w.open[t];
    var todo := tx.todo;
    FinishCommitsOrNot(w, t, g);
    if !Barred(todo, g) {
      var after := Fold(w.committed, tx.sid, todo);
      if todo[0].ClearRows? {
        TodoTail(tx.sid, todo);
        ClearedRows(w.committed, tx.sid);
        var next := Effect(w.committed, tx.sid, todo[0]);
        DeletionKeepsCounts(w.committed, Ids(RowsOf(w.committed.rows, tx.sid)));
        hide RowsOf, DeleteRows;
        FoldRows(next, tx.sid, todo[1..]);
        if !Inserts(todo) {
          NoInsertNoRow(next, tx.sid, todo[1..]);
        }
      } else {
        FoldRows(w.committed, tx.sid, todo);
        if !Inserts(todo) {
          NoInsertNoRow(w.committed, tx.sid, todo);
        }
      }
    }
  }

  lemma {:induction false} NoInsertNoRow(db: Db, sid: Sid, todo: seq<Stmt>)
    requires Plain(sid, todo) && !Inserts(todo) && forall i :: 0 <= i < |todo| ==> !todo[i].ClearRows?
    ensures Fold(db, sid, todo).rows == db.rows
    decreases |todo|
  {
    if todo != [] {
      TodoTail(sid, todo);
      assert forall i :: 0 <= i < |todo[1..]| ==> todo[1..][i] == todo[i + 1];
      NoInsertNoRow(Effect(db, sid, todo[0]), sid, todo[1..]);
    }
  }

  /** And a deletion can come between the look-up and the first statement. */
  lemma DeletionBetween(w: World, t: TxId, d: TxId, g: Guards)
    requires NoOrphans(w.committed) && w.holder == None && t in w.open && d !in w.open
    ensures var tx := w.open[t];
            var after := Interleave(w, [BeginDelete(d, tx.sid)] + Finish(d, 2), g);
            && after.open == w.open && after.holder == None
            && tx.sid !in after.committed.counts && NoOrphans(after.committed)
  {
    hide RowsOf, WithoutRows, WithoutEntries;
    var tx := w.open[t];
    ClearedRows(w.committed, tx.sid);
    var s1 := Next(w, BeginDelete(d, tx.sid), g);
    var s2 := Next(s1, Execute(d), g);
    var s3 := Next(s2, Execute(d), g);
    var s4 := Next(s3, Commit(d), g);
    assert [ClearRows, DropSession][1..] == [DropSession] && [DropSession][1..] == [];
    assert Finish(d, 0) == [Commit(d)] && Finish(d, 1)[1..] == Finish(d, 0) && Finish(d, 2)[1..] == Finish(d, 1);
    assert Interleave(s4, [], g) == s4;
    assert Interleave(s3, Finish(d, 0), g) == s4;
    assert Interleave(s2, Finish(d, 1), g) == s4;
    assert Interleave(s1, Finish(d, 2), g) == s4;
    assert ([BeginDelete(d, tx.sid)] + Finish(d, 2))[1..] == Finish(d, 2);
    assert s4.open == w.open;
  }

  // ---------------------------------------------------------------------
  // Exactly which guards suffice
  // ---------------------------------------------------------------------

  lemma {:induction false} InterleaveJoined(w: World, front: seq<Step>, back: seq<Step>, g: Guards)
    ensures Interleave(w, front + back, g) == Interleave(Interleave(w, front, g), back, g)
    decreases |front|
  {
    hide Next;
    if front == [] {
      assert front + back == back;
    } else {
      assert (front + back)[1..] == front[1..] + back;
      InterleaveJoined(Next(w, front[0], g), front[1..], back, g);
    }
  }

  /** A writer's look-up, a whole deletion of its session, and then the writer's
      statements. */
  function LateSteps(t: TxId, d: TxId, row: Row): seq<Step> {
    [LookUp(t, row.sid, [Insert(row), UpdateSession(1)])] + ([BeginDelete(d, row.sid)] + Finish(d, 2)) + Finish(t, 2)
  }

  lemma LateTodo(row: Row)
    ensures var todo := [Insert(row), UpdateSession(1)];
            WriterTodo(row.sid, todo) && Inserts(todo)
  {
    var todo := [Insert(row), UpdateSession(1)];
    assert todo[0].Insert? && todo[1].UpdateSession?;
  }

  /** Without either guard these steps leave an orphan in every world that has the
      session and no holder of the lock. */
  lemma LateStepsOrphan(w: World, t: TxId, d: TxId, row: Row, g: Guards)
    requires !g.foreignKeys && !g.strictUpdates
    requires NoOrphans(w.committed) && w.holder == None && t != d && t !in w.open && d !in w.open
    requires row.sid in w.committed.counts
    ensures !NoOrphans(Interleave(w, LateSteps(t, d, row), g).committed)
  {
    var todo := [Insert(row), UpdateSession(1)];
    var look, drop := LookUp(t, row.sid, todo), [BeginDelete(d, row.sid)] + Finish(d, 2);
    LateTodo(row);
    var w1 := Next(w, look, g);
    assert w1 == w.(open := w.open[t := Tx(row.sid, todo)]);
    hide Next, Interleave, WriterTodo, Finish, NoOrphans, Inserts;
    DeletionBetween(w1, t, d, g);
    LateWriter(Interleave(w1, drop, g), t, g);
    InterleaveJoined(w1, drop, Finish(t, 2), g);
    InterleaveOne(w, look, drop + Finish(t, 2), g);
    assert LateSteps(t, d, row) == [look] + (drop + Finish(t, 2));
  }

  lemma InterleaveOne(w: World, step: Step, rest: seq<Step>, g: Guards)
    ensures Interleave(w, [step] + rest, g) == Interleave(Next(w, step, g), rest, g)
  {
    hide Next;
    assert ([step] + rest)[1..] == rest;
  }

  /** In every sound world with a session and the lock free: one of the two guards
      is there exactly when no interleaving leaves an orphan. */
  lemma GuardNeededExactly(w: World, t: TxId, d: TxId, row: Row, g: Guards)
    requires Sound(w, g) && w.holder == None && t != d && t !in w.open && d !in w.open
    requires row.sid in w.committed.counts
    ensures g.foreignKeys || g.strictUpdates <==> forall steps :: NoOrphans(Interleave(w, steps, g).committed)
  {
    hide Interleave, LateSteps;
    if g.foreignKeys || g.strictUpdates {
      forall steps
        ensures NoOrphans(Interleave(w, steps, g).committed)
      {
        NoInterleavingOrphans(w, steps, g);
      }
    } else {
      LateStepsOrphan(w, t, d, row, g);
    }
  }

  /** So over all sound worlds and all interleavings. */
  lemma GuardsExactly(g: Guards)
    ensures g.foreignKeys || g.strictUpdates <==>
            forall w, steps :: Sound(w, g) ==> NoOrphans(Interleave(w, steps, g).committed)
  {
    hide Interleave;
    if g.foreignKeys || g.strictUpdates {
      forall w, steps | Sound(w, g)
        ensures NoOrphans(Interleave(w, steps, g).committed)
      {
        NoInterleavingOrphans(w, steps, g);
      }
    } else {
      var row := Row("1", "s", "user", "");
      var db := Db(map["s" := 0], [], []);
      var w := World(db, map[], None, db);
      assert Sound(w, g);
      GuardNeededExactly(w, 0, 1, row, g);
    }
  }
}
