/** The operations of `SessionManager` (core/session_manager.py) as lists of
    single steps in source order: statements on a transaction, its commit, and
    writes to the cache. A failure after any number of them rolls the
    transaction back. */
module SessionSteps {
  import opened Options
  import opened MessageStore
  import opened SessionStore
  import opened SessionRuns

  datatype Step =
    | Reserve
    | DbClear(sid: Sid) | DbDelete(id: Id) | DbInsert(row: Row) | DbCount(sid: Sid, count: nat)
    | DbAddSession(sid: Sid) | DbDropSession(sid: Sid)
    | DbCommit
    | MemAppend(sid: Sid, msg: Msg) | MemLabelLast(sid: Sid, id: Id) | MemLabel(sid: Sid, m: Incoming)
    | MemSlice(sid: Sid, keep: nat) | MemFilter(sid: Sid, id: Id) | MemReplace(sid: Sid, history: seq<Msg>)
    | MemAdd(sid: Sid) | MemPop(sid: Sid)

  predicate InMemory(x: Step) {
    || x.MemAppend? || x.MemLabelLast? || x.MemLabel? || x.MemSlice? || x.MemFilter? || x.MemReplace?
    || x.MemAdd? || x.MemPop?
  }

  /** The cache, the tables, and the open transaction's view of them. */
  datatype Machine = Machine(cache: map<Sid, Cached>, db: Db, work: Db)

  function Labelled(h: seq<Msg>, m: Incoming): seq<Msg> {
    if m.cachedAt.Some? && m.cachedAt.value < |h|
    then h[m.cachedAt.value := h[m.cachedAt.value].(dbId := Some(m.id))]
    else h
  }

  function Remember(x: Step, cache: map<Sid, Cached>): map<Sid, Cached>
    requires InMemory(x)
  {
    if x.MemAdd? then cache[x.sid := Cached([], 0)]
    else if x.MemPop? then cache - {x.sid}
    else if x.sid !in cache then cache
    else
      var c := cache[x.sid];
      match x
      case MemAppend(sid, msg) => cache[sid := Cached(c.history + [msg], |c.history| + 1)]
      case MemLabelLast(sid, id) =>
        if c.history == [] then cache
        else cache[sid := c.(history := c.history[|c.history| - 1 := c.history[|c.history| - 1].(dbId := Some(id))])]
      case MemLabel(sid, m) => cache[sid := c.(history := Labelled(c.history, m))]
      case MemSlice(sid, keep) => cache[sid := c.(history := First(c.history, keep))]
      case MemFilter(sid, id) => cache[sid := Cached(WithoutMsg(c.history, id), |WithoutMsg(c.history, id)|)]
      case MemReplace(sid, history) => cache[sid := Cached(history, |history|)]
  }

  function Statement(x: Step, db: Db): Db
    requires !InMemory(x)
  {
    match x
    case DbClear(sid) => DeleteRows(db, Ids(RowsOf(db.rows, sid)))
    case DbDelete(id) => DeleteRows(db, {id})
    case DbInsert(row) => InsertRow(db, row)
    case DbCount(sid, count) => SetCount(db, sid, count)
    case DbAddSession(sid) => db.(counts := db.counts[sid := 0])
    case DbDropSession(sid) => db.(counts := db.counts - {sid})
    case _ => db
  }

  function Perform(m: Machine, x: Step): Machine {
    if InMemory(x) then m.(cache := Remember(x, m.cache))
    else if x.DbCommit? then m.(db := m.work)
    else m.(work := Statement(x, m.work))
  }

  function Run(m: Machine, steps: seq<Step>): Machine {
    if steps == [] then m else Perform(Run(m, steps[..|steps| - 1]), steps[|steps| - 1])
  }

  function Begin(s: State): Machine {
    Machine(s.cache, s.db, s.db)
  }

  /** Without what was not committed. */
  function RolledBack(m: Machine): State {
    State(m.cache, m.db)
  }

  /** The steps up to the commit, and those after it. */
  datatype Program = Program(before: seq<Step>, after: seq<Step>)

  function All(p: Program): seq<Step> {
    p.before + [DbCommit] + p.after
  }

  // ---------------------------------------------------------------------
  // The programs
  // ---------------------------------------------------------------------

  function Deletes(rows: seq<Row>): (steps: seq<Step>)
    ensures |steps| == |rows| && forall i :: 0 <= i < |rows| ==> steps[i] == DbDelete(rows[i].id)
  {
    seq(|rows|, i requires 0 <= i < |rows| => DbDelete(rows[i].id))
  }

  function Reserves(n: nat): (steps: seq<Step>)
    ensures |steps| == n && forall i :: 0 <= i < n ==> steps[i] == Reserve
  {
    seq(n, i => Reserve)
  }

  /** For each message its row, and its new id in the message object. */
  function Stores(sid: Sid, messages: seq<Incoming>): seq<Step> {
    if messages == [] then [] else
    var m := messages[|messages| - 1];
    Stores(sid, messages[..|messages| - 1]) + [DbInsert(Row(m.id, sid, m.role, Stored(m.content)))] + [MemLabel(sid, m)]
  }

  function ReplaceSteps(sid: Sid, messages: seq<Incoming>): seq<Step> {
    Reserves(|messages|) + [DbClear(sid)] + Stores(sid, messages) + [DbCount(sid, |messages|)]
  }

  /** The state in which the steps of an operation start: after `get_session`,
      where the operation calls it. */
  function Base(s: State, op: Op): State {
    if (op.OpAdd? || op.OpTruncate? || op.OpDeleteMessage? || op.OpReplace? || op.OpGet?) && CanGet(s, op.sid)
    then Get(s, op.sid) else s
  }

  /** The steps of an operation, if it comes to its transaction at all. */
  function Steps(s: State, op: Op): Option<Program>
  {
    var g := Base(s, op);
    match op
    case OpAdd(sid, role, content, id, _) =>
      if !CanGet(s, sid) || sid !in s.db.counts then None else
      Some(Program([MemAppend(sid, Msg(role, content, None))] + [Reserve] + [DbInsert(Row(id, sid, role, Stored(content)))]
                     + [DbCount(sid, |g.cache[sid].history| + 1)],
                   [MemLabelLast(sid, id)]))
    case OpTruncate(sid, keep, _) =>
      if !CanGet(s, sid) || keep < 0 then None else
      var rows := RowsOf(g.db.rows, sid);
      var n := if keep < |rows| then keep else |rows|;
      Some(Program(Deletes(rows[n..]) + [DbCount(sid, n)], [MemSlice(sid, keep)]))
    case OpDeleteMessage(sid, mid, _) =>
      if !CanGet(s, sid) || mid == "" || !HasMessage(g.db, sid, mid) then None else
      Some(Program([DbDelete(mid)] + [DbCount(sid, |RowsOf(DeleteRows(g.db, {mid}).rows, sid)|)], [MemFilter(sid, mid)]))
    case OpReplace(sid, messages, _, _) =>
      if !CanGet(s, sid) || sid !in s.db.counts then None else
      Some(Program(ReplaceSteps(sid, messages), [MemReplace(sid, Given(messages))]))
    case OpCreate(sid, _) =>
      if sid in s.db.counts then None else Some(Program([DbAddSession(sid)], [MemAdd(sid)]))
    case OpDeleteSession(sid, _) =>
      if sid !in s.db.counts && sid !in s.cache then None else
      Some(Program([DbClear(sid)] + [DbDropSession(sid)] + [MemPop(sid)], []))
    case _ => None
  }

  /** The state after the first `n` steps and a roll-back. */
  function Attempt(s: State, op: Op, n: nat): State
    requires Steps(s, op).Some? && n <= |All(Steps(s, op).value)|
  {
    RolledBack(Run(Begin(Base(s, op)), All(Steps(s, op).value)[..n]))
  }

  /** The operation with nothing to fail. */
  function Sure(op: Op): Op {
    match op
    case OpCreate(sid, _) => OpCreate(sid, true)
    case OpAdd(sid, role, content, id, _) => OpAdd(sid, role, content, id, true)
    case OpTruncate(sid, keep, _) => OpTruncate(sid, keep, true)
    case OpDeleteMessage(sid, mid, _) => OpDeleteMessage(sid, mid, true)
    case OpReplace(sid, messages, _, _) => OpReplace(sid, messages, true, true)
    case OpDeleteSession(sid, _) => OpDeleteSession(sid, true)
    case _ => op
  }

  // ---------------------------------------------------------------------
  // Where failures leave the tables
  // ---------------------------------------------------------------------

  lemma RunNext(m: Machine, steps: seq<Step>, x: Step)
    ensures Run(m, steps + [x]) == Perform(Run(m, steps), x)
  {
    assert (steps + [x])[..|steps|] == steps;
    hide Perform;
  }

  lemma {:induction false} RunConcat(m: Machine, a: seq<Step>, b: seq<Step>)
    ensures Run(m, a + b) == Run(Run(m, a), b)
  {
    if b == [] {
      assert a + b == a;
    } else {
      var front, last := b[..|b| - 1], b[|b| - 1];
      RunConcat(m, a, front);
      RunNext(m, a + front, last);
      assert a + b == (a + front) + [last];
      hide Perform;
    }
  }

  lemma {:induction false} NoCommitKeepsTables(m: Machine, steps: seq<Step>)
    requires DbCommit !in steps
    ensures Run(m, steps).db == m.db
  {
    if steps != [] {
      NoCommitKeepsTables(m, steps[..|steps| - 1]);
      assert steps[|steps| - 1] in steps;
      hide Remember, Statement;
    }
  }

  lemma {:induction false} NoMemoryKeepsCache(m: Machine, steps: seq<Step>)
    requires forall x :: x in steps ==> !InMemory(x)
    ensures Run(m, steps).cache == m.cache
  {
    if steps != [] {
      NoMemoryKeepsCache(m, steps[..|steps| - 1]);
      assert steps[|steps| - 1] in steps;
      hide Remember, Statement;
    }
  }

  /** Nothing commits before the commit, and nothing touches the tables after it. */
  ghost predicate OneCommit(p: Program) {
    DbCommit !in p.before && forall x :: x in p.after ==> InMemory(x)
  }

  lemma {:induction false} StoresDoNotCommit(sid: Sid, messages: seq<Incoming>)
    ensures DbCommit !in Stores(sid, messages)
  {
    if messages != [] {
      StoresDoNotCommit(sid, messages[..|messages| - 1]);
    }
  }

  lemma StepsCommitOnce(s: State, op: Op)
    requires Steps(s, op).Some?
    ensures OneCommit(Steps(s, op).value)
  {
    hide RowsOf, Stores;
    if op.OpReplace? {
      StoresDoNotCommit(op.sid, op.messages);
    }
  }

  lemma PrefixOfAll(p: Program, n: nat)
    requires n <= |All(p)|
    ensures n <= |p.before| ==> All(p)[..n] == p.before[..n]
    ensures n > |p.before| ==> All(p)[..n] == p.before + [DbCommit] + p.after[..n - |p.before| - 1]
  {
  }

  lemma ProgramTables(m: Machine, p: Program, n: nat)
    requires OneCommit(p) && n <= |All(p)|
    ensures Run(m, All(p)[..n]).db == if n <= |p.before| then m.db else Run(m, p.before).work
  {
    PrefixOfAll(p, n);
    if n <= |p.before| {
      assert forall x :: x in p.before[..n] ==> x in p.before;
      NoCommitKeepsTables(m, p.before[..n]);
    } else {
      var rest := p.after[..n - |p.before| - 1];
      assert forall x :: x in rest ==> x in p.after;
      assert DbCommit !in rest;
      hide OneCommit, Remember, Statement;
      RunNext(m, p.before, DbCommit);
      RunConcat(m, p.before + [DbCommit], rest);
      NoCommitKeepsTables(Run(m, p.before + [DbCommit]), rest);
    }
  }

  /** Wherever an operation fails: up to the commit its rows, counts and index
      are as before, and from the commit on they are those of the operation. */
  lemma FailuresKeepTables(s: State, op: Op, n: nat)
    requires Steps(s, op).Some? && n <= |All(Steps(s, op).value)|
    ensures var p := Steps(s, op).value;
            Attempt(s, op, n).db == if n <= |p.before| then s.db else Attempt(s, op, |All(p)|).db
  {
    hide Steps, Run, Base;
    var p, m := Steps(s, op).value, Begin(Base(s, op));
    StepsCommitOnce(s, op);
    BaseKeepsTables(s, op);
    ProgramTables(m, p, n);
    ProgramTables(m, p, |All(p)|);
  }

  lemma BaseKeepsTables(s: State, op: Op)
    ensures Base(s, op).db == s.db
  {
  }

  // ---------------------------------------------------------------------
  // Where failures leave the cache
  // ---------------------------------------------------------------------

  /** The labels among the first `n` steps of a replacement. */
  function Labels(messages: seq<Incoming>, n: nat): (k: nat)
    ensures k <= |messages|
  {
    var stored := if n <= |messages| + 1 then 0 else (n - |messages| - 1) / 2;
    if stored <= |messages| then stored else |messages|
  }

  lemma {:induction false} StoresShape(sid: Sid, messages: seq<Incoming>)
    ensures |Stores(sid, messages)| == 2 * |messages|
    ensures forall k :: 0 <= k <= |messages| ==> Stores(sid, messages)[..2 * k] == Stores(sid, messages[..k])
    ensures forall k :: 0 <= k < |messages| ==>
              !InMemory(Stores(sid, messages)[2 * k]) && Stores(sid, messages)[2 * k] != DbCommit
  {
    if messages == [] {
      assert messages[..0] == messages;
    } else {
      var front, m := messages[..|messages| - 1], messages[|messages| - 1];
      var all := Stores(sid, messages);
      StoresShape(sid, front);
      assert all == Stores(sid, front) + [DbInsert(Row(m.id, sid, m.role, Stored(m.content))), MemLabel(sid, m)];
      forall k | 0 <= k <= |messages|
        ensures all[..2 * k] == Stores(sid, messages[..k])
      {
        if k < |messages| {
          assert all[..2 * k] == Stores(sid, front)[..2 * k] && front[..k] == messages[..k];
        } else {
          assert messages[..k] == messages;
        }
      }
      forall k | 0 <= k < |messages|
        ensures !InMemory(all[2 * k]) && all[2 * k] != DbCommit
      {
        if k < |messages| - 1 {
          assert all[2 * k] == Stores(sid, front)[2 * k];
        }
      }
    }
  }

  lemma StoresNext(m: Machine, sid: Sid, messages: seq<Incoming>)
    requires messages != []
    ensures var front, last := messages[..|messages| - 1], messages[|messages| - 1];
            Run(m, Stores(sid, messages)) ==
            Perform(Perform(Run(m, Stores(sid, front)), DbInsert(Row(last.id, sid, last.role, Stored(last.content)))), MemLabel(sid, last))
  {
    var front, last := messages[..|messages| - 1], messages[|messages| - 1];
    var row := Row(last.id, sid, last.role, Stored(last.content));
    hide Run, Perform;
    RunNext(m, Stores(sid, front), DbInsert(row));
    RunNext(m, Stores(sid, front) + [DbInsert(row)], MemLabel(sid, last));
  }

  lemma StoredWork(m: Machine, row: Row, x: Step)
    requires x.MemLabel?
    ensures Perform(Perform(m, DbInsert(row)), x).work == InsertRow(m.work, row)
  {
    hide Remember, InsertRow;
  }

  lemma FrontRows(sid: Sid, messages: seq<Incoming>)
    requires messages != []
    ensures var (rows, last) := (NewRows(sid, messages), messages[|messages| - 1]);
            && rows != [] && rows[..|rows| - 1] == NewRows(sid, messages[..|messages| - 1])
            && rows[|rows| - 1] == Row(last.id, sid, last.role, Stored(last.content))
  {
    hide Stored;
  }

  lemma {:induction false} StoresInsert(m: Machine, sid: Sid, messages: seq<Incoming>)
    ensures Run(m, Stores(sid, messages)).work == InsertAll(m.work, NewRows(sid, messages))
  {
    if messages != [] {
      hide Run, Stores, InsertAll, InsertRow, Perform, NewRows, Stored;
      var front, last := messages[..|messages| - 1], messages[|messages| - 1];
      StoresInsert(m, sid, front);
      StoresNext(m, sid, messages);
      StoredWork(Run(m, Stores(sid, front)), Row(last.id, sid, last.role, Stored(last.content)), MemLabel(sid, last));
      FrontRows(sid, messages);
      InsertAllLast(m.work, NewRows(sid, messages));
    }
  }

  function Relabelled(cache: map<Sid, Cached>, sid: Sid, messages: seq<Incoming>): map<Sid, Cached>
    requires sid in cache
  {
    cache[sid := cache[sid].(history := Relabel(cache[sid].history, messages))]
  }

  lemma RelabelLast(h: seq<Msg>, messages: seq<Incoming>)
    requires messages != []
    ensures Relabel(h, messages) == Labelled(Relabel(h, messages[..|messages| - 1]), messages[|messages| - 1])
  {
  }

  lemma LabelStep(cache: map<Sid, Cached>, sid: Sid, messages: seq<Incoming>)
    requires sid in cache && messages != []
    ensures Remember(MemLabel(sid, messages[|messages| - 1]), Relabelled(cache, sid, messages[..|messages| - 1])) ==
            Relabelled(cache, sid, messages)
  {
    RelabelLast(cache[sid].history, messages);
    hide Relabel, Labelled;
  }

  lemma {:induction false} StoresLabel(m: Machine, sid: Sid, messages: seq<Incoming>)
    requires sid in m.cache
    ensures Run(m, Stores(sid, messages)).cache == Relabelled(m.cache, sid, messages)
  {
    var h := m.cache[sid].history;
    if messages == [] {
      assert m.cache[sid := m.cache[sid].(history := h)] == m.cache;
    } else {
      StoresLabel(m, sid, messages[..|messages| - 1]);
      StoresNext(m, sid, messages);
      LabelStep(m.cache, sid, messages);
      hide Run, Stores, Relabelled, Remember, InsertRow;
    }
  }

  lemma InsertAllLast(db: Db, rows: seq<Row>)
    requires rows != []
    ensures InsertAll(db, rows) == InsertRow(InsertAll(db, rows[..|rows| - 1]), rows[|rows| - 1])
  {
  }

  /** The steps of a replacement before its commit, cut at `n`: reservations and
      clearing first, then whole pairs of row and label, or one row more. */
  lemma ReplacePrefix(sid: Sid, messages: seq<Incoming>, n: nat) returns (rest: seq<Step>)
    requires n <= |ReplaceSteps(sid, messages)|
    ensures |ReplaceSteps(sid, messages)| == 3 * |messages| + 2
    ensures forall x :: x in rest ==> !InMemory(x) && x != DbCommit
    ensures ReplaceSteps(sid, messages)[..n] ==
            if n <= |messages| then Reserves(n)
            else Reserves(|messages|) + [DbClear(sid)] + Stores(sid, messages[..Labels(messages, n)]) + rest
  {
    StoresShape(sid, messages);
    hide Stores, InMemory;
    var (k, before) := (Labels(messages, n), ReplaceSteps(sid, messages));
    var (a, b) := (Reserves(|messages|) + [DbClear(sid)], Stores(sid, messages) + [DbCount(sid, |messages|)]);
    assert before == a + b;
    if n <= |messages| {
      rest := [];
      assert before[..n] == Reserves(n);
    } else {
      rest := b[2 * k..n - |a|];
      assert before[..n] == a + b[..n - |a|];
      assert b[..n - |a|] == b[..2 * k] + rest;
      assert b[..2 * k] == Stores(sid, messages)[..2 * k];
      assert a + (b[..2 * k] + rest) == a + b[..2 * k] + rest;
      QuietRest(sid, messages, k, rest);
    }
  }

  lemma QuietRest(sid: Sid, messages: seq<Incoming>, k: nat, rest: seq<Step>)
    requires k <= |messages| && |rest| <= 1
    requires var b := Stores(sid, messages) + [DbCount(sid, |messages|)];
             2 * k + |rest| <= |b| && rest == b[2 * k..2 * k + |rest|]
    ensures forall x :: x in rest ==> !InMemory(x) && x != DbCommit
  {
    StoresShape(sid, messages);
    hide Stores;
    if |rest| == 1 {
      assert rest[0] == if k < |messages| then Stores(sid, messages)[2 * k] else DbCount(sid, |messages|);
    }
  }

  lemma ReservesDoNothing(m: Machine, n: nat)
    ensures Run(m, Reserves(n)) == m
  {
    if n > 0 {
      ReservesDoNothing(m, n - 1);
      assert Reserves(n)[..n - 1] == Reserves(n - 1);
    }
  }

  lemma ReplaceStepsCache(m: Machine, sid: Sid, messages: seq<Incoming>, n: nat)
    requires sid in m.cache && n <= |ReplaceSteps(sid, messages)|
    ensures Run(m, ReplaceSteps(sid, messages)[..n]).cache ==
            m.cache[sid := m.cache[sid].(history := Relabel(m.cache[sid].history, messages[..Labels(messages, n)]))]
  {
    hide ReplaceSteps, Run, Stores;
    var k := Labels(messages, n);
    var rest := ReplacePrefix(sid, messages, n);
    if n <= |messages| {
      ReservesDoNothing(m, n);
      assert messages[..0] == [];
      assert m.cache[sid := m.cache[sid].(history := m.cache[sid].history)] == m.cache;
    } else {
      ReplacedCache(m, sid, messages, k, rest);
    }
  }

  /** Failing before the end of the commit, a replacement has put the new ids into
      the message objects it has come to, and nothing else into the cache. */
  lemma FailedReplacementCache(s: State, op: Op, n: nat)
    requires op.OpReplace? && Steps(s, op).Some? && n <= |Steps(s, op).value.before| + 1
    ensures n <= |All(Steps(s, op).value)|
    ensures var g, k := Base(s, op), Labels(op.messages, n);
            Attempt(s, op, n).cache ==
              g.cache[op.sid := g.cache[op.sid].(history := Relabel(g.cache[op.sid].history, op.messages[..k]))]
  {
    var (sid, messages) := (op.sid, op.messages);
    hide ReplaceSteps, Run, Stores, RowsOf;
    var (g, p, m) := (Base(s, op), Steps(s, op).value, Begin(Base(s, op)));
    assert p.before == ReplaceSteps(sid, messages) && sid in g.cache;
    hide Base, Steps;
    PrefixOfAll(p, n);
    var cut := if n <= |p.before| then n else |p.before|;
    ReplaceStepsCache(m, sid, messages, cut);
    var _ := ReplacePrefix(sid, messages, cut);
    assert Labels(messages, cut) == Labels(messages, n);
    if n > |p.before| {
      assert p.before[..cut] == p.before && p.after[..0] == [];
      assert All(p)[..n] == p.before + [DbCommit];
      RunNext(m, p.before, DbCommit);
    }
  }

  lemma ReplacedCache(m: Machine, sid: Sid, messages: seq<Incoming>, k: nat, rest: seq<Step>)
    requires sid in m.cache && k <= |messages| && forall x :: x in rest ==> !InMemory(x) && x != DbCommit
    ensures Run(m, Reserves(|messages|) + [DbClear(sid)] + Stores(sid, messages[..k]) + rest).cache ==
            m.cache[sid := m.cache[sid].(history := Relabel(m.cache[sid].history, messages[..k]))]
  {
    var a := Reserves(|messages|) + [DbClear(sid)];
    ReservesDoNothing(m, |messages|);
    RunNext(m, Reserves(|messages|), DbClear(sid));
    hide Run, RowsOf, DeleteRows;
    RunConcat(m, a, Stores(sid, messages[..k]));
    StoresLabel(Run(m, a), sid, messages[..k]);
    RunConcat(m, a + Stores(sid, messages[..k]), rest);
    NoMemoryKeepsCache(Run(m, a + Stores(sid, messages[..k])), rest);
  }

  /** Steps that do not write to the cache, after at most one that does. */
  lemma QuietCache(m: Machine, p: Program, head: seq<Step>, n: nat)
    requires |head| <= n <= |p.before| + 1 && head <= p.before
    requires forall x :: x in p.before[|head|..] ==> !InMemory(x)
    ensures n <= |All(p)| && Run(m, All(p)[..n]).cache == Run(m, head).cache
  {
    var rest := (p.before + [DbCommit])[|head|..n];
    assert p.after[..0] == [];
    PrefixOfAll(p, n);
    assert All(p)[..n] == head + rest;
    assert forall x :: x in rest ==> x in p.before[|head|..] || x == DbCommit;
    hide Run;
    RunConcat(m, head, rest);
    NoMemoryKeepsCache(Run(m, head), rest);
  }

  /** Failing before the end of the commit, a truncation, the deletion of a
      message or the creation of a session leaves the cache as it found it. */
  lemma FailedCache(s: State, op: Op, n: nat)
    requires op.OpTruncate? || op.OpDeleteMessage? || op.OpCreate?
    requires Steps(s, op).Some? && n <= |Steps(s, op).value.before| + 1
    ensures n <= |All(Steps(s, op).value)|
    ensures Attempt(s, op, n).cache == Base(s, op).cache
  {
    hide RowsOf, DeleteRows, Run;
    var (p, m) := (Steps(s, op).value, Begin(Base(s, op)));
    assert forall x :: x in p.before ==> !InMemory(x);
    hide Base, Steps;
    QuietCache(m, p, [], n);
    RunNothing(m);
  }

  lemma RunNothing(m: Machine)
    ensures Run(m, []) == m
  {
  }

  /** `delete_session` drops the cached copy before its commit: a failure before
      that step leaves the cache, one after it, the commit's included, does not. */
  lemma FailedDeletionCache(s: State, op: Op, n: nat)
    requires op.OpDeleteSession? && Steps(s, op).Some?
    ensures |All(Steps(s, op).value)| == 4
    ensures n <= 4 ==> Attempt(s, op, n).cache == if n < 3 then s.cache else s.cache - {op.sid}
  {
    var (p, m) := (Steps(s, op).value, Begin(s));
    var two := [DbClear(op.sid)] + [DbDropSession(op.sid)];
    hide Run, RowsOf, DeleteRows;
    assert p.before == two + [MemPop(op.sid)];
    PrefixOfAll(p, if n <= 4 then n else 4);
    if n < 3 {
      assert p.before[..n] == two[..n];
      NoMemoryKeepsCache(m, two[..n]);
    } else if n <= 4 {
      NoMemoryKeepsCache(m, two);
      RunNext(m, two, MemPop(op.sid));
      QuietCache(m, p, p.before, n);
    }
  }

  /** An append that fails after its first step leaves the message in the cache,
      without an id. */
  lemma FailedAppendCache(s: State, op: Op, n: nat)
    requires op.OpAdd? && Steps(s, op).Some? && 1 <= n <= |Steps(s, op).value.before| + 1
    ensures n <= |All(Steps(s, op).value)|
    ensures var h := Base(s, op).cache[op.sid].history;
            Attempt(s, op, n).cache ==
              Base(s, op).cache[op.sid := Cached(h + [Msg(op.role, op.content, None)], |h| + 1)]
  {
    hide RowsOf, Run, Stored;
    var (p, m) := (Steps(s, op).value, Begin(Base(s, op)));
    var append := MemAppend(op.sid, Msg(op.role, op.content, None));
    assert p.before[..1] == [append] && forall x :: x in p.before[1..] ==> !InMemory(x);
    var g := Base(s, op);
    hide Steps;
    QuietCache(m, p, [append], n);
    var none: seq<Step> := [];
    assert none + [append] == [append];
    RunNext(m, none, append);
    RunNothing(m);
  }

  function Texts(h: seq<Msg>): seq<(string, string)> {
    seq(|h|, i requires 0 <= i < |h| => (h[i].role, h[i].content))
  }

  /** So wherever a truncation, the deletion of a message or a replacement fails
      before its commit is through, the roles and contents of every cached
      transcript are those of a mere `get_session`. */
  lemma FailuresKeepTranscripts(s: State, op: Op, n: nat)
    requires op.OpTruncate? || op.OpDeleteMessage? || op.OpReplace?
    requires Steps(s, op).Some? && n <= |Steps(s, op).value.before| + 1
    ensures n <= |All(Steps(s, op).value)|
    ensures Attempt(s, op, n).cache.Keys == Base(s, op).cache.Keys
    ensures forall x :: x in Base(s, op).cache ==>
              Texts(Attempt(s, op, n).cache[x].history) == Texts(Base(s, op).cache[x].history)
  {
    if op.OpReplace? {
      FailedReplacementCache(s, op, n);
      hide Steps, Attempt;
    } else {
      FailedCache(s, op, n);
      hide Steps, Attempt;
    }
  }

  // ---------------------------------------------------------------------
  // All the steps are the operation
  // ---------------------------------------------------------------------

  lemma {:induction false} WithoutRowsTwice(rows: seq<Row>, a: set<Id>, b: set<Id>)
    ensures WithoutRows(WithoutRows(rows, a), b) == WithoutRows(rows, a + b)
  {
    if rows != [] {
      var front, last := rows[..|rows| - 1], rows[|rows| - 1];
      WithoutRowsTwice(front, a, b);
      WithoutRowsAppend(WithoutRows(front, a), last, b);
      assert WithoutRows(front, a) + [] == WithoutRows(front, a);
    }
  }

  lemma {:induction false} WithoutEntriesTwice(index: seq<Entry>, a: set<Id>, b: set<Id>)
    ensures WithoutEntries(WithoutEntries(index, a), b) == WithoutEntries(index, a + b)
  {
    if index != [] {
      var front, last := index[..|index| - 1], index[|index| - 1];
      WithoutEntriesTwice(front, a, b);
      assert (WithoutEntries(front, a) + [last])[..|WithoutEntries(front, a)|] == WithoutEntries(front, a);
      assert WithoutEntries(front, a) + [] == WithoutEntries(front, a);
    }
  }

  lemma IdsAfterDeletion(rows: seq<Row>, doomed: set<Id>)
    ensures Ids(WithoutRows(rows, doomed)) == Ids(rows) - doomed
  {
    forall r
      ensures r in WithoutRows(rows, doomed) <==> r in rows && r.id !in doomed
    {
      InWithoutRows(rows, doomed, r);
    }
    hide WithoutRows;
  }

  lemma DeleteTwice(db: Db, a: set<Id>, b: set<Id>)
    ensures DeleteRows(DeleteRows(db, a), b) == DeleteRows(db, a + b)
  {
    WithoutRowsTwice(db.rows, a, b);
    IdsAfterDeletion(db.rows, a);
    WithoutEntriesTwice(db.index, a * Ids(db.rows), b * (Ids(db.rows) - a));
    assert a * Ids(db.rows) + b * (Ids(db.rows) - a) == (a + b) * Ids(db.rows);
    hide WithoutRows, WithoutEntries, Ids;
  }

  lemma {:induction false} DeleteNothing(db: Db)
    ensures DeleteRows(db, {}) == db
  {
    WithoutNone(db.rows, {});
    assert {} * Ids(db.rows) == {};
    KeepAll(db.index);
    hide WithoutRows, WithoutEntries, Ids;
  }

  lemma {:induction false} KeepAll(index: seq<Entry>)
    ensures WithoutEntries(index, {}) == index
  {
    if index != [] {
      KeepAll(index[..|index| - 1]);
    }
  }

  lemma IdsOfNext(rows: seq<Row>)
    requires rows != []
    ensures Ids(rows) == Ids(rows[..|rows| - 1]) + {rows[|rows| - 1].id}
  {
    assert rows == rows[..|rows| - 1] + [rows[|rows| - 1]];
  }

  lemma DeletesNext(rows: seq<Row>)
    requires rows != []
    ensures Deletes(rows) == Deletes(rows[..|rows| - 1]) + [DbDelete(rows[|rows| - 1].id)]
  {
  }

  lemma {:induction false} DeletesDelete(m: Machine, rows: seq<Row>)
    ensures Run(m, Deletes(rows)) == m.(work := DeleteRows(m.work, Ids(rows)))
  {
    if rows == [] {
      assert Ids(rows) == {} && Deletes(rows) == [];
      DeleteNothing(m.work);
    } else {
      hide Run, DeleteRows, Ids, Deletes;
      var front, last := rows[..|rows| - 1], rows[|rows| - 1];
      DeletesDelete(m, front);
      DeletesNext(rows);
      RunNext(m, Deletes(front), DbDelete(last.id));
      IdsOfNext(rows);
      DeleteTwice(m.work, Ids(front), {last.id});
    }
  }

  /** The last steps: the count, the commit and one write to the cache. */
  lemma RunEnding(m: Machine, front: seq<Step>, count: Step, x: Step)
    requires count.DbCount? && InMemory(x)
    ensures var m1 := Run(m, front); var db := Statement(count, m1.work);
            Run(m, All(Program(front + [count], [x]))) == Machine(Remember(x, m1.cache), db, db)
  {
    hide Run, Remember, Statement;
    RunNext(m, front, count);
    RunNext(m, front + [count], DbCommit);
    RunNext(m, front + [count] + [DbCommit], x);
  }

  lemma CompletedAdd(s: State, op: Op)
    requires op.OpAdd? && Steps(s, op).Some?
    ensures Attempt(s, op, |All(Steps(s, op).value)|) == Apply(s, Sure(op))
  {
    hide Run, RowsOf, InsertRow;
    var (sid, g, p) := (op.sid, Base(s, op), Steps(s, op).value);
    var m := Begin(g);
    var append := MemAppend(sid, Msg(op.role, op.content, None));
    var row := Row(op.id, sid, op.role, Stored(op.content));
    var h := g.cache[sid].history;
    var none: seq<Step> := [];
    assert none + [append] == [append];
    RunNothing(m);
    RunNext(m, none, append);
    RunNext(m, [append], Reserve);
    RunNext(m, [append] + [Reserve], DbInsert(row));
    RunEnding(m, [append] + [Reserve] + [DbInsert(row)], DbCount(sid, |h| + 1), MemLabelLast(sid, op.id));
    WholePrefix(p);
    assert (h + [Msg(op.role, op.content, None)])[|h| := Msg(op.role, op.content, Some(op.id))]
           == h + [Msg(op.role, op.content, Some(op.id))];
  }

  lemma WholePrefix(p: Program)
    ensures All(p)[..|All(p)|] == All(p)
  {
  }

  lemma CompletedTruncate(s: State, op: Op)
    requires op.OpTruncate? && Steps(s, op).Some?
    ensures Attempt(s, op, |All(Steps(s, op).value)|) == Apply(s, Sure(op))
  {
    hide Run, RowsOf, DeleteRows, Ids;
    var (sid, g, p) := (op.sid, Base(s, op), Steps(s, op).value);
    var m := Begin(g);
    var rows := RowsOf(g.db.rows, sid);
    var n := if op.keep < |rows| then op.keep else |rows|;
    DeletesDelete(m, rows[n..]);
    RunEnding(m, Deletes(rows[n..]), DbCount(sid, n), MemSlice(sid, op.keep));
    WholePrefix(p);
  }

  lemma CompletedDeleteMessage(s: State, op: Op)
    requires op.OpDeleteMessage? && Steps(s, op).Some?
    ensures Attempt(s, op, |All(Steps(s, op).value)|) == Apply(s, Sure(op))
  {
    hide Run, RowsOf, DeleteRows, Ids;
    var (sid, g, p) := (op.sid, Base(s, op), Steps(s, op).value);
    var m := Begin(g);
    var none: seq<Step> := [];
    assert none + [DbDelete(op.mid)] == [DbDelete(op.mid)];
    RunNothing(m);
    RunNext(m, none, DbDelete(op.mid));
    RunEnding(m, [DbDelete(op.mid)], DbCount(sid, |RowsOf(DeleteRows(g.db, {op.mid}).rows, sid)|), MemFilter(sid, op.mid));
    WholePrefix(p);
  }

  lemma CompletedReplace(s: State, op: Op)
    requires op.OpReplace? && Steps(s, op).Some?
    ensures Attempt(s, op, |All(Steps(s, op).value)|) == Apply(s, Sure(op))
  {
    hide Run, RowsOf, DeleteRows, Ids, InsertAll, Stores, Relabel;
    var (sid, messages, g, p) := (op.sid, op.messages, Base(s, op), Steps(s, op).value);
    var m := Begin(g);
    var a := Reserves(|messages|) + [DbClear(sid)];
    ReservesDoNothing(m, |messages|);
    RunNext(m, Reserves(|messages|), DbClear(sid));
    RunConcat(m, a, Stores(sid, messages));
    StoresLabel(Run(m, a), sid, messages);
    StoresInsert(Run(m, a), sid, messages);
    RunEnding(m, a + Stores(sid, messages), DbCount(sid, |messages|), MemReplace(sid, Given(messages)));
    WholePrefix(p);
  }

  lemma CompletedCreation(s: State, op: Op)
    requires op.OpCreate? && Steps(s, op).Some?
    ensures Attempt(s, op, |All(Steps(s, op).value)|) == Apply(s, Sure(op))
  {
    hide Run, RowsOf, DeleteRows, Ids;
    var (p, m, sid) := (Steps(s, op).value, Begin(s), op.sid);
    var none: seq<Step> := [];
    RunNothing(m);
    WholePrefix(p);
    assert none + [DbAddSession(sid)] == [DbAddSession(sid)];
    RunNext(m, none, DbAddSession(sid));
    RunNext(m, [DbAddSession(sid)], DbCommit);
    RunNext(m, [DbAddSession(sid)] + [DbCommit], MemAdd(sid));
  }

  lemma CompletedDeletion(s: State, op: Op)
    requires op.OpDeleteSession? && Steps(s, op).Some?
    ensures Attempt(s, op, |All(Steps(s, op).value)|) == Apply(s, Sure(op))
  {
    hide Run, RowsOf, DeleteRows, Ids;
    var (p, m, sid) := (Steps(s, op).value, Begin(s), op.sid);
    var none: seq<Step> := [];
    RunNothing(m);
    WholePrefix(p);
    assert none + [DbClear(sid)] == [DbClear(sid)] && p.before + [DbCommit] + none == p.before + [DbCommit];
    RunNext(m, none, DbClear(sid));
    RunNext(m, [DbClear(sid)], DbDropSession(sid));
    RunNext(m, [DbClear(sid)] + [DbDropSession(sid)], MemPop(sid));
    RunNext(m, p.before, DbCommit);
  }

  /** All steps together do what the operation does when nothing fails; without
      steps it does nothing but hydrate. */
  lemma CompletedIsApply(s: State, op: Op)
    ensures Steps(s, op).Some? ==> Attempt(s, op, |All(Steps(s, op).value)|) == Apply(s, Sure(op))
  {
    if Steps(s, op).Some? {
      hide Attempt, Apply, Base;
      match op
      case OpAdd(_, _, _, _, _) => CompletedAdd(s, op);
      case OpTruncate(_, _, _) => CompletedTruncate(s, op);
      case OpDeleteMessage(_, _, _) => CompletedDeleteMessage(s, op);
      case OpReplace(_, _, _, _) => CompletedReplace(s, op);
      case OpCreate(_, _) => CompletedCreation(s, op);
      case OpDeleteSession(_, _) => CompletedDeletion(s, op);
      case _ =>
    }
  }

  // ---------------------------------------------------------------------
  // Runs of attempts
  // ---------------------------------------------------------------------

  /** An operation, and how many of its steps it comes to. */
  datatype Try = Try(op: Op, n: nat)

  function Tried(s: State, t: Try): State {
    if Steps(s, t.op).None? then Apply(s, Sure(t.op))
    else if t.n < |All(Steps(s, t.op).value)| then Attempt(s, t.op, t.n)
    else Attempt(s, t.op, |All(Steps(s, t.op).value)|)
  }

  /** What keeps cache and rows in step: a write to the cache after the commit does
      not fail, an append fails before its first step or not at all, and a
      replacement that fails shares no message with the cached history. */
  predicate InStep(s: State, t: Try) {
    Steps(s, t.op).Some? && t.n < |All(Steps(s, t.op).value)| ==>
      && t.n <= |Steps(s, t.op).value.before|
      && (t.op.OpAdd? ==> t.n == 0)
      && (t.op.OpReplace? ==> forall m :: m in t.op.messages ==> m.cachedAt == None)
  }

  /** What a try does to a plain list per session: all of the operation or nothing,
      but that a deletion may have dropped the cached copy. */
  function PlainTried(s: State, p: Plain, t: Try): Plain {
    if Steps(s, t.op).Some? && t.n < |All(Steps(s, t.op).value)| then
      if t.op.OpDeleteSession? && t.n >= 3 then Reloaded(p, t.op.sid) else p
    else PlainApply(p, Sure(t.op))
  }

  lemma FailedTry(s: State, t: Try)
    requires Steps(s, t.op).Some? && t.n < |All(Steps(s, t.op).value)| && InStep(s, t)
    ensures Tried(s, t) ==
            if t.op.OpDeleteSession? && t.n >= 3
            then Base(s, t.op).(cache := Base(s, t.op).cache - {t.op.sid}) else Base(s, t.op)
  {
    var (op, n) := (t.op, t.n);
    hide Run, Stored;
    FailuresKeepTables(s, op, n);
    BaseKeepsTables(s, op);
    if op.OpReplace? {
      FailedReplacementCache(s, op, n);
      var h := Base(s, op).cache[op.sid].history;
      var some := op.messages[..Labels(op.messages, n)];
      assert forall m :: m in some ==> m in op.messages;
      assert Relabel(h, some) == h;
      hide Steps, Attempt, Relabel;
    } else if op.OpDeleteSession? {
      FailedDeletionCache(s, op, n);
      hide Steps, Attempt;
    } else if op.OpAdd? {
      RunNothing(Begin(Base(s, op)));
      assert All(Steps(s, op).value)[..0] == [];
    } else {
      FailedCache(s, op, n);
      hide Steps, Attempt;
    }
  }

  lemma BaseAgrees(s: State, op: Op)
    requires Agree(s)
    ensures Agree(Base(s, op)) && PlainOf(Base(s, op)) == PlainOf(s)
  {
    hide Agree, PlainOf, Get;
    if op.OpAdd? || op.OpTruncate? || op.OpDeleteMessage? || op.OpReplace? || op.OpGet? {
      GetReturnsView(s, op.sid);
    }
  }

  /** Wherever it fails, an operation keeps cache, rows and counts in agreement
      and does to the lists all that it does, or nothing. */
  lemma TryRefines(s: State, t: Try)
    requires Agree(s) && FreshIds(s.db, t.op) && InStep(s, t)
    ensures Agree(Tried(s, t)) && PlainOf(Tried(s, t)) == PlainTried(s, PlainOf(s), t)
  {
    if Steps(s, t.op).Some? && t.n < |All(Steps(s, t.op).value)| {
      FailedTry(s, t);
      BaseAgrees(s, t.op);
      hide Tried, Agree, PlainOf, Base, Steps, Reloaded;
      DroppingCopy(Base(s, t.op), t.op.sid);
    } else {
      CompletedIsApply(s, t.op);
      hide Apply, Steps, Agree, PlainOf, FreshIds, PlainApply, Attempt;
      SureIsFresh(s, t.op);
      ApplyRefines(s, Sure(t.op));
    }
  }

  lemma SureIsFresh(s: State, op: Op)
    requires FreshIds(s.db, op)
    ensures FreshIds(s.db, Sure(op)) && KeepsStep(Sure(op))
  {
  }

  ghost predicate GoodTries(s: State, tries: seq<Try>)
    decreases |tries|
  {
    tries != [] ==>
      FreshIds(s.db, tries[0].op) && InStep(s, tries[0]) && GoodTries(Tried(s, tries[0]), tries[1..])
  }

  function RunTries(s: State, tries: seq<Try>): State
    decreases |tries|
  {
    if tries == [] then s else RunTries(Tried(s, tries[0]), tries[1..])
  }

  function PlainTries(s: State, p: Plain, tries: seq<Try>): Plain
    decreases |tries|
  {
    if tries == [] then p
    else PlainTries(Tried(s, tries[0]), PlainTried(s, p, tries[0]), tries[1..])
  }

  /** Over runs in which any operation may fail at any step, cache, rows and
      counts keep agreeing, and the lists are those of the operations that got
      through. */
  lemma {:induction false} TriesRefineLists(s: State, tries: seq<Try>)
    requires Agree(s) && GoodTries(s, tries)
    ensures Agree(RunTries(s, tries))
    ensures PlainOf(RunTries(s, tries)) == PlainTries(s, PlainOf(s), tries)
    decreases |tries|
  {
    hide Tried, PlainTried, Agree, PlainOf, InStep, FreshIds;
    if tries != [] {
      TryRefines(s, tries[0]);
      TriesRefineLists(Tried(s, tries[0]), tries[1..]);
    }
  }

  // ---------------------------------------------------------------------
  // Exactly when a failed append leaves the layers in step
  // ---------------------------------------------------------------------

  /** A cached message without an id stands for no row. */
  lemma UnstoredDisagrees(s: State, sid: Sid, i: nat)
    requires sid in s.cache && i < |s.cache[sid].history| && s.cache[sid].history[i].dbId == None
    ensures !Agree(s)
  {
    hide RowsOf, Stored, TablesAgree;
    var (h, t) := (s.cache[sid].history, Transcript(s.db, sid));
    assert |h| == |t| ==> t[i].dbId != None;
  }

  /** From agreeing layers a try to append leaves them in agreement exactly when it
      fails before its first step or gets through. */
  lemma AppendInStepExactly(s: State, t: Try)
    requires Agree(s) && FreshIds(s.db, t.op) && t.op.OpAdd? && Steps(s, t.op).Some?
    ensures Agree(Tried(s, t)) <==> t.n == 0 || t.n >= |All(Steps(s, t.op).value)|
  {
    var (op, n, p) := (t.op, t.n, Steps(s, t.op).value);
    if n == 0 || n >= |All(p)| {
      TryRefines(s, t);
    } else {
      hide RowsOf, Run, Agree;
      assert |All(p)| == |p.before| + 2;
      FailedAppendCache(s, op, n);
      var h := Base(s, op).cache[op.sid].history;
      hide Steps, Attempt;
      UnstoredDisagrees(Tried(s, t), op.sid, |h|);
    }
  }
}
