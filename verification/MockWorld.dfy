/** The mock world of the offline benchmark (benchmarks/mocks.py) and the replay
    of a recorded transcript against it (benchmarks/engines.py). */
module MockWorld {
  import opened Options
  import opened Text
  import opened MockTools

  datatype Call = Call(name: string, args: Args)

  /** A tool that fails `times` times at first; without an error of its own it is
      given one. */
  datatype Flaky = Flaky(times: int, error: string)

  /** `failing` gives the error of each tool that always fails. */
  datatype World = World(
    unavailable: set<string>, failing: map<string, string>, flaky: map<string, Flaky>,
    services: Services, calls: seq<Call>, flakyCounts: map<string, nat>)

  datatype Outcome = Outcome(ok: bool, gated: bool, result: Json)

  function ToOutcome(reply: Reply): Outcome {
    match reply
    case Ok(result) => Outcome(true, false, result)
    case Err(result) => Outcome(false, false, result)
  }

  function Gate(name: string): Outcome {
    Outcome(false, true,
            Obj([("success", Bool(false)), ("action", Str("approval_required")),
                 ("pending_action", Str("pending-" + name)),
                 ("message", Str("Operator approval is required before this mutation runs."))]))
  }

  // ---------------------------------------------------------------------
  // Gates
  // ---------------------------------------------------------------------

  predicate Approved(args: Args) {
    Strip(Arg(args, "approval")) != ""
  }

  /** Mutations that an operator has to approve. */
  predicate NeedsApproval(name: string, args: Args) {
    || name == "oracle_control" || name == "bulk_email"
    || (name == "manage_calendar" && Lower(Arg(args, "action")) in ["create", "update", "delete"])
  }

  predicate IsGated(name: string, args: Args) {
    !Approved(args) && NeedsApproval(name, args)
  }

  // ---------------------------------------------------------------------
  // Dispatch
  // ---------------------------------------------------------------------

  function Used(w: World, name: string): nat {
    if name in w.flakyCounts then w.flakyCounts[name] else 0
  }

  predicate FailsYet(w: World, name: string) {
    name in w.flaky && Used(w, name) < w.flaky[name].times
  }

  function FlakyError(name: string, flaky: Flaky): string {
    if flaky.error != "" then flaky.error else name + " failed"
  }

  function AfterNote(s: Services, args: Args): Services {
    s.(notes := s.notes + [NewNote(s, args)])
  }

  function Handle(s: Services, name: string, args: Args, py: Foreign): (Outcome, Services) {
    var reply := Answer(s, name, args, py);
    (ToOutcome(reply), if name == "manage_notes" && reply.Ok? then AfterNote(s, args) else s)
  }

  function Dispatch(w: World, c: Call, py: Foreign): (Outcome, World) {
    var logged := w.(calls := w.calls + [c]);
    if c.name in w.unavailable then (ToOutcome(Missing(c.name + " is not available in this installation")), logged)
    else if FailsYet(w, c.name) then
      (ToOutcome(Failed(FlakyError(c.name, w.flaky[c.name]))),
       logged.(flakyCounts := w.flakyCounts[c.name := Used(w, c.name) + 1]))
    else if c.name in w.failing then (ToOutcome(Failed(w.failing[c.name])), logged)
    else if IsGated(c.name, c.args) then (Gate(c.name), logged)
    else
      var (outcome, services) := Handle(w.services, c.name, c.args, py);
      (outcome, logged.(services := services))
  }

  class Mock {
    var unavailable: set<string>
    var failing: map<string, string>
    var flaky: map<string, Flaky>
    var services: Services
    var calls: seq<Call>
    var flakyCounts: map<string, nat>

    ghost function Value(): World
      reads this
    {
      World(unavailable, failing, flaky, services, calls, flakyCounts)
    }

    constructor (
      unavailable: set<string>, failing: map<string, string>, flaky: map<string, Flaky>, services: Services)
      ensures Value() == World(unavailable, failing, flaky, services, [], map[])
    {
      this.unavailable, this.failing, this.flaky, this.services := unavailable, failing, flaky, services;
      calls, flakyCounts := [], map[];
    }

    method DispatchCall(c: Call, py: Foreign) returns (outcome: Outcome)
      modifies this
      ensures (outcome, Value()) == Dispatch(old(Value()), c, py)
    {
      hide IsGated, Answer, Failed, Missing;
      calls := calls + [c];
      if c.name in unavailable {
        return ToOutcome(Missing(c.name + " is not available in this installation"));
      }
      if c.name in flaky {
        var used := if c.name in flakyCounts then flakyCounts[c.name] else 0;
        if used < flaky[c.name].times {
          flakyCounts := flakyCounts[c.name := used + 1];
          return ToOutcome(Failed(FlakyError(c.name, flaky[c.name])));
        }
      }
      if c.name in failing {
        return ToOutcome(Failed(failing[c.name]));
      }
      if IsGated(c.name, c.args) {
        return Gate(c.name);
      }
      outcome := ToOutcome(Answer(services, c.name, c.args, py));
      if c.name == "manage_notes" && outcome.ok {
        services := AfterNote(services, c.args);
      }
    }
  }

  // ---------------------------------------------------------------------
  // Replays
  // ---------------------------------------------------------------------

  /** `resultText` is the text that the model was shown. */
  datatype Invocation = Invocation(
    name: string, args: Args, ok: bool, gated: bool, result: Json, resultText: string)

  function ToInvocation(c: Call, o: Outcome, py: Foreign): Invocation {
    Invocation(c.name, c.args, o.ok, o.gated, o.result, py.format(c.name, o.result))
  }

  /** The world before call number `|calls|`. */
  function WorldAfter(w: World, calls: seq<Call>, py: Foreign): World {
    if calls == [] then w
    else Dispatch(WorldAfter(w, calls[..|calls| - 1], py), calls[|calls| - 1], py).1
  }

  function Replayed(w: World, calls: seq<Call>, py: Foreign): seq<Invocation> {
    if calls == [] then [] else
    var front, c := calls[..|calls| - 1], calls[|calls| - 1];
    Replayed(w, front, py) + [ToInvocation(c, Dispatch(WorldAfter(w, front, py), c, py).0, py)]
  }

  /** A turn: its parsed tool calls, and its text without them. */
  datatype Turn = Turn(blocks: seq<Call>, prose: string)

  function AllCalls(turns: seq<Turn>): seq<Call> {
    if turns == [] then [] else AllCalls(turns[..|turns| - 1]) + turns[|turns| - 1].blocks
  }

  /** The text of the last turn that has any. */
  function FinalAnswer(turns: seq<Turn>): string {
    if turns == [] then ""
    else if Strip(turns[|turns| - 1].prose) != "" then Strip(turns[|turns| - 1].prose)
    else FinalAnswer(turns[..|turns| - 1])
  }

  lemma ReplayNext(w: World, calls: seq<Call>, c: Call, py: Foreign)
    ensures var (o, after) := Dispatch(WorldAfter(w, calls, py), c, py);
            && WorldAfter(w, calls + [c], py) == after
            && Replayed(w, calls + [c], py) == Replayed(w, calls, py) + [ToInvocation(c, o, py)]
  {
    assert (calls + [c])[..|calls|] == calls;
    hide Dispatch;
  }

  /** One turn of a replay, after the calls `done`. */
  method RunTurn(mock: Mock, blocks: seq<Call>, py: Foreign, ghost start: World, ghost done: seq<Call>)
    returns (invocations: seq<Invocation>)
    requires mock.Value() == WorldAfter(start, done, py)
    modifies mock
    ensures mock.Value() == WorldAfter(start, done + blocks, py)
    ensures Replayed(start, done + blocks, py) == Replayed(start, done, py) + invocations
  {
    hide Dispatch, WorldAfter, Replayed;
    invocations := [];
    assert done + blocks[..0] == done;
    for j := 0 to |blocks|
      invariant mock.Value() == WorldAfter(start, done + blocks[..j], py)
      invariant Replayed(start, done + blocks[..j], py) == Replayed(start, done, py) + invocations
    {
      ReplayNext(start, done + blocks[..j], blocks[j], py);
      assert done + blocks[..j + 1] == (done + blocks[..j]) + [blocks[j]];
      var outcome := mock.DispatchCall(blocks[j], py);
      invocations := invocations + [ToInvocation(blocks[j], outcome, py)];
    }
    assert blocks[..|blocks|] == blocks;
  }

  method LastAnswer(turns: seq<Turn>) returns (answer: string)
    ensures answer == FinalAnswer(turns)
  {
    hide Strip;
    answer := "";
    for i := 0 to |turns|
      invariant answer == FinalAnswer(turns[..i])
    {
      assert turns[..i + 1][..i] == turns[..i];
      var text := Strip(turns[i].prose);
      if text != "" {
        answer := text;
      }
    }
    assert turns[..|turns|] == turns;
  }

  method RunFixture(mock: Mock, turns: seq<Turn>, py: Foreign)
    returns (invocations: seq<Invocation>, answer: string)
    modifies mock
    ensures invocations == Replayed(old(mock.Value()), AllCalls(turns), py)
    ensures mock.Value() == WorldAfter(old(mock.Value()), AllCalls(turns), py)
    ensures answer == FinalAnswer(turns)
  {
    hide Dispatch, FinalAnswer;
    ghost var start := mock.Value();
    invocations := [];
    for i := 0 to |turns|
      invariant invocations == Replayed(start, AllCalls(turns[..i]), py)
      invariant mock.Value() == WorldAfter(start, AllCalls(turns[..i]), py)
    {
      assert turns[..i + 1][..i] == turns[..i];
      var more := RunTurn(mock, turns[i].blocks, py, start, AllCalls(turns[..i]));
      invocations := invocations + more;
    }
    assert turns[..|turns|] == turns;
    answer := LastAnswer(turns);
  }

  // ---------------------------------------------------------------------
  // What every replay keeps
  // ---------------------------------------------------------------------

  /** A gated call is never ok and changes nothing but the log; an ok call is not
      gated, and its mutation was approved if it needs approval. */
  lemma DispatchIsHonest(w: World, c: Call, py: Foreign)
    ensures var (o, after) := Dispatch(w, c, py);
            && (o.gated ==> !o.ok && after == w.(calls := w.calls + [c]))
            && (!o.ok ==> after.services == w.services)
            && (o.ok ==> !o.gated && (NeedsApproval(c.name, c.args) ==> Approved(c.args))
                         && c.name !in w.unavailable && c.name !in w.failing)
            && (o.gated ==> NeedsApproval(c.name, c.args) && !Approved(c.args))
  {
    hide NeedsApproval, Approved, Answer;
  }

  lemma DispatchKeeps(w: World, c: Call, py: Foreign)
    ensures var after := Dispatch(w, c, py).1;
            && after.calls == w.calls + [c]
            && after.unavailable == w.unavailable && after.failing == w.failing && after.flaky == w.flaky
            && after.services.files == w.services.files && after.services.books == w.services.books
            && after.services.events == w.services.events
            && (after.services.notes == w.services.notes
                || (Dispatch(w, c, py).0.ok && c.name == "manage_notes" && !NeedsApproval(c.name, c.args)
                    && after.services.notes == w.services.notes + [NewNote(w.services, c.args)]))
  {
    hide Approved, Answer, Arg, Failed, Missing, Gate, FlakyError, NewNote, FailsYet, Used;
  }

  ghost predicate Numbered(notes: seq<Note>) {
    forall i :: 0 <= i < |notes| ==> notes[i].number == i + 1
  }

  /** Over every replay: each call is logged and answered once, in order; files,
      books and events never change; notes are only added, and numbered. */
  lemma {:induction false} ReplayKeepsData(w: World, calls: seq<Call>, py: Foreign)
    ensures var after := WorldAfter(w, calls, py);
            && after.calls == w.calls + calls && |Replayed(w, calls, py)| == |calls|
            && after.unavailable == w.unavailable && after.failing == w.failing && after.flaky == w.flaky
            && after.services.files == w.services.files && after.services.books == w.services.books
            && after.services.events == w.services.events
            && w.services.notes <= after.services.notes
            && (Numbered(w.services.notes) ==> Numbered(after.services.notes))
  {
    hide Dispatch, NeedsApproval;
    if calls != [] {
      var front, c := calls[..|calls| - 1], calls[|calls| - 1];
      ReplayKeepsData(w, front, py);
      DispatchKeeps(WorldAfter(w, front, py), c, py);
      assert calls == front + [c];
    }
  }

  lemma {:induction false} ReplayedAt(w: World, calls: seq<Call>, py: Foreign, i: nat)
    requires i < |calls| == |Replayed(w, calls, py)|
    ensures Replayed(w, calls, py)[i] ==
            ToInvocation(calls[i], Dispatch(WorldAfter(w, calls[..i], py), calls[i], py).0, py)
    ensures WorldAfter(w, calls[..i + 1], py) == Dispatch(WorldAfter(w, calls[..i], py), calls[i], py).1
  {
    hide Dispatch;
    var front := calls[..|calls| - 1];
    if i == |calls| - 1 {
      assert calls[..i] == front && calls[..i + 1] == calls;
    } else {
      ReplayKeepsData(w, front, py);
      ReplayedAt(w, front, py, i);
      assert front[..i] == calls[..i] && front[..i + 1] == calls[..i + 1];
    }
  }

  /** In every replay, at every call: a gated invocation is not ok and leaves the
      services as they were; an ok one that needs approval had it. */
  lemma ReplayIsHonest(w: World, calls: seq<Call>, py: Foreign, i: nat)
    requires i < |calls|
    ensures |Replayed(w, calls, py)| == |calls|
    ensures var inv := Replayed(w, calls, py)[i];
            && inv.name == calls[i].name && inv.args == calls[i].args
            && inv.resultText == py.format(inv.name, inv.result)
            && (inv.gated ==> !inv.ok && !Approved(inv.args))
            && (!inv.ok ==> WorldAfter(w, calls[..i + 1], py).services == WorldAfter(w, calls[..i], py).services)
            && (inv.ok && NeedsApproval(inv.name, inv.args) ==> Approved(inv.args))
            && (inv.ok ==> inv.name !in w.unavailable && inv.name !in w.failing)
  {
    hide Dispatch, NeedsApproval, Approved;
    ReplayKeepsData(w, calls, py);
    ReplayKeepsData(w, calls[..i], py);
    ReplayedAt(w, calls, py, i);
    DispatchIsHonest(WorldAfter(w, calls[..i], py), calls[i], py);
  }

  /** How often `name` is called. */
  function Times(calls: seq<Call>, name: string): nat {
    if calls == [] then 0
    else Times(calls[..|calls| - 1], name) + (if calls[|calls| - 1].name == name then 1 else 0)
  }

  /** The counter of a flaky tool is the number of calls so far, up to its limit. */
  lemma {:induction false} FlakyCounter(w: World, calls: seq<Call>, py: Foreign, name: string)
    requires w.flakyCounts == map[] && name in w.flaky && name !in w.unavailable
    ensures var n := Times(calls, name);
            Used(WorldAfter(w, calls, py), name) ==
              if n <= w.flaky[name].times then n else if w.flaky[name].times > 0 then w.flaky[name].times else 0
  {
    if calls != [] {
      var front, c := calls[..|calls| - 1], calls[|calls| - 1];
      FlakyCounter(w, front, py, name);
      ReplayKeepsData(w, front, py);
      CountStep(WorldAfter(w, front, py), c, py, name);
      hide Dispatch;
    }
  }

  lemma CountStep(w: World, c: Call, py: Foreign, name: string)
    requires name in w.flaky && name !in w.unavailable
    ensures Used(Dispatch(w, c, py).1, name) ==
            Used(w, name) + if c.name == name && Used(w, name) < w.flaky[name].times then 1 else 0
  {
    hide IsGated, Answer;
  }

  /** The first calls of a flaky tool, as many as its limit says, fail without a
      gate; after them flakiness has no effect. */
  lemma FlakyFailsFirst(w: World, calls: seq<Call>, py: Foreign, i: nat)
    requires i < |calls| && w.flakyCounts == map[]
    requires calls[i].name in w.flaky && calls[i].name !in w.unavailable
    ensures |Replayed(w, calls, py)| == |calls|
    ensures var (inv, before) := (Replayed(w, calls, py)[i], WorldAfter(w, calls[..i], py));
            if Times(calls[..i], calls[i].name) < w.flaky[calls[i].name].times then !inv.ok && !inv.gated
            else inv == ToInvocation(calls[i], Dispatch(before.(flaky := map[]), calls[i], py).0, py)
  {
    ReplayKeepsData(w, calls, py);
    ReplayKeepsData(w, calls[..i], py);
    ReplayedAt(w, calls, py, i);
    FlakyCounter(w, calls[..i], py, calls[i].name);
    hide IsGated, Handle, Times, WorldAfter, Replayed;
  }

  // ---------------------------------------------------------------------
  // Notes
  // ---------------------------------------------------------------------

  lemma {:induction false} NotesGrow(w: World, calls: seq<Call>, py: Foreign, i: nat, j: nat)
    requires i <= j <= |calls|
    ensures WorldAfter(w, calls[..i], py).services.notes <= WorldAfter(w, calls[..j], py).services.notes
    decreases j
  {
    hide Dispatch;
    if i < j {
      NotesGrow(w, calls, py, i, j - 1);
      assert calls[..j][..j - 1] == calls[..j - 1];
      DispatchKeeps(WorldAfter(w, calls[..j - 1], py), calls[j - 1], py);
    }
  }

  lemma NoteIsAnswered(w: World, c: Call, py: Foreign)
    requires c.name == "manage_notes" && Dispatch(w, c, py).0.ok
    ensures var (o, after) := Dispatch(w, c, py);
            && |after.services.notes| == |w.services.notes| + 1
            && after.services.notes[|w.services.notes|].title == TitleOf(c.args)
            && Get(o.result, "note_id") == Some(Str("note-" + Decimal(|w.services.notes| + 1)))
            && Get(o.result, "title") == Some(Str(TitleOf(c.args)))
  {
    TitleIs(w.services, c.args);
    hide IsGated, Decimal, Arg, ArgOr, TitleOf;
    var reply := Answer(w.services, c.name, c.args, py);
    assert reply == if Arg(c.args, "action") != "create" then Failed("unsupported action") else Noted(NewNote(w.services, c.args));
    NoteFields(NewNote(w.services, c.args));
  }

  /** The title that is given, else the text, else a name for none. */
  function TitleOf(args: Args): string {
    if "title" in args && args["title"].text != "" then args["title"].text
    else if "text" in args && args["text"].text != "" then args["text"].text
    else "Untitled"
  }

  lemma TitleIs(s: Services, args: Args)
    ensures NewNote(s, args).title == TitleOf(args)
  {
  }

  lemma NoteFields(note: Note)
    ensures Noted(note).Ok?
    ensures Get(Noted(note).value, "note_id") == Some(Str("note-" + Decimal(note.number)))
    ensures Get(Noted(note).value, "title") == Some(Str(note.title))
  {
    hide Decimal;
    var fields := Noted(note).value.fields;
    assert fields[1..][0] == fields[1] && fields[1..][1..] == fields[2..] && fields[2..][0] == fields[2];
    assert Field(fields[1..], "note_id") == Some(fields[1].1);
    assert Field(fields[2..], "title") == Some(fields[2].1);
    assert Field(fields[1..], "title") == Field(fields[2..], "title");
  }

  /** In every replay, two calls that made a note answer with different ids. */
  lemma NoteIdsDiffer(w: World, calls: seq<Call>, py: Foreign, i: nat, j: nat)
    requires i < j < |calls| && calls[i].name == "manage_notes" == calls[j].name
    ensures |Replayed(w, calls, py)| == |calls|
    ensures var (a, b) := (Replayed(w, calls, py)[i], Replayed(w, calls, py)[j]);
            a.ok && b.ok ==>
              && Get(a.result, "note_id").Some? && Get(a.result, "note_id") != Get(b.result, "note_id")
              && Get(a.result, "title") == Some(Str(TitleOf(a.args))) && Get(b.result, "title") == Some(Str(TitleOf(b.args)))
  {
    ReplayKeepsData(w, calls, py);
    ReplayedAt(w, calls, py, i);
    ReplayedAt(w, calls, py, j);
    NotesGrow(w, calls, py, i + 1, j);
    var (before, later) := (WorldAfter(w, calls[..i], py), WorldAfter(w, calls[..j], py));
    hide Dispatch, WorldAfter, Replayed, Get, Decimal, TitleOf;
    if Dispatch(before, calls[i], py).0.ok && Dispatch(later, calls[j], py).0.ok {
      NoteIsAnswered(before, calls[i], py);
      NoteIsAnswered(later, calls[j], py);
      DifferentNumbers(|before.services.notes| + 1, |later.services.notes| + 1);
    }
  }

  lemma DifferentNumbers(m: nat, n: nat)
    requires m != n
    ensures "note-" + Decimal(m) != "note-" + Decimal(n)
  {
    hide Decimal;
    if "note-" + Decimal(m) == "note-" + Decimal(n) {
      assert ("note-" + Decimal(m))[5..] == Decimal(m) && ("note-" + Decimal(n))[5..] == Decimal(n);
      DecimalIsInjective(m, n);
    }
  }

  // ---------------------------------------------------------------------
  // Exactly which calls are gated
  // ---------------------------------------------------------------------

  /** Mail in bulk, the oracle, and every change of a calendar. */
  ghost predicate Mutates(c: Call) {
    || c.name == "bulk_email" || c.name == "oracle_control"
    || (c.name == "manage_calendar" && "action" in c.args
        && var action := Lower(c.args["action"].text); action == "create" || action == "update" || action == "delete")
  }

  /** An approval that is more than white space. */
  ghost predicate CarriesApproval(args: Args) {
    "approval" in args && exists c :: c in args["approval"].text && !IsSpace(c)
  }

  lemma MutationsNeedApproval(c: Call)
    ensures NeedsApproval(c.name, c.args) <==> Mutates(c)
  {
    hide Lower;
    var empty := Lower("");
    assert |empty| == 0 by { LowerOfNothing(); }
  }

  lemma LowerOfNothing()
    ensures Lower("") == ""
  {
  }

  lemma ApprovalIsText(args: Args)
    ensures Approved(args) <==> CarriesApproval(args)
  {
    var text := Arg(args, "approval");
    StripShape(text);
    hide IsSpace, Strip;
    var a, b :| AllSpace(a) && AllSpace(b) && text == a + Strip(text) + b;
    if Strip(text) != "" {
      assert Strip(text)[0] in text;
    } else {
      assert text == a + b;
      assert forall c :: c in a ==> IsSpace(c);
      assert forall c :: c in b ==> IsSpace(c);
    }
  }

  /** In every replay a call is gated exactly when it mutates without an approval
      and its tool is there, does not fail, and is past its flaky phase; and no
      mutation is ok without an approval. */
  lemma GatedExactly(w: World, calls: seq<Call>, py: Foreign, i: nat)
    requires i < |calls| && w.flakyCounts == map[]
    ensures |Replayed(w, calls, py)| == |calls|
    ensures var (c, inv) := (calls[i], Replayed(w, calls, py)[i]);
            && (inv.gated <==>
                  && Mutates(c) && !CarriesApproval(c.args)
                  && c.name !in w.unavailable && c.name !in w.failing
                  && !(c.name in w.flaky && Times(calls[..i], c.name) < w.flaky[c.name].times))
            && (inv.ok && Mutates(c) ==> CarriesApproval(c.args))
  {
    var c := calls[i];
    var before := WorldAfter(w, calls[..i], py);
    ReplayKeepsData(w, calls, py);
    ReplayKeepsData(w, calls[..i], py);
    ReplayedAt(w, calls, py, i);
    MutationsNeedApproval(c);
    ApprovalIsText(c.args);
    if c.name in w.flaky && c.name !in w.unavailable {
      FlakyCounter(w, calls[..i], py, c.name);
    }
    DispatchGates(before, c, py);
    hide Dispatch, WorldAfter, Replayed, Mutates, CarriesApproval, NeedsApproval, Approved, Times;
  }

  lemma DispatchGates(w: World, c: Call, py: Foreign)
    ensures var o := Dispatch(w, c, py).0;
            && (o.gated <==> IsGated(c.name, c.args) && c.name !in w.unavailable && !FailsYet(w, c.name) && c.name !in w.failing)
            && (o.ok ==> !IsGated(c.name, c.args))
  {
    hide IsGated, FailsYet, Answer, FlakyError, AfterNote;
  }

  // ---------------------------------------------------------------------
  // What is read
  // ---------------------------------------------------------------------

  /** The part of the path behind its last slash. */
  ghost predicate NamesFile(path: string, name: string) {
    '/' !in name && (path == name || exists dir: string :: path == dir + "/" + name)
  }

  lemma {:induction false} BaseNameNames(path: string)
    ensures NamesFile(path, BaseName(path))
  {
    if path == "" {
    } else if path[|path| - 1] == '/' {
      assert path == path[..|path| - 1] + "/" + "";
    } else {
      var (front, name) := (path[..|path| - 1], BaseName(path[..|path| - 1]));
      BaseNameNames(front);
      if front != name {
        var dir: string :| front == dir + "/" + name;
        assert path == dir + "/" + (name + [path[|path| - 1]]);
      } else {
        assert path == name + [path[|path| - 1]];
      }
    }
  }

  lemma {:induction false} FileTextIsStored(files: seq<File>, name: string)
    ensures match FileText(files, name)
            case Some(text) => File(name, text) in files
            case None => forall f :: f in files ==> f.name != name
  {
    if files != [] {
      FileTextIsStored(files[1..], name);
      assert files == [files[0]] + files[1..];
    }
  }

  /** In every replay a call of read_file that gets through answers with the whole
      text of the file that the path names, and fails exactly when there is none. */
  lemma ReadsTheFile(w: World, calls: seq<Call>, py: Foreign, i: nat)
    requires i < |calls| && calls[i].name == "read_file"
    requires "path" in calls[i].args && calls[i].args["path"].text != ""
    requires "read_file" !in w.unavailable && "read_file" !in w.failing && "read_file" !in w.flaky
    ensures |Replayed(w, calls, py)| == |calls|
    ensures var (path, inv) := (calls[i].args["path"].text, Replayed(w, calls, py)[i]);
            && (inv.ok <==> exists f :: f in w.services.files && NamesFile(path, f.name))
            && (inv.ok ==> exists f :: f in w.services.files && NamesFile(path, f.name)
                                       && Get(inv.result, "content") == Some(Str(f.text))
                                       && Get(inv.result, "size") == Some(Int(|f.text|)))
  {
    ReplayKeepsData(w, calls, py);
    ReplayKeepsData(w, calls[..i], py);
    ReplayedAt(w, calls, py, i);
    var c := calls[i];
    var (path, files) := (c.args["path"].text, w.services.files);
    var before := WorldAfter(w, calls[..i], py);
    ReadIsAnswered(before, c, py);
    hide Dispatch, WorldAfter, Replayed;
    FileIsRead(files, path);
  }

  lemma ReadIsAnswered(w: World, c: Call, py: Foreign)
    requires c.name == "read_file" && "path" in c.args && c.args["path"].text != ""
    requires "read_file" !in w.unavailable && "read_file" !in w.failing && "read_file" !in w.flaky
    ensures Dispatch(w, c, py).0 == ToOutcome(ReadFile(w.services.files, c.args["path"].text))
  {
    hide ReadFile, Failed, Missing;
  }

  lemma FileIsRead(files: seq<File>, path: string)
    ensures var reply := ReadFile(files, path);
            && (reply.Ok? <==> exists f :: f in files && NamesFile(path, f.name))
            && (reply.Ok? ==> exists f :: f in files && NamesFile(path, f.name)
                                       && Get(reply.value, "content") == Some(Str(f.text))
                                       && Get(reply.value, "size") == Some(Int(|f.text|)))
  {
    var name := BaseName(path);
    BaseNameNames(path);
    FileTextIsStored(files, name);
    hide NamesFile, BaseName, FileText, Get;
    forall f | f in files && NamesFile(path, f.name)
      ensures f.name == name
    {
      NamesOne(path, f.name, name);
    }
    if FileText(files, name).Some? {
      var text := FileText(files, name).value;
      ReadFields(text, name);
      assert File(name, text) in files && NamesFile(path, File(name, text).name);
    }
  }

  lemma ReadFields(text: string, name: string)
    ensures var result := Obj([("content", Str(text)), ("size", Int(|text|)), ("path", Str(name))]);
            Get(result, "content") == Some(Str(text)) && Get(result, "size") == Some(Int(|text|))
  {
    assert Field([("size", Int(|text|)), ("path", Str(name))], "size") == Some(Int(|text|));
  }

  lemma BehindLastSlash(path: string, name: string)
    requires NamesFile(path, name)
    ensures |name| <= |path| && name == path[|path| - |name|..]
    ensures forall k :: |path| - |name| <= k < |path| ==> path[k] != '/'
    ensures |name| < |path| ==> path[|path| - |name| - 1] == '/'
  {
    assert name == path[|path| - |name|..];
    assert forall k :: |path| - |name| <= k < |path| ==> path[k] == name[k - (|path| - |name|)];
  }

  lemma NamesOne(path: string, a: string, b: string)
    requires NamesFile(path, a) && NamesFile(path, b)
    ensures a == b
  {
    BehindLastSlash(path, a);
    BehindLastSlash(path, b);
    hide NamesFile;
    assert |a| == |b|;
  }

  // ---------------------------------------------------------------------
  // What a transcript is
  // ---------------------------------------------------------------------

  /** The calls come in the order of the turns, and within a turn in its order. */
  lemma {:induction false} CallsInOrder(front: seq<Turn>, back: seq<Turn>)
    ensures AllCalls(front + back) == AllCalls(front) + AllCalls(back)
    ensures forall t: Turn :: AllCalls([t]) == t.blocks
    decreases |back|
  {
    forall t: Turn
      ensures AllCalls([t]) == t.blocks
    {
      assert [t][..0] == [];
    }
    if back == [] {
      assert front + back == front;
    } else {
      CallsInOrder(front, back[..|back| - 1]);
      assert (front + back)[..|front + back| - 1] == front + back[..|back| - 1];
    }
  }

  /** The answer is the prose, without white space around it, of the last turn that
      has any, or nothing. */
  lemma {:induction false} AnswerIsLastProse(turns: seq<Turn>)
    ensures (forall t :: t in turns ==> AllSpace(t.prose)) ==> FinalAnswer(turns) == ""
    ensures forall i :: 0 <= i < |turns| && !AllSpace(turns[i].prose) && (forall j :: i < j < |turns| ==> AllSpace(turns[j].prose)) ==>
              FinalAnswer(turns) == Strip(turns[i].prose)
  {
    hide Strip, AllSpace;
    if turns != [] {
      var front, last := turns[..|turns| - 1], turns[|turns| - 1];
      assert turns == front + [last];
      AnswerIsLastProse(front);
      BlankIsSpace(last.prose);
      assert last == turns[|front|];
      assert forall i :: 0 <= i < |front| ==> turns[i] == front[i];
    }
  }

  lemma BlankIsSpace(s: string)
    ensures Strip(s) == "" <==> AllSpace(s)
  {
    StripShape(s);
    hide IsSpace, Strip;
    var a, b :| AllSpace(a) && AllSpace(b) && s == a + Strip(s) + b;
    if Strip(s) == "" {
      assert s == a + b;
    } else {
      assert s[|a|] == Strip(s)[0];
    }
  }
}
