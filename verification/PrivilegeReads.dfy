/** `get_privileges` reads a user record without the config lock while
    `set_admin` and `set_privileges` write its fields one by one (core/auth.py).
    Here every read and every write of a field is a step of its own. User
    records are objects: a table maps names to references, renaming moves a
    reference and deleting drops it, and a reader keeps the one it found.

    Who asks for a change is not restricted, so the runs include all those in
    which the request is authorised. */
module PrivilegeReads {
  import opened Options
  import opened Privileges
  import opened AuthState

  type Ref = nat
  type Thread = nat

  /** The thread that holds the config lock, if any, and what it has left to write. */
  datatype Writer =
    | Idle
    | FlagSet(ref: Ref)                              // promoting: the stash is next
    | Stashed(ref: Ref)                              // promoting: the map is next
    | Popped(ref: Ref, popped: Option<PMap>)         // demoting: the map is next
    | Restored(ref: Ref)                             // demoting: the flag is next
    | Computed(ref: Ref, current: PMap)              // set_privileges: the map is next

  datatype Reader =
    | Found(found: Option<Ref>)                      // the flag is next
    | SawPlain(ref: Ref)                             // the map is next
    | Returned(result: PMap)

  datatype State = State(names: map<string, Ref>, heap: map<Ref, User>, writer: Writer, readers: map<Thread, Reader>)

  datatype Step =
    | SetFlag(name: string) | WriteStash | WriteAdminMap
    | PopStash(name: string) | WriteRestored | ClearFlag
    | Compute(name: string, edit: PMap) | WriteEdited
    | CreateUser(name: string, ref: Ref, hash: string, admin: bool)
    | DeleteUser(name: string)
    | RenameUser(name: string, newName: string)
    | Begin(thread: Thread, name: string) | ReadFlag(thread: Thread) | ReadMap(thread: Thread)

  function Stored(u: User): PMap {
    if u.privileges.Some? then u.privileges.value else map[]
  }

  ghost predicate Write(s: State, t: State, ref: Ref, u: User, next: Writer) {
    ref in s.heap && t == s.(heap := s.heap[ref := u], writer := next)
  }

  ghost predicate Next(s: State, step: Step, t: State) {
    match step
    case SetFlag(name) =>
      s.writer == Idle && name in s.names && s.names[name] in s.heap &&
      var u := s.heap[s.names[name]];
      !Admin(u) && Write(s, t, s.names[name], u.(isAdmin := Some(true)), FlagSet(s.names[name]))
    case WriteStash =>
      s.writer.FlagSet? && s.writer.ref in s.heap &&
      var u := s.heap[s.writer.ref];
      Write(s, t, s.writer.ref, u.(stash := Some(OrDefaults(u.privileges))), Stashed(s.writer.ref))
    case WriteAdminMap =>
      s.writer.Stashed? && s.writer.ref in s.heap &&
      Write(s, t, s.writer.ref, s.heap[s.writer.ref].(privileges := Some(AdminMap())), Idle)
    case PopStash(name) =>
      s.writer == Idle && name in s.names && s.names[name] in s.heap &&
      var u := s.heap[s.names[name]];
      Admin(u) && Write(s, t, s.names[name], u.(stash := None), Popped(s.names[name], u.stash))
    case WriteRestored =>
      s.writer.Popped? && s.writer.ref in s.heap &&
      Write(s, t, s.writer.ref, s.heap[s.writer.ref].(privileges := Some(OrDefaults(s.writer.popped))), Restored(s.writer.ref))
    case ClearFlag =>
      s.writer.Restored? && s.writer.ref in s.heap &&
      Write(s, t, s.writer.ref, s.heap[s.writer.ref].(isAdmin := Some(false)), Idle)
    case Compute(name, edit) =>
      s.writer == Idle && name in s.names && s.names[name] in s.heap &&
      var u := s.heap[s.names[name]];
      !Admin(u) && t == s.(writer := Computed(s.names[name], Edited(Effective(u), edit)))
    case WriteEdited =>
      s.writer.Computed? && s.writer.ref in s.heap &&
      Write(s, t, s.writer.ref, s.heap[s.writer.ref].(privileges := Some(s.writer.current)), Idle)
    case CreateUser(name, ref, hash, admin) =>
      s.writer == Idle && name !in s.names && ref !in s.heap &&
      t == s.(names := s.names[name := ref], heap := s.heap[ref := NewUser(hash, admin)])
    case DeleteUser(name) =>
      s.writer == Idle && name in s.names && t == s.(names := s.names - {name})
    case RenameUser(name, newName) =>
      s.writer == Idle && name in s.names && newName !in s.names &&
      t == s.(names := (s.names - {name})[newName := s.names[name]])
    case Begin(thread, name) =>
      (thread in s.readers ==> s.readers[thread].Returned?) &&
      t == s.(readers := s.readers[thread := Found(if name in s.names then Some(s.names[name]) else None)])
    case ReadFlag(thread) =>
      thread in s.readers && s.readers[thread].Found? &&
      var ref := s.readers[thread].found;
      (ref.Some? ==> ref.value in s.heap) &&
      t == s.(readers := s.readers[thread :=
        if ref == None then Returned(WithDefaults(map[]))
        else if Admin(s.heap[ref.value]) then Returned(AdminMap())
        else SawPlain(ref.value)])
    case ReadMap(thread) =>
      thread in s.readers && s.readers[thread].SawPlain? && s.readers[thread].ref in s.heap &&
      t == s.(readers := s.readers[thread := Returned(WithDefaults(Stored(s.heap[s.readers[thread].ref])))])
  }

  /** States and the steps between them. */
  ghost predicate IsRun(states: seq<State>, steps: seq<Step>) {
    && |states| == |steps| + 1
    && states[0].writer == Idle
    && (forall i :: 0 <= i < |steps| ==> Next(states[i], steps[i], states[i + 1]))
  }

  /** Records stay; the flag is set while a promotion or demotion is under way, and not during an edit. */
  ghost predicate Consistent(s: State) {
    && (s.writer != Idle ==> s.writer.ref in s.heap)
    && (s.writer.FlagSet? || s.writer.Stashed? || s.writer.Popped? || s.writer.Restored? ==> Admin(s.heap[s.writer.ref]))
    && (s.writer.Computed? ==> !Admin(s.heap[s.writer.ref]))
  }

  lemma NextKeepsConsistent(s: State, step: Step, t: State)
    requires Consistent(s) && Next(s, step, t)
    ensures Consistent(t) && s.heap.Keys <= t.heap.Keys
  {
    hide Defaults, AdminMap, OrDefaults, Edited, Effective;
  }

  lemma {:induction false} RunConsistent(states: seq<State>, steps: seq<Step>, n: nat)
    requires IsRun(states, steps) && n <= |steps|
    ensures Consistent(states[n])
  {
    hide Next;
    if n > 0 {
      RunConsistent(states, steps, n - 1);
      NextKeepsConsistent(states[n - 1], steps[n - 1], states[n]);
    }
  }

  /** The record `ref` had the effective map `p` at some instant from `a` to `b`. */
  ghost predicate Effected(states: seq<State>, ref: Ref, a: nat, b: nat, p: PMap) {
    exists k :: a <= k <= b < |states| && ref in states[k].heap && Effective(states[k].heap[ref]) == p
  }

  /** All maps that were effective from `a` to `b`. */
  ghost function Effects(states: seq<State>, ref: Ref, a: nat, b: nat): iset<PMap> {
    iset p | Effected(states, ref, a, b, p)
  }

  /** A missing or empty stored map means the same as the stash made of it. */
  lemma StashMeansTheSame(u: User)
    ensures WithDefaults(OrDefaults(u.privileges)) == WithDefaults(Stored(u))
    ensures OrDefaults(Some(OrDefaults(u.privileges))) == OrDefaults(u.privileges)
  {
    hide Defaults, AdminMap;
    AdminMapCoversDefaults();
    assert Defaults() + Defaults() == Defaults() == Defaults() + map[];
  }

  /** The admin map, stored by a promotion, is effective at that instant. */
  lemma AdminMapIsEffective(u: User)
    requires Admin(u)
    ensures Effective(u) == AdminMap() == WithDefaults(AdminMap())
  {
    hide Defaults, AdminMap;
    AdminMapCoversDefaults();
  }

  /** The map that a demotion will store, while the flag is set and it is known. */
  function Kept(s: State, ref: Ref): Option<PMap>
    requires ref in s.heap
  {
    if !Admin(s.heap[ref]) then None
    else if s.writer == Idle || s.writer.ref != ref || s.writer.Stashed? then Some(OrDefaults(s.heap[ref].stash))
    else if s.writer.Popped? then Some(OrDefaults(s.writer.popped))
    else None
  }

  /** What holds of a record that a reader saw without the flag: its stored map
      was effective since then, and so was the map that a demotion would restore. */
  ghost predicate Safe(s: State, ref: Ref, seen: iset<PMap>) {
    && ref in s.heap
    && WithDefaults(Stored(s.heap[ref])) in seen
    && (Kept(s, ref).Some? ==> WithDefaults(Kept(s, ref).value) in seen)
  }

  lemma SafeStep(s: State, step: Step, t: State, ref: Ref, seen: iset<PMap>)
    requires Consistent(s) && Next(s, step, t) && Safe(s, ref, seen)
    requires ref in t.heap ==> Effective(t.heap[ref]) in seen
    ensures Safe(t, ref, seen)
  {
    hide Defaults, AdminMap, OrDefaults, Edited, WithDefaults;
    StashMeansTheSame(s.heap[ref]);
    if Admin(s.heap[ref]) {
      AdminMapIsEffective(s.heap[ref]);
    }
  }

  lemma SafeMonotonic(s: State, ref: Ref, seen: iset<PMap>, more: iset<PMap>)
    requires Safe(s, ref, seen) && seen <= more
    ensures Safe(s, ref, more)
  {
  }

  /** After a reader saw the record without the flag, its stored map is always
      one that has been effective since. */
  lemma {:induction false} SafeThroughout(states: seq<State>, steps: seq<Step>, ref: Ref, a: nat, n: nat)
    requires IsRun(states, steps) && a <= n <= |steps|
    requires ref in states[a].heap && !Admin(states[a].heap[ref])
    ensures Safe(states[n], ref, Effects(states, ref, a, n))
  {
    hide Next, Defaults, AdminMap, WithDefaults, Consistent;
    if n == a {
      assert Effected(states, ref, a, a, Effective(states[a].heap[ref]));
    } else {
      SafeThroughout(states, steps, ref, a, n - 1);
      RunConsistent(states, steps, n - 1);
      EffectsGrow(states, ref, a, n - 1);
      SafeMonotonic(states[n - 1], ref, Effects(states, ref, a, n - 1), Effects(states, ref, a, n));
      SafeStep(states[n - 1], steps[n - 1], states[n], ref, Effects(states, ref, a, n));
    }
  }

  lemma EffectsGrow(states: seq<State>, ref: Ref, a: nat, n: nat)
    requires a <= n && n + 1 < |states|
    ensures Effects(states, ref, a, n) <= Effects(states, ref, a, n + 1)
    ensures ref in states[n + 1].heap ==> Effective(states[n + 1].heap[ref]) in Effects(states, ref, a, n + 1)
  {
    forall p | p in Effects(states, ref, a, n)
      ensures p in Effects(states, ref, a, n + 1)
    {
      var k :| a <= k <= n < |states| && ref in states[k].heap && Effective(states[k].heap[ref]) == p;
    }
  }

  /** A call of `get_privileges(name)` by `thread`: begun by step `i`, returned by step `j`. */
  ghost predicate IsCall(states: seq<State>, steps: seq<Step>, thread: Thread, name: string, i: nat, j: nat) {
    && IsRun(states, steps)
    && i < j < |steps|
    && steps[i] == Begin(thread, name)
    && (forall k :: i < k <= j ==> thread in states[k].readers && !states[k].readers[thread].Returned?)
    && thread in states[j + 1].readers && states[j + 1].readers[thread].Returned?
  }

  /** Until it returns, a call keeps the reference it found; once it saw the
      record without the flag, there was such an instant. */
  lemma {:induction false} CallKeepsRef(states: seq<State>, steps: seq<Step>, thread: Thread, name: string, i: nat, j: nat, k: nat)
    requires IsCall(states, steps, thread, name, i, j) && i < k <= j
    ensures var ref := if name in states[i].names then Some(states[i].names[name]) else None;
            var r := states[k].readers[thread];
            || r == Found(ref)
            || (ref.Some? && r == SawPlain(ref.value) &&
                exists a :: i < a <= k && ref.value in states[a].heap && !Admin(states[a].heap[ref.value]))
  {
    hide Defaults, AdminMap, OrDefaults, Edited, Effective, WithDefaults;
    assert Next(states[k - 1], steps[k - 1], states[k]);
    if k > i + 1 {
      CallKeepsRef(states, steps, thread, name, i, j, k - 1);
      assert thread in states[k - 1].readers && !states[k - 1].readers[thread].Returned?;
      var r := states[k - 1].readers[thread];
      if r.Found? && states[k].readers[thread].SawPlain? {
        assert states[k].heap == states[k - 1].heap;
      }
    }
  }

  /** The step with which a call returns. */
  lemma LastRead(s: State, step: Step, t: State, thread: Thread)
    requires Next(s, step, t) && thread in s.readers && !s.readers[thread].Returned?
    requires thread in t.readers && t.readers[thread].Returned?
    ensures match s.readers[thread]
            case Found(None) => t.readers[thread].result == WithDefaults(map[])
            case Found(Some(ref)) => ref in s.heap && Admin(s.heap[ref]) && t.readers[thread].result == AdminMap()
            case SawPlain(ref) => ref in s.heap && t.readers[thread].result == WithDefaults(Stored(s.heap[ref]))
            case _ => true
  {
    hide Defaults, AdminMap, OrDefaults, Edited, Effective, WithDefaults;
  }

  /** Lock-free reads are linearizable: what a call returns was the effective
      map, at some instant of the call, of the record that had the name when
      the call began; for a missing name it is the map of a missing user. */
  lemma ReadsAreLinearizable(states: seq<State>, steps: seq<Step>, thread: Thread, name: string, i: nat, j: nat)
    requires IsCall(states, steps, thread, name, i, j)
    ensures var result := states[j + 1].readers[thread].result;
            if name in states[i].names then Effected(states, states[i].names[name], i, j, result)
            else result == WithDefaults(map[])
  {
    assert Next(states[j], steps[j], states[j + 1]);
    CallKeepsRef(states, steps, thread, name, i, j, j);
    var r := states[j].readers[thread];
    assert thread in states[j].readers && !r.Returned?;
    LastRead(states[j], steps[j], states[j + 1], thread);
    hide Next, Defaults, AdminMap, OrDefaults, Edited, WithDefaults;
    if name in states[i].names {
      var ref := states[i].names[name];
      if r.SawPlain? {
        var a :| i < a <= j && ref in states[a].heap && !Admin(states[a].heap[ref]);
        SafeThroughout(states, steps, ref, a, j);
        var p := WithDefaults(Stored(states[j].heap[ref]));
        var k :| a <= k <= j < |states| && ref in states[k].heap && Effective(states[k].heap[ref]) == p;
      } else {
        AdminMapIsEffective(states[j].heap[ref]);
      }
    }
  }

  /** A demotion of the record `ref` without a stash, from its first write at step
      `p` to its last at step `c`. */
  ghost predicate IsBareDemotion(states: seq<State>, steps: seq<Step>, ref: Ref, p: nat, c: nat) {
    && IsRun(states, steps) && p < c < |steps|
    && steps[p].PopStash? && steps[p].name in states[p].names && states[p].names[steps[p].name] == ref
    && ref in states[p].heap && states[p].heap[ref].stash == None
    && steps[c] == ClearFlag && forall k :: p < k < c ==> steps[k] != ClearFlag
  }

  /** Until then the demotion has the lock, and has restored the defaults or not yet. */
  lemma {:induction false} DemotionUnderWay(states: seq<State>, steps: seq<Step>, ref: Ref, p: nat, c: nat, k: nat)
    requires IsBareDemotion(states, steps, ref, p, c) && p < k <= c
    ensures ref in states[k].heap
    ensures || states[k].writer == Popped(ref, None)
            || (states[k].writer == Restored(ref) && states[k].heap[ref].privileges == Some(Defaults()))
  {
    hide Defaults, AdminMap, Edited, Effective, WithDefaults;
    assert Next(states[k - 1], steps[k - 1], states[k]);
    if k > p + 1 {
      DemotionUnderWay(states, steps, ref, p, c, k - 1);
    }
  }

  /** Once an administrator without a stash is demoted, every call that begins
      after the last write and returns before the record is written again returns
      the defaults, and so never the stored admin map. */
  lemma NoLeakAfterDemotion(states: seq<State>, steps: seq<Step>, ref: Ref, p: nat, c: nat,
                            thread: Thread, name: string, i: nat, j: nat)
    requires IsBareDemotion(states, steps, ref, p, c)
    requires IsCall(states, steps, thread, name, i, j) && c < i
    requires name in states[i].names && states[i].names[name] == ref
    requires forall k :: c < k <= j && ref in states[k].heap && ref in states[c + 1].heap ==>
               states[k].heap[ref] == states[c + 1].heap[ref]
    ensures states[j + 1].readers[thread].result == Defaults() != AdminMap()
  {
    hide Defaults, AdminMap, WithDefaults, Edited;
    DemotionUnderWay(states, steps, ref, p, c, c);
    assert Next(states[c], steps[c], states[c + 1]);
    var u := states[c + 1].heap[ref];
    assert u.isAdmin == Some(false) && u.privileges == Some(Defaults());
    AdminMapCoversDefaults();
    assert WithDefaults(Defaults()) == Defaults() by { DefaultsAreFull(); }
    assert Effective(u) == Defaults();
    hide Next, Effective;
    ReadsAreLinearizable(states, steps, thread, name, i, j);
  }

  lemma DefaultsAreFull()
    ensures WithDefaults(Defaults()) == Defaults()
  {
    hide Defaults;
  }

  /** The single writes of a promotion add up to the operation on the table. */
  lemma PromotionWritesAddUp(s: State, s1: State, s2: State, t: State, name: string)
    requires Next(s, SetFlag(name), s1) && Next(s1, WriteStash, s2) && Next(s2, WriteAdminMap, t)
    ensures t == s.(heap := s.heap[s.names[name] := Promoted(s.heap[s.names[name]])])
  {
    hide Defaults, AdminMap;
  }

  lemma DemotionWritesAddUp(s: State, s1: State, s2: State, t: State, name: string)
    requires Next(s, PopStash(name), s1) && Next(s1, WriteRestored, s2) && Next(s2, ClearFlag, t)
    ensures t == s.(heap := s.heap[s.names[name] := Demoted(s.heap[s.names[name]])])
  {
    hide Defaults, AdminMap;
  }

  /** So do those of an edit of a plain account. */
  lemma EditWritesAddUp(s: State, s1: State, t: State, name: string, edit: PMap)
    requires Next(s, Compute(name, edit), s1) && Next(s1, WriteEdited, t)
    ensures var u := s.heap[s.names[name]];
            t == s.(heap := s.heap[s.names[name] := u.(privileges := Some(Edited(Effective(u), edit)))])
  {
    hide Defaults, AdminMap, Edited, Effective;
  }

  /** The user table that the names and records make up. */
  function Table(s: State): Users {
    map name | name in s.names && s.names[name] in s.heap :: s.heap[s.names[name]]
  }

  ghost predicate OneOwner(s: State) {
    && (forall name :: name in s.names ==> s.names[name] in s.heap)
    && (forall a, b :: a in s.names && b in s.names && s.names[a] == s.names[b] ==> a == b)
  }

  /** And the steps that change names are the operations on the table. */
  lemma NamesChangeTable(s: State, step: Step, t: State)
    requires OneOwner(s) && Next(s, step, t) && (step.CreateUser? || step.DeleteUser? || step.RenameUser?)
    ensures OneOwner(t)
    ensures match step
            case CreateUser(name, _, hash, admin) => Table(t) == Table(s)[name := NewUser(hash, admin)]
            case DeleteUser(name) => Table(t) == Table(s) - {name}
            case RenameUser(name, newName) => Table(t) == (Table(s) - {name})[newName := Table(s)[name]]
            case _ => true
  {
    hide NewUser;
  }
}
