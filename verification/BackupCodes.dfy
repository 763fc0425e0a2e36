/** Backup codes of the second factor (core/auth.py): one login at a time, and
    with the look-up outside the lock, in any interleaving. */
module BackupCodes {
  import opened Options

  type Code = string

  /** `list.remove`: without the first occurrence. */
  function Remove(codes: seq<Code>, c: Code): seq<Code>
    requires c in codes
  {
    if codes[0] == c then codes[1..] else [codes[0]] + Remove(codes[1..], c)
  }

  lemma {:induction false} RemoveTakesOne(codes: seq<Code>, c: Code)
    requires c in codes
    ensures multiset(Remove(codes, c)) == multiset(codes) - multiset{c}
  {
    assert codes == [codes[0]] + codes[1..];
    if codes[0] != c {
      RemoveTakesOne(codes[1..], c);
    }
  }

  /** The fields of a user's record that `totp_verify` reads and writes. */
  class SecondFactor {
    var enabled: bool
    var secret: Option<string>
    var codes: seq<Code>

    /** `current` says whether the code is the secret's current one. A missing
        secret fails closed; a backup code is consumed by its use. */
    method TotpVerify(code: Code, current: bool) returns (ok: bool)
      modifies this`codes
      ensures ok <==> !enabled || (secret.Some? && (code in old(codes) || current))
      ensures multiset(codes) ==
              if enabled && secret.Some? && code in old(codes) then multiset(old(codes)) - multiset{code}
              else multiset(old(codes))
    {
      if !enabled {
        return true;
      }
      if secret.None? {
        return false;
      }
      if code in codes {
        RemoveTakesOne(codes, code);
        codes := Remove(codes, code);
        return true;
      }
      return current;
    }
  }

  // ---------------------------------------------------------------------
  // Interleaved logins
  // ---------------------------------------------------------------------

  /** Each time the factor is enabled there is a new list object. */
  type List = nat

  /** A copy of a code in a list; a login holds one between its look-up and its
      section under the lock. */
  type Entry = (List, Code)

  function Entries(list: List, codes: seq<Code>): multiset<Entry> {
    if codes == [] then multiset{} else Entries(list, codes[1..]) + multiset{(list, codes[0])}
  }

  /** `made` and `left` are the entries of all lists so far, at first and now;
      `stored` is the list in the record of the user, who may be `present` under
      the name or not; `admitted` holds the entries that let a login in, and
      `lost` those that were taken while the record was gone. */
  datatype State = State(
    used: set<List>, made: multiset<Entry>, left: multiset<Entry>,
    stored: Option<List>, enabled: bool, present: bool,
    flying: map<nat, Entry>, admitted: multiset<Entry>, lost: multiset<Entry>)

  /** A record that appears again is the old one, renamed back and `kept`, or a
      new user's, who has no second factor. */
  datatype Step =
    | Enable(list: List, codes: seq<Code>)
    | Disable
    | Vanish
    | Appear(kept: bool)
    | LookUp(login: nat, code: Code)
    | Consume(login: nat)

  /** A login whose entry has gone by the time of its removal raises, and is not
      let in. */
  function Do(s: State, step: Step): State {
    match step
    case Enable(list, codes) =>
      if s.present && list !in s.used then
        s.(used := s.used + {list}, made := s.made + Entries(list, codes), left := s.left + Entries(list, codes),
           stored := Some(list), enabled := true)
      else s
    case Disable => if s.present then s.(stored := None, enabled := false) else s
    case Vanish => s.(present := false)
    case Appear(kept) => if kept then s.(present := true) else s.(present := true, stored := None, enabled := false)
    case LookUp(login, code) =>
      if s.present && s.enabled && s.stored.Some? && (s.stored.value, code) in s.left
      then s.(flying := s.flying[login := (s.stored.value, code)])
      else s
    case Consume(login) =>
      if login !in s.flying then s else
      var entry := s.flying[login];
      var landed := s.(flying := s.flying - {login});
      if entry !in s.left then landed else
      var taken := landed.(left := s.left - multiset{entry});
      if s.present then taken.(stored := Some(entry.0), admitted := s.admitted + multiset{entry})
      else taken.(lost := s.lost + multiset{entry})
  }

  function Exec(s: State, steps: seq<Step>): State
    decreases |steps|
  {
    if steps == [] then s else Exec(Do(s, steps[0]), steps[1..])
  }

  const START := State({}, multiset{}, multiset{}, None, false, true, map[], multiset{}, multiset{})

  ghost predicate Conserved(s: State) {
    s.left + s.admitted + s.lost == s.made
  }

  lemma Moved(left: multiset<Entry>, a: multiset<Entry>, b: multiset<Entry>, e: Entry)
    requires e in left
    ensures (left - multiset{e}) + (a + multiset{e}) + b == left + a + b
    ensures (left - multiset{e}) + a + (b + multiset{e}) == left + a + b
  {
  }

  lemma DoConserves(s: State, step: Step)
    requires Conserved(s)
    ensures Conserved(Do(s, step))
  {
    match step
    case Enable(list, codes) =>
      hide Entries;
      var n := Entries(list, codes);
      assert (s.left + n) + s.admitted + s.lost == (s.left + s.admitted + s.lost) + n;
    case Consume(login) =>
      if login in s.flying && s.flying[login] in s.left {
        Moved(s.left, s.admitted, s.lost, s.flying[login]);
      }
    case _ =>
  }

  /** Over every interleaving the entries that are left, that let a login in and
      that were lost are exactly those that were made. */
  lemma {:induction false} CodesAreConserved(s: State, steps: seq<Step>)
    requires Conserved(s)
    ensures Conserved(Exec(s, steps))
    decreases |steps|
  {
    hide Do, Conserved;
    if steps != [] {
      DoConserves(s, steps[0]);
      CodesAreConserved(Do(s, steps[0]), steps[1..]);
    }
  }

  /** So a code that was made once in a list lets at most one login in, however
      many look it up at the same time, and none while it is still there. */
  lemma OneLoginPerCode(steps: seq<Step>, entry: Entry)
    requires Exec(START, steps).made[entry] <= 1
    ensures var end := Exec(START, steps);
            end.admitted[entry] <= 1 && (entry in end.left ==> entry !in end.admitted)
  {
    CodesAreConserved(START, steps);
    hide Exec;
    var end := Exec(START, steps);
    assert end.made[entry] == end.left[entry] + end.admitted[entry] + end.lost[entry];
  }

  // ---------------------------------------------------------------------
  // Which list is stored
  // ---------------------------------------------------------------------

  /** Logins, and the record leaving its name and coming back; the second factor
      is neither enabled nor disabled. */
  predicate Quiet(steps: seq<Step>) {
    forall i :: 0 <= i < |steps| ==> Still(steps[i])
  }

  predicate Still(step: Step) {
    step.LookUp? || step.Consume? || step.Vanish? || step == Appear(true)
  }

  /** The list whose entry this step lets a login in with. */
  function Admitted(s: State, step: Step): Option<List> {
    if step.Consume? && step.login in s.flying && s.flying[step.login] in s.left && s.present
    then Some(s.flying[step.login].0) else None
  }

  function LastAdmitted(s: State, steps: seq<Step>): Option<List>
    decreases |steps|
  {
    if steps == [] then None else
    var later := LastAdmitted(Do(s, steps[0]), steps[1..]);
    if later.Some? then later else Admitted(s, steps[0])
  }

  /** While the factor stays enabled, the list that is stored at the end of a run is
      that of the last login that got in with a backup code, if there was one. */
  lemma {:induction false} StoredIsLastUsed(s: State, steps: seq<Step>)
    requires Quiet(steps)
    ensures Exec(s, steps).stored == if LastAdmitted(s, steps).Some? then LastAdmitted(s, steps) else s.stored
    decreases |steps|
  {
    if steps != [] {
      assert Still(steps[0]);
      assert forall i :: 0 <= i < |steps[1..]| ==> steps[1..][i] == steps[i + 1];
      StoredIsLastUsed(Do(s, steps[0]), steps[1..]);
    }
  }

  /** So after any run and an enabling of the factor, the new codes are stored at
      the end of what follows exactly when no login got in with a backup code, or
      the last that did used one of them. */
  lemma NewCodesStandExactly(before: seq<Step>, list: List, codes: seq<Code>, after: seq<Step>)
    requires Exec(START, before).present && list !in Exec(START, before).used && Quiet(after)
    ensures var s := Do(Exec(START, before), Enable(list, codes));
            Exec(s, after).stored == Some(list) <==>
            LastAdmitted(s, after) == None || LastAdmitted(s, after) == Some(list)
  {
    StoredIsLastUsed(Do(Exec(START, before), Enable(list, codes)), after);
    hide Exec, LastAdmitted, Entries;
  }

  /** No login in flight holds an entry of another list that is still there. */
  predicate NoneLate(s: State, list: List) {
    forall i :: i in s.flying ==> s.flying[i].0 == list || s.flying[i] !in s.left
  }

  lemma StepKeepsNoneLate(s: State, step: Step, list: List)
    requires s.stored == Some(list) && NoneLate(s, list) && Still(step)
    ensures Do(s, step).stored == Some(list) && NoneLate(Do(s, step), list)
  {
  }

  lemma {:induction false} NoneLateStays(s: State, steps: seq<Step>, list: List)
    requires s.stored == Some(list) && NoneLate(s, list) && Quiet(steps)
    ensures Exec(s, steps).stored == Some(list)
    decreases |steps|
  {
    hide Do, NoneLate;
    if steps != [] {
      assert Still(steps[0]);
      assert forall i :: 0 <= i < |steps[1..]| ==> steps[1..][i] == steps[i + 1];
      StepKeepsNoneLate(s, steps[0], list);
      NoneLateStays(Do(s, steps[0]), steps[1..], list);
    }
  }

  /** A stored list is safe from being replaced in every continuation exactly when
      no login from before holds an entry of another list that is still there. */
  lemma ListStaysExactly(s: State, list: List)
    requires s.stored == Some(list) && s.present
    ensures NoneLate(s, list) <==> forall steps :: Quiet(steps) ==> Exec(s, steps).stored == Some(list)
  {
    if NoneLate(s, list) {
      forall steps | Quiet(steps)
        ensures Exec(s, steps).stored == Some(list)
      {
        NoneLateStays(s, steps, list);
      }
    } else {
      var i :| i in s.flying && s.flying[i].0 != list && s.flying[i] in s.left;
      var steps := [Consume(i)];
      assert Quiet(steps) && Exec(Do(s, steps[0]), steps[1..]) == Do(s, steps[0]);
      assert Exec(s, steps).stored == Some(s.flying[i].0);
    }
  }

  /** The list is stored, or a login in flight holds an entry of it that is still there. */
  ghost predicate Open(s: State, list: List) {
    s.stored == Some(list) || exists i :: i in s.flying && s.flying[i] in s.left && s.flying[i].0 == list
  }

  lemma StepOpensNothing(s: State, step: Step, list: List)
    requires Still(step) && Open(Do(s, step), list)
    ensures Open(s, list)
  {
    var t := Do(s, step);
    if t.stored != Some(list) {
      var i :| i in t.flying && t.flying[i] in t.left && t.flying[i].0 == list;
      assert i in s.flying && s.flying[i] == t.flying[i];
    } else if s.stored != Some(list) {
      assert step.Consume? && s.flying[step.login] in s.left;
    }
  }

  lemma {:induction false} RunOpensNothing(s: State, steps: seq<Step>, list: List)
    requires Quiet(steps) && Open(Exec(s, steps), list)
    ensures Open(s, list)
    decreases |steps|
  {
    hide Do, Open;
    if steps != [] {
      assert Still(steps[0]);
      assert forall i :: 0 <= i < |steps[1..]| ==> steps[1..][i] == steps[i + 1];
      RunOpensNothing(Do(s, steps[0]), steps[1..], list);
      StepOpensNothing(s, steps[0], list);
    }
  }

  lemma ConsumeAlone(s: State, i: nat)
    requires s.present && i in s.flying && s.flying[i] in s.left
    ensures Quiet([Consume(i)]) && Exec(s, [Consume(i)]).stored == Some(s.flying[i].0)
  {
    assert Exec(Do(s, Consume(i)), []) == Do(s, Consume(i));
  }

  /** While the factor stays enabled, the lists that can come to be stored are
      exactly the stored one and those of which a login in flight holds an entry
      that is still there, however old they are. */
  lemma StoredListsExactly(s: State, list: List)
    requires s.present
    ensures (exists steps :: Quiet(steps) && Exec(s, steps).stored == Some(list)) <==> Open(s, list)
  {
    if s.stored == Some(list) {
      assert Quiet([]) && Exec(s, []).stored == Some(list);
    } else if Open(s, list) {
      var i :| i in s.flying && s.flying[i] in s.left && s.flying[i].0 == list;
      ConsumeAlone(s, i);
    }
    if exists steps :: Quiet(steps) && Exec(s, steps).stored == Some(list) {
      var steps :| Quiet(steps) && Exec(s, steps).stored == Some(list);
      RunOpensNothing(s, steps, list);
    }
  }

  /** Such logins are reached: one before a second enabling and one after it let
      the old list come back, and then the new one again. */
  lemma ListsAlternate(c: Code, e: Code)
    ensures var s := Do(Do(Do(Do(START, Enable(0, [c])), LookUp(0, c)), Enable(1, [e])), LookUp(1, e));
            && s.stored == Some(1) && Open(s, 0)
            && Do(s, Consume(0)).stored == Some(0) && Open(Do(s, Consume(0)), 1)
            && Do(Do(s, Consume(0)), Consume(1)).stored == Some(1)
  {
    hide Entries;
    EntriesHold(0, [c], c);
    EntriesHold(1, [e], e);
    var s1 := Do(START, Enable(0, [c]));
    assert (0, c) in s1.left && s1.stored == Some(0);
    var s2 := Do(s1, LookUp(0, c));
    assert s2 == s1.(flying := map[0 := (0, c)]);
    var s3 := Do(s2, Enable(1, [e]));
    assert (0, c) in s3.left && (1, e) in s3.left && s3.stored == Some(1) && s3.flying == s2.flying;
    var s4 := Do(s3, LookUp(1, e));
    assert s4 == s3.(flying := map[0 := (0, c), 1 := (1, e)]);
    assert s4.flying[0] in s4.left && s4.flying[1] in s4.left;
    var s5 := Do(s4, Consume(0));
    assert s5.flying[1] in s5.left;
  }

  lemma {:induction false} EntriesHold(list: List, codes: seq<Code>, c: Code)
    requires c in codes
    ensures (list, c) in Entries(list, codes)
  {
    if codes[0] != c {
      EntriesHold(list, codes[1..], c);
    }
  }

  // ---------------------------------------------------------------------
  // After the factor was disabled
  // ---------------------------------------------------------------------

  predicate NoEnable(steps: seq<Step>) {
    forall i :: 0 <= i < |steps| ==> !steps[i].Enable?
  }

  /** A login in flight holds the entry. */
  ghost predicate InFlight(s: State, e: Entry) {
    exists i :: i in s.flying && s.flying[i] == e
  }

  lemma StepWhileDisabled(s: State, step: Step, e: Entry)
    requires !s.enabled && !step.Enable?
    ensures var t := Do(s, step);
            && !t.enabled && (InFlight(t, e) ==> InFlight(s, e))
            && (t.admitted[e] > s.admitted[e] ==> InFlight(s, e))
  {
    var t := Do(s, step);
    if InFlight(t, e) {
      var i :| i in t.flying && t.flying[i] == e;
      assert i in s.flying && s.flying[i] == e;
    }
    if t.admitted[e] > s.admitted[e] {
      assert step.Consume? && step.login in s.flying && s.flying[step.login] == e;
    }
  }

  /** While the factor is disabled nobody begins a login with a backup code: the
      codes that are accepted are among those of logins that were in flight. */
  lemma {:induction false} DisabledAdmitsNobodyNew(s: State, steps: seq<Step>, e: Entry)
    requires !s.enabled && NoEnable(steps)
    ensures Exec(s, steps).admitted[e] > s.admitted[e] ==> InFlight(s, e)
    decreases |steps|
  {
    hide Do, InFlight;
    if steps != [] {
      assert !steps[0].Enable?;
      assert forall i :: 0 <= i < |steps[1..]| ==> steps[1..][i] == steps[i + 1];
      StepWhileDisabled(s, steps[0], e);
      DisabledAdmitsNobodyNew(Do(s, steps[0]), steps[1..], e);
    }
  }
}
