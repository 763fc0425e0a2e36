/** Sessions under interleaving (core/auth.py): each critical section of
    `delete_user`, `rename_user`, `create_session_trusted` and the lookups is
    one step. Deleting and renaming have two sections, one under the config
    lock and a later one under the sessions lock; other steps may come between.
    A step whose guard fails changes nothing. */
module SessionSafety {
  import opened Options
  import opened Text
  import opened AuthState
  import opened AuthSessions

  /** `issued` records every token with the expiry it was issued with; `purges`
      and `moves` hold the second sections that are still to come. */
  datatype State = State(
    users: Users,
    sessions: Sessions,
    now: int,
    issued: map<string, int>,
    purges: multiset<string>,
    moves: multiset<(string, string)>)

  datatype Step =
    | Config(op: Op)
    | DeleteSection(name: string, who: string, tokensRevoked: bool)
    | PurgeSection(name: string)
    | RenameSection(name: string, newName: string, who: string)
    | MoveSection(o: string, n: string)
    | Issue(name: string, token: string)
    | Lookup(token: string)
    | Revoke(token: string)
    | RevokeAll(name: string, spared: Option<string>)
    | Clock(now: int)

  function Do(s: State, step: Step): State {
    match step
    case Config(op) =>
      if op.OpDelete? || op.OpRename? then s else s.(users := Apply(s.users, op))
    case DeleteSection(name, who, revoked) =>
      if CanDelete(s.users, name, who, revoked) then
        s.(users := Delete(s.users, name, who, revoked), purges := s.purges + multiset{Normalize(name)})
      else s
    case PurgeSection(name) =>
      if name in s.purges then
        s.(sessions := Purged(s.sessions, name, None), purges := s.purges - multiset{name})
      else s
    case RenameSection(name, newName, who) =>
      if CanRename(s.users, name, newName, who) then
        s.(users := Rename(s.users, name, newName, who),
           moves := s.moves + multiset{(Normalize(name), Normalize(newName))})
      else s
    case MoveSection(o, n) =>
      if (o, n) in s.moves then
        s.(sessions := Moved(s.sessions, o, n), moves := s.moves - multiset{(o, n)})
      else s
    case Issue(name, token) =>
      if Normalize(name) in s.users && token !in s.issued then
        s.(sessions := s.sessions[token := Session(Normalize(name), s.now + TOKEN_TTL)],
           issued := s.issued[token := s.now + TOKEN_TTL])
      else s
    case Lookup(token) => s.(sessions := AfterLookup(s.users, s.sessions, Some(token), s.now))
    case Revoke(token) => s.(sessions := s.sessions - {token})
    case RevokeAll(name, spared) => s.(sessions := Purged(s.sessions, Normalize(name), spared))
    case Clock(now) => s.(now := now)
  }

  function Exec(s: State, steps: seq<Step>): State
    decreases |steps|
  {
    if steps == [] then s else Exec(Do(s, steps[0]), steps[1..])
  }

  /** Who the token stands for in `s`. */
  function Holder(s: State, token: string): Option<string> {
    Resolve(s.users, s.sessions, Some(token), s.now)
  }

  predicate OwnSession(s: State, t: string)
    requires t in s.sessions
  {
    && t in s.issued && s.sessions[t].expiry == s.issued[t]
    && Normalize(s.sessions[t].username) == s.sessions[t].username
  }

  predicate GoodMove(m: (string, string)) {
    Normalize(m.0) == m.0 && Normalize(m.1) == m.1
  }

  /** Sessions are issued ones with their own expiry and a normalised name. */
  ghost predicate Consistent(s: State) {
    && (forall t :: t in s.sessions ==> OwnSession(s, t))
    && (forall m :: m in s.moves ==> GoodMove(m))
  }

  lemma DoKeepsMoves(s: State, step: Step)
    requires forall m :: m in s.moves ==> GoodMove(m)
    ensures forall m :: m in Do(s, step).moves ==> GoodMove(m)
    ensures forall t :: t in s.issued ==> t in Do(s, step).issued && Do(s, step).issued[t] == s.issued[t]
  {
    IssuedGrows(s, step);
    if step.RenameSection? {
      NormalizeIdempotent(step.name);
      NormalizeIdempotent(step.newName);
      hide Normalize, CanRename, Rename;
    } else {
      MovesShrink(s, step);
      hide Do, GoodMove;
    }
  }

  lemma IssuedGrows(s: State, step: Step)
    ensures forall t :: t in s.issued ==> t in Do(s, step).issued && Do(s, step).issued[t] == s.issued[t]
  {
    hide Normalize, Apply, CanRename, CanDelete, Rename, Delete, Purged, Moved, AfterLookup;
  }

  /** A session after a step is an unchanged one, a moved one or a new one. */
  lemma SessionOrigin(s: State, step: Step, t: string)
    requires t in Do(s, step).sessions
    ensures var now := Do(s, step).sessions[t];
            || (t in s.sessions && now == s.sessions[t])
            || (step.MoveSection? && (step.o, step.n) in s.moves && t in s.sessions
                && Normalize(s.sessions[t].username) == step.o && now == Session(step.n, s.sessions[t].expiry))
            || (step.Issue? && t !in s.issued && t in Do(s, step).issued && now == Session(Normalize(step.name), Do(s, step).issued[t]))
  {
    hide Normalize, Apply, CanRename, CanDelete, Rename, Delete;
  }

  lemma DoKeepsOwn(s: State, step: Step, t: string)
    requires Consistent(s) && t in Do(s, step).sessions
    ensures OwnSession(Do(s, step), t)
  {
    DoKeepsMoves(s, step);
    SessionOrigin(s, step, t);
    if step.Issue? {
      NormalizeIdempotent(step.name);
    }
    hide Normalize, Do;
    assert t in s.sessions ==> OwnSession(s, t);
    if step.MoveSection? && (step.o, step.n) in s.moves {
      assert GoodMove((step.o, step.n));
    }
  }

  lemma DoKeepsConsistent(s: State, step: Step)
    requires Consistent(s)
    ensures Consistent(Do(s, step)) && s.issued.Keys <= Do(s, step).issued.Keys
    ensures forall t :: t in s.issued ==> Do(s, step).issued[t] == s.issued[t]
  {
    DoKeepsMoves(s, step);
    hide Do, OwnSession, GoodMove;
    forall t | t in Do(s, step).sessions
      ensures OwnSession(Do(s, step), t)
    {
      DoKeepsOwn(s, step, t);
    }
  }

  lemma {:induction false} ExecKeepsConsistent(s: State, steps: seq<Step>)
    requires Consistent(s)
    ensures Consistent(Exec(s, steps))
    ensures forall t :: t in s.issued ==> t in Exec(s, steps).issued && Exec(s, steps).issued[t] == s.issued[t]
    decreases |steps|
  {
    hide Consistent, Do;
    if steps != [] {
      DoKeepsConsistent(s, steps[0]);
      ExecKeepsConsistent(Do(s, steps[0]), steps[1..]);
    }
  }

  /** At every point of every run: a token that stands for someone was issued,
      its lifetime from then is not over, and the user exists. */
  lemma HoldersAreCurrent(s: State, steps: seq<Step>, token: string)
    requires Consistent(s)
    ensures var t := Exec(s, steps); Holder(t, token).Some? ==>
              token in t.issued && t.now <= t.issued[token] && Holder(t, token).value in t.users
  {
    ExecKeepsConsistent(s, steps);
    hide Exec, Normalize;
  }

  // ---------------------------------------------------------------------
  // Dead tokens
  // ---------------------------------------------------------------------

  lemma DoKeepsDead(s: State, step: Step, token: string)
    requires token in s.issued && token !in s.sessions
    ensures token in Do(s, step).issued && token !in Do(s, step).sessions
  {
    hide Normalize, Apply;
  }

  lemma {:induction false} DeadStaysDead(s: State, steps: seq<Step>, token: string)
    requires token in s.issued && token !in s.sessions
    ensures token !in Exec(s, steps).sessions && Holder(Exec(s, steps), token) == None
    decreases |steps|
  {
    hide Do;
    if steps != [] {
      DoKeepsDead(s, steps[0], token);
      DeadStaysDead(Do(s, steps[0]), steps[1..], token);
    }
  }

  /** Whatever names the deleted user when the purge runs is dead for good,
      renames afterwards included. */
  lemma PurgeKills(s: State, name: string, token: string, after: seq<Step>)
    requires Consistent(s) && name in s.purges
    requires token in s.sessions && s.sessions[token].username == name
    ensures Holder(Exec(Do(s, PurgeSection(name)), after), token) == None
  {
    DeadStaysDead(Do(s, PurgeSection(name)), after, token);
  }

  lemma RevokeSteps(s: State, name: string, token: string, spared: Option<string>)
    requires token in s.sessions
    ensures token !in Do(s, Revoke(token)).sessions && Do(s, Revoke(token)).issued == s.issued
    ensures var t := Do(s, RevokeAll(name, spared));
            && t.issued == s.issued
            && (token in t.sessions <==> s.sessions[token].username != Normalize(name) || spared == Some(token))
            && (token in t.sessions ==> t.sessions[token] == s.sessions[token])
  {
    hide Normalize;
  }

  /** A revoked token, and every token of a user whose sessions are revoked but the
      spared one, is dead for good; the spared one is not touched. */
  lemma RevokingKills(s: State, name: string, token: string, spared: Option<string>, after: seq<Step>)
    requires Consistent(s) && token in s.sessions
    ensures Holder(Exec(Do(s, Revoke(token)), after), token) == None
    ensures var t := Do(s, RevokeAll(name, spared));
            if s.sessions[token].username == Normalize(name) && spared != Some(token)
            then Holder(Exec(t, after), token) == None
            else token in t.sessions && t.sessions[token] == s.sessions[token]
  {
    hide Do, Exec, Holder, Normalize;
    ConsistentOwns(s, token);
    RevokeSteps(s, name, token, spared);
    DeadStaysDead(Do(s, Revoke(token)), after, token);
    var t := Do(s, RevokeAll(name, spared));
    if s.sessions[token].username == Normalize(name) && spared != Some(token) {
      DeadStaysDead(t, after, token);
    }
  }

  /** A token that is issued stands for its user through seven days, to the second,
      as long as nothing else happens. */
  lemma IssuedForAWeek(s: State, name: string, token: string, now: int)
    requires Normalize(name) in s.users && token !in s.issued && token != ""
    ensures var t := Do(Do(s, Issue(name, token)), Clock(now));
            Holder(t, token) == if now <= s.now + 7 * 24 * 3600 then Some(Normalize(name)) else None
  {
    hide Normalize;
  }

  // ---------------------------------------------------------------------
  // Deleting a user and creating it again
  // ---------------------------------------------------------------------

  /** `token` is issued and does not name `name`. */
  predicate NotNaming(s: State, token: string, name: string) {
    token in s.issued && (token in s.sessions ==> s.sessions[token].username != name)
  }

  /** No rename moves sessions to `name`. */
  predicate NoMoveTo(steps: seq<Step>, name: string) {
    forall i :: 0 <= i < |steps| && steps[i].MoveSection? ==> steps[i].n != name
  }

  /** No rename moves sessions away from `name`. */
  predicate NoMoveFrom(steps: seq<Step>, name: string) {
    forall i :: 0 <= i < |steps| && steps[i].MoveSection? ==> steps[i].o != name
  }

  lemma DoKeepsNotNaming(s: State, step: Step, token: string, name: string)
    requires NotNaming(s, token, name) && (step.MoveSection? ==> step.n != name)
    ensures NotNaming(Do(s, step), token, name)
  {
    hide Normalize, Apply;
  }

  lemma {:induction false} ExecKeepsNotNaming(s: State, steps: seq<Step>, token: string, name: string)
    requires NotNaming(s, token, name) && NoMoveTo(steps, name)
    ensures NotNaming(Exec(s, steps), token, name)
    decreases |steps|
  {
    hide Do, NotNaming;
    if steps != [] {
      DoKeepsNotNaming(s, steps[0], token, name);
      ExecKeepsNotNaming(Do(s, steps[0]), steps[1..], token, name);
    }
  }

  /** Once the purge of a deleted user is done, creating the user again gives
      it none of the tokens issued until then, in any interleaving in which no
      rename still moves sessions to that name. */
  lemma RecreatingRevivesNothing(s: State, name: string, token: string, after: seq<Step>)
    requires name in s.purges && token in s.issued && NoMoveTo(after, name)
    ensures Holder(Exec(Do(s, PurgeSection(name)), after), token) != Some(name)
  {
    ExecKeepsNotNaming(Do(s, PurgeSection(name)), after, token, name);
  }

  /** A token that names `name`, or is gone. */
  predicate NamingOrGone(s: State, token: string, name: string) {
    token in s.issued && (token in s.sessions ==> s.sessions[token].username == name)
  }

  lemma DoKeepsNaming(s: State, step: Step, token: string, name: string)
    requires NamingOrGone(s, token, name) && Normalize(name) == name && (step.MoveSection? ==> step.o != name)
    ensures NamingOrGone(Do(s, step), token, name)
  {
    hide Normalize, Apply;
  }

  lemma {:induction false} ExecKeepsNaming(s: State, steps: seq<Step>, token: string, name: string)
    requires NamingOrGone(s, token, name) && Normalize(name) == name && NoMoveFrom(steps, name)
    ensures NamingOrGone(Exec(s, steps), token, name)
    decreases |steps|
  {
    hide Do, NamingOrGone, Normalize;
    if steps != [] {
      DoKeepsNaming(s, steps[0], token, name);
      ExecKeepsNaming(Do(s, steps[0]), steps[1..], token, name);
    }
  }

  /** The whole deletion: from its first section to the purge any steps may
      come between, the user may be created again and get new sessions. Every
      token that named the user at the start stands for nobody ever after,
      provided that no rename moved the user's sessions in between. */
  lemma DeletionEndsSessions(s: State, raw: string, who: string, between: seq<Step>, after: seq<Step>, token: string)
    requires Consistent(s) && CanDelete(s.users, raw, who, true)
    requires token in s.sessions && s.sessions[token].username == Normalize(raw)
    requires NoMoveFrom(between, Normalize(raw))
    requires Normalize(raw) in Exec(Do(s, DeleteSection(raw, who, true)), between).purges
    ensures var purged := Do(Exec(Do(s, DeleteSection(raw, who, true)), between), PurgeSection(Normalize(raw)));
            Holder(Exec(purged, after), token) == None
  {
    var name := Normalize(raw);
    NormalizeIdempotent(raw);
    hide Normalize;
    var deleted := Do(s, DeleteSection(raw, who, true));
    ExecKeepsNaming(deleted, between, token, name);
    var purged := Do(Exec(deleted, between), PurgeSection(name));
    DeadStaysDead(purged, after, token);
  }

  // ---------------------------------------------------------------------
  // Renames in flight
  // ---------------------------------------------------------------------

  lemma CreateAndRename(s: State, u: string, w: string, who: string, hash: string)
    requires GoodName(u) && GoodName(w) && u != w && u !in s.users && w !in s.users
    requires AdminNamed(s.users, who) && Normalize(who) == who && who != u
    ensures var t := Do(Do(s, Config(OpCreate(u, hash, false))), RenameSection(u, w, who));
            w in t.users && (u, w) in t.moves && t.sessions == s.sessions && t.now == s.now && t.purges == s.purges
  {
    hide Normalize;
    var t := Do(s, Config(OpCreate(u, hash, false)));
    assert t == s.(users := s.users[u := NewUser(hash, false)]);
    assert CanRename(t.users, u, w, who);
  }

  lemma MoveAndPurge(s: State, u: string, w: string, token: string)
    requires (u, w) in s.moves && u in s.purges && u != w && w in s.users && Normalize(u) == u
    requires token != "" && token in s.sessions && s.sessions[token].username == u && s.now <= s.sessions[token].expiry
    ensures Holder(Do(Do(s, MoveSection(u, w)), PurgeSection(u)), token) == Some(w)
  {
    hide Normalize;
    var t := Do(s, MoveSection(u, w));
    assert t.sessions[token] == Session(w, s.sessions[token].expiry);
    assert Do(t, PurgeSection(u)).sessions[token] == t.sessions[token];
  }

  /** Without the conditions on renames the old token comes back: the deleted
      user is created again and renamed before the purge runs, so the rename
      carries the old session to the new name. */
  lemma RenameBeforePurgeRevives(s: State, u: string, w: string, who: string, token: string, hash: string)
    requires Consistent(s) && GoodName(u) && GoodName(w) && u != w && w !in s.users
    requires CanDelete(s.users, u, who, true) && GoodNames(s.users)
    requires token != "" && token in s.sessions && s.sessions[token].username == u && s.now <= s.sessions[token].expiry
    ensures var between := [Config(OpCreate(u, hash, false)), RenameSection(u, w, who), MoveSection(u, w)];
            Holder(Exec(Exec(Do(s, DeleteSection(u, who, true)), between), [PurgeSection(u)]), token) == Some(w)
  {
    assert Normalize(u) == u && Normalize(who) == who;
    var s1 := Do(s, DeleteSection(u, who, true));
    CreateAndRename(s1, u, w, who, hash);
    var s3 := Do(Do(s1, Config(OpCreate(u, hash, false))), RenameSection(u, w, who));
    MoveAndPurge(s3, u, w, token);
    ExecThree(s1, Config(OpCreate(u, hash, false)), RenameSection(u, w, who), MoveSection(u, w));
    ExecOne(Do(s3, MoveSection(u, w)), PurgeSection(u));
    hide Do, Exec, Normalize;
  }

  /** And a rename to the deleted name that has its second section still to
      come gives the created account the tokens of the renamed one. */
  lemma LateRenameRevives(s: State, v: string, u: string, who: string, token: string, hash: string)
    requires Consistent(s) && GoodName(u) && GoodName(v) && u != v && u !in s.users && v != who && u != who
    requires v in s.users && AdminNamed(s.users, who) && GoodNames(s.users)
    requires token != "" && token in s.sessions && s.sessions[token].username == v && s.now <= s.sessions[token].expiry
    ensures var purged := Exec(Do(s, RenameSection(v, u, who)), [DeleteSection(u, who, true), PurgeSection(u)]);
            Holder(Exec(purged, [Config(OpCreate(u, hash, false)), MoveSection(v, u)]), token) == Some(u)
  {
    assert Normalize(who) == who && Normalize(u) == u && Normalize(v) == v;
    var s1 := Do(s, RenameSection(v, u, who));
    RenameLeavesMove(s, v, u, who);
    var s2 := Do(s1, DeleteSection(u, who, true));
    DeleteLeavesRest(s1, u, who);
    var s3 := Do(s2, PurgeSection(u));
    assert s3 == s2.(sessions := Purged(s2.sessions, u, None), purges := s2.purges - multiset{u});
    assert s3.sessions[token] == s.sessions[token];
    CreateAndMove(s3, v, u, token, hash);
    ExecTwo(s1, DeleteSection(u, who, true), PurgeSection(u));
    ExecTwo(s3, Config(OpCreate(u, hash, false)), MoveSection(v, u));
    hide Do, Exec, Normalize;
  }

  lemma RenameLeavesMove(s: State, v: string, u: string, who: string)
    requires GoodName(u) && GoodName(v) && u != v && u !in s.users && v in s.users && v != who
    requires AdminNamed(s.users, who) && Normalize(who) == who
    ensures var t := Do(s, RenameSection(v, u, who));
            u in t.users && AdminNamed(t.users, who) && t == s.(users := t.users, moves := s.moves + multiset{(v, u)})
  {
    hide Normalize;
  }

  lemma DeleteLeavesRest(s: State, u: string, who: string)
    requires u in s.users && Normalize(u) == u && AdminNamed(s.users, who) && Normalize(who) == who && u != who
    ensures var t := Do(s, DeleteSection(u, who, true));
            u !in t.users && t == s.(users := t.users, purges := s.purges + multiset{u})
  {
    hide Normalize;
  }

  lemma CreateAndMove(s: State, v: string, u: string, token: string, hash: string)
    requires GoodName(u) && u !in s.users && (v, u) in s.moves && Normalize(v) == v
    requires token != "" && token in s.sessions && s.sessions[token].username == v && s.now <= s.sessions[token].expiry
    ensures Holder(Do(Do(s, Config(OpCreate(u, hash, false))), MoveSection(v, u)), token) == Some(u)
  {
    hide Normalize;
    var t := Do(s, Config(OpCreate(u, hash, false)));
    assert u in t.users && t == s.(users := t.users);
    MovedAt(t, (v, u), token);
  }

  lemma ExecOne(s: State, a: Step)
    ensures Exec(s, [a]) == Do(s, a)
  {
    assert Exec(Do(s, a), []) == Do(s, a);
  }

  lemma ExecTwo(s: State, a: Step, b: Step)
    ensures Exec(s, [a, b]) == Do(Do(s, a), b)
  {
    ExecOne(Do(s, a), b);
    assert [a, b][1..] == [b];
  }

  lemma ExecThree(s: State, a: Step, b: Step, c: Step)
    ensures Exec(s, [a, b, c]) == Do(Do(Do(s, a), b), c)
  {
    ExecTwo(Do(s, a), b, c);
    assert [a, b, c][1..] == [b, c];
  }

  // ---------------------------------------------------------------------
  // Exactly when a pending rename revives a token
  // ---------------------------------------------------------------------

  /** Pending renames that lead from one name to another, each used once. */
  ghost predicate Leads(moves: multiset<(string, string)>, u: string, name: string)
    decreases |moves|
  {
    u == name || exists m :: m in moves && m.0 == u && Leads(moves - multiset{m}, m.1, name)
  }

  lemma {:induction false} LeadsGrows(moves: multiset<(string, string)>, more: multiset<(string, string)>, u: string, name: string)
    requires moves <= more && Leads(moves, u, name)
    ensures Leads(more, u, name)
    decreases |moves|
  {
    if u != name {
      var m :| m in moves && m.0 == u && Leads(moves - multiset{m}, m.1, name);
      LeadsGrows(moves - multiset{m}, more - multiset{m}, m.1, name);
      assert m in more && m.0 == u && Leads(more - multiset{m}, m.1, name);
    }
  }

  /** Steps that start no new rename. */
  predicate NoNewRename(steps: seq<Step>) {
    forall i :: 0 <= i < |steps| ==> !steps[i].RenameSection?
  }

  /** What one such step does to a token: it goes, it stays, or a pending rename
      moves it. */
  lemma StepMovesToken(s: State, step: Step, token: string)
    requires Consistent(s) && token in s.sessions && !step.RenameSection?
    ensures var t := Do(s, step);
            || token !in t.sessions
            || (t.sessions[token].username == s.sessions[token].username && t.moves <= s.moves)
            || (step.MoveSection? && (step.o, step.n) in s.moves && s.sessions[token].username == step.o
                && t.sessions[token].username == step.n && t.moves == s.moves - multiset{(step.o, step.n)})
  {
    ConsistentOwns(s, token);
    MovesShrink(s, step);
    if step.MoveSection? {
      MoveIsUsed(s, step.o, step.n);
    }
    hide Do, Consistent, Normalize;
    if token in Do(s, step).sessions {
      SessionOrigin(s, step, token);
    }
  }

  lemma MoveIsUsed(s: State, o: string, n: string)
    ensures Do(s, MoveSection(o, n)).moves == if (o, n) in s.moves then s.moves - multiset{(o, n)} else s.moves
  {
    hide Normalize;
  }

  lemma {:induction false} HeldMeansLed(s: State, steps: seq<Step>, token: string, name: string)
    requires Consistent(s) && token in s.sessions && NoNewRename(steps)
    requires Holder(Exec(s, steps), token) == Some(name)
    ensures Leads(s.moves, s.sessions[token].username, name)
    decreases |steps|
  {
    hide Do, Consistent;
    if steps != [] {
      var (t, rest) := (Do(s, steps[0]), steps[1..]);
      assert forall i :: 0 <= i < |rest| ==> rest[i] == steps[i + 1];
      assert OwnSession(s, token) by { ConsistentOwns(s, token); }
      DoKeepsConsistent(s, steps[0]);
      StepMovesToken(s, steps[0], token);
      if token in t.sessions {
        HeldMeansLed(t, rest, token, name);
        var u := s.sessions[token].username;
        if t.sessions[token].username == u && t.moves <= s.moves {
          LeadsGrows(t.moves, s.moves, u, name);
        } else {
          var m := (steps[0].o, steps[0].n);
          assert m in s.moves && m.0 == u && Leads(s.moves - multiset{m}, m.1, name);
        }
      } else {
        DeadStaysDead(t, rest, token);
      }
    }
  }

  lemma ConsistentOwns(s: State, token: string)
    requires Consistent(s) && token in s.sessions
    ensures OwnSession(s, token)
  {
  }

  lemma ExecCons(s: State, a: Step, rest: seq<Step>)
    ensures Exec(s, [a] + rest) == Exec(Do(s, a), rest)
  {
    assert ([a] + rest)[1..] == rest;
  }

  /** One pending rename of the token's user, carried out. */
  lemma MoveToken(s: State, m: (string, string), token: string)
    requires Consistent(s) && token in s.sessions && m in s.moves && s.sessions[token].username == m.0
    ensures var t := Do(s, MoveSection(m.0, m.1));
            && Consistent(t) && token in t.sessions && t.now == s.now
            && t.sessions[token] == Session(m.1, s.sessions[token].expiry)
            && t.moves == s.moves - multiset{m}
  {
    DoKeepsConsistent(s, MoveSection(m.0, m.1));
    ConsistentOwns(s, token);
    MovedAt(s, m, token);
    MoveIsUsed(s, m.0, m.1);
    hide Normalize, Consistent, Do;
  }

  lemma MovedAt(s: State, m: (string, string), token: string)
    requires token in s.sessions && m in s.moves
    ensures var t := Do(s, MoveSection(m.0, m.1));
            token in t.sessions && t.sessions[token] == MoveOne(s.sessions[token], m.0, m.1) && t.now == s.now
  {
    hide Normalize;
  }

  lemma HeldByCreated(s: State, token: string, name: string)
    requires token in s.sessions && token != "" && s.now <= s.sessions[token].expiry
    requires GoodName(name) && s.sessions[token].username == name
    ensures Holder(Exec(s, [Config(OpCreate(name, "", false))]), token) == Some(name)
  {
    ExecOne(s, Config(OpCreate(name, "", false)));
    CreatedIsThere(s.users, name);
    hide Create, GoodName, Exec;
  }

  lemma {:induction false} LedCanBeHeld(s: State, token: string, name: string) returns (steps: seq<Step>)
    requires Consistent(s) && token in s.sessions && token != "" && s.now <= s.sessions[token].expiry
    requires GoodName(name) && Leads(s.moves, s.sessions[token].username, name)
    ensures NoNewRename(steps) && Holder(Exec(s, steps), token) == Some(name)
    decreases |s.moves|
  {
    hide Do, Exec, Consistent, Holder, GoodName;
    var u := s.sessions[token].username;
    if u == name {
      steps := [Config(OpCreate(name, "", false))];
      HeldByCreated(s, token, name);
    } else {
      var m :| m in s.moves && m.0 == u && Leads(s.moves - multiset{m}, m.1, name);
      MoveToken(s, m, token);
      var rest := LedCanBeHeld(Do(s, MoveSection(m.0, m.1)), token, name);
      steps := [MoveSection(m.0, m.1)] + rest;
      ExecCons(s, MoveSection(m.0, m.1), rest);
      assert forall i :: 0 < i < |steps| ==> steps[i] == rest[i - 1];
    }
  }

  lemma CreatedIsThere(users: Users, name: string)
    requires GoodName(name)
    ensures name in Create(users, name, "", false)
  {
    hide Normalize;
  }

  /** In every state, after a purge in particular: a live token can still come to
      stand for `name` without a new rename exactly when a chain of renames whose
      second sections are pending leads from its user to that name. */
  lemma RevivedExactly(s: State, token: string, name: string)
    requires Consistent(s) && token in s.sessions && token != "" && s.now <= s.sessions[token].expiry
    requires GoodName(name)
    ensures Leads(s.moves, s.sessions[token].username, name) <==>
            exists steps :: NoNewRename(steps) && Holder(Exec(s, steps), token) == Some(name)
  {
    hide Do, Exec, Consistent, GoodName, Holder;
    if Leads(s.moves, s.sessions[token].username, name) {
      var steps := LedCanBeHeld(s, token, name);
      assert NoNewRename(steps) && Holder(Exec(s, steps), token) == Some(name);
    }
    if exists steps :: NoNewRename(steps) && Holder(Exec(s, steps), token) == Some(name) {
      var steps :| NoNewRename(steps) && Holder(Exec(s, steps), token) == Some(name);
      HeldMeansLed(s, steps, token, name);
    }
  }

  /** After the purge of `name`: tokens issued before come back to a user of that
      name exactly along pending renames; without any, never. */
  lemma AfterPurgeExactly(s: State, name: string, token: string)
    requires Consistent(s) && name in s.purges && GoodName(name)
    requires token in s.sessions && token != "" && s.now <= s.sessions[token].expiry
    ensures var t := Do(s, PurgeSection(name));
            (exists steps :: NoNewRename(steps) && Holder(Exec(t, steps), token) == Some(name)) <==>
            s.sessions[token].username != name && Leads(s.moves, s.sessions[token].username, name)
  {
    var t := Do(s, PurgeSection(name));
    DoKeepsConsistent(s, PurgeSection(name));
    if s.sessions[token].username == name {
      ConsistentOwns(s, token);
      assert token in t.issued && token !in t.sessions;
      forall steps
        ensures Holder(Exec(t, steps), token) == None
      {
        DeadStaysDead(t, steps, token);
      }
    } else {
      assert t.sessions[token] == s.sessions[token] && t.moves == s.moves && t.now == s.now;
      hide Do, Consistent, Exec, GoodName;
      RevivedExactly(t, token, name);
    }
  }

  // ---------------------------------------------------------------------
  // Exactly when a token outlives the deletion of its user
  // ---------------------------------------------------------------------

  /** Some pending rename leads away from `name`. */
  ghost predicate MovesAway(moves: multiset<(string, string)>, name: string) {
    exists m :: m in moves && m.0 == name && m.1 != name
  }

  lemma StuckStays(s: State, step: Step, token: string, name: string)
    requires Consistent(s) && !step.RenameSection? && !MovesAway(s.moves, name) && NamingOrGone(s, token, name)
    ensures !MovesAway(Do(s, step).moves, name) && NamingOrGone(Do(s, step), token, name)
  {
    if token in s.sessions {
      StepMovesToken(s, step, token);
      IssuedGrows(s, step);
      hide Do;
      if step.MoveSection? && (step.o, step.n) in s.moves && step.o == name {
        assert step.n == name;
      }
    } else {
      DoKeepsDead(s, step, token);
    }
    MovesShrink(s, step);
  }

  lemma MovesShrink(s: State, step: Step)
    requires !step.RenameSection?
    ensures Do(s, step).moves <= s.moves
  {
    hide Normalize, Apply, CanDelete, Delete, Purged, Moved, AfterLookup;
  }

  lemma {:induction false} StuckRun(s: State, steps: seq<Step>, token: string, name: string)
    requires Consistent(s) && NoNewRename(steps) && !MovesAway(s.moves, name) && NamingOrGone(s, token, name)
    ensures NamingOrGone(Exec(s, steps), token, name)
    decreases |steps|
  {
    hide Do, Consistent, MovesAway, NamingOrGone;
    if steps != [] {
      assert forall i :: 0 <= i < |steps[1..]| ==> steps[1..][i] == steps[i + 1];
      assert !steps[0].RenameSection?;
      StuckStays(s, steps[0], token, name);
      DoKeepsConsistent(s, steps[0]);
      StuckRun(Do(s, steps[0]), steps[1..], token, name);
    }
  }

  /** The token has a session after `between` and the purge. */
  ghost predicate Outlives(s: State, between: seq<Step>, token: string, name: string) {
    && NoNewRename(between) && name in Exec(s, between).purges
    && token in Do(Exec(s, between), PurgeSection(name)).sessions
  }

  lemma MoveOutlives(s: State, m: (string, string), token: string)
    requires Consistent(s) && m.0 in s.purges && token in s.sessions && s.sessions[token].username == m.0
    requires m in s.moves && m.0 != m.1
    ensures Outlives(s, [MoveSection(m.0, m.1)], token, m.0)
  {
    MoveToken(s, m, token);
    ExecOne(s, MoveSection(m.0, m.1));
    PurgesStay(s, m);
    var moved := Do(s, MoveSection(m.0, m.1));
    PurgeSpares(moved, m.0, token);
    hide Consistent, Exec, Do;
  }

  /** A pending purge ends the sessions of that name and no others. */
  lemma PurgeSpares(s: State, name: string, token: string)
    requires name in s.purges && token in s.sessions
    ensures token in Do(s, PurgeSection(name)).sessions <==> s.sessions[token].username != name
  {
    hide Normalize;
  }

  lemma StuckIsPurged(s: State, between: seq<Step>, token: string, name: string)
    requires Consistent(s) && !MovesAway(s.moves, name) && NamingOrGone(s, token, name)
    ensures !Outlives(s, between, token, name)
  {
    if NoNewRename(between) && name in Exec(s, between).purges {
      StuckRun(s, between, token, name);
      hide Exec, Consistent, MovesAway;
      var end := Exec(s, between);
      if token in end.sessions {
        PurgeSpares(end, name, token);
      } else {
        DoKeepsDead(end, PurgeSection(name), token);
      }
    }
  }

  /** Before a pending purge: without a new rename a token of the user can outlive
      it exactly when a rename of that user to another name is still pending. */
  lemma OutlivesExactly(s: State, name: string, token: string)
    requires Consistent(s) && name in s.purges && token in s.sessions && s.sessions[token].username == name
    ensures (exists between :: Outlives(s, between, token, name)) <==> MovesAway(s.moves, name)
  {
    if MovesAway(s.moves, name) {
      var m :| m in s.moves && m.0 == name && m.1 != name;
      MoveOutlives(s, m, token);
    } else {
      ConsistentOwns(s, token);
      hide Consistent, Outlives, MovesAway;
      forall between
        ensures !Outlives(s, between, token, name)
      {
        StuckIsPurged(s, between, token, name);
      }
    }
  }

  lemma PurgesStay(s: State, m: (string, string))
    ensures Do(s, MoveSection(m.0, m.1)).purges == s.purges
  {
    hide Normalize;
  }

  /** The whole deletion: a token of the deleted user can outlive it without a
      rename that begins after it exactly when a rename of that user to another
      name was pending; otherwise it stands for nobody ever after, whatever
      follows the purge. */
  lemma DeletionEndsSessionsExactly(s: State, raw: string, who: string, token: string)
    requires Consistent(s) && CanDelete(s.users, raw, who, true)
    requires token in s.sessions && s.sessions[token].username == Normalize(raw)
    ensures var (name, deleted) := (Normalize(raw), Do(s, DeleteSection(raw, who, true)));
            && ((exists between :: Outlives(deleted, between, token, name)) <==> MovesAway(s.moves, name))
            && (!MovesAway(s.moves, name) ==>
                  forall between, after :: NoNewRename(between) && name in Exec(deleted, between).purges ==>
                    Holder(Exec(Do(Exec(deleted, between), PurgeSection(name)), after), token) == None)
  {
    var (name, deleted) := (Normalize(raw), Do(s, DeleteSection(raw, who, true)));
    DeletionOpens(s, raw, who, token);
    OutlivesExactly(deleted, name, token);
    hide Do, Consistent, MovesAway, Normalize;
    if !MovesAway(s.moves, name) {
      forall between, after | NoNewRename(between) && name in Exec(deleted, between).purges
        ensures Holder(Exec(Do(Exec(deleted, between), PurgeSection(name)), after), token) == None
      {
        assert !Outlives(deleted, between, token, name);
        ExecIssued(deleted, between, token);
        var purged := Do(Exec(deleted, between), PurgeSection(name));
        IssuedGrows(Exec(deleted, between), PurgeSection(name));
        hide Exec;
        DeadStaysDead(purged, after, token);
      }
    }
  }

  lemma DeletionOpens(s: State, raw: string, who: string, token: string)
    requires Consistent(s) && CanDelete(s.users, raw, who, true) && token in s.sessions
    ensures var deleted := Do(s, DeleteSection(raw, who, true));
            && Consistent(deleted) && Normalize(raw) in deleted.purges && deleted.moves == s.moves
            && deleted.sessions == s.sessions && token in deleted.issued
  {
    DoKeepsConsistent(s, DeleteSection(raw, who, true));
    ConsistentOwns(s, token);
    hide Normalize, Consistent;
  }

  lemma {:induction false} ExecIssued(s: State, steps: seq<Step>, token: string)
    requires token in s.issued
    ensures token in Exec(s, steps).issued
    decreases |steps|
  {
    hide Do;
    if steps != [] {
      IssuedGrows(s, steps[0]);
      ExecIssued(Do(s, steps[0]), steps[1..], token);
    }
  }

  // ---------------------------------------------------------------------
  // With renames that begin after the deletion
  // ---------------------------------------------------------------------

  function Letters(n: nat): (s: string)
    ensures |s| == n
  {
    seq(n, i => 'x')
  }

  lemma LettersAreGood(n: nat)
    requires n > 13
    ensures GoodName(Letters(n))
  {
    var s := Letters(n);
    assert StripLeft(s) == s && StripRight(s) == s;
    assert Lower(s) == s;
    assert forall r :: r in RESERVED ==> |r| <= 13;
  }

  lemma {:induction false} NamesAreShort(names: set<string>) returns (n: nat)
    ensures forall x :: x in names ==> |x| <= n
  {
    if names == {} {
      n := 0;
    } else {
      var x :| x in names;
      var m := NamesAreShort(names - {x});
      n := if m < |x| then |x| else m;
      assert forall y :: y in names ==> y == x || y in names - {x};
    }
  }

  lemma SomeNameIsFree(users: Users, u: string) returns (w: string)
    ensures GoodName(w) && w !in users && w != u
  {
    var n := NamesAreShort(users.Keys + {u});
    w := Letters(n + 14);
    LettersAreGood(n + 14);
  }

  /** After `between` and the purge the token stands for `w`. */
  ghost predicate HeldAfterPurge(s: State, between: seq<Step>, token: string, name: string, w: string) {
    && name in Exec(s, between).purges
    && Holder(Exec(Exec(s, between), [PurgeSection(name)]), token) == Some(w)
  }

  /** Whatever the table and the pending renames, if renames may begin before the
      purge then every live token of the deleted user can outlive its deletion and
      stand for a user of another name. */
  lemma AnyDeletionCanBeOutlived(s: State, u: string, who: string, token: string)
    requires Consistent(s) && GoodNames(s.users) && CanDelete(s.users, u, who, true) && Normalize(u) == u
    requires token != "" && token in s.sessions && s.sessions[token].username == u && s.now <= s.sessions[token].expiry
    ensures exists between, w :: w != u && HeldAfterPurge(Do(s, DeleteSection(u, who, true)), between, token, u, w)
  {
    assert GoodName(u);
    hide Do, Exec, Consistent, Holder, Normalize, GoodName, CanDelete, GoodNames;
    var w := SomeNameIsFree(s.users, u);
    var deleted := Do(s, DeleteSection(u, who, true));
    var between := [Config(OpCreate(u, "", false)), RenameSection(u, w, who), MoveSection(u, w)];
    DeletionOpens(s, u, who, token);
    RenameBeforePurgeRevives(s, u, w, who, token, "");
    PurgeStaysPending(deleted, between, u);
    assert HeldAfterPurge(deleted, between, token, u, w);
  }

  lemma PurgeStaysPending(s: State, between: seq<Step>, name: string)
    requires name in s.purges && |between| == 3
    requires between[0].Config? && between[1].RenameSection? && between[2].MoveSection?
    ensures name in Exec(s, between).purges
  {
    assert between == [between[0], between[1], between[2]];
    ExecThree(s, between[0], between[1], between[2]);
    hide Exec, Normalize, Apply, CanRename, Rename, Moved;
  }
}
