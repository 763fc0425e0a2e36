/** The rename route (routes/auth_routes.py): it renames the account, migrates
    the owner columns, and rolls the account back when that migration fails. */
module RenameRoute {
  import opened Options
  import opened Text
  import opened AuthState
  import opened AuthFile
  import opened AuthSessions
  import AuthManager

  /** Every session names a current user. */
  predicate SessionsNameUsers(users: Users, sessions: Sessions) {
    forall t :: t in sessions ==> sessions[t].username in users
  }

  /** What renaming and renaming back needs of a session to leave it alone. */
  predicate Returns(s: Session, o: string, n: string) {
    (Normalize(s.username) == o ==> s.username == o) && Normalize(s.username) != n
  }

  /** The user in whose name the rollback is made. */
  function RollbackUser(who: string, o: string, n: string): string {
    if who == o then n else who
  }

  /** The rollback is always permitted and restores the user table, also when
      an administrator renames itself. */
  lemma RollbackRestoresUsers(users: Users, old0: string, new0: string, who: string)
    requires GoodNames(users) && AdminNamed(users, who) && CanRename(users, old0, new0, who)
    ensures var (o, n) := (Normalize(old0), Normalize(new0)); var renamed := Rename(users, old0, new0, who);
            && CanRename(renamed, n, o, RollbackUser(who, o, n))
            && Rename(renamed, n, o, RollbackUser(who, o, n)) == users
  {
    NormalizeIdempotent(old0);
    NormalizeIdempotent(new0);
    hide Normalize;
  }

  /** The sessions come back exactly when each of them is left alone. */
  lemma RollbackRestoresSessions(sessions: Sessions, o: string, n: string)
    requires o == Normalize(o) && n == Normalize(n) && o != n
    ensures Moved(Moved(sessions, o, n), n, o) == sessions <==> forall t :: t in sessions ==> Returns(sessions[t], o, n)
  {
    hide Normalize;
    var there := Moved(sessions, o, n);
    var back := Moved(there, n, o);
    forall t | t in sessions
      ensures back[t] == sessions[t] <==> Returns(sessions[t], o, n)
    {
      assert there[t] == MoveOne(sessions[t], o, n);
      assert back[t] == MoveOne(there[t], n, o);
    }
    if back == sessions {
      assert forall t :: t in sessions ==> back[t] == sessions[t];
    }
  }

  /** Sessions of current users always come back. */
  lemma CurrentSessionsReturn(users: Users, sessions: Sessions, old0: string, new0: string, who: string)
    requires GoodNames(users) && CanRename(users, old0, new0, who) && SessionsNameUsers(users, sessions)
    ensures Moved(Moved(sessions, Normalize(old0), Normalize(new0)), Normalize(new0), Normalize(old0)) == sessions
  {
    NormalizeIdempotent(old0);
    NormalizeIdempotent(new0);
    hide Normalize, Moved;
    RollbackRestoresSessions(sessions, Normalize(old0), Normalize(new0));
  }

  /** A successful rename keeps every token and changes who it stands for only
      from the old name to the new one. */
  lemma RenameMovesLogins(users: Users, sessions: Sessions, old0: string, new0: string, who: string,
                          token: Option<string>, now: int)
    requires GoodNames(users) && CanRename(users, old0, new0, who) && SessionsNameUsers(users, sessions)
    ensures var (o, n) := (Normalize(old0), Normalize(new0)); var moved := Moved(sessions, o, n);
            && moved.Keys == sessions.Keys
            && Resolve(Rename(users, old0, new0, who), moved, token, now) ==
                 (if Resolve(users, sessions, token, now) == Some(o) then Some(n) else Resolve(users, sessions, token, now))
  {
    hide Normalize;
  }

  datatype Response = Renamed | Forbidden | NameRequired | NotFound | Taken | Refused | MigrationFailed

  /** Which response is given, by the checks in their order. */
  function Answer(users: Users, path: string, body: string, user: string, ownersMigrated: bool): Response {
    var (o, n) := (Normalize(path), Normalize(body));
    if !AdminNamed(users, user) then Forbidden
    else if n == "" then NameRequired
    else if o == n then Renamed
    else if o !in users then NotFound
    else if n in users then Taken
    else if n in RESERVED then Refused
    else if !ownersMigrated then MigrationFailed
    else Renamed
  }

  /** What each response says: who is no administrator learns nothing else; a name
      that stays the same is renamed at once; and a change is made exactly when the
      account is there, its new name is free and allowed, and the owners follow. */
  lemma AnswerExactly(users: Users, path: string, body: string, user: string, ownersMigrated: bool)
    requires GoodNames(users)
    ensures var (o, n, answer) := (Normalize(path), Normalize(body), Answer(users, path, body, user, ownersMigrated));
            && (answer == Forbidden <==> !AdminNamed(users, user))
            && (AdminNamed(users, user) ==>
                  && (answer == NameRequired <==> n == "")
                  && (answer == NotFound <==> n != "" && o != n && o !in users)
                  && (answer == Taken <==> n in users && o != n && o in users)
                  && (answer == Refused <==> n in RESERVED && o in users)
                  && (answer == MigrationFailed <==> CanRename(users, path, body, user) && o != n && !ownersMigrated)
                  && (answer == Renamed <==>
                        (n != "" && o == n) || (CanRename(users, path, body, user) && o != n && ownersMigrated)))
  {
    NormalizeIdempotent(path);
    hide Normalize;
  }

  /** `ownersMigrated` is the outcome of rewriting the owner columns. */
  method RenameUser(m: AuthManager.Manager, path: string, body: string, user: string, ownersMigrated: bool)
      returns (response: Response)
    requires m.Valid()
    modifies m
    ensures m.Valid()
    ensures response.Renamed? && Normalize(path) != Normalize(body) ==>
              && CanRename(old(m.users), path, body, user) && ownersMigrated
              && m.users == Rename(old(m.users), path, body, user)
              && m.sessions == Moved(old(m.sessions), Normalize(path), Normalize(body))
    ensures !response.Renamed? || Normalize(path) == Normalize(body) ==> m.users == old(m.users)
    ensures !response.Renamed? && SessionsNameUsers(old(m.users), old(m.sessions)) ==> m.sessions == old(m.sessions)
    ensures response == Answer(old(m.users), path, body, user, ownersMigrated)
    ensures response.MigrationFailed? <==>
              && AdminNamed(old(m.users), user) && Normalize(path) != Normalize(body)
              && CanRename(old(m.users), path, body, user) && !ownersMigrated
  {
    NormalizeIdempotent(path);
    NormalizeIdempotent(body);
    hide Normalize, Loaded, Moved;
    if user !in m.users || !Admin(m.users[user]) {
      return Forbidden;
    }
    assert user == Normalize(user);
    var o, n := Normalize(path), Normalize(body);
    if n == "" {
      return NameRequired;
    }
    if o == n {
      return Renamed;
    }
    if o !in m.users {
      return NotFound;
    }
    if n in m.users {
      return Taken;
    }
    ghost var users, sessions := m.users, m.sessions;
    var ok := m.RenameUser(o, n, user);
    if !ok {
      return Refused;
    }
    if !ownersMigrated {
      RollbackRestoresUsers(users, path, body, user);
      if SessionsNameUsers(users, sessions) {
        CurrentSessionsReturn(users, sessions, path, body, user);
      }
      var rolledBack := m.RenameUser(n, o, if user == o then n else user);
      return MigrationFailed;
    }
    response := Renamed;
  }
}
