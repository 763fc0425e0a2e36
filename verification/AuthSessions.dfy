/** Browser sessions of core/auth.py as a value: the table from token to
    username and expiry, and what each operation does to it. */
module AuthSessions {
  import opened Options
  import opened Text
  import opened AuthState

  const TOKEN_TTL: int := 60 * 60 * 24 * 7

  datatype Session = Session(username: string, expiry: int)

  type Sessions = map<string, Session>

  /** Tokens of `name` other than `spared` are dropped. */
  predicate Drops(t: string, s: Session, name: string, spared: Option<string>) {
    Some(t) != spared && s.username == name
  }

  function Purged(sessions: Sessions, name: string, spared: Option<string>): Sessions {
    map t | t in sessions && !Drops(t, sessions[t], name, spared) :: sessions[t]
  }

  function MoveOne(s: Session, o: string, n: string): Session {
    if Normalize(s.username) == o then s.(username := n) else s
  }

  /** Sessions of `o`, compared in normal form, are given to `n`. */
  function Moved(sessions: Sessions, o: string, n: string): Sessions {
    map t | t in sessions :: MoveOne(sessions[t], o, n)
  }

  /** Reading sessions.json drops what has expired, the boundary included. */
  function Unexpired(sessions: Sessions, now: int): Sessions {
    map t | t in sessions && sessions[t].expiry > now :: sessions[t]
  }

  /** The user a token stands for; a missing or empty token stands for nobody. */
  function Resolve(users: Users, sessions: Sessions, token: Option<string>, now: int): Option<string> {
    if token == None || token.value == "" || token.value !in sessions then None else
    var s := sessions[token.value];
    if now > s.expiry || s.username !in users then None else Some(s.username)
  }

  /** Looking a token up removes it when it turns out to be dead. */
  function AfterLookup(users: Users, sessions: Sessions, token: Option<string>, now: int): Sessions {
    if token != None && token.value != "" && Resolve(users, sessions, token, now) == None
    then sessions - {token.value}
    else sessions
  }

  /** Revoking a user's sessions logs exactly that user out, except by the token
      that is spared. */
  lemma RevokedLogins(users: Users, sessions: Sessions, name: string, spared: Option<string>, token: string, now: int)
    ensures Resolve(users, Purged(sessions, name, spared), Some(token), now) ==
            if Resolve(users, sessions, Some(token), now) == Some(name) && spared != Some(token) then None
            else Resolve(users, sessions, Some(token), now)
  {
  }

  /** A token that was looked up when it stood for nobody stands for nobody ever
      after, whatever users there are and whatever the clock says; what other
      tokens stand for is not affected. */
  lemma LookupBuries(
    users: Users, sessions: Sessions, token: string, now: int, later: Users, other: string, time: int)
    ensures var after := AfterLookup(users, sessions, Some(token), now);
            && (Resolve(users, sessions, Some(token), now) == None ==> Resolve(later, after, Some(token), time) == None)
            && (other != token || Resolve(users, sessions, Some(token), now) != None ==>
                  Resolve(later, after, Some(other), time) == Resolve(later, sessions, Some(other), time))
  {
  }

  /** A token is good through the second at which it expires, but a restart in
      that second drops it. */
  lemma ExpiryBoundary(users: Users, sessions: Sessions, token: string, now: int)
    requires token != "" && token in sessions && sessions[token].username in users
    ensures Resolve(users, sessions, Some(token), now).Some? <==> now <= sessions[token].expiry
    ensures Resolve(users, Unexpired(sessions, now), Some(token), now).Some? <==> now < sessions[token].expiry
  {
  }
}
