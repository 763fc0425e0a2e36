/** `AuthManager` (core/auth.py): the object that holds the user table and the
    sessions, and writes the user table back after every change.

    Password hashes, fresh tokens, the clock and the outcome of revoking API
    tokens are arguments. */
module AuthManager {
  import opened Options
  import opened Text
  import opened Privileges
  import opened AuthState
  import opened AuthFile
  import opened AuthSessions

  class Manager {
    var users: Users
    var sessions: Sessions
    /** The content of auth.json. */
    var stored: Config

    /** Names are well formed and auth.json reads back as the table in memory. */
    ghost predicate Valid()
      reads this
    {
      GoodNames(users) && RolesMigrated(users) && Loaded(stored) == users
    }

    constructor (file: Config, savedSessions: Sessions, now: int)
      ensures Valid()
      ensures users == Loaded(file) && sessions == Unexpired(savedSessions, now)
      ensures !Rewrites(file) ==> stored == file
    {
      users := map[];
      stored := file;
      sessions := map t | t in savedSessions && savedSessions[t].expiry > now :: savedSessions[t];
      new;
      LoadedIsGood(file);
      ReadNormal(file);
      users := ReadUsers(file);
      var changed := file.SingleUser?;
      var kept := DropReserved(users);
      changed := changed || kept != users;
      users := kept;
      var migrated := MigrateAll(users);
      changed := changed || migrated != users;
      users := migrated;
      if changed {
        Save();
      }
    }

    /** Writes the table; the members come out in some order. */
    method Save()
      requires GoodNames(users) && RolesMigrated(users)
      modifies this`stored
      ensures Valid()
    {
      var entries := ListEntries(users);
      stored := MultiUser(entries);
      SaveThenLoad(entries, users);
    }

    method Setup(name: string, hash: string) returns (ok: bool)
      requires Valid()
      modifies this`users, this`stored
      ensures Valid()
      ensures ok <==> old(users) == map[] && CanCreate(old(users), name)
      ensures users == AuthState.Setup(old(users), name, hash)
    {
      if |users| > 0 {
        return false;
      }
      ok := CreateUser(name, hash, true);
    }

    method CreateUser(name: string, hash: string, admin: bool) returns (ok: bool)
      requires Valid()
      modifies this`users, this`stored
      ensures Valid()
      ensures ok <==> CanCreate(old(users), name)
      ensures users == Create(old(users), name, hash, admin)
    {
      hide Normalize, Loaded;
      var username := Normalize(name);
      if username == "" || username in RESERVED {
        return false;
      }
      if username in users {
        return false;
      }
      ApplyKeepsNames(users, OpCreate(name, hash, admin));
      ApplyKeepsRoles(users, OpCreate(name, hash, admin));
      users := users[username := User(hash, Some(admin), None, Some(if admin then AdminMap() else Defaults()), None)];
      Save();
      ok := true;
    }

    method DeleteUser(name: string, requesting: string, tokensRevoked: bool) returns (ok: bool)
      requires Valid()
      modifies this
      ensures Valid()
      ensures ok <==> CanDelete(old(users), name, requesting, tokensRevoked)
      ensures users == Delete(old(users), name, requesting, tokensRevoked)
      ensures sessions == if ok then Purged(old(sessions), Normalize(name), None) else old(sessions)
    {
      hide Normalize, Loaded;
      var username := Normalize(name);
      if username !in users || username == requesting || requesting !in users || !Admin(users[requesting]) {
        return false;
      }
      if !tokensRevoked {
        return false;
      }
      ApplyKeepsNames(users, OpDelete(name, requesting, tokensRevoked));
      ApplyKeepsRoles(users, OpDelete(name, requesting, tokensRevoked));
      users := users - {username};
      Save();
      var revoked: nat;
      sessions, revoked := DropSessions(sessions, username, None);
      ok := true;
    }

    method RenameUser(oldName: string, newName: string, requesting: string) returns (ok: bool)
      requires Valid()
      modifies this
      ensures Valid()
      ensures ok <==> CanRename(old(users), oldName, newName, requesting)
      ensures users == Rename(old(users), oldName, newName, requesting)
      ensures sessions == if ok then Moved(old(sessions), Normalize(oldName), Normalize(newName)) else old(sessions)
    {
      hide Normalize, Loaded;
      var o, n, who := Normalize(oldName), Normalize(newName), Normalize(requesting);
      if o == "" || n == "" || n in RESERVED {
        return false;
      }
      if o !in users || n in users || who !in users || !Admin(users[who]) {
        return false;
      }
      ApplyKeepsNames(users, OpRename(oldName, newName, requesting));
      ApplyKeepsRoles(users, OpRename(oldName, newName, requesting));
      var record := users[o];
      users := users - {o};
      users := users[n := record];
      Save();
      sessions := MoveSessions(sessions, o, n);
      ok := true;
    }

    method GetPrivileges(name: string) returns (p: PMap)
      ensures p == EffectiveOf(users, name)
    {
      if name !in users {
        return WithDefaults(map[]);
      }
      var user := users[name];
      if Admin(user) {
        return AdminMap();
      }
      p := WithDefaults(if user.privileges.Some? then user.privileges.value else map[]);
    }

    method SetPrivileges(name: string, edit: PMap) returns (ok: bool)
      requires Valid()
      modifies this`users, this`stored
      ensures Valid()
      ensures ok <==> CanSetPrivileges(old(users), name)
      ensures users == AuthState.SetPrivileges(old(users), name, edit)
    {
      hide Normalize, Loaded, Defaults, AdminMap;
      var username := Normalize(name);
      if username !in users || Admin(users[username]) {
        return false;
      }
      var current := GetPrivileges(username);
      current := EditKnown(current, edit);
      ApplyKeepsNames(users, OpSetPrivileges(name, edit));
      ApplyKeepsRoles(users, OpSetPrivileges(name, edit));
      users := users[username := users[username].(privileges := Some(current))];
      Save();
      ok := true;
    }

    method SetAdmin(name: string, on: bool, requesting: string) returns (result: SetAdminResult)
      requires Valid()
      modifies this`users, this`stored
      ensures Valid()
      ensures result == SetAdminOutcome(old(users), name, on, requesting)
      ensures users == AuthState.SetAdmin(old(users), name, on, requesting)
    {
      hide Normalize, Loaded, Defaults, AdminMap;
      var username, who := Normalize(name), Normalize(requesting);
      if username !in users {
        return UserNotFound;
      }
      var target := users[username];
      if who !in users || !Admin(users[who]) {
        return NotAuthorized;
      }
      if Admin(target) == on {
        return Done;
      }
      if Admin(target) && !on {
        var count := CountAdmins(users);
        if count <= 1 {
          return LastAdmin;
        }
      }
      ApplyKeepsNames(users, OpSetAdmin(name, on, requesting));
      ApplyKeepsRoles(users, OpSetAdmin(name, on, requesting));
      if on {
        target := target.(isAdmin := Some(true));
        target := target.(stash := Some(OrDefaults(target.privileges)));
        target := target.(privileges := Some(AdminMap()));
      } else {
        target := target.(privileges := Some(OrDefaults(target.stash)), stash := None);
        target := target.(isAdmin := Some(false));
      }
      users := users[username := target];
      Save();
      result := Done;
    }

    method ChangePassword(name: string, verified: bool, hash: string) returns (ok: bool)
      requires Valid()
      modifies this`users, this`stored
      ensures Valid()
      ensures ok <==> Normalize(name) in old(users) && verified
      ensures users == AuthState.ChangePassword(old(users), name, verified, hash)
    {
      hide Normalize, Loaded;
      var username := Normalize(name);
      if username !in users || !verified {
        return false;
      }
      ApplyKeepsNames(users, OpChangePassword(name, verified, hash));
      ApplyKeepsRoles(users, OpChangePassword(name, verified, hash));
      users := users[username := users[username].(passwordHash := hash)];
      Save();
      ok := true;
    }

    method CreateSessionTrusted(name: string, token: string, now: int) returns (issued: Option<string>)
      modifies this`sessions
      ensures issued == if Normalize(name) in users then Some(token) else None
      ensures sessions == if issued.Some? then old(sessions)[token := Session(Normalize(name), now + TOKEN_TTL)]
                          else old(sessions)
    {
      var username := Normalize(name);
      if username !in users {
        return None;
      }
      sessions := sessions[token := Session(username, now + TOKEN_TTL)];
      issued := Some(token);
    }

    method ValidateToken(token: Option<string>, now: int) returns (ok: bool)
      modifies this`sessions
      ensures ok <==> Resolve(users, old(sessions), token, now).Some?
      ensures sessions == AfterLookup(users, old(sessions), token, now)
    {
      if token == None || token.value == "" {
        return false;
      }
      if token.value !in sessions {
        assert sessions - {token.value} == sessions;
        return false;
      }
      var dead := false;
      if now > sessions[token.value].expiry {
        sessions := sessions - {token.value};
        dead := true;
      } else if sessions[token.value].username !in users {
        sessions := sessions - {token.value};
        dead := true;
      }
      ok := !dead;
    }

    method GetUsernameForToken(token: Option<string>, now: int) returns (name: Option<string>)
      modifies this`sessions
      ensures name == Resolve(users, old(sessions), token, now)
      ensures sessions == AfterLookup(users, old(sessions), token, now)
    {
      if token == None || token.value == "" {
        return None;
      }
      if token.value !in sessions {
        assert sessions - {token.value} == sessions;
        return None;
      }
      name := None;
      if now > sessions[token.value].expiry {
        sessions := sessions - {token.value};
      } else {
        var u := sessions[token.value].username;
        if u !in users {
          sessions := sessions - {token.value};
        } else {
          name := Some(u);
        }
      }
    }

    method RevokeToken(token: string)
      modifies this`sessions
      ensures sessions == old(sessions) - {token}
    {
      sessions := sessions - {token};
    }

    method RevokeUserSessions(name: string, spared: Option<string>) returns (revoked: nat)
      modifies this`sessions
      ensures sessions == Purged(old(sessions), Normalize(name), spared)
      ensures revoked == |old(sessions)| - |sessions|
    {
      sessions, revoked := DropSessions(sessions, Normalize(name), spared);
    }
  }

  // ---------------------------------------------------------------------
  // The loops
  // ---------------------------------------------------------------------

  method ReadUsers(file: Config) returns (users: Users)
    ensures users == Read(file)
  {
    users := map[];
    match file
    case MultiUser(entries) =>
      for i := 0 to |entries|
        invariant users == FromEntries(entries[..i])
      {
        assert entries[..i + 1][..i] == entries[..i];
        users := users[Normalize(entries[i].0) := entries[i].1];
      }
      assert entries[..|entries|] == entries;
    case SingleUser(username, hash) =>
      users := map[LegacyName(username) := User(hash, Some(true), None, None, None)];
    case _ =>
  }

  method DropReserved(users: Users) returns (kept: Users)
    requires forall k :: k in users ==> Normalize(k) == k
    ensures kept == WithoutReserved(users)
  {
    hide Normalize;
    kept := map[];
    var todo := users.Keys;
    while todo != {}
      invariant todo <= users.Keys
      invariant kept == map k | k in users && k !in todo && Kept(k) :: users[k]
    {
      var name :| name in todo;
      var key := Normalize(name);
      if key != "" && key !in RESERVED {
        kept := kept[key := users[name]];
      }
      todo := todo - {name};
    }
  }

  method MigrateAll(users: Users) returns (migrated: Users)
    ensures migrated == MigrateRoles(users)
  {
    migrated := users;
    var todo := users.Keys;
    while todo != {}
      invariant todo <= users.Keys
      invariant migrated == map k | k in users :: if k in todo then users[k] else MigrateRole(users[k])
    {
      var name :| name in todo;
      var user := users[name];
      if user.role == Some("admin") && user.isAdmin == None {
        migrated := migrated[name := user.(isAdmin := Some(true))];
      }
      todo := todo - {name};
    }
  }

  method ListEntries(users: Users) returns (entries: seq<(string, User)>)
    ensures Lists(entries, users)
  {
    entries := [];
    var todo := users.Keys;
    while todo != {}
      invariant todo <= users.Keys
      invariant Lists(entries, map k | k in users && k !in todo :: users[k])
    {
      var name :| name in todo;
      var before := entries;
      ghost var seen := map k | k in users && k !in todo :: users[k];
      entries := entries + [(name, users[name])];
      todo := todo - {name};
      forall k | k in users && k !in todo
        ensures exists i :: 0 <= i < |entries| && entries[i].0 == k
      {
        if k == name {
          assert entries[|before|].0 == k;
        } else {
          assert k in seen;
          var i :| 0 <= i < |before| && before[i].0 == k;
          assert entries[i].0 == k;
        }
      }
    }
    assert (map k | k in users && k !in todo :: users[k]) == users;
  }

  method CountAdmins(users: Users) returns (count: nat)
    ensures count == |Admins(users)|
  {
    count := 0;
    var todo := users.Keys;
    while todo != {}
      invariant todo <= users.Keys
      invariant count == |set k | k in users && k !in todo && Admin(users[k])|
    {
      var name :| name in todo;
      ghost var seen := set k | k in users && k !in todo && Admin(users[k]);
      todo := todo - {name};
      ghost var now := set k | k in users && k !in todo && Admin(users[k]);
      assert now == if Admin(users[name]) then seen + {name} else seen;
      if Admin(users[name]) {
        count := count + 1;
      }
    }
    assert Admins(users) == set k | k in users && k !in todo && Admin(users[k]);
  }

  method EditKnown(current: PMap, edit: PMap) returns (edited: PMap)
    ensures edited == Edited(current, edit)
  {
    hide Defaults;
    edited := current;
    var todo := edit.Keys;
    while todo != {}
      invariant todo <= edit.Keys
      invariant edited == current + (map k | k in edit && k !in todo && k in Defaults() :: edit[k])
    {
      var k :| k in todo;
      if k in Defaults() {
        edited := edited[k := edit[k]];
      }
      todo := todo - {k};
    }
  }

  method DropSessions(sessions: Sessions, name: string, spared: Option<string>) returns (left: Sessions, revoked: nat)
    ensures left == Purged(sessions, name, spared)
    ensures revoked == |sessions| - |left|
  {
    hide Drops;
    var toDrop := set t | t in sessions && Drops(t, sessions[t], name, spared);
    left, revoked := DropAll(sessions, toDrop);
    assert left.Keys == sessions.Keys - toDrop;
    assert left == Purged(sessions, name, spared);
  }

  method DropAll(sessions: Sessions, toDrop: set<string>) returns (left: Sessions, revoked: nat)
    requires toDrop <= sessions.Keys
    ensures left.Keys == sessions.Keys - toDrop && forall t :: t in left ==> left[t] == sessions[t]
    ensures revoked == |toDrop|
  {
    left, revoked := sessions, 0;
    var todo := toDrop;
    while todo != {}
      invariant todo <= toDrop
      invariant left.Keys == sessions.Keys - (toDrop - todo) && forall t :: t in left ==> left[t] == sessions[t]
      invariant revoked + |todo| == |toDrop|
    {
      var token :| token in todo;
      left := left - {token};
      revoked := revoked + 1;
      todo := todo - {token};
    }
  }

  method MoveSessions(sessions: Sessions, o: string, n: string) returns (moved: Sessions)
    ensures moved == Moved(sessions, o, n)
  {
    hide Normalize;
    moved := sessions;
    var todo := sessions.Keys;
    while todo != {}
      invariant todo <= sessions.Keys
      invariant moved == map t | t in sessions :: if t in todo then sessions[t] else MoveOne(sessions[t], o, n)
    {
      var token :| token in todo;
      if Normalize(sessions[token].username) == o {
        moved := moved[token := sessions[token].(username := n)];
      }
      todo := todo - {token};
    }
  }
}
