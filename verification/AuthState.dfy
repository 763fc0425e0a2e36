/** The user table of core/auth.py as a value: what each operation of
    `AuthManager` does to it, and what every run of operations keeps. */
module AuthState {
  import opened Options
  import opened Text
  import opened Privileges

  /** Names that stand for synthetic owners and may belong to no account. */
  const RESERVED: set<string> := {"internal-tool", "api", "demo", "system"}

  /** A stored record; a field that the JSON record lacks is `None`. */
  datatype User = User(
    passwordHash: string,
    isAdmin: Option<bool>,
    role: Option<string>,
    privileges: Option<PMap>,
    stash: Option<PMap>)

  type Users = map<string, User>

  datatype SetAdminResult = Done | UserNotFound | NotAuthorized | LastAdmin

  predicate Admin(u: User) {
    u.isAdmin == Some(true)
  }

  predicate AdminNamed(users: Users, name: string) {
    name in users && Admin(users[name])
  }

  function Admins(users: Users): set<string> {
    set k | k in users && Admin(users[k])
  }

  /** `get_privileges` of a record. */
  function Effective(u: User): PMap {
    if Admin(u) then AdminMap()
    else WithDefaults(if u.privileges.Some? then u.privileges.value else map[])
  }

  function EffectiveOf(users: Users, name: string): PMap {
    if name in users then Effective(users[name]) else WithDefaults(map[])
  }

  predicate GoodName(name: string) {
    name != "" && name == Normalize(name) && name !in RESERVED
  }

  /** Every key is normalised, not empty and not reserved. */
  predicate GoodNames(users: Users) {
    forall k :: k in users ==> GoodName(k)
  }

  // ---------------------------------------------------------------------
  // Operations
  // ---------------------------------------------------------------------

  function NewUser(hash: string, admin: bool): User {
    User(hash, Some(admin), None, Some(if admin then AdminMap() else Defaults()), None)
  }

  predicate CanCreate(users: Users, raw: string) {
    var name := Normalize(raw);
    name != "" && name !in RESERVED && name !in users
  }

  function Create(users: Users, raw: string, hash: string, admin: bool): Users {
    if CanCreate(users, raw) then users[Normalize(raw) := NewUser(hash, admin)] else users
  }

  /** First-run setup creates an administrator, and only in an empty table. */
  function Setup(users: Users, raw: string, hash: string): Users {
    if users == map[] then Create(users, raw, hash, true) else users
  }

  /** `who` is compared as given; `tokensRevoked` is the outcome of revoking API tokens. */
  predicate CanDelete(users: Users, raw: string, who: string, tokensRevoked: bool) {
    var name := Normalize(raw);
    name in users && name != who && AdminNamed(users, who) && tokensRevoked
  }

  function Delete(users: Users, raw: string, who: string, tokensRevoked: bool): Users {
    if CanDelete(users, raw, who, tokensRevoked) then users - {Normalize(raw)} else users
  }

  predicate CanRename(users: Users, old0: string, new0: string, who: string) {
    var (o, n) := (Normalize(old0), Normalize(new0));
    o != "" && n != "" && n !in RESERVED && o in users && n !in users && AdminNamed(users, Normalize(who))
  }

  function Rename(users: Users, old0: string, new0: string, who: string): Users {
    if CanRename(users, old0, new0, who) then
      (users - {Normalize(old0)})[Normalize(new0) := users[Normalize(old0)]]
    else users
  }

  predicate CanSetPrivileges(users: Users, raw: string) {
    Normalize(raw) in users && !Admin(users[Normalize(raw)])
  }

  /** The effective map with the known keys of `edit` replaced. */
  function Edited(current: PMap, edit: PMap): PMap {
    current + (map k | k in edit && k in Defaults() :: edit[k])
  }

  function SetPrivileges(users: Users, raw: string, edit: PMap): Users {
    if CanSetPrivileges(users, raw) then
      var u := users[Normalize(raw)];
      users[Normalize(raw) := u.(privileges := Some(Edited(Effective(u), edit)))]
    else users
  }

  /** `m or DEFAULT_PRIVILEGES`. */
  function OrDefaults(m: Option<PMap>): PMap {
    if m == None || m.value == map[] then Defaults() else m.value
  }

  function Promoted(u: User): User {
    u.(isAdmin := Some(true), stash := Some(OrDefaults(u.privileges)), privileges := Some(AdminMap()))
  }

  function Demoted(u: User): User {
    u.(privileges := Some(OrDefaults(u.stash)), stash := None, isAdmin := Some(false))
  }

  function SetAdminOutcome(users: Users, raw: string, on: bool, who: string): SetAdminResult {
    var name := Normalize(raw);
    if name !in users then UserNotFound
    else if !AdminNamed(users, Normalize(who)) then NotAuthorized
    else if Admin(users[name]) && !on && |Admins(users)| <= 1 then LastAdmin
    else Done
  }

  function SetAdmin(users: Users, raw: string, on: bool, who: string): Users {
    var name := Normalize(raw);
    if SetAdminOutcome(users, raw, on, who) != Done || Admin(users[name]) == on then users
    else users[name := if on then Promoted(users[name]) else Demoted(users[name])]
  }

  /** `verified` says that the current password was given. */
  function ChangePassword(users: Users, raw: string, verified: bool, hash: string): Users {
    var name := Normalize(raw);
    if name in users && verified then users[name := users[name].(passwordHash := hash)] else users
  }

  // ---------------------------------------------------------------------
  // Runs
  // ---------------------------------------------------------------------

  datatype Op =
    | OpSetup(name: string, hash: string)
    | OpCreate(name: string, hash: string, admin: bool)
    | OpDelete(name: string, who: string, tokensRevoked: bool)
    | OpRename(name: string, newName: string, who: string)
    | OpSetPrivileges(name: string, edit: PMap)
    | OpSetAdmin(name: string, on: bool, who: string)
    | OpChangePassword(name: string, verified: bool, hash: string)

  function Apply(users: Users, op: Op): Users {
    match op
    case OpSetup(name, hash) => Setup(users, name, hash)
    case OpCreate(name, hash, admin) => Create(users, name, hash, admin)
    case OpDelete(name, who, revoked) => Delete(users, name, who, revoked)
    case OpRename(name, newName, who) => Rename(users, name, newName, who)
    case OpSetPrivileges(name, edit) => SetPrivileges(users, name, edit)
    case OpSetAdmin(name, on, who) => SetAdmin(users, name, on, who)
    case OpChangePassword(name, verified, hash) => ChangePassword(users, name, verified, hash)
  }

  function Run(users: Users, ops: seq<Op>): Users
    decreases |ops|
  {
    if ops == [] then users else Run(Apply(users, ops[0]), ops[1..])
  }

  // ---------------------------------------------------------------------
  // No lockout, and well-formed names
  // ---------------------------------------------------------------------

  lemma ApplyKeepsAdmin(users: Users, op: Op)
    requires Admins(users) != {}
    ensures Admins(Apply(users, op)) != {}
  {
    var after := Apply(users, op);
    var a :| a in Admins(users);
    match op
    case OpDelete(name, who, _) =>
      if after != users { assert who in Admins(after); }
    case OpRename(name, newName, who) =>
      if after != users {
        var w := if a == Normalize(name) then Normalize(newName) else a;
        assert w in Admins(after);
      }
    case OpSetAdmin(name, on, who) =>
      if after != users {
        var n := Normalize(name);
        if on {
          assert n in Admins(after);
        } else {
          var b := OtherThan(Admins(users), n);
          assert b in Admins(after);
        }
      }
    case OpChangePassword(name, _, _) =>
      assert a in Admins(after);
    case OpSetPrivileges(name, _) =>
      assert a in Admins(after);
    case _ =>
      assert a in Admins(after);
  }

  lemma OtherThan(s: set<string>, x: string) returns (y: string)
    requires |s| > 1
    ensures y in s && y != x
  {
    if s - {x} == {} {
      assert s <= {x};
      SubsetSize(s, {x});
    }
    y :| y in s - {x};
  }

  lemma SubsetSize(a: set<string>, b: set<string>)
    requires a <= b
    ensures |a| <= |b|
  {
    assert b == a + (b - a);
  }

  /** Once there is an administrator, no run of operations leaves none. */
  lemma {:induction false} NoLockout(users: Users, ops: seq<Op>)
    requires Admins(users) != {}
    ensures Admins(Run(users, ops)) != {}
    decreases |ops|
  {
    if ops != [] {
      ApplyKeepsAdmin(users, ops[0]);
      NoLockout(Apply(users, ops[0]), ops[1..]);
    }
  }

  /** An accepted creation adds one account, with the given password, that is an
      administrator exactly if asked, has the privileges of its kind, and has
      nothing of an earlier account of that name. */
  lemma CreationAddsAccount(users: Users, raw: string, hash: string, admin: bool)
    ensures var (name, after) := (Normalize(raw), Create(users, raw, hash, admin));
            if name == "" || name in RESERVED || name in users then after == users
            else && after.Keys == users.Keys + {name}
                 && Admins(after) == Admins(users) + (if admin then {name} else {})
                 && after[name].passwordHash == hash && after[name].stash == None
                 && EffectiveOf(after, name) == (if admin then AdminMap() else Defaults())
                 && (forall k :: k in users ==> after[k] == users[k])
  {
    hide Normalize, Defaults, AdminMap;
    AdminMapCoversDefaults();
    assert Defaults() + Defaults() == Defaults();
  }

  /** Setup is accepted in an empty table only, and makes its one account the
      administrator. */
  lemma SetupMakesAdministrator(users: Users, raw: string, hash: string)
    ensures var (name, after) := (Normalize(raw), Setup(users, raw, hash));
            if users != map[] || name == "" || name in RESERVED then after == users
            else after.Keys == Admins(after) == {name} && after[name].passwordHash == hash
  {
    hide Normalize, Defaults, AdminMap;
    CreationAddsAccount(users, raw, hash, true);
  }

  /** So from the empty table on, every run that begins with an accepted setup has
      an administrator at its end. */
  lemma NoLockoutAfterSetup(raw: string, hash: string, ops: seq<Op>)
    requires Normalize(raw) != "" && Normalize(raw) !in RESERVED
    ensures Admins(Run(map[], [OpSetup(raw, hash)] + ops)) != {}
  {
    hide Normalize, Setup, Admins;
    SetupMakesAdministrator(map[], raw, hash);
    var first := OpSetup(raw, hash);
    assert ([first] + ops)[0] == first && ([first] + ops)[1..] == ops;
    NoLockout(Apply(map[], first), ops);
  }

  lemma {:induction false} NamesStayGood(users: Users, ops: seq<Op>)
    requires GoodNames(users)
    ensures GoodNames(Run(users, ops))
    decreases |ops|
  {
    hide Normalize, Apply;
    if ops != [] {
      ApplyKeepsNames(users, ops[0]);
      NamesStayGood(Apply(users, ops[0]), ops[1..]);
    }
  }

  lemma ApplyKeepsNames(users: Users, op: Op)
    requires GoodNames(users)
    ensures GoodNames(Apply(users, op))
  {
    NormalizeIdempotent(op.name);
    if op.OpRename? {
      NormalizeIdempotent(op.newName);
    }
  }

  /** Demotion is refused as the last one exactly when it would leave no
      administrator; an accepted change has exactly the requested effect on the
      set of administrators. */
  lemma SetAdminRefusesOnlyLockout(users: Users, raw: string, on: bool, who: string)
    ensures SetAdminOutcome(users, raw, on, who) == UserNotFound <==> Normalize(raw) !in users
    ensures SetAdminOutcome(users, raw, on, who) == NotAuthorized <==>
            Normalize(raw) in users && Normalize(who) !in Admins(users)
    ensures SetAdminOutcome(users, raw, on, who) == LastAdmin <==>
            Normalize(who) in Admins(users) && !on && Admins(users) == {Normalize(raw)}
    ensures SetAdminOutcome(users, raw, on, who) != Done ==> SetAdmin(users, raw, on, who) == users
    ensures SetAdminOutcome(users, raw, on, who) == Done ==>
              Admins(SetAdmin(users, raw, on, who)) ==
                if on then Admins(users) + {Normalize(raw)} else Admins(users) - {Normalize(raw)}
  {
    var name := Normalize(raw);
    var admins := Admins(users);
    if name in admins && |admins| <= 1 {
      assert |admins - {name}| == 0;
      assert admins == {name};
    }
  }

  /** An operation changes the records of the names that it is about, and no others. */
  lemma ApplyTouchesOnlyNamed(users: Users, op: Op, k: string)
    requires k != Normalize(op.name) && (op.OpRename? ==> k != Normalize(op.newName))
    ensures k in Apply(users, op) <==> k in users
    ensures k in users ==> Apply(users, op)[k] == users[k]
  {
    hide Normalize, AdminMap, Defaults;
  }

  /** Whatever changes the table was allowed to: setup of an empty table; an
      administrator who deletes somebody else, with that account's API tokens
      revoked, or who renames or sets a flag; an edit of a plain account's
      privileges; a password change with the current password. */
  predicate Allowed(users: Users, op: Op) {
    match op
    case OpSetup(_, _) => users == map[]
    case OpCreate(name, _, _) => Normalize(name) !in users
    case OpDelete(name, who, revoked) => who in users && users[who].isAdmin == Some(true) && who != Normalize(name) && revoked
    case OpRename(_, _, who) => Normalize(who) in users && users[Normalize(who)].isAdmin == Some(true)
    case OpSetPrivileges(name, _) => Normalize(name) in users && users[Normalize(name)].isAdmin != Some(true)
    case OpSetAdmin(_, _, who) => Normalize(who) in users && users[Normalize(who)].isAdmin == Some(true)
    case OpChangePassword(_, verified, _) => verified
  }

  lemma ChangesAreAllowed(users: Users, op: Op)
    requires Apply(users, op) != users
    ensures Allowed(users, op)
  {
    hide Normalize, Defaults, AdminMap;
  }

  /** A record under the same name keeps its password through every operation but
      a verified change of it, which stores the new one and nothing else. */
  lemma PasswordsAreKept(users: Users, op: Op, k: string)
    requires k in users && k in Apply(users, op)
    ensures var (before, after) := (users[k], Apply(users, op)[k]);
            if op.OpChangePassword? && op.verified && k == Normalize(op.name)
            then after == before.(passwordHash := op.hash)
            else after.passwordHash == before.passwordHash
  {
    hide Normalize, Defaults, AdminMap;
  }

  /** A permitted deletion removes the account, and a permitted rename gives the
      record as it is to the free name. */
  lemma DeletedAndRenamed(users: Users, raw: string, newName: string, who: string)
    requires who in users && users[who].isAdmin == Some(true) && Normalize(who) == who && Normalize(raw) in users
    ensures who != Normalize(raw) ==> Delete(users, raw, who, true) == users - {Normalize(raw)}
    ensures Normalize(raw) != "" && GoodName(Normalize(newName)) && Normalize(newName) !in users ==>
              var after := Rename(users, raw, newName, who);
              && after.Keys == users.Keys - {Normalize(raw)} + {Normalize(newName)}
              && after[Normalize(newName)] == users[Normalize(raw)]
  {
    hide Normalize;
  }

  /** Who may make an administrator: setup of an empty table, an account created
      as one, or an administrator who promotes or renames. */
  predicate Authorised(users: Users, op: Op) {
    match op
    case OpSetup(_, _) => users == map[]
    case OpCreate(_, _, admin) => admin
    case OpSetAdmin(_, on, who) => on && AdminNamed(users, Normalize(who))
    case OpRename(name, _, who) => AdminNamed(users, Normalize(name)) && AdminNamed(users, Normalize(who))
    case _ => false
  }

  lemma AdminsGrowByAuthority(users: Users, op: Op, k: string)
    requires k in Admins(Apply(users, op)) && k !in Admins(users)
    ensures Authorised(users, op)
  {
    hide Normalize, AdminMap, Defaults;
  }

  /** Over a run: somebody who is an administrator at the end was one at the
      start, or some operation of the run was authorised to make one. */
  lemma {:induction false} AdminsComeFromAuthority(users: Users, ops: seq<Op>, k: string)
    requires k in Admins(Run(users, ops)) && k !in Admins(users)
    ensures exists i :: 0 <= i < |ops| && Authorised(Run(users, ops[..i]), ops[i])
    decreases |ops|
  {
    hide Normalize, Apply, Authorised, Admins;
    var next := Apply(users, ops[0]);
    if k in Admins(next) {
      AdminsGrowByAuthority(users, ops[0], k);
      assert ops[..0] == [] && Authorised(Run(users, ops[..0]), ops[0]);
    } else {
      AdminsComeFromAuthority(next, ops[1..], k);
      var i :| 0 <= i < |ops[1..]| && Authorised(Run(next, ops[1..][..i]), ops[1..][i]);
      assert ops[..i + 1][1..] == ops[1..][..i];
      assert Run(users, ops[..i + 1]) == Run(next, ops[1..][..i]);
      assert Authorised(Run(users, ops[..i + 1]), ops[i + 1]);
    }
  }

  // ---------------------------------------------------------------------
  // Promotion is reversible
  // ---------------------------------------------------------------------

  /** The name that the account called `name` has after one operation, as long
      as it is neither deleted nor demoted. */
  function FollowOne(users: Users, op: Op, name: string): Option<string> {
    match op
    case OpDelete(raw, who, revoked) =>
      if CanDelete(users, raw, who, revoked) && Normalize(raw) == name then None else Some(name)
    case OpRename(raw, newName, who) =>
      if CanRename(users, raw, newName, who) && Normalize(raw) == name then Some(Normalize(newName)) else Some(name)
    case OpSetAdmin(raw, on, who) =>
      if !on && Normalize(raw) == name && SetAdminOutcome(users, raw, on, who) == Done then None else Some(name)
    case _ => Some(name)
  }

  function Follow(users: Users, ops: seq<Op>, name: string): Option<string>
    decreases |ops|
  {
    if ops == [] then Some(name) else
    var next := FollowOne(users, ops[0], name);
    if next == None then None else Follow(Apply(users, ops[0]), ops[1..], next.value)
  }

  /** A promoted account that still holds the stash `kept`. */
  predicate Holds(users: Users, name: string, kept: PMap) {
    AdminNamed(users, name) && users[name].stash == Some(kept)
  }

  lemma ApplyKeepsStash(users: Users, op: Op, name: string, kept: PMap)
    requires Holds(users, name, kept) && FollowOne(users, op, name).Some?
    ensures Holds(Apply(users, op), FollowOne(users, op, name).value, kept)
  {
  }

  lemma {:induction false} RunKeepsStash(users: Users, ops: seq<Op>, name: string, kept: PMap)
    requires Holds(users, name, kept) && Follow(users, ops, name).Some?
    ensures Holds(Run(users, ops), Follow(users, ops, name).value, kept)
    decreases |ops|
  {
    hide Normalize, Apply, FollowOne;
    if ops != [] {
      ApplyKeepsStash(users, ops[0], name, kept);
      RunKeepsStash(Apply(users, ops[0]), ops[1..], FollowOne(users, ops[0], name).value, kept);
    }
  }

  /** Promote, any run in which the account is neither deleted nor demoted
      (renames and attempted edits included), demote: the effective privileges
      are those from before, also for a missing or an empty stored map. */
  lemma PromotionIsReversible(users: Users, raw: string, who: string, ops: seq<Op>, last: string, who2: string)
    requires Normalize(raw) in users && !AdminNamed(users, Normalize(raw))
    requires SetAdminOutcome(users, raw, true, who) == Done
    requires var promoted := SetAdmin(users, raw, true, who);
             && Follow(promoted, ops, Normalize(raw)) == Some(Normalize(last))
             && SetAdminOutcome(Run(promoted, ops), last, false, who2) == Done
    ensures var promoted := SetAdmin(users, raw, true, who);
            && EffectiveOf(promoted, Normalize(raw)) == AdminMap()
            && EffectiveOf(Run(promoted, ops), Normalize(last)) == AdminMap()
            && EffectiveOf(SetAdmin(Run(promoted, ops), last, false, who2), Normalize(last))
                 == EffectiveOf(users, Normalize(raw))
  {
    hide Defaults, AdminMap, Normalize;
    var u := users[Normalize(raw)];
    var promoted := SetAdmin(users, raw, true, who);
    AdminMapCoversDefaults();
    RunKeepsStash(promoted, ops, Normalize(raw), OrDefaults(u.privileges));
    assert Defaults() + Defaults() == Defaults() == Defaults() + map[];
  }

  /** An account that was created as administrator, or promoted without a
      stash, demotes to the defaults; its stored map does not leak. */
  lemma DemotionWithoutStash(users: Users, raw: string, who: string)
    requires AdminNamed(users, Normalize(raw)) && users[Normalize(raw)].stash == None
    requires SetAdminOutcome(users, raw, false, who) == Done
    ensures EffectiveOf(SetAdmin(users, raw, false, who), Normalize(raw)) == Defaults()
    ensures EffectiveOf(SetAdmin(users, raw, false, who), Normalize(raw)) != AdminMap()
  {
    hide Defaults, AdminMap, Normalize;
    AdminMapCoversDefaults();
    assert Defaults() + Defaults() == Defaults();
  }

  /** An edit by an administrator changes exactly the known keys it names, and
      nothing of an administrator's privileges. */
  lemma EditTakesEffect(users: Users, raw: string, edit: PMap, k: string)
    requires Normalize(raw) in users && k in Defaults()
    ensures var before, after := EffectiveOf(users, Normalize(raw)), EffectiveOf(SetPrivileges(users, raw, edit), Normalize(raw));
            && k in before && k in after && after.Keys == before.Keys
            && after[k] == if k in edit && !AdminNamed(users, Normalize(raw)) then edit[k] else before[k]
  {
    hide Defaults, AdminMap, Normalize;
    AdminMapCoversDefaults();
  }
}
