/** auth.json (core/auth.py, core/atomic_io.py): what constructing an
    `AuthManager` makes of a file, and what a crash during a save leaves. */
module AuthFile {
  import opened Options
  import opened Text
  import opened AuthState

  /** The contents of auth.json that matter here: the old single-user format,
      or the members of the `users` object in file order. */
  datatype Config =
    | Missing
    | Unreadable
    | SingleUser(username: Option<string>, passwordHash: string)
    | MultiUser(entries: seq<(string, User)>)

  // ---------------------------------------------------------------------
  // Construction
  // ---------------------------------------------------------------------

  /** Keys are normalised; a later member replaces an earlier one. */
  function FromEntries(entries: seq<(string, User)>): Users {
    if entries == [] then map[] else
    var last := entries[|entries| - 1];
    FromEntries(entries[..|entries| - 1])[Normalize(last.0) := last.1]
  }

  /** `str(config.get("username", "admin") or "admin").strip().lower()`. */
  function LegacyName(username: Option<string>): string {
    var name := Normalize(if username == None || username.value == "" then "admin" else username.value);
    if name in RESERVED then "admin" else name
  }

  function LegacyUser(hash: string): User {
    User(hash, Some(true), None, None, None)
  }

  /** The table after reading the file and migrating the single-user format. */
  function Read(file: Config): Users {
    match file
    case Missing => map[]
    case Unreadable => map[]
    case SingleUser(username, hash) => map[LegacyName(username) := LegacyUser(hash)]
    case MultiUser(entries) => FromEntries(entries)
  }

  predicate Kept(name: string) {
    Normalize(name) != "" && Normalize(name) !in RESERVED
  }

  function WithoutReserved(users: Users): Users {
    map k | k in users && Kept(k) :: users[k]
  }

  /** The old marker role="admin" counts only where `is_admin` is absent. */
  function MigrateRole(u: User): User {
    if u.role == Some("admin") && u.isAdmin == None then u.(isAdmin := Some(true)) else u
  }

  function MigrateRoles(users: Users): Users {
    map k | k in users :: MigrateRole(users[k])
  }

  /** The user table of an `AuthManager` constructed on `file`. */
  function Loaded(file: Config): Users {
    MigrateRoles(WithoutReserved(Read(file)))
  }

  /** Whether construction writes the table back. */
  predicate Rewrites(file: Config) {
    || file.SingleUser?
    || WithoutReserved(Read(file)) != Read(file)
    || Loaded(file) != WithoutReserved(Read(file))
  }

  /** `entries` lists the table `users`, in some order. */
  ghost predicate Lists(entries: seq<(string, User)>, users: Users) {
    && (forall i, j :: 0 <= i < j < |entries| ==> entries[i].0 != entries[j].0)
    && (forall i :: 0 <= i < |entries| ==> entries[i].0 in users && users[entries[i].0] == entries[i].1)
    && (forall k :: k in users ==> exists i :: 0 <= i < |entries| && entries[i].0 == k)
  }

  /** The file after construction, `entries` being the order in which a save lists the table. */
  function FileAfter(file: Config, entries: seq<(string, User)>): Config {
    if Rewrites(file) then MultiUser(entries) else file
  }

  ghost predicate RolesMigrated(users: Users) {
    forall k :: k in users ==> MigrateRole(users[k]) == users[k]
  }

  lemma {:induction false} FromEntriesNormal(entries: seq<(string, User)>)
    ensures forall k :: k in FromEntries(entries) ==> Normalize(k) == k
  {
    hide Normalize;
    if entries != [] {
      FromEntriesNormal(entries[..|entries| - 1]);
      NormalizeIdempotent(entries[|entries| - 1].0);
    }
  }

  lemma ReadNormal(file: Config)
    ensures forall k :: k in Read(file) ==> Normalize(k) == k
  {
    match file
    case MultiUser(entries) => FromEntriesNormal(entries);
    case SingleUser(username, _) =>
      NormalizeIdempotent(if username == None || username.value == "" then "admin" else username.value);
      AdminIsNormal();
    case _ =>
  }

  lemma AdminIsNormal()
    ensures Normalize("admin") == "admin"
  {
    StripShape("admin");
    assert Stripped("admin");
    assert Lower("admin") == "admin";
  }

  /** From construction on every key is normalised, not empty and not reserved. */
  lemma LoadedIsGood(file: Config)
    ensures GoodNames(Loaded(file)) && RolesMigrated(Loaded(file))
  {
    hide Normalize, Read;
    ReadNormal(file);
  }

  /** A listed table reads back as it is when its names are good. */
  lemma {:induction false} ReadBack(entries: seq<(string, User)>, users: Users)
    requires Lists(entries, users) && (forall k :: k in users ==> Normalize(k) == k)
    ensures FromEntries(entries) == users
  {
    hide Normalize;
    if entries == [] {
      assert users == map[];
    } else {
      var last := entries[|entries| - 1];
      var front := entries[..|entries| - 1];
      var rest := users - {last.0};
      forall k | k in rest
        ensures exists i :: 0 <= i < |front| && front[i].0 == k
      {
        var i :| 0 <= i < |entries| && entries[i].0 == k;
        assert front[i].0 == k;
      }
      ReadBack(front, rest);
      assert rest[last.0 := last.1] == users;
    }
  }

  /** Saving a well-formed table and constructing again gives the same table. */
  lemma SaveThenLoad(entries: seq<(string, User)>, users: Users)
    requires Lists(entries, users) && GoodNames(users) && RolesMigrated(users)
    ensures Loaded(MultiUser(entries)) == users && !Rewrites(MultiUser(entries))
  {
    hide Normalize;
    ReadBack(entries, users);
    assert WithoutReserved(users) == users;
    assert MigrateRoles(users) == users;
  }

  /** Constructing a second time changes neither the table nor the file. */
  lemma ConstructionIsIdempotent(file: Config, entries: seq<(string, User)>, again: seq<(string, User)>)
    requires Lists(entries, Loaded(file))
    ensures Loaded(FileAfter(file, entries)) == Loaded(file)
    ensures FileAfter(FileAfter(file, entries), again) == FileAfter(file, entries)
  {
    hide Normalize, Loaded;
    LoadedIsGood(file);
    SaveThenLoad(entries, Loaded(file));
  }

  /** The legacy name is blank exactly when the file holds only white space for it. */
  lemma LegacyNameBlank(username: Option<string>)
    ensures LegacyName(username) == "" <==>
            username.Some? && username.value != "" && Strip(username.value) == ""
  {
    AdminIsNormal();
    hide Strip;
  }

  /** Migrating the single-user format keeps the account as administrator,
      except when its name is blank: then the table is empty. */
  lemma LegacyMigration(username: Option<string>, hash: string)
    ensures var users := Loaded(SingleUser(username, hash)); var name := LegacyName(username);
            if name == "" then users == map[]
            else users == map[name := LegacyUser(hash)] && Admins(users) == {name} && users[name].passwordHash == hash
  {
    hide Normalize, Strip;
    var name := LegacyName(username);
    ReadNormal(SingleUser(username, hash));
    assert name in Read(SingleUser(username, hash));
    assert name !in RESERVED;
    var users := Loaded(SingleUser(username, hash));
    if name != "" {
      assert Kept(name);
      assert users == map[name := LegacyUser(hash)];
      assert name in users && Admin(users[name]);
    }
  }

  /** The last member of the file whose name becomes `k`. */
  ghost predicate LastOf(entries: seq<(string, User)>, k: string, i: int) {
    && 0 <= i < |entries| && Normalize(entries[i].0) == k
    && forall j :: i < j < |entries| ==> Normalize(entries[j].0) != k
  }

  lemma {:induction false} FromEntriesLast(entries: seq<(string, User)>, k: string)
    ensures k in FromEntries(entries) <==> exists i :: 0 <= i < |entries| && Normalize(entries[i].0) == k
    ensures forall i :: LastOf(entries, k, i) ==> k in FromEntries(entries) && FromEntries(entries)[k] == entries[i].1
  {
    hide Normalize;
    if entries != [] {
      var front, last := entries[..|entries| - 1], entries[|entries| - 1];
      FromEntriesLast(front, k);
      assert forall i :: 0 <= i < |front| ==> front[i] == entries[i];
      forall i | LastOf(entries, k, i)
        ensures k in FromEntries(entries) && FromEntries(entries)[k] == entries[i].1
      {
        if i < |front| {
          assert entries[|front|] == last;
          assert LastOf(front, k, i);
        }
      }
      assert Normalize(last.0) == k ==> entries[|front|] == last;
    }
  }

  /** Loading a file with users: exactly the names in normal form that are neither
      empty nor reserved, each with the record that stands last for it, of which
      only a missing administrator flag is filled in from the old role. */
  lemma LoadedExactly(entries: seq<(string, User)>, k: string)
    ensures var users := Loaded(MultiUser(entries));
            && (k in users <==> k != "" && k !in RESERVED && exists i :: 0 <= i < |entries| && Normalize(entries[i].0) == k)
            && forall i :: LastOf(entries, k, i) && k in users ==>
                 users[k] == if entries[i].1.isAdmin == None && entries[i].1.role == Some("admin")
                             then entries[i].1.(isAdmin := Some(true)) else entries[i].1
  {
    FromEntriesLast(entries, k);
    FromEntriesNormal(entries);
    hide Normalize, FromEntries, LastOf;
    if exists i :: 0 <= i < |entries| && Normalize(entries[i].0) == k {
      assert Normalize(k) == k;
    }
  }

  lemma ApplyKeepsRoles(users: Users, op: Op)
    requires RolesMigrated(users)
    ensures RolesMigrated(Apply(users, op))
  {
    hide Normalize;
  }

  lemma {:induction false} RunKeepsRoles(users: Users, ops: seq<Op>)
    requires RolesMigrated(users)
    ensures RolesMigrated(Run(users, ops))
    decreases |ops|
  {
    hide Normalize, Apply;
    if ops != [] {
      ApplyKeepsRoles(users, ops[0]);
      RunKeepsRoles(Apply(users, ops[0]), ops[1..]);
    }
  }

  // ---------------------------------------------------------------------
  // Atomic writes and crashes
  // ---------------------------------------------------------------------

  datatype Content = Torn | Whole(config: Config)

  /** A directory entry; `synced` says that its content has reached the disk. */
  datatype Node = NoFile | File(content: Content, synced: bool)

  datatype Files = Files(live: Node, tmp: Node)

  /** The calls of `atomic_write_json`, in order. */
  datatype WriteCall = MakeDirs | OpenTmp | Dump | Flush | Fsync | Replace

  const CALLS: seq<WriteCall> := [MakeDirs, OpenTmp, Dump, Flush, Fsync, Replace]

  /** One call; `Dump` fills the buffer of the process, so the file is still torn. */
  function Perform(files: Files, call: WriteCall, config: Config): Files {
    match call
    case MakeDirs => files
    case OpenTmp => files.(tmp := File(Torn, false))
    case Dump => files
    case Flush => files.(tmp := File(Whole(config), false))
    case Fsync => if files.tmp.File? then files.(tmp := files.tmp.(synced := true)) else files
    case Replace => Files(files.tmp, NoFile)
  }

  /** The files after the first `n` calls. */
  function PerformFirst(files: Files, n: nat, config: Config): Files
    requires n <= |CALLS|
  {
    if n == 0 then files else Perform(PerformFirst(files, n - 1, config), CALLS[n - 1], config)
  }

  /** What the live entry may hold after a crash that follows the first `n` calls:
      content that was not synced can be torn, and since the directory is not
      synced, a replacement that was made can be undone. */
  predicate Survives(files: Files, n: nat, config: Config, crashed: Node)
    requires n <= |CALLS|
  {
    var live := PerformFirst(files, n, config).live;
    || crashed == live
    || (live.File? && !live.synced && crashed == File(Torn, true))
    || (n == |CALLS| && crashed == files.live)
  }

  function OnDisk(node: Node): Config {
    match node
    case NoFile => Missing
    case File(Torn, _) => Unreadable
    case File(Whole(config), _) => config
  }

  /** A crash before, between or after the calls leaves the old or the new file
      whole, and the old one unless all calls were made. */
  lemma CrashIsAtomic(files: Files, config: Config, done: nat, crashed: Node)
    requires files.live.File? ==> files.live.synced
    requires done <= |CALLS| && Survives(files, done, config, crashed)
    ensures crashed == files.live || (done == |CALLS| && crashed == File(Whole(config), true))
  {
    assert PerformFirst(files, 0, config) == files;
    assert PerformFirst(files, 1, config) == files;
    var f2 := PerformFirst(files, 2, config);
    assert f2 == Files(files.live, File(Torn, false));
    assert PerformFirst(files, 3, config) == f2;
    var f4 := PerformFirst(files, 4, config);
    assert f4 == Files(files.live, File(Whole(config), false));
    var f5 := PerformFirst(files, 5, config);
    assert f5 == Files(files.live, File(Whole(config), true));
  }

  /** One save of one operation in a run that started from any file: after a
      crash at any point of the save, a new manager has the table from before
      or from after the operation, and the one from before if the save was not
      complete. */
  lemma CrashThenReload(
      file: Config, ops: seq<Op>, op: Op, files: Files, entries: seq<(string, User)>, done: nat, crashed: Node)
    requires files.live.File? ==> files.live.synced
    requires Loaded(OnDisk(files.live)) == Run(Loaded(file), ops)
    requires Lists(entries, Apply(Run(Loaded(file), ops), op))
    requires done <= |CALLS| && Survives(files, done, MultiUser(entries), crashed)
    ensures || Loaded(OnDisk(crashed)) == Run(Loaded(file), ops)
            || (done == |CALLS| && Loaded(OnDisk(crashed)) == Apply(Run(Loaded(file), ops), op))
  {
    hide Run, Apply, Loaded, Lists;
    var users := Run(Loaded(file), ops);
    LoadedIsGood(file);
    NamesStayGood(Loaded(file), ops);
    RunKeepsRoles(Loaded(file), ops);
    ApplyKeepsNames(users, op);
    ApplyKeepsRoles(users, op);
    CrashIsAtomic(files, MultiUser(entries), done, crashed);
    SaveThenLoad(entries, Apply(users, op));
  }

  /** The directory that holds auth.json. */
  class Directory {
    var files: Files

    /** `atomic_write_json`; `history` records the directory before the first
        call and after each one, which is where a crash can strike. */
    method AtomicWriteJson(config: Config) returns (ghost history: seq<Files>)
      modifies this
      ensures files == Files(File(Whole(config), true), NoFile)
      ensures |history| == |CALLS| + 1
      ensures forall i :: 0 <= i < |history| ==> history[i] == PerformFirst(old(files), i, config)
    {
      history := [files];
      for i := 0 to |CALLS|
        invariant |history| == i + 1 && files == history[i]
        invariant forall j :: 0 <= j <= i ==> history[j] == PerformFirst(old(files), j, config)
      {
        files := Perform(files, CALLS[i], config);
        history := history + [files];
      }
      ghost var whole := Whole(config);
      ghost var base := history[1];
      assert history[1] == history[0];
      assert history[2].tmp == File(Torn, false) && history[3] == history[2];
      assert history[4].tmp == File(whole, false);
      assert history[5].tmp == File(whole, true);
    }
  }
}
