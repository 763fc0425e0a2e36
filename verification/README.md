# Verified models of accounts, chat storage, calendar and benchmark

The repository is a self-hosted assistant. This project models in Dafny the
parts of it that hold state or rework text in ways that are easy to get wrong,
and proves what they promise for all inputs, all runs and, where the code runs
concurrently, all interleavings.

- **Accounts** (`Privileges`, `AuthState`, `AuthFile`, `AuthSessions`,
  `AuthManager`, `RenameRoute`, `PrivilegeReads`, `SessionSafety`,
  `BackupCodes`): the class `AuthManager.Manager` holds the user table, the
  sessions and the content of auth.json, and each method is proved against a
  function on values in `AuthState` and `AuthSessions`. Over these functions run
  the theorems: no lockout, reversible promotion, rename with rollback, crash
  and reload. Three modules are step systems. In `PrivilegeReads` every single
  read and write of a record field is a step; in `SessionSafety` and
  `BackupCodes` every critical section is one.
- **Chat storage** (`MessageStore`, `SessionStore`, `SessionManager`,
  `SessionRuns`, `SessionFailures`, `SessionSteps`, `SessionOrphans`,
  `SearchIndex`): message rows, the index
  that triggers keep beside them, and the cache of sessions in front. The class
  `SessionManager.Manager` is proved against functions on values; runs of them
  refine plain lists per session, of the texts as given and as stored. `SessionSteps` takes the operations apart
  into statements, commits and writes to the cache, any of which may fail.
- **Calendar** (`Recurrence`, `CalendarWindows`, `Occurrences`, `CivilTime`,
  `SortedText`, `StartText`, `IcsImport`, `IcsEscape`): expansion of a possibly
  infinite rule in a window against a test of every start, the order of a
  listing, deletion of single occurrences, import of files, and TEXT escaping
  against RFC 5545.
- **Text and evaluation** (`Text`, `JoinedText`, `DraftMerge`, `TokenScopes`,
  `MockTools`, `MockWorld`, `Evaluator`): email draft merging, token scopes, and the
  benchmark verdict over arbitrary replays.

Time is an integer, a file or a table is a value, and everything that comes
from outside is a parameter: password hashes and whether a password is right,
fresh tokens and ids, the clock, the outcome of commits and reservations,
parsed recurrence rules, regular expressions. The rendering of dates is a
parameter in the expansion, and `CivilTime` proves what is required of it for
the two formats in use.

Each operation has one function that says what it does. What that function means
is stated apart from it, on the fields of tables, records and texts: for example
`AuthState.CreationAddsAccount`, `MessageStore.IndexedIsFound`,
`CalendarWindows.ExpandedItem`, `IcsImport.ImportKeepsFile`,
`Evaluator.VerdictExactly`, `TokenScopes.RequestExactly`.

`dafny verify dfyconfig.toml` checks the whole project.

## Where the code falls short of its promise

For each point there is a lemma that says exactly when the promise holds.

- The draft merge is last-writer-wins exactly when the first reply carries no
  quote marker (`DraftMerge.LastWriterWins`).
- Adjacent windows compose exactly when no occurrence falls between them; a
  series without duration loses each start on a boundary
  (`CalendarWindows.WindowsCompose`, `CalendarWindows.ZeroDurationIsLost`).
- An event whose rule is white space only is listed after it has ended
  (`CalendarWindows.ShownIsDue`).
- A compound uid does not decode when the event's uid contains "::" or ends in
  a colon; deleting the occurrence then hits another event
  (`Occurrences.CompoundUidDecodes`, `Occurrences.UndecodableHitsAnother`).
- The comment at routes/calendar_routes.py:1548 speaks of the source uid, but
  the query compares start and summary: events with uids of their own are
  dropped, and events of one file are not compared with each other
  (`IcsImport.DroppedExactly`, `IcsImport.NoTwinsExactly`).
- Media that the trigger keeps out of the index is put into it by the next
  migration when it is text with no whole data URL around it
  (`SearchIndex.MediaReachesIndex`, `SearchIndex.RawTextReturns`).
- A failed append leaves the cache and then the stored count one message ahead
  (`SessionFailures.FailedAppendDrifts`, `SessionSteps.AppendInStepExactly`).
- The look-up of the session does not by itself keep a writer from leaving a
  message without a session; exactly foreign keys or strict updates do
  (`SessionOrphans.GuardsExactly`, `SessionOrphans.LateWriter`).
- Deleting a user ends its sessions exactly when no rename of that user is
  pending at the deletion, as long as none begins before the purge
  (`SessionSafety.DeletionEndsSessionsExactly`); with one that begins
  there every live token can outlive it
  (`SessionSafety.AnyDeletionCanBeOutlived`). After the purge tokens come back to the name exactly along chains of pending renames
  (`SessionSafety.AfterPurgeExactly`).
- A message with an inline data URL is returned as given until the session is
  loaded again, and then in its stored form
  (`SessionRuns.SurvivesRestartExactly`).
- A login with a backup code stores the list of codes that it looked up, even
  when a newer one was stored since (`BackupCodes.NewCodesStandExactly`,
  `BackupCodes.StoredListsExactly`).
- The migration of the single-user format loses the account when its name is
  blank (`AuthFile.LegacyMigration`).
- The comment at core/auth.py:326 says that `validate_token` does not look at
  the users; the code does, and the model follows the code.
- Group names that contain a bar can leave a required group unmet
  (`Evaluator.GuaranteedExactly`).

## Model

| member | source | states |
|---|---|---|
| AuthManager.Manager.constructor | core/auth.py:121-229 | From any auth.json the table in memory has only normalised, non-empty, non-reserved names and the file reads back as that table; sessions at or past their expiry are dropped |
| AuthManager.Manager.Setup | core/auth.py:262-267 | Creates an administrator, and only in an empty table |
| AuthManager.Manager.CreateUser | core/auth.py:269-290 | Succeeds exactly for a new, non-empty, non-reserved name; whole new table; the saved file reads back as it |
| AuthManager.Manager.DeleteUser | core/auth.py:292-339 | Who may delete whom; whole new table; exactly the deleted user's sessions are gone |
| AuthManager.Manager.RenameUser | core/auth.py:341-374 | Who may rename; the record moves unchanged; exactly the sessions of the old name move |
| AuthManager.Manager.GetPrivileges | core/auth.py:385-392 | The effective map: the admin map for administrators, else stored values over the defaults |
| AuthManager.Manager.SetPrivileges | core/auth.py:394-410 | Refused for administrators; else only known keys of the edit change |
| AuthManager.Manager.SetAdmin | core/auth.py:412-473 | The four outcomes with their exact conditions, and the whole new table |
| AuthManager.Manager.ChangePassword | core/auth.py:475-484 | Only the hash of the named, verified user changes |
| AuthManager.Manager.CreateSessionTrusted | core/auth.py:588-603 | A session is issued exactly for an existing user, with its expiry |
| AuthManager.Manager.ValidateToken | core/auth.py:605-628 | True exactly when `get_username_for_token` names somebody; drops dead tokens and nothing else |
| AuthManager.Manager.GetUsernameForToken | core/auth.py:630-653 | The user of an unexpired session if it exists; drops dead tokens and nothing else |
| AuthManager.Manager.RevokeUserSessions | core/auth.py:660-674 | Exactly the user's other sessions are gone, and the number is right |
| AuthManager.Manager.RevokeToken | core/auth.py:655-658 | Exactly the one session is gone |
| AuthManager.CountAdmins | core/auth.py:442-445 | The loop counts the administrators |
| AuthManager.EditKnown | core/auth.py:402-407 | The loop changes exactly the known keys |
| AuthManager.DropSessions | core/auth.py:329-335 | The loop drops exactly one user's sessions but the spared one |
| AuthManager.MoveSessions | core/auth.py:361-367 | The loop moves exactly the sessions of the old name |
| AuthState.NoLockout | core/auth.py:262-473 | No run of operations leaves a table with administrators without any |
| AuthState.NoLockoutAfterSetup | core/auth.py:262-473 | From the empty table, every run that begins with an accepted setup has an administrator at its end |
| AuthState.SetupMakesAdministrator | core/auth.py:262-267 | Setup is accepted in an empty table only, and its one account is the administrator, with the given password |
| AuthState.CreationAddsAccount | core/auth.py:269-290 | A creation adds one account with the given password, an administrator exactly if asked, with the privileges of its kind and nothing of an earlier account, and leaves all others |
| AuthState.ChangesAreAllowed | core/auth.py:262-484 | Whatever changes the table was allowed to: an administrator other than the deleted one with its API tokens revoked, an administrator who renames or sets a flag, an edit of a plain account, a verified password change |
| AuthState.PasswordsAreKept | core/auth.py:341-484 | Only a verified change alters a stored password, and it stores the new one and nothing else |
| AuthState.DeletedAndRenamed | core/auth.py:292-374 | A permitted deletion removes exactly the account; a permitted rename gives the record to the free name |
| AuthState.NamesStayGood | core/auth.py:262-473 | No run of operations makes a name that is empty, reserved or not normalised |
| AuthState.ApplyTouchesOnlyNamed | core/auth.py:262-473 | An operation leaves every record but those of the names that it is about |
| AuthState.AdminsComeFromAuthority | core/auth.py:262-473 | Whoever is an administrator after a run was one before, or a setup of an empty table, a creation as administrator, or a promotion or rename by an administrator was in it |
| AuthState.SetAdminRefusesOnlyLockout | core/auth.py:412-473 | When each of the outcomes is given: refused as the last one exactly when it would leave no administrator; an accepted change has exactly the asked effect on the set of administrators |
| AuthState.PromotionIsReversible | core/auth.py:439-471 | Promote, any run of operations with renames and attempted edits, demote: the effective privileges are those from before, also for a missing or empty stored map |
| AuthState.RunKeepsStash | core/auth.py:341-473 | Throughout such a run the account, under its current name, keeps the flag and the stash |
| AuthState.DemotionWithoutStash | core/auth.py:461-470 | A demoted administrator without a stash gets the defaults and not the stored admin map |
| AuthState.EditTakesEffect | core/auth.py:394-410 | An edit changes the effective value of exactly the known keys it names, adds no key, and does nothing for administrators |
| Privileges.AdminIsUnrestricted | core/auth.py:25-49 | An administrator has every switch on but the two that restrict models, and no limit |
| AuthSessions.ExpiryBoundary | core/auth.py:605-628 | At the second of expiry a token still validates, but a restart drops it |
| AuthSessions.RevokedLogins | core/auth.py:660-674 | Revoking sessions logs exactly that user out, except by the spared token |
| AuthSessions.LookupBuries | core/auth.py:605-653 | A token looked up when it stood for nobody stands for nobody ever after; other tokens are not affected |
| AuthFile.LoadedIsGood | core/auth.py:121-226 | Whatever the file holds, the loaded names are well formed |
| AuthFile.LoadedExactly | core/auth.py:121-226 | The loaded names are exactly the normal forms in the file that are neither empty nor reserved, each with the record that stands last, of which only a missing flag is filled in from the old role |
| AuthFile.SaveThenLoad | core/auth.py:228-229 | A well-formed table that was saved, in any order, loads as the same table and causes no rewrite |
| AuthFile.ConstructionIsIdempotent | core/auth.py:115-119 | Constructing twice gives the same table and leaves the file as after the first time |
| AuthFile.LegacyNameBlank | core/auth.py:168-190 | The migrated name is blank exactly for a name of white space only |
| AuthFile.LegacyMigration | core/auth.py:168-215 | The single-user format becomes one administrator, except that a blank name loses the account |
| AuthFile.CrashIsAtomic | core/atomic_io.py:21-33 | After a crash following any number of the calls the live file is whole, and is the old one or, once all calls were made, the new one |
| AuthFile.CrashThenReload | core/atomic_io.py:21-33 | A crash at any call of saving an operation's result, then construction: the table from before or from after the operation |
| AuthFile.Directory.AtomicWriteJson | core/atomic_io.py:21-33 | The calls in order leave the new content durably in the live file and no temporary one |
| RenameRoute.RollbackRestoresUsers | routes/auth_routes.py:334-349 | Rename then rollback restores the users map, also when an administrator renames itself |
| RenameRoute.RollbackRestoresSessions | routes/auth_routes.py:334-349 | It restores every token's user exactly when no session named the new user before and those of the old name are stored normalised |
| RenameRoute.CurrentSessionsReturn | routes/auth_routes.py:334-349 | So it does whenever every session names a current user |
| RenameRoute.RenameMovesLogins | core/auth.py:341-374 | A rename keeps the set of tokens and moves exactly the logins of the old name |
| RenameRoute.RenameUser | routes/auth_routes.py:315-383 | The route's responses and the table and sessions after each, a failed owner migration included |
| RenameRoute.AnswerExactly | routes/auth_routes.py:315-383 | When each response is given |
| PrivilegeReads.ReadsAreLinearizable | core/auth.py:385-410 | With every field write of set_admin and set_privileges and both reads of get_privileges as separate steps, in every interleaving a read returns a map that was effective at some instant of the call |
| PrivilegeReads.NoLeakAfterDemotion | core/auth.py:446-470 | After the last write of a demotion without a stash every call that returns before the next write of the record returns the defaults, never the stored admin map |
| PrivilegeReads.SafeThroughout | core/auth.py:446-470 | From an instant without the flag on, the stored map is always one that has been effective since |
| PrivilegeReads.PromotionWritesAddUp | core/auth.py:451-460 | The single writes of a promotion add up to the operation |
| PrivilegeReads.DemotionWritesAddUp | core/auth.py:461-470 | The single writes of a demotion add up to the operation |
| PrivilegeReads.EditWritesAddUp | core/auth.py:394-410 | The single steps of an edit add up to the operation |
| PrivilegeReads.NamesChangeTable | core/auth.py:269-374 | Creating, deleting and renaming are the operations on the table that names and records make up |
| SessionSafety.HoldersAreCurrent | core/auth.py:588-653 | At every point of every interleaved run a token that resolves was issued, is unexpired and names a current user |
| SessionSafety.IssuedForAWeek | core/auth.py:588-603 | An issued token stands for its user through seven days, to the second |
| SessionSafety.DeadStaysDead | core/auth.py:301-336 | A token without a session never resolves again |
| SessionSafety.PurgeKills | core/auth.py:329-337 | Tokens that name the user when the purge runs are dead for good |
| SessionSafety.RevokingKills | core/auth.py:655-674 | A revoked token, and every token of a user whose sessions are revoked but the spared one, is dead for good |
| SessionSafety.RecreatingRevivesNothing | core/auth.py:301-336 | After the purge, re-creating the user gives it no earlier token in any interleaving without a rename to that name in flight |
| SessionSafety.OutlivesExactly | core/auth.py:329-337 | Before a pending purge a token of the user can outlive it without a new rename exactly when a rename of that user to another name is pending |
| SessionSafety.DeletionEndsSessionsExactly | core/auth.py:301-336 | The same for the whole deletion, from its first section on; without such a rename the token never resolves again in any continuation of any interleaving that begins no rename before the purge |
| SessionSafety.DeletionEndsSessions | core/auth.py:301-336 | Over the whole deletion, with renames that begin between its sections too, as long as none moves that user's sessions before the purge, all its tokens die for good |
| SessionSafety.RenameBeforePurgeRevives | core/auth.py:341-374 | With a re-creation and a rename between the two sections of a deletion an old token comes back under the new name, whichever free name that is |
| SessionSafety.AnyDeletionCanBeOutlived | core/auth.py:301-374 | So if renames may begin before the purge, every live token of the deleted user can outlive every deletion, whatever the table and the pending renames |
| SessionSafety.LateRenameRevives | core/auth.py:341-374 | A rename whose second section is late gives a re-created user the tokens of the renamed one |
| SessionSafety.RevivedExactly | core/auth.py:341-374 | A live token can still come to stand for a name without a new rename exactly when a chain of pending renames leads from its user to that name |
| SessionSafety.AfterPurgeExactly | core/auth.py:301-336 | So after the purge of a name: an earlier token comes back to that name exactly along pending renames |
| BackupCodes.SecondFactor.TotpVerify | core/auth.py:533-555 | When a login passes, and that a backup code is consumed by it |
| BackupCodes.CodesAreConserved | core/auth.py:545-553 | In every interleaving the codes left, used and lost are exactly the codes made |
| BackupCodes.OneLoginPerCode | core/auth.py:545-553 | A code made once lets at most one login in although the look-up is outside the lock |
| BackupCodes.StoredIsLastUsed | core/auth.py:545-553 | While the factor stays enabled the stored list at the end of a run is that of the last login that got in with a backup code |
| BackupCodes.NewCodesStandExactly | core/auth.py:511-553 | After any run and an enabling, the new codes are stored at the end of what follows exactly when no login got in with a code, or the last one used a new code |
| BackupCodes.ListStaysExactly | core/auth.py:545-553 | A stored list is kept in every continuation exactly when no login in flight holds an entry of another list that is still there |
| BackupCodes.DisabledAdmitsNobodyNew | core/auth.py:533-553 | While the factor is disabled, in every interleaving only logins that were in flight get in with a backup code |
| BackupCodes.StoredListsExactly | core/auth.py:545-553 | While the factor stays enabled the lists that can come to be stored are exactly the stored one and those of which a login in flight holds an entry that is still there |
| BackupCodes.ListsAlternate | core/auth.py:511-553 | Such states are reached: a login from before a new enabling brings the old list back, and one from after it the new list again |
| MessageStore.MigrateChatMessagesFts | core/database.py:2465-2515 | The two passes of the migration over the index |
| MessageStore.InsertKeepsIndexed | core/database.py:2446-2450 | The insert trigger keeps exactly one entry per message |
| MessageStore.InsertIsFound | core/database.py:2446-2450 | It writes the text itself, or with one of the three marks of media the stand-in, under the id, session and role of the message, and leaves all other entries |
| MessageStore.DeleteKeepsIndexed | core/database.py:2452-2455 | So does the delete trigger, and exactly the named rows go |
| MessageStore.UpdateKeepsIndexed | core/database.py:2457-2462 | So does the update trigger, also when the key changes |
| MessageStore.UpdateIsFound | core/database.py:2457-2462 | It replaces the entry by one for the new text, under the new key, and leaves all others |
| MessageStore.MigrationRepairs | core/database.py:2465-2515 | A migration makes the index agree exactly when it has no foreign entries and each row without media has no entry or its right one; in particular when it is empty or agrees already |
| MessageStore.MigratedIsFound | core/database.py:2465-2515 | After a migration each message is found by its own text, or with media by its scrubbed text, unless it had an entry before |
| MessageStore.IndexedIsFound | core/database.py:2413-2462 | In an agreeing index each message without media is indexed by its own text, one with media by the stand-in or its scrubbed text |
| MessageStore.IndexHoldsNoMedia | core/database.py:2412-2425 | In an agreeing index no entry holds media, given a scrub function that drops it |
| MessageStore.MigratedIndexHoldsNoMedia | core/database.py:2487-2515 | After a migration no entry holds media exactly when the scrub function drops the media of every message |
| SearchIndex.StrippedMedia | src/attachment_refs.py:30-34 | Stripping data URLs leaves media exactly when the text has no ";base64," but media, or some piece between its data URLs has |
| SearchIndex.SubstituteChanges | src/attachment_refs.py:15-34 | The substitution changes a text exactly when there is a data URL in it |
| SearchIndex.StripKeepsExactly | src/attachment_refs.py:30-34 | Text is stored unchanged exactly when it has no ";base64," or no whole data URL |
| SearchIndex.StripTwice | src/attachment_refs.py:15-34 | Stripping data URLs a second time changes nothing |
| SearchIndex.BlocksMedia | src/attachment_refs.py:94-121 | The text of a list of blocks holds media exactly when the line of some block does; media blocks never contribute any |
| SearchIndex.MediaReachesIndex | src/attachment_refs.py:150-164 | After a migration each message with media has its scrubbed text as its one entry, which holds media exactly when the message leaks |
| SearchIndex.IndexFreeOfMedia | core/database.py:2487-2515 | After a migration no entry holds media exactly when no message leaks |
| SearchIndex.RawTextReturns | src/attachment_refs.py:150-164 | Text with media that is not a list of blocks is indexed unchanged exactly when it has no ";base64," or no whole data URL |
| SearchIndex.UrlLengthExactly | src/attachment_refs.py:15-18 | The pattern matches at the start of a text exactly for a data URL that cannot go on |
| SearchIndex.StandardUrlGoes | src/attachment_refs.py:15-34 | Every data URL in standard form, in letters of either case, is replaced as a whole |
| SearchIndex.TextOfBlocksExactly | src/attachment_refs.py:94-121 | The text of blocks is their lines that are not empty, and behind them the number of media in words |
| SearchIndex.BlocksInOrder | src/attachment_refs.py:94-121 | These lines come in the order of the blocks, and the media add up |
| SearchIndex.BlockExactly | src/attachment_refs.py:94-121 | What the line of each kind of block is when it has no data URL |
| SearchIndex.BlocksExactly | src/attachment_refs.py:150-164 | When a text is read as blocks |
| SessionManager.Manager.constructor | core/session_manager.py:85-142 | Only metadata of sessions that have messages is loaded |
| SessionManager.Manager.LoadSession | core/session_manager.py:508-533 | Hydration caches exactly the transcript and the stored count |
| SessionManager.Manager.SyncMetadata | core/session_manager.py:474-506 | Only the count of a cached, stored session is refreshed |
| SessionManager.Manager.GetSession | core/session_manager.py:451-472 | When it fails, and the state after it |
| SessionManager.Manager.AddMessage | core/session_manager.py:209-226 | Cache, rows, counts and index after an append, persisted or not: the cache keeps the text as given, the row holds it without inline data URLs |
| SessionManager.Manager.PersistMessage | core/session_manager.py:228-297 | The row with the text in its stored form, the count and the id in the cached message, or the dropped cache entry of a deleted session |
| SessionManager.Manager.TruncateMessages | core/session_manager.py:299-339 | Cache, rows, counts and index, for every keep count |
| SessionManager.Manager.DeleteMessage | core/session_manager.py:341-377 | Cache, rows, counts and index, and when it answers true |
| SessionManager.Manager.ReplaceMessages | core/session_manager.py:379-445 | Cache with the given texts, rows with their stored forms, counts and index for each way to fail and for success |
| SessionManager.Manager.CreateSession | core/session_manager.py:549-595 | A new empty session, or nothing on a duplicate key |
| SessionManager.Manager.DeleteSession | core/session_manager.py:597-633 | Cache, rows, counts and index, a session that lives in the cache only included |
| SessionRuns.CacheRefinesLists | core/session_manager.py:209-533 | After every run from metadata-only entries, get_session returns what a plain list per session holds, and the rows hold the same messages in order in their stored form, with the stored count as their number |
| SessionRuns.RunRefines | core/session_manager.py:209-533 | Every run keeps cache, rows and counts in agreement and acts as the list operations do, on the given and on the stored texts |
| SessionRuns.ApplyRefines | core/session_manager.py:209-533 | Each operation does; only an append that is not persisted and a replacement that fails at the commit are excluded |
| SessionRuns.GetReturnsView | core/session_manager.py:451-533 | With agreeing layers get_session succeeds for exactly the stored sessions and returns their messages, whose rows hold the stored form of their texts |
| SessionRuns.ReplacementStores | core/session_manager.py:379-445 | A committed replacement leaves exactly the given messages: as they are in the cache, in stored form in the rows, their number as the count, and no other session changed |
| SessionRuns.RunKeepsClean | core/session_manager.py:261-264 | No run puts a text with an inline data URL into the rows |
| SessionRuns.SurvivesRestartExactly | core/session_manager.py:508-533 | A restart leaves a transcript as it is exactly when no message of it has a data URL; the others come back in their stored form |
| SessionFailures.FailedAppendDrifts | core/session_manager.py:222-226 | A failed append leaves the cache one message ahead, and the next success stores a count one too high |
| SessionSteps.AppendInStepExactly | core/session_manager.py:222-297 | Wherever an append fails, it leaves the layers in agreement exactly when it fails before its first step or after its last |
| SessionFailures.ReplacementHealsDrift | core/session_manager.py:379-445 | After any drift of cache and count a successful replacement makes cache, rows and count of the session agree |
| SessionFailures.IndexStaysExact | core/database.py:2413-2515 | From an agreeing index every run of operations, failures at any step, edits by other code and repeated migrations keeps exactly one entry per message: its own text without media, else the stand-in or the scrubbed text |
| SessionFailures.IndexFromEmpty | core/database.py:2465-2476 | In particular from an empty index, once it was migrated |
| SessionSteps.FailuresKeepTables | core/session_manager.py:228-445 | Wherever an operation fails, its rows, counts and index are as before up to the commit and those of the operation from it on |
| SessionSteps.FailuresKeepTranscripts | core/session_manager.py:299-445 | Wherever a truncation, the deletion of a message or a replacement fails before its commit is through, the cached roles and contents are those of a mere get_session |
| SessionSteps.FailedReplacementCache | core/session_manager.py:389-431 | A failing replacement has put the new ids into exactly the message objects it has come to |
| SessionSteps.FailedCache | core/session_manager.py:299-377 | A failing truncation, message deletion or session creation leaves the cache as it found it |
| SessionSteps.FailedDeletionCache | core/session_manager.py:597-633 | A failure of delete_session before its pop leaves the cache, one after it does not |
| SessionSteps.FailedAppendCache | core/session_manager.py:222-297 | An append that fails anywhere after its first step leaves the message in the cache without an id |
| SessionSteps.CompletedIsApply | core/session_manager.py:209-633 | All steps together are the operation |
| SessionSteps.TryRefines | core/session_manager.py:209-633 | Wherever it fails, an operation keeps cache, rows and counts in agreement and does to the lists all or nothing |
| SessionSteps.TriesRefineLists | core/session_manager.py:209-633 | The same over runs in which any operation may fail at any step |
| SessionOrphans.NoInterleavingOrphans | core/session_manager.py:228-297 | With foreign keys, or with updates that must find their row, every committed state of every interleaving of statements, look-ups, commits and roll-backs has a session row for each message |
| SessionOrphans.LookUpSufficesWhenCalm | core/session_manager.py:231-240 | Without either, the look-up alone suffices in every run in which no commit takes away the session of an open writer |
| SessionOrphans.LateWriter | core/session_manager.py:268-287 | A writer that begins after its session has gone leaves an orphan exactly when it brings a row and neither the row nor the update of the vanished session is refused; when refused it leaves nothing |
| SessionOrphans.DeletionBetween | core/session_manager.py:597-633 | A deletion can commit between a writer's look-up and its first statement |
| SessionOrphans.GuardNeededExactly | core/session_manager.py:228-297 | In every sound world with a session and the lock free, one of the two guards is there exactly when no interleaving leaves an orphan |
| SessionOrphans.GuardsExactly | core/session_manager.py:228-297 | So over all sound worlds and all interleavings |
| Recurrence.Scan | routes/calendar_routes.py:646-677 | The loop ends for every rule and finds the first 1000 hits of the whole stream; the flag is set exactly when an occurrence, if only an excluded one, overlaps after them |
| Recurrence.ExpandRrule | routes/calendar_routes.py:585-700 | All three branches, with the items in order and the flag on every item |
| CalendarWindows.ExpandedItem | routes/calendar_routes.py:654-692 | Every expanded item has the length and the marks of its event, overlaps the window by its own fields, names its series, and starts where the rule has a start |
| Recurrence.HitsExact | routes/calendar_routes.py:652-677 | The reference contains exactly the starts that overlap and are not excluded, in increasing order |
| Recurrence.AllHitsExact | routes/calendar_routes.py:652-677 | A time is listed by the reference exactly when some occurrence of the infinite stream starts there, overlaps and is not excluded |
| Recurrence.HitsAreAll | routes/calendar_routes.py:652-654 | Stopping at the end of the window or of the stream misses nothing |
| CalendarWindows.ListEvents | routes/calendar_routes.py:1227-1281 | Exactly the expansions of the rows that the query selects, sorted by the text of their starts, and the flag |
| CalendarWindows.ListedItems | routes/calendar_routes.py:1247-1276 | Every listed item is that of a row of the caller that is not cancelled and of the calendar asked for, with the length of the event, within the window |
| CalendarWindows.ResponseInOrder | routes/calendar_routes.py:1278-1281 | The response holds each listed item as often as listed, in the order of these texts, and items with the same text in the order of the query |
| StartText.ShownInOrder | routes/calendar_routes.py:533-539 | The texts of two starts are in the order of their places in time: all-day items at the beginning of their day, and in the same second before local and those before UTC ones |
| StartText.ResponseIsChronological | routes/calendar_routes.py:1278-1281 | So a response is in the order of time although it is sorted as text |
| CalendarWindows.ShownIsDue | routes/calendar_routes.py:1247-1264 | Query and expansion show what is due, exactly unless the rule is white space only and the event has ended |
| CalendarWindows.ListedIsDue | routes/calendar_routes.py:1247-1276 | The query loses no occurrence of any event |
| CalendarWindows.UntruncatedIsAll | routes/calendar_routes.py:664-666 | Without the flag the result is complete; with it there are 1000 items |
| CalendarWindows.WindowsCompose | routes/calendar_routes.py:642-700 | Untruncated results for [a,b) and [b,c) give those for [a,c) exactly when no occurrence falls between the two, and always for a positive duration |
| CalendarWindows.SharedOccurrences | routes/calendar_routes.py:656-662 | Adjacent windows share exactly the occurrences that span the boundary |
| CalendarWindows.ZeroDurationIsLost | routes/calendar_routes.py:656-662 | A series without duration loses each start on a boundary |
| Occurrences.CompoundUidDecodes | routes/calendar_routes.py:137-151 | A compound uid decodes to its base exactly when the base is not empty, has no "::" and does not end in ':' |
| Occurrences.UidRoundTrip | routes/calendar_routes.py:577-583 | The uid of a listed occurrence gives back the series and the key that the expansion compares with |
| Occurrences.ExcludeReadsBack | routes/calendar_routes.py:564-574 | What a deletion stores reads back as the old keys and the new one |
| Occurrences.DeletionIsIdempotent | routes/calendar_routes.py:1423-1426 | Deleting an occurrence twice is deleting it once |
| Occurrences.DeletionsCommute | routes/calendar_routes.py:1423-1426 | Two deletions store the same list in either order |
| Occurrences.DeletionRemovesExactly | routes/calendar_routes.py:668-677 | The new expansion of every complete window is the old one without the items of the deleted uid, and complete |
| Occurrences.DeletionInEveryWindow | routes/calendar_routes.py:664-677 | In every window, truncated ones included, the new expansion shows the first 1000 of the old hits without the key: the shown items stay in front except those of the deleted uid, what the limit had cut off follows, and the flag can only go |
| Occurrences.RemovedTogether | routes/calendar_routes.py:668-677 | Two occurrences share a uid exactly when they lie in the same minute or day |
| Occurrences.Calendar.DeleteEvent | routes/calendar_routes.py:1407-1439 | All outcomes of the route and the events after each |
| Occurrences.DeletedOccurrenceDisappears | routes/calendar_routes.py:1416-1432 | Deleting a listed item by its uid removes from every window exactly the items with that uid and touches no other event; in a truncated one later occurrences follow |
| Occurrences.SeriesGoes | routes/calendar_routes.py:1407-1439 | By its own uid an event goes as a whole whatever the scope, and by an occurrence uid with any other scope |
| Occurrences.UndecodableHitsAnother | routes/calendar_routes.py:1407-1439 | The uid of an occurrence of an event that does not decode stands for the event whose uid precedes the first separator; what happens to that one, and that no other changes |
| CivilTime.StrftimeRenders | routes/calendar_routes.py:668-674 | The two date formats fit the width of a key, are not blank, and tell two datetimes apart exactly by their minute or day |
| CivilTime.CivilRoundTrip | routes/calendar_routes.py:668-674 | The Gregorian date of every day of the years 1 to 9999 has fields in range and gives the day back |
| SortedText.SortSorts | routes/calendar_routes.py:1426 | Sorting the keys sorts them and keeps their contents |
| SortedText.SortBySorts | routes/calendar_routes.py:1280 | Sorting by a key orders by it, keeps the contents, and keeps elements with the same key in their order |
| SortedText.SortedIsUnique | routes/calendar_routes.py:1426 | Sorted lists with the same contents are equal |
| IcsImport.CalendarTable.ImportIcs | routes/calendar_routes.py:1534-1646 | Response and stored rows of the loop, with repairs in place, rows added at the commit, and the rollback |
| IcsImport.EnsurePositive | routes/calendar_routes.py:43-58 | The end lies after the start, and a positive duration is kept |
| IcsImport.ImportCounts | routes/calendar_routes.py:1534-1646 | Imported and skipped make up the events, repaired is at most skipped, stored rows are only clamped |
| IcsImport.ImportLeavesPositive | routes/calendar_routes.py:1568-1614 | Every row that was added or matched has a positive duration afterwards |
| IcsImport.ReimportIsStable | routes/calendar_routes.py:1543-1582 | A second import of the file repairs nothing, changes no row, and adds exactly the events with a start and without uid |
| IcsImport.AddedAreNewcomers | routes/calendar_routes.py:1550-1582 | The rows that an import adds are those of the events that match no row stored before it, in their order |
| IcsImport.ImportKeepsFile | routes/calendar_routes.py:1583-1629 | Behind the stored rows stands for each event that matches none, in order, a row with its text, marks, start, and end if that is later, else a day or an hour after the start |
| IcsImport.CountsExactly | routes/calendar_routes.py:1534-1646 | The response counts exactly the added rows, the events that added none, and the stored rows that were changed, which are matched ones without a positive duration |
| IcsImport.NoTwinsExactly | routes/calendar_routes.py:1548-1582 | Two added rows share start and summary exactly when two events of the file that match no stored row do |
| IcsImport.DroppedExactly | routes/calendar_routes.py:1548-1582 | After a file was imported a later event with a uid is dropped exactly when it matched a row from before or shares start and summary with a stored event of that file, whatever the uids |
| IcsImport.DroppedOrStored | routes/calendar_routes.py:1568-1629 | A dropped event adds no row, any other its own |
| IcsImport.DifferentUidsMerge | routes/calendar_routes.py:1548-1582 | Two events with different uids and the same start and summary become one row |
| IcsImport.ImportFailsExactly | routes/calendar_routes.py:1598-1614 | An import fails exactly for an unmatched event with a timed start and a date as end |
| IcsEscape.PassesTransduce | routes/calendar_routes.py:110-125 | The six replacements over the whole string are one pass from left to right |
| IcsEscape.EscapeRoundTrips | routes/calendar_routes.py:110-125 | No raw line break or unescaped comma or semicolon; unescaping by section 3.3.11 of RFC 5545 gives the text with CR LF, CR and LF as LF |
| IcsEscape.EscapeIsText | routes/calendar_routes.py:110-125 | The result is a TEXT value exactly when the text has no control characters besides tabs and line breaks |
| IcsEscape.EscapeMergesOnlyBreaks | routes/calendar_routes.py:110-125 | Two texts are escaped alike exactly when they differ in line breaks only |
| DraftMerge.MergeEmailReplyBody | mcp_servers/email_server.py:1318-1337 | The merge with the separator and markers in use |
| DraftMerge.FindQuote | mcp_servers/email_server.py:1328-1332 | The loop finds the least index of any marker, or -1 |
| DraftMerge.MergeKeepsHeadAndQuote | mcp_servers/email_server.py:1318-1337 | The text before the first separator stays, and so does the quoted tail up to white space |
| DraftMerge.LastWriterWins | mcp_servers/email_server.py:1318-1337 | merge(merge(c, r1), r2) = merge(c, r2) for all r2 exactly when r1 has no quote marker |
| DraftMerge.DraftMergeIsLastWriterWins | mcp_servers/email_server.py:1318-1337 | The same for the draft format in use, separators that overlap the head included |
| DraftMerge.QuotedReplySticks | mcp_servers/email_server.py:1328-1336 | A reply that itself quotes becomes part of the tail |
| DraftMerge.StripKeepsMarkers | mcp_servers/email_server.py:1333-1334 | Stripping neither makes nor loses a marker |
| DraftMerge.MergeIntoBuiltDraft | mcp_servers/email_server.py:1289-1315 | Merging into a freshly built draft with single-line headers keeps all its header lines and replaces the body |
| DraftMerge.DraftHasHeaders | mcp_servers/email_server.py:1289-1315 | A fresh draft has a line for each given header under its name, and ends in separator and body |
| DraftMerge.ReplyReplacesAll | mcp_servers/email_server.py:1318-1321 | Without a separator the reply is all |
| TokenScopes.NormalizedScopes | routes/api_token_routes.py:39-73 | Loop and insertions, for profiles, lists and text |
| TokenScopes.RefusedExactly | routes/api_token_routes.py:39-58 | A request is refused exactly for an unknown profile or an unknown scope |
| TokenScopes.RequestExactly | routes/api_token_routes.py:39-73 | Every request without a profile, as a list or as text with commas or spaces, is refused exactly if it asks for a scope that is not allowed, and names one; else the list holds exactly what is asked for and what that entails |
| TokenScopes.ProfileExactly | routes/api_token_routes.py:31-46 | What each profile gives, and that any other name is refused |
| TokenScopes.AcceptedOrder | routes/api_token_routes.py:50-73 | Scopes stay in the order in which they are first asked for, and each added one stands directly before the one that entails it |
| TokenScopes.AllowedExactly | routes/api_token_routes.py:15-30 | The allowed scopes by area and right |
| TokenScopes.AcceptedIsNormal | routes/api_token_routes.py:39-73 | An accepted one gives a list without repeats, of allowed scopes, closed under the six implications, with exactly what was requested and implied |
| TokenScopes.EnsureAllExact | routes/api_token_routes.py:60-71 | The six insertions in a row close the list and add nothing else |
| TokenScopes.NormalFormsAreFixedPoints | routes/api_token_routes.py:39-73 | The normal forms are exactly the lists whose joined form normalises to them |
| TokenScopes.StoredFormIsFixed | routes/api_token_routes.py:128 | Normalising the stored string, and reading it back, gives the list that was returned |
| JoinedText.SplitJoin | routes/api_token_routes.py:177-186 | Splitting undoes joining when no part holds the separator |
| MockWorld.Mock.DispatchCall | benchmarks/mocks.py:89-135 | Outcome with its whole result, and world, after a call, in the order of the guards |
| MockWorld.RunFixture | benchmarks/engines.py:202-224 | The invocations, the world and the final answer of a replay |
| MockWorld.ReplayIsHonest | benchmarks/mocks.py:89-147 | In every replay a gated call is not ok and leaves the services unchanged; an ok one that needs approval had it |
| MockWorld.GatedExactly | benchmarks/mocks.py:43-149 | In every replay a call is gated exactly when it is bulk mail, oracle control or a calendar change without an approval and its tool is there, not failing and past its flaky phase; none of these is ok without an approval |
| MockWorld.ReadsTheFile | benchmarks/mocks.py:179-185 | In every replay read_file answers with the whole text of the file that the path names, and fails exactly without one |
| MockTools.GrepExactly | benchmarks/mocks.py:190-197 | A search answers with exactly the matching lines of all files under their names |
| MockWorld.AnswerIsLastProse | benchmarks/engines.py:219-224 | The final answer is the stripped prose of the last turn that has any |
| MockWorld.CallsInOrder | benchmarks/engines.py:211-218 | The calls of a transcript come in the order of its turns |
| MockWorld.ReplayKeepsData | benchmarks/mocks.py:89-308 | Every call is logged and answered once, in order; files, books and events never change; notes are only added, and numbered |
| MockWorld.NoteIdsDiffer | benchmarks/mocks.py:259-268 | In every replay two calls that made a note answer with different ids, each with the title that was given |
| MockWorld.FlakyFailsFirst | benchmarks/mocks.py:101-109 | A flaky tool fails its first calls, as many as set, without a gate, and then behaves as if it were not flaky |
| Evaluator.EvaluateRun | benchmarks/evaluator.py:115-213 | The rows of the report, the verdict, the flags and the failure reason |
| Evaluator.GroupHits | benchmarks/evaluator.py:66-76 | The loop over groups and invocations, with the last group counting for a shared key |
| Evaluator.EvidenceMatches | benchmarks/evaluator.py:79-101 | One genuine row for each requirement whose pattern is found in the shown text or the JSON text of a whole result |
| Evaluator.VerdictExactly | benchmarks/evaluator.py:115-221 | The whole verdict read off the run: a row for each rule that applies, in order, with its outcome; passed exactly if all hold; else the first that fails, with a false claim marked |
| Evaluator.RequiredToolsExactly | benchmarks/evaluator.py:156-160 | Unless a recovery scenario ends with an honest blocker, a pass has a call in every guaranteed group whatever the answer claims; with one the rule asks for nothing |
| Evaluator.FalseSuccessFails | benchmarks/evaluator.py:190-221 | A false claim of success is never a pass, and marks the failure reason |
| Evaluator.RecoveredExactly | benchmarks/evaluator.py:125-131 | Recovered means that some failure that is not a gate precedes some success |
| Evaluator.PassIsEarned | benchmarks/evaluator.py:156-204 | A pass that claims success has a successful call in every guaranteed group, and outside gated scenarios in some required one |
| Evaluator.GuaranteedExactly | benchmarks/evaluator.py:66-76 | All passes that claim success have a successful call in a group exactly when some group that decides about its key lies within it |
| Evaluator.BarFreeGuarantees | benchmarks/evaluator.py:66-76 | Without a bar in a name every required group is guaranteed |
| Evaluator.ReplayPassIsEarned | benchmarks/engines.py:211-224 | Over every replay the calls in guaranteed groups are genuine, and a required gate was met by a call that changed no data |

## Left out

- Text.Lower: lowers ASCII letters only, where the original lowers all of Unicode.
- AuthManager.Manager.Save: the order in which the members come out is arbitrary, and a failing disk is not modelled.
- AuthManager.Manager.DeleteUser: the two sections are one call here; `SessionSafety` has them as separate steps.
- AuthManager.Manager.RenameUser: as for `DeleteUser`.
- AuthManager.Manager.CreateSessionTrusted: password and second factor are checked before it and are parameters elsewhere.
- PrivilegeReads.ReadsAreLinearizable: the read of the table, of the flag and of the map are one step each; a copy of a map is atomic.
- RenameRoute.RenameUser: owner columns and JSON stores appear only through the success or failure of the owner migration.
- AuthFile.CrashThenReload: one process writes at a time, and replacing a file is atomic; that a crash undoes a replacement is included.
- Privileges.AdminIsUnrestricted: the default values of a plain account are a table, and nothing is derived of them one by one.
- SessionSafety.DeletionEndsSessions: says which schedules end all sessions; `DeletionEndsSessionsExactly` and `AnyDeletionCanBeOutlived` say when some schedule does not.
- SessionManager.Manager.AddMessage: content is plain text, which is stored without inline data URLs; lists of blocks, text that is itself a serialised list of blocks (core/session_manager.py:38-61), and message metadata besides `_db_id` are left out.
- SessionManager.Manager.ReplaceMessages: message objects are values, and which of them the cached history shares is an argument; one object at two places of it is not modelled.
- SessionOrphans.NoInterleavingOrphans: the two guards of the database and the mapper are parameters; core/database.py:141-147 switches the foreign keys on for SQLite, and an update that finds no row is refused by the mapper, which is not part of this model.
- SessionSteps.TriesRefineLists: a write to the cache after the commit is taken not to fail; `FailuresKeepTables` covers that case for the tables.
- SearchIndex.MediaReachesIndex: the JSON parser is an argument, and the line of an attachment is given as it is.
- Recurrence.ExpandRrule: the parsed rule is a strictly increasing stream with no start before the event's; the removal of the trailing Z of UNTIL and the rendering of items as text are left out.
- CalendarWindows.ListEvents: a null rule as something other than the empty one is left out.
- StartText.ShownInOrder: starts are whole seconds of the years 1 to 9999, with years of four digits.
- Occurrences.Calendar.DeleteEvent: CalDAV write-through and values of the stored list that are not strings are left out.
- CivilTime.StrftimeRenders: the year has four digits; C libraries that do not pad years before 1000 are left out.
- IcsImport.CalendarTable.ImportIcs: `first()` takes the first row of the table; the fresh uids of rows and parsing of the file are left out.
- MockTools.Answer: the fixed answers of the tools that read no state are a table; files, books, notes and searches follow the services.
- MockWorld.Mock.DispatchCall: arguments are given by their string forms and their lengths; the text that the model is shown of a result (src/tool_execution.py) is a parameter.
- Evaluator.EvaluateRun: the texts of details and snippets are left out; the three term patterns, the search for a pattern and the JSON text of a result are parameters.
- The saved session file: it is written outside the lock, so nothing is claimed about it in concurrent runs.
- HTTP routing, middleware, cookies and the bearer-token cache in app.py: plumbing, and the cache can lose an invalidation by design.
- `cleanup_empty_sessions`: it compares an aware time with a naive one, so its age rule cannot be taken at face value.
- Password hashing, TOTP codes, token randomness and encryption: not modelled beyond their outcomes.
- Rule parsing, time zones, icalendar parsing, CalDAV, IMAP and SMTP, model calls, subprocesses: foreign code and input/output.
- The routes of tasks and authority, column-adding migrations, fonts, launcher, gallery and contacts: they would add easy members only.
