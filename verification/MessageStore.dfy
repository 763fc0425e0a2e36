/** The chat tables (core/database.py): session rows with their message count,
    message rows in the order of their timestamps, and the full-text index that
    triggers keep beside the message rows. */
module MessageStore {
  import opened Text

  type Sid = string
  type Id = string

  datatype Row = Row(id: Id, sid: Sid, role: string, content: string)

  /** A row of `chat_messages_fts`; nothing in the table keeps `mid` unique. */
  datatype Entry = Entry(content: string, mid: Id, sid: Sid, role: string)

  /** `counts` is the sessions table, reduced to its `message_count` column. */
  datatype Db = Db(counts: map<Sid, nat>, rows: seq<Row>, index: seq<Entry>)

  // ---------------------------------------------------------------------
  // Rows of a session, entries of a message
  // ---------------------------------------------------------------------

  function RowsOf(rows: seq<Row>, sid: Sid): seq<Row> {
    if rows == [] then []
    else RowsOf(rows[..|rows| - 1], sid) + (if rows[|rows| - 1].sid == sid then [rows[|rows| - 1]] else [])
  }

  function Ids(rows: seq<Row>): set<Id> {
    set r | r in rows :: r.id
  }

  function WithoutRows(rows: seq<Row>, doomed: set<Id>): seq<Row> {
    if rows == [] then []
    else WithoutRows(rows[..|rows| - 1], doomed) + (if rows[|rows| - 1].id in doomed then [] else [rows[|rows| - 1]])
  }

  function EntriesOf(index: seq<Entry>, mid: Id): seq<Entry> {
    if index == [] then []
    else EntriesOf(index[..|index| - 1], mid) + (if index[|index| - 1].mid == mid then [index[|index| - 1]] else [])
  }

  /** `DELETE FROM chat_messages_fts WHERE message_id IN mids`. */
  function WithoutEntries(index: seq<Entry>, mids: set<Id>): seq<Entry> {
    if index == [] then []
    else WithoutEntries(index[..|index| - 1], mids) + (if index[|index| - 1].mid in mids then [] else [index[|index| - 1]])
  }

  ghost predicate UniqueIds(rows: seq<Row>) {
    forall i, j :: 0 <= i < j < |rows| ==> rows[i].id != rows[j].id
  }

  // ---------------------------------------------------------------------
  // The triggers
  // ---------------------------------------------------------------------

  predicate HasMedia(content: string) {
    Find(content, ";base64,") != -1 || Find(content, "data:image/") != -1 || Find(content, "data:audio/") != -1
  }

  /** Written in two parts, since the verifier does not see far into long literals. */
  const OMITTED := "[inline media omitted " + "from search index]"

  function IndexText(content: string): string {
    if HasMedia(content) then OMITTED else content
  }

  function EntryFor(row: Row, content: string): Entry {
    Entry(content, row.id, row.sid, row.role)
  }

  /** INSERT with the trigger `chat_messages_fts_ai`. */
  function InsertRow(db: Db, row: Row): Db {
    db.(rows := db.rows + [row], index := db.index + [EntryFor(row, IndexText(row.content))])
  }

  /** DELETE of existing rows with the trigger `chat_messages_fts_ad` for each of them. */
  function DeleteRows(db: Db, doomed: set<Id>): Db {
    db.(rows := WithoutRows(db.rows, doomed), index := WithoutEntries(db.index, doomed * Ids(db.rows)))
  }

  /** UPDATE of the row at `i` with the trigger `chat_messages_fts_au`. */
  function UpdateRow(db: Db, i: nat, row: Row): Db
    requires i < |db.rows|
  {
    db.(rows := db.rows[i := row],
        index := WithoutEntries(db.index, {db.rows[i].id}) + [EntryFor(row, IndexText(row.content))])
  }

  // ---------------------------------------------------------------------
  // The migration
  // ---------------------------------------------------------------------

  /** Adds an entry for every row that has none. */
  function Backfill(index: seq<Entry>, rows: seq<Row>): seq<Entry> {
    if rows == [] then index else
    var front := Backfill(index, rows[..|rows| - 1]);
    var row := rows[|rows| - 1];
    if EntriesOf(index, row.id) == [] then front + [EntryFor(row, IndexText(row.content))] else front
  }

  /** Replaces the entries of every row with media by one with scrubbed text. */
  function Scrub(index: seq<Entry>, rows: seq<Row>, scrub: string -> string): seq<Entry> {
    if rows == [] then index else
    var front := Scrub(index, rows[..|rows| - 1], scrub);
    var row := rows[|rows| - 1];
    if HasMedia(row.content) then WithoutEntries(front, {row.id}) + [EntryFor(row, scrub(row.content))] else front
  }

  /** `_migrate_chat_messages_fts`, with the scrub function as an argument. */
  function Migrate(db: Db, scrub: string -> string): Db {
    db.(index := Scrub(Backfill(db.index, db.rows), db.rows, scrub))
  }

  method MigrateChatMessagesFts(db: Db, scrub: string -> string) returns (migrated: Db)
    ensures migrated == Migrate(db, scrub)
  {
    var index := db.index;
    for i := 0 to |db.rows|
      invariant index == Backfill(db.index, db.rows[..i])
    {
      assert db.rows[..i + 1][..i] == db.rows[..i];
      var row := db.rows[i];
      if EntriesOf(db.index, row.id) == [] {
        index := index + [EntryFor(row, IndexText(row.content))];
      }
    }
    assert db.rows[..|db.rows|] == db.rows;
    ghost var filled := index;
    for i := 0 to |db.rows|
      invariant index == Scrub(filled, db.rows[..i], scrub)
    {
      assert db.rows[..i + 1][..i] == db.rows[..i];
      var row := db.rows[i];
      if HasMedia(row.content) {
        index := WithoutEntries(index, {row.id});
        index := index + [EntryFor(row, scrub(row.content))];
      }
    }
    migrated := db.(index := index);
  }

  // ---------------------------------------------------------------------
  // Agreement
  // ---------------------------------------------------------------------

  /** What an entry may say for a row: its text, or a stand-in for media. */
  predicate Speaks(e: Entry, row: Row, scrub: string -> string) {
    || e == EntryFor(row, IndexText(row.content))
    || (HasMedia(row.content) && e == EntryFor(row, scrub(row.content)))
  }

  predicate OneEntry(index: seq<Entry>, row: Row, scrub: string -> string) {
    var es := EntriesOf(index, row.id);
    |es| == 1 && Speaks(es[0], row, scrub)
  }

  /** Every message has exactly one entry, which speaks for it, and there are no others. */
  ghost predicate Indexed(db: Db, scrub: string -> string) {
    && UniqueIds(db.rows)
    && (forall r :: r in db.rows ==> OneEntry(db.index, r, scrub))
    && (forall mid :: mid !in Ids(db.rows) ==> EntriesOf(db.index, mid) == [])
  }

  lemma EntriesOfAppend(index: seq<Entry>, e: Entry, mid: Id)
    ensures EntriesOf(index + [e], mid) == EntriesOf(index, mid) + (if e.mid == mid then [e] else [])
  {
    assert (index + [e])[..|index|] == index;
  }

  lemma {:induction false} EntriesOfWithout(index: seq<Entry>, mids: set<Id>, mid: Id)
    ensures EntriesOf(WithoutEntries(index, mids), mid) == if mid in mids then [] else EntriesOf(index, mid)
  {
    if index != [] {
      var front, last := index[..|index| - 1], index[|index| - 1];
      EntriesOfWithout(front, mids, mid);
      if last.mid !in mids {
        EntriesOfAppend(WithoutEntries(front, mids), last, mid);
      } else {
        assert WithoutEntries(index, mids) == WithoutEntries(front, mids);
      }
    }
  }

  lemma RowsOfAppend(rows: seq<Row>, row: Row, sid: Sid)
    ensures RowsOf(rows + [row], sid) == RowsOf(rows, sid) + (if row.sid == sid then [row] else [])
  {
    assert (rows + [row])[..|rows|] == rows;
  }

  lemma WithoutRowsAppend(rows: seq<Row>, row: Row, doomed: set<Id>)
    ensures WithoutRows(rows + [row], doomed) == WithoutRows(rows, doomed) + (if row.id in doomed then [] else [row])
  {
    assert (rows + [row])[..|rows|] == rows;
  }

  lemma {:induction false} InWithoutRows(rows: seq<Row>, doomed: set<Id>, r: Row)
    ensures r in WithoutRows(rows, doomed) <==> r in rows && r.id !in doomed
  {
    if rows != [] {
      InWithoutRows(rows[..|rows| - 1], doomed, r);
      assert rows == rows[..|rows| - 1] + [rows[|rows| - 1]];
    }
  }

  lemma {:induction false} WithoutRowsUnique(rows: seq<Row>, doomed: set<Id>)
    requires UniqueIds(rows)
    ensures UniqueIds(WithoutRows(rows, doomed))
  {
    if rows != [] {
      var front, last := rows[..|rows| - 1], rows[|rows| - 1];
      WithoutRowsUnique(front, doomed);
      forall r | r in WithoutRows(front, doomed)
        ensures r.id != last.id
      {
        InWithoutRows(front, doomed, r);
      }
    }
  }

  /** Inserting a message keeps the agreement. */
  lemma InsertKeepsIndexed(db: Db, row: Row, scrub: string -> string)
    requires Indexed(db, scrub) && row.id !in Ids(db.rows)
    ensures Indexed(InsertRow(db, row), scrub)
  {
    hide HasMedia, Find, EntriesOf, IndexText;
    var after := InsertRow(db, row);
    var e := EntryFor(row, IndexText(row.content));
    forall mid
      ensures EntriesOf(after.index, mid) == EntriesOf(db.index, mid) + (if mid == row.id then [e] else [])
    {
      EntriesOfAppend(db.index, e, mid);
    }
    assert Ids(after.rows) == Ids(db.rows) + {row.id};
    assert forall r :: r in db.rows ==> r.id in Ids(db.rows);
  }

  lemma DeleteKeepsIndexed(db: Db, doomed: set<Id>, scrub: string -> string)
    requires Indexed(db, scrub)
    ensures Indexed(DeleteRows(db, doomed), scrub)
    ensures forall r :: r in DeleteRows(db, doomed).rows <==> r in db.rows && r.id !in doomed
  {
    hide HasMedia, Find;
    var after := DeleteRows(db, doomed);
    WithoutRowsUnique(db.rows, doomed);
    forall r
      ensures r in after.rows <==> r in db.rows && r.id !in doomed
    {
      InWithoutRows(db.rows, doomed, r);
    }
    forall mid
      ensures EntriesOf(after.index, mid) == if mid in doomed then [] else EntriesOf(db.index, mid)
    {
      EntriesOfWithout(db.index, doomed * Ids(db.rows), mid);
    }
    assert forall r :: r in db.rows && r.id !in doomed ==> r in after.rows && r.id in Ids(after.rows);
  }

  lemma UpdatedRows(rows: seq<Row>, i: nat, row: Row)
    requires UniqueIds(rows) && i < |rows| && (row.id == rows[i].id || row.id !in Ids(rows))
    ensures UniqueIds(rows[i := row])
    ensures Ids(rows[i := row]) == Ids(rows) - {rows[i].id} + {row.id}
    ensures forall r :: r in rows[i := row] ==> r == row || (r in rows && r.id != rows[i].id && r.id != row.id)
  {
    var after := rows[i := row];
    assert forall k :: 0 <= k < |rows| ==> rows[k].id in Ids(rows);
    assert after[i] == row && row.id in Ids(after);
    assert forall k :: 0 <= k < |rows| && k != i ==> after[k] == rows[k] && rows[k].id in Ids(after);
  }

  lemma UpdateKeepsIndexed(db: Db, i: nat, row: Row, scrub: string -> string)
    requires Indexed(db, scrub) && i < |db.rows|
    requires row.id == db.rows[i].id || row.id !in Ids(db.rows)
    ensures Indexed(UpdateRow(db, i, row), scrub)
  {
    hide HasMedia, Find, EntriesOf, IndexText, WithoutEntries, UniqueIds, Ids;
    var after := UpdateRow(db, i, row);
    var gone := db.rows[i].id;
    var e := EntryFor(row, IndexText(row.content));
    forall mid
      ensures EntriesOf(after.index, mid) ==
              (if mid == gone then [] else EntriesOf(db.index, mid)) + (if mid == row.id then [e] else [])
    {
      EntriesOfAppend(WithoutEntries(db.index, {gone}), e, mid);
      EntriesOfWithout(db.index, {gone}, mid);
    }
    UpdatedRows(db.rows, i, row);
    assert row.id != gone ==> EntriesOf(db.index, row.id) == [];
  }

  // ---------------------------------------------------------------------
  // What a migration leaves
  // ---------------------------------------------------------------------

  lemma {:induction false} BackfillEntries(index: seq<Entry>, rows: seq<Row>, mid: Id)
    requires UniqueIds(rows)
    ensures mid !in Ids(rows) ==> EntriesOf(Backfill(index, rows), mid) == EntriesOf(index, mid)
    ensures forall r :: r in rows && r.id == mid ==>
              EntriesOf(Backfill(index, rows), mid) ==
                if EntriesOf(index, mid) == [] then [EntryFor(r, IndexText(r.content))] else EntriesOf(index, mid)
  {
    hide HasMedia, Find, EntriesOf;
    if rows != [] {
      var front, last := rows[..|rows| - 1], rows[|rows| - 1];
      assert rows == front + [last];
      BackfillEntries(index, front, mid);
      EntriesOfAppend(Backfill(index, front), EntryFor(last, IndexText(last.content)), mid);
      assert last.id !in Ids(front);
      assert Ids(rows) == Ids(front) + {last.id};
    }
  }

  lemma {:induction false} ScrubEntries(index: seq<Entry>, rows: seq<Row>, scrub: string -> string, mid: Id)
    requires UniqueIds(rows)
    ensures mid !in Ids(rows) ==> EntriesOf(Scrub(index, rows, scrub), mid) == EntriesOf(index, mid)
    ensures forall r :: r in rows && r.id == mid ==>
              EntriesOf(Scrub(index, rows, scrub), mid) ==
                if HasMedia(r.content) then [EntryFor(r, scrub(r.content))] else EntriesOf(index, mid)
  {
    hide HasMedia, Find, EntriesOf, WithoutEntries;
    if rows != [] {
      var front, last := rows[..|rows| - 1], rows[|rows| - 1];
      assert rows == front + [last];
      ScrubEntries(index, front, scrub, mid);
      EntriesOfWithout(Scrub(index, front, scrub), {last.id}, mid);
      EntriesOfAppend(WithoutEntries(Scrub(index, front, scrub), {last.id}), EntryFor(last, scrub(last.content)), mid);
      assert last.id !in Ids(front);
      assert Ids(rows) == Ids(front) + {last.id};
    }
  }

  /** What the index must look like before a migration: no foreign entries, and
      for a row without media no entry or the right one. */
  ghost predicate Repairable(db: Db, scrub: string -> string) {
    && UniqueIds(db.rows)
    && (forall r :: r in db.rows && !HasMedia(r.content) ==>
          EntriesOf(db.index, r.id) == [] || OneEntry(db.index, r, scrub))
    && (forall mid :: mid !in Ids(db.rows) ==> EntriesOf(db.index, mid) == [])
  }

  /** A migration establishes the agreement exactly from such an index, in
      particular from an empty one and from one that agrees already. */
  lemma MigrationRepairs(db: Db, scrub: string -> string)
    requires UniqueIds(db.rows)
    ensures Indexed(Migrate(db, scrub), scrub) <==> Repairable(db, scrub)
    ensures db.index == [] || Indexed(db, scrub) ==> Repairable(db, scrub)
  {
    hide HasMedia, Find;
    var after := Migrate(db, scrub);
    forall mid
      ensures mid !in Ids(db.rows) ==> EntriesOf(after.index, mid) == EntriesOf(db.index, mid)
      ensures forall r :: r in db.rows && r.id == mid ==>
                EntriesOf(after.index, mid) ==
                  if HasMedia(r.content) then [EntryFor(r, scrub(r.content))]
                  else if EntriesOf(db.index, mid) == [] then [EntryFor(r, IndexText(r.content))]
                  else EntriesOf(db.index, mid)
    {
      BackfillEntries(db.index, db.rows, mid);
      ScrubEntries(Backfill(db.index, db.rows), db.rows, scrub, mid);
    }
    forall r | r in db.rows
      ensures OneEntry(after.index, r, scrub) <==>
              HasMedia(r.content) || EntriesOf(db.index, r.id) == [] || OneEntry(db.index, r, scrub)
    {
      assert r.id == r.id;
    }
  }

  // ---------------------------------------------------------------------
  // What is found by a search
  // ---------------------------------------------------------------------

  /** The three marks of inline media, anywhere in the text. */
  ghost predicate MarksMedia(text: string) {
    Contains(text, ";base64,") || Contains(text, "data:image/") || Contains(text, "data:audio/")
  }

  lemma HasMediaExact(text: string)
    ensures HasMedia(text) <==> MarksMedia(text)
  {
    FindFirst(text, ";base64,");
    FindFirst(text, "data:image/");
    FindFirst(text, "data:audio/");
    hide Find, Contains;
  }

  /** The row has one entry, with this text. */
  ghost predicate FoundBy(index: seq<Entry>, r: Row, text: string) {
    EntriesOf(index, r.id) == [Entry(text, r.id, r.sid, r.role)]
  }

  /** A message without media is indexed by its own text; one with media by the
      stand-in or by its scrubbed text. */
  ghost predicate FoundRightly(index: seq<Entry>, r: Row, scrub: string -> string) {
    if !MarksMedia(r.content) then FoundBy(index, r, r.content)
    else FoundBy(index, r, OMITTED) || FoundBy(index, r, scrub(r.content))
  }

  /** In an agreeing index every message is found by its text. */
  lemma IndexedIsFound(db: Db, scrub: string -> string)
    requires Indexed(db, scrub)
    ensures forall r :: r in db.rows ==> FoundRightly(db.index, r, scrub)
  {
    hide HasMedia, EntriesOf, MarksMedia;
    forall r | r in db.rows
      ensures FoundRightly(db.index, r, scrub)
    {
      HasMediaExact(r.content);
      assert OneEntry(db.index, r, scrub);
      var e := EntriesOf(db.index, r.id)[0];
      assert EntriesOf(db.index, r.id) == [e];
    }
  }

  /** The insert trigger writes the text itself, or the stand-in for media, and
      leaves what other messages are found by. */
  lemma InsertIsFound(db: Db, row: Row, scrub: string -> string)
    requires Indexed(db, scrub) && row.id !in Ids(db.rows)
    ensures FoundBy(InsertRow(db, row).index, row, if MarksMedia(row.content) then OMITTED else row.content)
    ensures forall mid :: mid != row.id ==> EntriesOf(InsertRow(db, row).index, mid) == EntriesOf(db.index, mid)
  {
    hide HasMedia, EntriesOf, MarksMedia;
    HasMediaExact(row.content);
    forall mid
      ensures EntriesOf(InsertRow(db, row).index, mid) ==
              EntriesOf(db.index, mid) + (if mid == row.id then [EntryFor(row, IndexText(row.content))] else [])
    {
      EntriesOfAppend(db.index, EntryFor(row, IndexText(row.content)), mid);
    }
  }

  /** So does the update trigger, under the new key, and the old one finds nothing. */
  lemma UpdateIsFound(db: Db, i: nat, row: Row, scrub: string -> string)
    requires Indexed(db, scrub) && i < |db.rows|
    requires row.id == db.rows[i].id || row.id !in Ids(db.rows)
    ensures var index := UpdateRow(db, i, row).index;
            && FoundBy(index, row, if MarksMedia(row.content) then OMITTED else row.content)
            && (db.rows[i].id != row.id ==> EntriesOf(index, db.rows[i].id) == [])
            && (forall mid :: mid != row.id && mid != db.rows[i].id ==> EntriesOf(index, mid) == EntriesOf(db.index, mid))
  {
    hide HasMedia, EntriesOf, MarksMedia, WithoutEntries;
    HasMediaExact(row.content);
    var gone := db.rows[i].id;
    var e := EntryFor(row, IndexText(row.content));
    forall mid
      ensures EntriesOf(UpdateRow(db, i, row).index, mid) ==
              (if mid == gone then [] else EntriesOf(db.index, mid)) + (if mid == row.id then [e] else [])
    {
      EntriesOfAppend(WithoutEntries(db.index, {gone}), e, mid);
      EntriesOfWithout(db.index, {gone}, mid);
    }
  }

  /** After a migration each message is found by its own text, or with media by
      its scrubbed text, unless it has an entry of its own that was there before. */
  lemma MigratedIsFound(db: Db, scrub: string -> string, r: Row)
    requires UniqueIds(db.rows) && r in db.rows
    ensures var index := Migrate(db, scrub).index;
            if MarksMedia(r.content) then FoundBy(index, r, scrub(r.content))
            else if EntriesOf(db.index, r.id) == [] then FoundBy(index, r, r.content)
            else EntriesOf(index, r.id) == EntriesOf(db.index, r.id)
  {
    hide HasMedia, EntriesOf, MarksMedia, UniqueIds;
    HasMediaExact(r.content);
    BackfillEntries(db.index, db.rows, r.id);
    ScrubEntries(Backfill(db.index, db.rows), db.rows, scrub, r.id);
  }

  // ---------------------------------------------------------------------
  // Media in the index
  // ---------------------------------------------------------------------

  lemma {:induction false} EntryOfItsMessage(index: seq<Entry>, e: Entry)
    ensures e in index <==> e in EntriesOf(index, e.mid)
  {
    if index != [] {
      EntryOfItsMessage(index[..|index| - 1], e);
      assert index == index[..|index| - 1] + [index[|index| - 1]];
    }
  }

  /** A text without ':' and ';' holds no media. */
  lemma NoMediaWithoutSigns(s: string)
    requires ':' !in s && ';' !in s
    ensures !HasMedia(s)
  {
    hide Find;
    FoundMeansIn(s, ";base64,", 0);
    FoundMeansIn(s, "data:image/", 4);
    FoundMeansIn(s, "data:audio/", 4);
  }

  lemma OmittedHasNoMedia()
    ensures !HasMedia(OMITTED)
  {
    hide HasMedia;
    var (a, b) := ("[inline media omitted ", "from search index]");
    assert OMITTED == a + b;
    assert ':' !in a && ';' !in a;
    assert ':' !in b && ';' !in b;
    NoMediaWithoutSigns(OMITTED);
  }

  /** Every character of a pattern that is found stands in the text. */
  lemma FoundMeansIn(s: string, p: string, k: nat)
    requires k < |p|
    ensures Find(s, p) != -1 ==> p[k] in s
  {
    FindFirst(s, p);
    var r := Find(s, p);
    if r != -1 {
      assert s[r..r + |p|][k] == s[r + k];
    }
  }

  /** In an agreeing index no entry holds media, given a scrub function that drops
      the media of every message. */
  lemma IndexHoldsNoMedia(db: Db, scrub: string -> string)
    requires Indexed(db, scrub)
    requires forall r :: r in db.rows && HasMedia(r.content) ==> !HasMedia(scrub(r.content))
    ensures forall e :: e in db.index ==> !HasMedia(e.content)
  {
    OmittedHasNoMedia();
    hide HasMedia, Find;
    forall e | e in db.index
      ensures !HasMedia(e.content)
    {
      EntryOfItsMessage(db.index, e);
      assert e.mid in Ids(db.rows);
      var r :| r in db.rows && r.id == e.mid;
      assert OneEntry(db.index, r, scrub);
    }
  }

  /** After a migration the entries hold no media exactly when the scrub
      function drops the media of every message. */
  lemma MigratedIndexHoldsNoMedia(db: Db, scrub: string -> string)
    requires Repairable(db, scrub)
    ensures (forall e :: e in Migrate(db, scrub).index ==> !HasMedia(e.content))
            <==> (forall r :: r in db.rows && HasMedia(r.content) ==> !HasMedia(scrub(r.content)))
  {
    hide HasMedia, Find;
    var after := Migrate(db, scrub);
    MigrationRepairs(db, scrub);
    if forall r :: r in db.rows && HasMedia(r.content) ==> !HasMedia(scrub(r.content)) {
      IndexHoldsNoMedia(after, scrub);
    } else {
      var r :| r in db.rows && HasMedia(r.content) && HasMedia(scrub(r.content));
      BackfillEntries(db.index, db.rows, r.id);
      ScrubEntries(Backfill(db.index, db.rows), db.rows, scrub, r.id);
      var e := EntryFor(r, scrub(r.content));
      assert EntriesOf(after.index, r.id) == [e];
      EntryOfItsMessage(after.index, e);
    }
  }
}
