/** The tools of the offline benchmark (benchmarks/mocks.py): what each of them
    answers over a fixed set of services. */
module MockTools {
  import opened Options
  import opened Text
  import opened JoinedText
  import opened SortedText

  /** Results; the fields of an object are in the order in which they were set. */
  datatype Json = Bool(truth: bool) | Int(number: int) | Str(text: string) | List(items: seq<Json>) | Obj(fields: seq<(string, Json)>)

  function Field(fields: seq<(string, Json)>, key: string): Option<Json> {
    if fields == [] then None
    else if fields[0].0 == key then Some(fields[0].1)
    else Field(fields[1..], key)
  }

  function Get(j: Json, key: string): Option<Json> {
    if j.Obj? then Field(j.fields, key) else None
  }

  /** An argument: its string form, and its length or the error that `len` raises.
      A missing argument, or one that counts as false, has the string form "". */
  datatype Value = Value(text: string, length: Result<nat, string>)

  type Args = map<string, Value>

  datatype File = File(name: string, text: string)

  datatype Note = Note(number: nat, title: string)

  /** Files in the order of their insertion. */
  datatype Services = Services(files: seq<File>, books: seq<Json>, events: seq<Json>, notes: seq<Note>)

  /** Code outside: the search of a line for a pattern, or the pattern's error; and
      the text that is made of a tool's result. */
  datatype Foreign = Foreign(regex: string -> Result<string -> bool, string>, format: (string, Json) -> string)

  /** The result of a tool that answered, or of one that failed. */
  type Reply = Result<Json, Json>

  function Arg(args: Args, key: string): string {
    if key in args then args[key].text else ""
  }

  /** `args.get(key) or other`. */
  function ArgOr(args: Args, key: string, other: string): string {
    if Arg(args, key) != "" then Arg(args, key) else other
  }

  function Done(fields: seq<(string, Json)>): Reply {
    Ok(Obj(fields))
  }

  function Failed(error: string): Reply {
    Err(Obj([("success", Bool(false)), ("error", Str(error))]))
  }

  function Missing(error: string): Reply {
    Err(Obj([("success", Bool(false)), ("available", Bool(false)), ("error", Str(error))]))
  }

  // ---------------------------------------------------------------------
  // Files
  // ---------------------------------------------------------------------

  /** The part after the last slash. */
  function BaseName(path: string): string {
    if path == "" || path[|path| - 1] == '/' then ""
    else BaseName(path[..|path| - 1]) + [path[|path| - 1]]
  }

  function FileText(files: seq<File>, name: string): Option<string> {
    if files == [] then None
    else if files[0].name == name then Some(files[0].text)
    else FileText(files[1..], name)
  }

  function Names(files: seq<File>): seq<string> {
    seq(|files|, i requires 0 <= i < |files| => files[i].name)
  }

  predicate BreaksLine(c: char) {
    c in "\n\r\U{000B}\U{000C}\U{001C}\U{001D}\U{001E}\U{0085}\U{2028}\U{2029}"
  }

  /** The characters before the first line break. */
  function LineLength(s: string): (n: nat)
    ensures n <= |s|
  {
    if s == "" || BreaksLine(s[0]) then 0 else 1 + LineLength(s[1..])
  }

  /** `str.splitlines`. */
  function Lines(s: string): seq<string> {
    if s == "" then [] else
    var n := LineLength(s);
    if n == |s| then [s] else [s[..n]] + Lines(s[n + (if "\r\n" <= s[n..] then 2 else 1)..])
  }

  function MatchingLines(name: string, lines: seq<string>, matches: string -> bool): seq<Json> {
    if lines == [] then []
    else (if matches(lines[0]) then [Str(name + ":" + lines[0])] else []) + MatchingLines(name, lines[1..], matches)
  }

  function Matching(files: seq<File>, matches: string -> bool): seq<Json> {
    if files == [] then []
    else MatchingLines(files[0].name, Lines(files[0].text), matches) + Matching(files[1..], matches)
  }

  function ReadFile(files: seq<File>, path: string): Reply {
    var key := BaseName(path);
    match FileText(files, key)
    case None => Failed("file not found: " + path)
    case Some(text) => Done([("content", Str(text)), ("size", Int(|text|)), ("path", Str(key))])
  }

  /** The pattern is used, and its error raised, only if there is a line to search. */
  function Grep(files: seq<File>, pattern: string, py: Foreign): Reply {
    if forall f :: f in files ==> f.text == "" then Done([("results", List([])), ("count", Int(0))])
    else match py.regex(pattern)
      case Err(error) => Failed(error)
      case Ok(matches) =>
        var found := Matching(files, matches);
        Done([("results", List(found)), ("count", Int(|found|))])
  }

  // ---------------------------------------------------------------------
  // Books, calendar, notes, documents and mail
  // ---------------------------------------------------------------------

  function Titles(books: seq<Json>): Option<seq<Json>> {
    if books == [] then Some([])
    else match (Get(books[0], "title"), Titles(books[1..]))
      case (Some(title), Some(rest)) => Some([Obj([("title", title)])] + rest)
      case _ => None
  }

  function Books(books: seq<Json>, action: string): Reply {
    if action == "search" then Done([("results", List(books)), ("count", Int(|books|))])
    else if action != "list" then Failed("unsupported action")
    else match Titles(books)
      case None => Failed("'title'")
      case Some(titles) => Done([("books", List(titles)), ("count", Int(|books|))])
  }

  function Calendar(action: string): Reply {
    if action == "list_calendars" then Done([("calendars", List([Str("Personal")])), ("count", Int(1))])
    else if action in ["create", "update", "delete"] then
      Done([("success", Bool(true)), ("action", Str(action)), ("event_uid", Str("event-" + action))])
    else Failed("unsupported action")
  }

  function NewNote(s: Services, args: Args): Note {
    Note(|s.notes| + 1, ArgOr(args, "title", ArgOr(args, "text", "Untitled")))
  }

  function Noted(note: Note): Reply {
    Done([("success", Bool(true)), ("note_id", Str("note-" + Decimal(note.number))), ("title", Str(note.title)),
          ("count", Int(note.number))])
  }

  const LONG_FORM := 200

  function Document(args: Args): Reply {
    var content := ArgOr(args, "content", Arg(args, "markdown"));
    if |content| < LONG_FORM then Failed("document content is too short to be long-form")
    else Done([("doc_id", Str("doc-1")), ("version", Int(1)), ("title", Str(ArgOr(args, "title", "Runbook"))),
               ("content", Str(content))])
  }

  function BulkEmail(args: Args): Reply {
    var length := if Arg(args, "uids") == "" then Ok(1) else args["uids"].length;
    match length
    case Err(error) => Failed(error)
    case Ok(n) => Done([("success", Bool(true)), ("action", Str("delete")), ("affected", Int(n))])
  }

  function Email(uid: string, subject: string): Json {
    Obj([("UID", Str(uid)), ("subject", Str(subject)), ("from", Str("news@example.com"))])
  }

  // ---------------------------------------------------------------------
  // Integrations
  // ---------------------------------------------------------------------

  function Integration(id: string, name: string, status: string): Json {
    Obj([("id", Str(id)), ("label", Str(name)), ("status", Str(status))])
  }

  function Inventory(action: string): Reply {
    if action != "inventory" then Failed("unsupported action")
    else Done([("success", Bool(true)),
               ("integrations", List([Integration("home_assistant", "Home Assistant", "configured"),
                                      Integration("oracle", "ORACLE", "installed")])),
               ("total", Int(2))])
  }

  function Settings(action: string): Reply {
    if action != "list_tools" then Failed("unsupported action")
    else Done([("success", Bool(true)), ("total", Int(82)), ("enabled_count", Int(81)),
               ("tools", List([Obj([("name", Str("read_file"))]), Obj([("name", Str("manage_books"))]),
                               Obj([("name", Str("api_call"))])]))])
  }

  function ApiCall(integration: string): Reply {
    if integration != "home_assistant" then Failed("unknown integration")
    else Done([("connected", Bool(true)), ("state", Str("running")), ("version", Str("2026.9.1"))])
  }

  function Protocol(action: string, name: string): Reply {
    if action != "oracle_protocol" then Failed("unsupported action")
    else if name !in ["engage", "shutdown"] then Failed("unsupported oracle action")
    else Done([("success", Bool(true)), ("oracle", Str(name))])
  }

  function Shell(output: string): Reply {
    Done([("output", Str(output)), ("exit_code", Int(0))])
  }

  // ---------------------------------------------------------------------
  // All tools
  // ---------------------------------------------------------------------

  function Answer(s: Services, name: string, args: Args, py: Foreign): Reply {
    var action := Arg(args, "action");
    match name
    case "manage_mcp" => Inventory(action)
    case "manage_settings" => Settings(action)
    case "read_file" => ReadFile(s.files, ArgOr(args, "path", Arg(args, "file")))
    case "ls" => Shell(Join(Sort(Names(s.files)), '\n'))
    case "grep" => Grep(s.files, Arg(args, "pattern"), py)
    case "manage_books" => Books(s.books, action)
    case "read_calendar" => Done([("events", List(s.events)), ("count", Int(|s.events|))])
    case "manage_calendar" => Calendar(action)
    case "api_call" => ApiCall(ArgOr(args, "integration", Arg(args, "service")))
    case "ui_control" => Protocol(action, Lower(ArgOr(args, "name", Arg(args, "value"))))
    case "oracle_read" =>
      Done([("layer", Str("traffic")), ("visible_countries", Int(176)), ("source", Str("oracle-native"))])
    case "oracle_control" =>
      Done([("success", Bool(true)), ("layer", Str(ArgOr(args, "layer", "cctv"))), ("visible", Bool(true))])
    case "manage_notes" => if action != "create" then Failed("unsupported action") else Noted(NewNote(s, args))
    case "list_emails" =>
      Done([("emails", List([Email("90186", "Weekly digest"), Email("90187", "Sale ends tonight")])), ("count", Int(2))])
    case "bulk_email" => BulkEmail(args)
    case "create_document" => Document(args)
    case "bash" => Shell("mock shell has no real command execution")
    case "python" => Shell("mock python has no real execution")
    case "app_api" => Done([("success", Bool(true)), ("result", Str("mock api response"))])
    case _ => Missing("unknown tool: " + name)
  }

  // ---------------------------------------------------------------------
  // What a search of the files finds
  // ---------------------------------------------------------------------

  lemma {:induction false} LineHits(name: string, lines: seq<string>, matches: string -> bool, hit: Json)
    ensures hit in MatchingLines(name, lines, matches) <==>
            exists line :: line in lines && matches(line) && hit == Str(name + ":" + line)
  {
    if lines != [] {
      LineHits(name, lines[1..], matches, hit);
      assert lines == [lines[0]] + lines[1..];
    }
  }

  ghost predicate HitIn(f: File, matches: string -> bool, hit: Json) {
    exists line :: line in Lines(f.text) && matches(line) && hit == Str(f.name + ":" + line)
  }

  lemma HitIs(f: File, matches: string -> bool, hit: Json)
    ensures HitIn(f, matches, hit) <==> exists line :: line in Lines(f.text) && matches(line) && hit == Str(f.name + ":" + line)
  {
  }

  lemma {:induction false} FileHits(files: seq<File>, matches: string -> bool, hit: Json)
    ensures hit in Matching(files, matches) <==> exists f :: f in files && HitIn(f, matches, hit)
  {
    hide Lines, HitIn;
    if files != [] {
      FileHits(files[1..], matches, hit);
      LineHits(files[0].name, Lines(files[0].text), matches, hit);
      HitIs(files[0], matches, hit);
      assert files == [files[0]] + files[1..];
      assert files[0] in files && forall f :: f in files[1..] ==> f in files;
    }
  }

  /** No line holds a line break, and the lines are the text without its breaks. */
  lemma {:induction false} LinesExactly(s: string, c: char)
    ensures forall line :: line in Lines(s) ==> forall d :: d in line ==> !BreaksLine(d)
    ensures !BreaksLine(c) ==> (c in s <==> exists line :: line in Lines(s) && c in line)
    decreases |s|
  {
    hide BreaksLine;
    if s != "" {
      var n := LineLength(s);
      LineHasNoBreak(s);
      if n < |s| {
        var rest := s[n + (if "\r\n" <= s[n..] then 2 else 1)..];
        LinesExactly(rest, c);
        if !BreaksLine(c) {
          BreakIsDropped(s, n, c);
        }
        assert Lines(s) == [s[..n]] + Lines(rest);
        assert s[..n] in Lines(s);
        assert forall line :: line in Lines(s) <==> line == s[..n] || line in Lines(rest);
      } else {
        assert s[..n] == s;
      }
    }
  }

  lemma {:induction false} LineHasNoBreak(s: string)
    ensures forall d :: d in s[..LineLength(s)] ==> !BreaksLine(d)
    ensures LineLength(s) < |s| ==> BreaksLine(s[LineLength(s)])
  {
    hide BreaksLine;
    if s != "" && !BreaksLine(s[0]) {
      LineHasNoBreak(s[1..]);
      assert s[..LineLength(s)] == [s[0]] + s[1..][..LineLength(s[1..])];
    }
  }

  lemma BreakIsDropped(s: string, n: nat, c: char)
    requires n < |s| && BreaksLine(s[n]) && !BreaksLine(c)
    ensures var rest := s[n + (if "\r\n" <= s[n..] then 2 else 1)..];
            c in s <==> c in s[..n] || c in rest
  {
    var m := if "\r\n" <= s[n..] then 2 else 1;
    assert BreaksLine('\n');
    hide BreaksLine;
    if m == 2 {
      assert s[n..][1] == '\n' && s[n + 1] == '\n';
      assert s == s[..n] + [s[n], s[n + 1]] + s[n + 2..];
    } else {
      assert s == s[..n] + [s[n]] + s[n + 1..];
    }
  }

  /** A search answers with exactly the matching lines of all files, each under the
      name of its file, and their number; the pattern's error is raised only if
      there is a line to search. */
  lemma GrepExactly(files: seq<File>, pattern: string, py: Foreign)
    ensures var reply := Grep(files, pattern, py);
            && (reply.Err? <==> py.regex(pattern).Err? && exists f :: f in files && f.text != "")
            && (reply.Ok? && py.regex(pattern).Ok? ==>
                  exists found ::
                    && reply.value == Obj([("results", List(found)), ("count", Int(|found|))])
                    && forall hit :: hit in found <==> exists f :: f in files && HitIn(f, py.regex(pattern).value, hit))
  {
    if py.regex(pattern).Ok? {
      var matches := py.regex(pattern).value;
      var found := Matching(files, matches);
      forall hit
        ensures hit in found <==> exists f :: f in files && HitIn(f, matches, hit)
      {
        FileHits(files, matches, hit);
      }
      if forall f :: f in files ==> f.text == "" {
        NothingToSearch(files, matches);
      }
      assert Grep(files, pattern, py) == Done([("results", List(found)), ("count", Int(|found|))]);
    }
  }

  lemma {:induction false} NothingToSearch(files: seq<File>, matches: string -> bool)
    requires forall f :: f in files ==> f.text == ""
    ensures Matching(files, matches) == []
  {
    if files != [] {
      assert Lines(files[0].text) == [];
      NothingToSearch(files[1..], matches);
    }
  }
}
