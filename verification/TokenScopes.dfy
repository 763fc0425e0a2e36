/** Scopes of API tokens (routes/api_token_routes.py): the normal form of a
    request, and its storage as one string joined with commas. */
module TokenScopes {
  import opened Options
  import opened Text
  import opened JoinedText

  predicate Allowed(s: string) {
    s in ["chat", "todos:read", "todos:write", "documents:read", "documents:write",
          "email:read", "email:draft", "email:send", "calendar:read", "calendar:write",
          "memory:read", "memory:write", "cookbook:read", "cookbook:launch"]
  }

  const DEFAULT := "chat"

  /** The scopes of a profile. */
  function Profile(key: string): Option<seq<string>> {
    if key == "chat" then Some(["chat"])
    else if key == "codex_todos" then Some(["todos:read", "todos:write"])
    else if key == "codex_documents" then Some(["documents:read", "documents:write"])
    else if key == "codex_email_drafts" then Some(["email:read", "email:draft", "documents:read", "documents:write"])
    else None
  }

  datatype Implication = Implies(write: string, read: string)

  /** In the order in which the code ensures them. */
  function Implications(): seq<Implication> {
    [Implies("todos:write", "todos:read"), Implies("documents:write", "documents:read"),
     Implies("calendar:write", "calendar:read"), Implies("memory:write", "memory:read"),
     Implies("email:draft", "email:read"), Implies("cookbook:launch", "cookbook:read")]
  }

  datatype Scopes = Missing | Listed(items: seq<string>) | Given(text: string)

  datatype ScopeError = UnknownProfile | UnknownScope(scope: string)

  // ---------------------------------------------------------------------
  // What is requested
  // ---------------------------------------------------------------------

  /** `s.replace(" ", ",")`. */
  function SpacesToCommas(s: string): string {
    seq(|s|, i requires 0 <= i < |s| => if s[i] == ' ' then ',' else s[i])
  }

  /** The stripped parts that are not empty. */
  function Words(parts: seq<string>): seq<string> {
    if parts == [] then []
    else (if Strip(parts[0]) == "" then [] else [Strip(parts[0])]) + Words(parts[1..])
  }

  /** An unknown profile is an error; a known one takes precedence over the scopes. */
  function Requested(scopes: Scopes, profile: Option<string>): Result<seq<string>, ScopeError> {
    var key := if profile.Some? then Strip(profile.value) else "";
    if key != "" then (if Profile(key).Some? then Ok(Profile(key).value) else Err(UnknownProfile))
    else match scopes
      case Listed(items) => Ok(Words(items))
      case Given(text) => Ok(if text == "" then [DEFAULT] else Words(Split(SpacesToCommas(text), ',')))
      case Missing => Ok([DEFAULT])
  }

  // ---------------------------------------------------------------------
  // The normal form
  // ---------------------------------------------------------------------

  /** The first occurrences, in order. */
  function Distinct(list: seq<string>): seq<string> {
    if list == [] then [] else
    var front, last := Distinct(list[..|list| - 1]), list[|list| - 1];
    if last in front then front else front + [last]
  }

  function Index(list: seq<string>, s: string): (i: nat)
    requires s in list
    ensures i < |list| && list[i] == s
  {
    if list[0] == s then 0 else 1 + Index(list[1..], s)
  }

  function EnsureBefore(list: seq<string>, rule: Implication): seq<string> {
    if rule.write !in list || rule.read in list then list
    else list[..Index(list, rule.write)] + [rule.read] + list[Index(list, rule.write)..]
  }

  function EnsureAll(list: seq<string>, rules: seq<Implication>): seq<string> {
    if rules == [] then list
    else EnsureBefore(EnsureAll(list, rules[..|rules| - 1]), rules[|rules| - 1])
  }

  /** The first element that is not allowed, or |list|. */
  function FirstUnknown(list: seq<string>): (i: nat)
    ensures i <= |list| && (i < |list| ==> !Allowed(list[i]))
    ensures forall j :: 0 <= j < i ==> Allowed(list[j])
  {
    if list == [] || !Allowed(list[0]) then 0 else 1 + FirstUnknown(list[1..])
  }

  function NormalizeScopes(scopes: Scopes, profile: Option<string>): Result<seq<string>, ScopeError> {
    match Requested(scopes, profile)
    case Err(e) => Err(e)
    case Ok(requested) =>
      if FirstUnknown(requested) < |requested| then Err(UnknownScope(requested[FirstUnknown(requested)]))
      else
        var list := EnsureAll(Distinct(requested), Implications());
        Ok(if list == [] then [DEFAULT] else list)
  }

  method Ensured(list: seq<string>, write: string, read: string) returns (r: seq<string>)
    ensures r == EnsureBefore(list, Implies(write, read))
  {
    if write !in list || read in list {
      return list;
    }
    var i := 0;
    while list[i] != write
      invariant 0 <= i < |list| && write !in list[..i]
      decreases |list| - i
    {
      i := i + 1;
    }
    IndexIs(list, write, i);
    r := list[..i] + [read] + list[i..];
  }

  lemma {:induction false} IndexIs(list: seq<string>, s: string, i: nat)
    requires i < |list| && list[i] == s && s !in list[..i]
    ensures Index(list, s) == i
  {
    if i > 0 {
      assert list[..i][0] == list[0] && list[..i][1..] == list[1..][..i - 1];
      IndexIs(list[1..], s, i - 1);
    }
  }

  method NormalizedScopes(scopes: Scopes, profile: Option<string>) returns (r: Result<seq<string>, ScopeError>)
    ensures r == NormalizeScopes(scopes, profile)
  {
    hide Requested, Allowed, EnsureBefore;
    var requested := Requested(scopes, profile);
    if requested.Err? {
      return Err(requested.error);
    }
    var list: seq<string> := [];
    for i := 0 to |requested.value|
      invariant list == Distinct(requested.value[..i])
      invariant i <= FirstUnknown(requested.value)
    {
      var scope := requested.value[i];
      if !Allowed(scope) {
        return Err(UnknownScope(scope));
      }
      assert requested.value[..i + 1][..i] == requested.value[..i];
      if scope !in list {
        list := list + [scope];
      }
    }
    assert requested.value[..|requested.value|] == requested.value;
    SixRules(list);
    list := Ensured(list, "todos:write", "todos:read");
    list := Ensured(list, "documents:write", "documents:read");
    list := Ensured(list, "calendar:write", "calendar:read");
    list := Ensured(list, "memory:write", "memory:read");
    list := Ensured(list, "email:draft", "email:read");
    list := Ensured(list, "cookbook:launch", "cookbook:read");
    return Ok(if list == [] then [DEFAULT] else list);
  }

  lemma EnsureAllNext(list: seq<string>, rules: seq<Implication>, rule: Implication)
    ensures EnsureAll(list, rules + [rule]) == EnsureBefore(EnsureAll(list, rules), rule)
  {
    assert (rules + [rule])[..|rules|] == rules;
  }

  lemma SixRules(list: seq<string>)
    ensures var r := Implications();
            EnsureAll(list, r) ==
            EnsureBefore(EnsureBefore(EnsureBefore(EnsureBefore(EnsureBefore(EnsureBefore(
              list, r[0]), r[1]), r[2]), r[3]), r[4]), r[5])
  {
    var r := Implications();
    assert |r| == 6;
    hide EnsureBefore, Implications;
    assert r[..1] == [] + [r[0]] && r[..2] == r[..1] + [r[1]] && r[..3] == r[..2] + [r[2]];
    assert r[..4] == r[..3] + [r[3]] && r[..5] == r[..4] + [r[4]] && r == r[..5] + [r[5]];
    EnsureAllNext(list, [], r[0]);
    EnsureAllNext(list, r[..1], r[1]);
    EnsureAllNext(list, r[..2], r[2]);
    EnsureAllNext(list, r[..3], r[3]);
    EnsureAllNext(list, r[..4], r[4]);
    EnsureAllNext(list, r[..5], r[5]);
  }

  // ---------------------------------------------------------------------
  // What the normal form promises
  // ---------------------------------------------------------------------

  ghost predicate NoRepeats(list: seq<string>) {
    forall i, j :: 0 <= i < j < |list| ==> list[i] != list[j]
  }

  predicate Holds(list: seq<string>, rule: Implication) {
    rule.write in list ==> rule.read in list
  }

  ghost predicate NormalForm(list: seq<string>) {
    && list != [] && NoRepeats(list)
    && (forall s :: s in list ==> Allowed(s))
    && (forall rule :: rule in Implications() ==> Holds(list, rule))
  }

  lemma {:induction false} DistinctExact(list: seq<string>)
    ensures NoRepeats(Distinct(list)) && (forall s :: s in Distinct(list) <==> s in list)
    ensures NoRepeats(list) ==> Distinct(list) == list
  {
    if list != [] {
      var front, last := list[..|list| - 1], list[|list| - 1];
      DistinctExact(front);
      assert list == front + [last];
    }
  }

  /** No scope that a rule adds is one that a rule starts from. */
  lemma RulesDoNotChain(a: Implication, b: Implication)
    requires a in Implications() && b in Implications()
    ensures a.read != b.write
  {
    RuleEnds(a);
    RuleEnds(b);
    hide Implications;
  }

  lemma RuleEnds(rule: Implication)
    requires rule in Implications()
    ensures rule.write != "" && rule.write[|rule.write| - 1] != 'd'
    ensures rule.read != "" && rule.read[|rule.read| - 1] == 'd'
    ensures Allowed(rule.read)
  {
  }

  lemma EnsureBeforeExact(list: seq<string>, rule: Implication)
    requires NoRepeats(list) && rule in Implications()
    ensures var after := EnsureBefore(list, rule);
            && NoRepeats(after) && Holds(after, rule)
            && (forall s :: s in after <==> s in list || (s == rule.read && rule.write in list))
            && (Holds(list, rule) ==> after == list)
  {
    hide Implications;
    if rule.write in list && rule.read !in list {
      var i := Index(list, rule.write);
      assert list == list[..i] + list[i..];
      assert forall s :: s in list <==> s in list[..i] || s in list[i..];
    }
  }

  /** Exactly the given scopes and those that a rule derives from them. */
  ghost predicate Closure(list: seq<string>, after: seq<string>, rules: seq<Implication>) {
    forall s :: s in after <==> s in list || exists rule :: rule in rules && rule.read == s && rule.write in list
  }

  lemma {:induction false} EnsureAllExact(list: seq<string>, rules: seq<Implication>)
    requires NoRepeats(list) && forall rule :: rule in rules ==> rule in Implications()
    ensures var after := EnsureAll(list, rules);
            && NoRepeats(after) && Closure(list, after, rules)
            && (forall rule :: rule in rules ==> Holds(after, rule))
            && ((forall rule :: rule in rules ==> Holds(list, rule)) ==> after == list)
  {
    hide Implications, EnsureBefore, NoRepeats;
    if rules != [] {
      var front, last := rules[..|rules| - 1], rules[|rules| - 1];
      var before, after := EnsureAll(list, front), EnsureAll(list, rules);
      EnsureAllExact(list, front);
      EnsureBeforeExact(before, last);
      assert rules == front + [last];
      forall rule | rule in rules
        ensures last.read != rule.write && rule.read != last.write
      {
        RulesDoNotChain(last, rule);
        RulesDoNotChain(rule, last);
      }
      assert last.write in before <==> last.write in list;
      forall s
        ensures s in after <==> s in list || exists rule :: rule in rules && rule.read == s && rule.write in list
      {
        if s == last.read && last.write in list { assert last in rules; }
      }
    }
  }

  /** A request is refused exactly for an unknown profile or an unknown scope. */
  lemma RefusedExactly(scopes: Scopes, profile: Option<string>)
    ensures NormalizeScopes(scopes, profile).Err? <==>
            || Requested(scopes, profile).Err?
            || exists s :: s in Requested(scopes, profile).value && !Allowed(s)
  {
    hide Requested, Allowed, Implications, EnsureAll, Distinct;
  }

  /** An accepted request gives a list without repeats of allowed scopes, closed
      under the implications, with exactly what was requested and implied; or
      the default when nothing was requested. */
  lemma AcceptedIsNormal(scopes: Scopes, profile: Option<string>)
    requires NormalizeScopes(scopes, profile).Ok?
    ensures var (list, requested) := (NormalizeScopes(scopes, profile).value, Requested(scopes, profile).value);
            && NormalForm(list)
            && (if requested == [] then list == [DEFAULT] else Closure(requested, list, Implications()))
  {
    hide Requested, Allowed, Implications, EnsureAll, Distinct;
    var requested := Requested(scopes, profile).value;
    var list := NormalizeScopes(scopes, profile).value;
    DistinctExact(requested);
    EnsureAllExact(Distinct(requested), Implications());
    DefaultIsNormal();
    hide NoRepeats;
    if requested == [] {
      assert Distinct(requested) == [];
      assert EnsureAll(Distinct(requested), Implications()) == [] by {
        assert forall s :: s !in EnsureAll(Distinct(requested), Implications());
      }
    } else {
      assert requested[0] in EnsureAll(Distinct(requested), Implications());
      forall s | s in list
        ensures Allowed(s)
      {
        if s !in requested {
          var rule :| rule in Implications() && rule.read == s;
          RuleEnds(rule);
        }
      }
    }
  }

  lemma DefaultIsNormal()
    ensures NormalForm([DEFAULT])
  {
  }

  // ---------------------------------------------------------------------
  // The stored form
  // ---------------------------------------------------------------------

  /** A word survives joining, splitting and stripping. */
  predicate Word(s: string) {
    s != "" && ',' !in s && ' ' !in s && Strip(s) == s
  }

  lemma AllowedIsInk(s: string)
    requires Allowed(s)
    ensures s != "" && forall i :: 0 <= i < |s| ==> 'a' <= s[i] <= 'z' || s[i] == ':'
  {
  }

  lemma AllowedIsWord(s: string)
    requires Allowed(s)
    ensures Word(s)
  {
    AllowedIsInk(s);
    hide Allowed, Strip;
    assert Stripped(s);
    StripShape(s);
  }

  lemma {:induction false} JoinOfWords(list: seq<string>)
    requires list != [] && forall s :: s in list ==> Word(s)
    ensures ' ' !in Join(list, ',') && Join(list, ',') != ""
  {
    hide Strip;
    assert list[0] in list;
    if |list| > 1 {
      JoinOfWords(list[1..]);
    }
  }

  lemma {:induction false} WordsSame(list: seq<string>)
    requires forall s :: s in list ==> Word(s)
    ensures Words(list) == list
  {
    hide Strip;
    if list != [] {
      assert list[0] in list;
      WordsSame(list[1..]);
      assert list == [list[0]] + list[1..];
    }
  }

  lemma NormalIsFixed(list: seq<string>)
    requires NormalForm(list)
    ensures NormalizeScopes(Given(Join(list, ',')), None) == Ok(list)
    ensures Words(Split(Join(list, ','), ',')) == list
  {
    hide Allowed, Implications, EnsureAll, Distinct, Strip, Join, Split, Words;
    forall s | s in list
      ensures Word(s)
    {
      AllowedIsWord(s);
    }
    SplitJoin(list, ',');
    JoinOfWords(list);
    WordsSame(list);
    assert SpacesToCommas(Join(list, ',')) == Join(list, ',');
    DistinctExact(list);
    EnsureAllExact(list, Implications());
    assert Requested(Given(Join(list, ',')), None) == Ok(list);
  }

  /** The normal forms are exactly the lists whose stored form normalises to them. */
  lemma NormalFormsAreFixedPoints(list: seq<string>)
    ensures NormalForm(list) <==> NormalizeScopes(Given(Join(list, ',')), None) == Ok(list)
  {
    if NormalForm(list) {
      NormalIsFixed(list);
    }
    hide NormalForm, NormalizeScopes;
    if NormalizeScopes(Given(Join(list, ',')), None) == Ok(list) {
      AcceptedIsNormal(Given(Join(list, ',')), None);
    }
  }

  /** Normalising the stored form of an accepted request, and reading it back as
      the routes do, both give the list that was returned. */
  lemma StoredFormIsFixed(scopes: Scopes, profile: Option<string>)
    requires NormalizeScopes(scopes, profile).Ok?
    ensures var list := NormalizeScopes(scopes, profile).value;
            && NormalizeScopes(Given(Join(list, ',')), None) == Ok(list)
            && Words(Split(Join(list, ','), ',')) == list
  {
    AcceptedIsNormal(scopes, profile);
    NormalIsFixed(NormalizeScopes(scopes, profile).value);
  }

  // ---------------------------------------------------------------------
  // What a request asks for
  // ---------------------------------------------------------------------

  /** The parts of a request without a profile: the items of a list, or text that
      was written with commas or spaces between them; nothing asks for the default. */
  ghost predicate PartsOf(scopes: Scopes, parts: seq<string>) {
    match scopes
    case Missing => parts == ["chat"]
    case Listed(items) => parts == items
    case Given(text) =>
      if text == "" then parts == ["chat"]
      else
        && parts != [] && (forall p :: p in parts ==> ',' !in p)
        && |Join(parts, ',')| == |text|
        && forall i :: 0 <= i < |text| ==> Join(parts, ',')[i] == if text[i] == ' ' then ',' else text[i]
  }

  ghost predicate Asks(parts: seq<string>, s: string) {
    s != "" && exists p :: p in parts && Strip(p) == s
  }

  /** The read scope that comes with another one. */
  predicate Entails(write: string, read: string) {
    || (write == "todos:write" && read == "todos:read")
    || (write == "documents:write" && read == "documents:read")
    || (write == "calendar:write" && read == "calendar:read")
    || (write == "memory:write" && read == "memory:read")
    || (write == "email:draft" && read == "email:read")
    || (write == "cookbook:launch" && read == "cookbook:read")
  }

  lemma RulesAre(write: string, read: string)
    ensures Implies(write, read) in Implications() <==> Entails(write, read)
  {
  }

  lemma {:induction false} WordsAre(parts: seq<string>, s: string)
    ensures s in Words(parts) <==> Asks(parts, s)
  {
    hide Strip;
    if parts != [] {
      WordsAre(parts[1..], s);
      assert parts == [parts[0]] + parts[1..];
    }
  }

  /** The words come in the order of their parts. */
  lemma {:induction false} WordsOfFront(front: seq<string>, back: seq<string>)
    ensures Words(front + back) == Words(front) + Words(back)
  {
    hide Strip;
    if front == [] {
      assert front + back == back;
    } else {
      assert (front + back)[1..] == front[1..] + back;
      WordsOfFront(front[1..], back);
    }
  }

  lemma ChatIsWord()
    ensures Words(["chat"]) == ["chat"]
  {
    AllowedIsWord("chat");
    hide Strip;
    assert ["chat"][1..] == [];
  }

  lemma PartsAreRequested(scopes: Scopes, profile: Option<string>, parts: seq<string>)
    requires (profile.Some? ==> Strip(profile.value) == "") && PartsOf(scopes, parts)
    ensures Requested(scopes, profile) == Ok(Words(parts))
  {
    hide Strip, Split, Join, Words, Allowed;
    ChatIsWord();
    if scopes.Given? && scopes.text != "" {
      SplitJoin(parts, ',');
      assert SpacesToCommas(scopes.text) == Join(parts, ',');
    }
  }

  ghost predicate Entailed(parts: seq<string>, s: string) {
    exists write :: Entails(write, s) && Asks(parts, write)
  }

  /** Exactly what is asked for, and what that entails. */
  ghost predicate HoldsAsked(list: seq<string>, parts: seq<string>) {
    forall s :: s in list <==> Asks(parts, s) || Entailed(parts, s)
  }

  lemma EntailedExactly(words: seq<string>, parts: seq<string>, s: string)
    requires forall w :: w in words <==> Asks(parts, w)
    ensures (exists rule :: rule in Implications() && rule.read == s && rule.write in words) <==> Entailed(parts, s)
  {
    hide Asks, Implications, Entails;
    if exists rule :: rule in Implications() && rule.read == s && rule.write in words {
      var rule :| rule in Implications() && rule.read == s && rule.write in words;
      RulesAre(rule.write, s);
      assert rule == Implies(rule.write, s);
    }
    if Entailed(parts, s) {
      var write :| Entails(write, s) && Asks(parts, write);
      RulesAre(write, s);
      assert Implies(write, s).read == s;
    }
  }

  lemma ClosureIsAsked(words: seq<string>, parts: seq<string>, list: seq<string>)
    requires (forall w :: w in words <==> Asks(parts, w)) && Closure(words, list, Implications())
    ensures HoldsAsked(list, parts)
  {
    hide Asks, Implications, Entailed;
    forall s
      ensures s in list <==> Asks(parts, s) || Entailed(parts, s)
    {
      EntailedExactly(words, parts, s);
    }
  }

  lemma WordsAreAsked(parts: seq<string>)
    ensures forall s :: s in Words(parts) <==> Asks(parts, s)
  {
    hide Words, Asks;
    forall s
      ensures s in Words(parts) <==> Asks(parts, s)
    {
      WordsAre(parts, s);
    }
  }

  /** Every request without a profile: it is refused exactly if it asks for a scope
      that is not allowed, and names one; else the list holds exactly what it asks
      for and what that entails, or the default if it asks for nothing. */
  lemma RequestExactly(scopes: Scopes, profile: Option<string>, parts: seq<string>)
    requires (profile.Some? ==> Strip(profile.value) == "") && PartsOf(scopes, parts)
    ensures match NormalizeScopes(scopes, profile)
            case Err(UnknownScope(s)) => Asks(parts, s) && !Allowed(s)
            case Err(_) => false
            case Ok(list) =>
              && (forall s :: Asks(parts, s) ==> Allowed(s))
              && (if exists s :: Asks(parts, s) then HoldsAsked(list, parts) else list == ["chat"])
  {
    PartsAreRequested(scopes, profile, parts);
    WordsAreAsked(parts);
    var words := Words(parts);
    RefusedExactly(scopes, profile);
    hide Words, Asks, Implications, Allowed, PartsOf, HoldsAsked, Strip, Requested, EnsureAll, Distinct;
    if NormalizeScopes(scopes, profile).Ok? {
      AcceptedIsNormal(scopes, profile);
      hide NormalizeScopes, NormalForm;
      if words != [] {
        assert Asks(parts, words[0]);
        ClosureIsAsked(words, parts, NormalizeScopes(scopes, profile).value);
      }
    } else {
      assert words[FirstUnknown(words)] in words;
    }
  }

  /** Four areas may be read and written; mail may be read, drafted and sent; the
      cookbook may be read and launched; and there is the default. */
  ghost predicate InArea(s: string) {
    || s == "chat"
    || (exists area :: area in ["todos", "documents", "calendar", "memory"] && (s == area + ":read" || s == area + ":write"))
    || (exists right :: right in [":read", ":draft", ":send"] && s == "email" + right)
    || (exists right :: right in [":read", ":launch"] && s == "cookbook" + right)
  }

  lemma FourAreas(s: string)
    ensures s in ["todos:read", "todos:write", "documents:read", "documents:write",
                  "calendar:read", "calendar:write", "memory:read", "memory:write"]
            <==> exists area :: area in ["todos", "documents", "calendar", "memory"] && (s == area + ":read" || s == area + ":write")
  {
    var areas := ["todos", "documents", "calendar", "memory"];
    assert areas[0] + ":read" == "todos:read" && areas[0] + ":write" == "todos:write";
    assert areas[1] + ":read" == "documents:read" && areas[1] + ":write" == "documents:write";
    assert areas[2] + ":read" == "calendar:read" && areas[2] + ":write" == "calendar:write";
    assert areas[3] + ":read" == "memory:read" && areas[3] + ":write" == "memory:write";
    assert areas[0] in areas && areas[1] in areas && areas[2] in areas && areas[3] in areas;
  }

  lemma AllowedExactly(s: string)
    ensures Allowed(s) <==> InArea(s)
  {
    FourAreas(s);
    var (mail, cook) := ([":read", ":draft", ":send"], [":read", ":launch"]);
    assert "email" + mail[0] == "email:read" && "email" + mail[1] == "email:draft" && "email" + mail[2] == "email:send";
    assert "cookbook" + cook[0] == "cookbook:read" && "cookbook" + cook[1] == "cookbook:launch";
    assert mail[0] in mail && mail[1] in mail && mail[2] in mail && cook[0] in cook && cook[1] in cook;
  }

  // ---------------------------------------------------------------------
  // Profiles
  // ---------------------------------------------------------------------

  lemma NormalStays(list: seq<string>)
    requires NormalForm(list)
    ensures FirstUnknown(list) == |list| && EnsureAll(Distinct(list), Implications()) == list
  {
    hide Allowed, Implications, EnsureAll, Distinct;
    DistinctExact(list);
    EnsureAllExact(list, Implications());
  }

  lemma ProfileLists(list: seq<string>)
    requires || list == ["chat"] || list == ["todos:read", "todos:write"]
             || list == ["documents:read", "documents:write"]
             || list == ["email:read", "email:draft", "documents:read", "documents:write"]
    ensures NormalForm(list)
  {
    assert forall rule :: rule in Implications() ==> Holds(list, rule);
  }

  /** A profile gives its scopes, whatever scopes come with it, and any other name
      is refused. */
  lemma ProfileExactly(scopes: Scopes, profile: string)
    requires Strip(profile) != ""
    ensures NormalizeScopes(scopes, Some(profile)) ==
            if Strip(profile) == "chat" then Ok(["chat"])
            else if Strip(profile) == "codex_todos" then Ok(["todos:read", "todos:write"])
            else if Strip(profile) == "codex_documents" then Ok(["documents:read", "documents:write"])
            else if Strip(profile) == "codex_email_drafts"
            then Ok(["email:read", "email:draft", "documents:read", "documents:write"])
            else Err(UnknownProfile)
  {
    hide Strip, FirstUnknown, EnsureAll, Distinct, Implications, NormalForm;
    var key := Strip(profile);
    if key == "chat" || key == "codex_todos" || key == "codex_documents" || key == "codex_email_drafts" {
      var list := Profile(key).value;
      ProfileLists(list);
      NormalStays(list);
    }
  }

  // ---------------------------------------------------------------------
  // The order of the list
  // ---------------------------------------------------------------------

  /** First occurrences stay where they are. */
  lemma {:induction false} DistinctOfFront(front: seq<string>, back: seq<string>)
    ensures Distinct(front) <= Distinct(front + back)
    decreases |back|
  {
    if back == [] {
      assert front + back == front;
    } else {
      DistinctOfFront(front, back[..|back| - 1]);
      assert (front + back)[..|front + back| - 1] == front + back[..|back| - 1];
    }
  }

  /** The elements that are in `base`, in their order. */
  function Only(list: seq<string>, base: seq<string>): seq<string> {
    if list == [] then [] else (if list[0] in base then [list[0]] else []) + Only(list[1..], base)
  }

  lemma {:induction false} OnlyOfFront(front: seq<string>, back: seq<string>, base: seq<string>)
    ensures Only(front + back, base) == Only(front, base) + Only(back, base)
  {
    if front == [] {
      assert front + back == back;
    } else {
      assert (front + back)[1..] == front[1..] + back;
      OnlyOfFront(front[1..], back, base);
    }
  }

  lemma {:induction false} OnlyOfAll(list: seq<string>, base: seq<string>)
    requires forall s :: s in list ==> s in base
    ensures Only(list, base) == list
  {
    if list != [] {
      OnlyOfAll(list[1..], base);
      assert list == [list[0]] + list[1..];
    }
  }

  ghost predicate Adjacent(list: seq<string>, a: string, b: string) {
    exists i :: 0 <= i < |list| - 1 && list[i] == a && list[i + 1] == b
  }

  lemma EnsureBeforeKeepsOrder(list: seq<string>, base: seq<string>, rule: Implication)
    requires forall s :: s in base ==> s in list
    ensures Only(EnsureBefore(list, rule), base) == Only(list, base)
    ensures rule.write in list && rule.read !in list ==> Adjacent(EnsureBefore(list, rule), rule.read, rule.write)
  {
    if rule.write in list && rule.read !in list {
      var i := Index(list, rule.write);
      var (front, back) := (list[..i], list[i..]);
      assert list == front + back && EnsureBefore(list, rule) == front + ([rule.read] + back);
      OnlyOfFront(front, back, base);
      OnlyOfFront(front, [rule.read] + back, base);
      OnlyOfFront([rule.read], back, base);
      assert [rule.read][1..] == [];
      var after := EnsureBefore(list, rule);
      assert after[i] == rule.read && after[i + 1] == rule.write;
    }
  }

  lemma InsertedElsewhere(list: seq<string>, rule: Implication, a: string, b: string)
    requires Adjacent(list, a, b) && rule.write != b
    ensures Adjacent(EnsureBefore(list, rule), a, b)
  {
    if rule.write in list && rule.read !in list {
      var k := Index(list, rule.write);
      var i :| 0 <= i < |list| - 1 && list[i] == a && list[i + 1] == b;
      var after := EnsureBefore(list, rule);
      var at := if i < k then i else i + 1;
      assert after[at] == a && after[at + 1] == b;
    }
  }

  lemma OneRuleEach(a: Implication, b: Implication)
    requires a in Implications() && b in Implications() && a.write == b.write
    ensures a == b
  {
    RulesAre(a.write, a.read);
    RulesAre(b.write, b.read);
  }

  /** The scopes that were asked for stay in the order in which they first come up,
      and each one that was added stands directly before the one that entails it. */
  lemma {:induction false} OrderExactly(base: seq<string>, rules: seq<Implication>)
    requires NoRepeats(base) && forall rule :: rule in rules ==> rule in Implications()
    ensures var list := EnsureAll(base, rules);
            && Only(list, base) == base
            && forall rule :: rule in rules && rule.write in base && rule.read !in base ==>
                 Adjacent(list, rule.read, rule.write)
  {
    hide Implications, EnsureBefore, NoRepeats, Adjacent;
    if rules == [] {
      OnlyOfAll(base, base);
    } else {
      var front, last := rules[..|rules| - 1], rules[|rules| - 1];
      var before := EnsureAll(base, front);
      assert rules == front + [last];
      OrderExactly(base, front);
      EnsureAllExact(base, front);
      EnsureBeforeKeepsOrder(before, base, last);
      forall rule | rule in rules && rule.write in base && rule.read !in base
        ensures Adjacent(EnsureAll(base, rules), rule.read, rule.write)
      {
        if rule in front {
          KeepsAdjacent(before, rule, last);
        } else if last.read in before {
          AddedByOther(base, before, front, last);
        }
      }
    }
  }

  lemma KeepsAdjacent(before: seq<string>, rule: Implication, last: Implication)
    requires rule in Implications() && last in Implications() && Adjacent(before, rule.read, rule.write)
    ensures Adjacent(EnsureBefore(before, last), rule.read, rule.write)
  {
    hide Implications;
    if last.write == rule.write {
      OneRuleEach(rule, last);
      assert rule.read in before;
    } else {
      InsertedElsewhere(before, last, rule.read, rule.write);
    }
  }

  /** No two rules add the same scope. */
  lemma AddedByOther(base: seq<string>, before: seq<string>, front: seq<Implication>, last: Implication)
    requires (forall rule :: rule in front ==> rule in Implications()) && last in Implications()
    requires Closure(base, before, front) && last.read in before && last.read !in base
    ensures last in front
  {
    var rule :| rule in front && rule.read == last.read && rule.write in base;
    RulesAre(rule.write, rule.read);
    RulesAre(last.write, last.read);
  }

  /** So in every accepted list that is not the default. */
  lemma AcceptedOrder(scopes: Scopes, profile: Option<string>)
    requires NormalizeScopes(scopes, profile).Ok? && Requested(scopes, profile).value != []
    ensures var (list, base) := (NormalizeScopes(scopes, profile).value, Distinct(Requested(scopes, profile).value));
            && Only(list, base) == base
            && forall write, read :: Entails(write, read) && write in base && read !in base ==> Adjacent(list, read, write)
  {
    var requested := Requested(scopes, profile).value;
    DistinctExact(requested);
    OrderExactly(Distinct(requested), Implications());
    EnsureAllExact(Distinct(requested), Implications());
    assert requested[0] in Distinct(requested);
    hide Requested, Allowed, Implications, EnsureAll, Distinct, Entails, Adjacent, NoRepeats;
    forall write, read | Entails(write, read) && write in Distinct(requested) && read !in Distinct(requested)
      ensures Adjacent(NormalizeScopes(scopes, profile).value, read, write)
    {
      RulesAre(write, read);
      assert Implies(write, read) in Implications();
    }
  }
}
