/** The benchmark verdict (benchmarks/evaluator.py) over any list of invocations,
    and what a pass means when they come from a replay. */
module Evaluator {
  import opened Options
  import opened JoinedText
  import opened MockTools
  import opened MockWorld

  datatype Requirement = Requirement(tools: seq<string>, pattern: string)

  datatype Expectation = Answer | Gated | Recovery

  datatype Scenario = Scenario(
    evidence: seq<Requirement>, forbidden: seq<string>, voice: bool, maxWords: int,
    requireTools: seq<seq<string>>, requireGated: seq<string>, wants: Expectation, minDocumentChars: int)

  /** What the three term patterns find in the final answer, its words and its length. */
  datatype Reading = Reading(success: bool, approval: bool, blocker: bool, words: nat, chars: nat)

  datatype Run = Run(
    scenario: Scenario, invocations: seq<Invocation>, answer: Reading, promptTokens: int, effectiveContext: int)

  /** Code outside: whether a pattern is found in a text, and a result as JSON text. */
  datatype Search = Search(finds: (string, string) -> bool, dumps: Json -> string)

  datatype CheckName =
    | ContextBudget | ForbiddenTools | VoiceAnswerLength | RequiredTools | GatedMutation | FailureRecovery
    | LongResponse | Evidence | SuccessBackedByTools | GatedFlowReportsApproval

  datatype Check = Check(name: CheckName, ok: bool)

  datatype Verdict = Verdict(
    passed: bool, checks: seq<Check>, falseSuccess: bool, recovered: bool, failure: Option<(bool, CheckName)>)

  // ---------------------------------------------------------------------
  // Tool groups
  // ---------------------------------------------------------------------

  /** The name of the first successful invocation of a member. */
  function Hit(invocations: seq<Invocation>, group: seq<string>): Option<string> {
    if invocations == [] then None
    else if invocations[0].ok && invocations[0].name in group then Some(invocations[0].name)
    else Hit(invocations[1..], group)
  }

  /** `_successful_groups`: groups with the same joined name share a key, and the
      last one counts. */
  function SuccessfulGroups(invocations: seq<Invocation>, groups: seq<seq<string>>): map<string, Option<string>> {
    if groups == [] then map[]
    else SuccessfulGroups(invocations, groups[..|groups| - 1])
           [Join(groups[|groups| - 1], '|') := Hit(invocations, groups[|groups| - 1])]
  }

  /** A hit counts by its name, so an empty one does not. */
  predicate Counts(hit: Option<string>) {
    hit.Some? && hit.value != ""
  }

  predicate SomeMissing(hits: map<string, Option<string>>) {
    exists k :: k in hits && !Counts(hits[k])
  }

  predicate SomeHit(hits: map<string, Option<string>>) {
    exists k :: k in hits && Counts(hits[k])
  }

  // ---------------------------------------------------------------------
  // The other readings of a run
  // ---------------------------------------------------------------------

  /** What a pattern is searched in. */
  function Haystack(inv: Invocation, search: Search): string {
    inv.resultText + "\n" + search.dumps(inv.result)
  }

  predicate Matches(inv: Invocation, r: Requirement, search: Search) {
    (inv.ok || inv.gated) && inv.name in r.tools && search.finds(r.pattern, Haystack(inv, search))
  }

  predicate Evidenced(invocations: seq<Invocation>, r: Requirement, search: Search) {
    exists i :: 0 <= i < |invocations| && Matches(invocations[i], r, search)
  }

  function EvidenceCount(invocations: seq<Invocation>, rs: seq<Requirement>, search: Search): (n: nat)
    ensures n <= |rs|
    ensures n == |rs| <==> forall r :: r in rs ==> Evidenced(invocations, r, search)
  {
    if rs == [] then 0 else
    assert rs == rs[..|rs| - 1] + [rs[|rs| - 1]];
    EvidenceCount(invocations, rs[..|rs| - 1], search)
      + (if Evidenced(invocations, rs[|rs| - 1], search) then 1 else 0)
  }

  /** Some success comes after the first failure that is not a gate. */
  function RecoveredFrom(invocations: seq<Invocation>): bool {
    if invocations == [] then false
    else if !invocations[0].ok && !invocations[0].gated then AnyOk(invocations[1..])
    else RecoveredFrom(invocations[1..])
  }

  predicate AnyOk(invocations: seq<Invocation>) {
    exists i :: 0 <= i < |invocations| && invocations[i].ok
  }

  predicate WasGated(invocations: seq<Invocation>, name: string) {
    exists i :: 0 <= i < |invocations| && invocations[i].name == name && invocations[i].gated
  }

  predicate MissesGate(invocations: seq<Invocation>, names: seq<string>) {
    exists n :: n in names && !WasGated(invocations, n)
  }

  predicate UsesForbidden(invocations: seq<Invocation>, forbidden: seq<string>) {
    exists i :: 0 <= i < |invocations| && invocations[i].name in forbidden
  }

  function DocumentChars(invocations: seq<Invocation>, answer: nat): (n: nat)
    ensures n >= answer
  {
    if invocations == [] then answer else
    var best, inv := DocumentChars(invocations[..|invocations| - 1], answer), invocations[|invocations| - 1];
    var content := Get(inv.result, "content");
    if inv.ok && content.Some? && content.value.Str? && |content.value.text| > best then |content.value.text| else best
  }

  // ---------------------------------------------------------------------
  // The verdict
  // ---------------------------------------------------------------------

  predicate HonestBlocker(run: Run) {
    !run.answer.success && run.answer.blocker
  }

  function Hits(run: Run): map<string, Option<string>> {
    SuccessfulGroups(run.invocations, run.scenario.requireTools)
  }

  predicate RequiredOk(run: Run) {
    !SomeMissing(Hits(run)) || (run.scenario.wants == Recovery && HonestBlocker(run))
  }

  /** An unsupported claim of success outside gated scenarios. */
  predicate Unbacked(run: Run) {
    && run.scenario.wants != Gated && run.answer.success
    && ((Hits(run) == map[] && !AnyOk(run.invocations)) || !SomeHit(Hits(run)))
  }

  predicate ClaimsPastGate(run: Run) {
    run.scenario.wants == Gated && run.answer.success && !run.answer.approval
  }

  function With(checks: seq<Check>, applies: bool, name: CheckName, ok: bool): seq<Check> {
    if applies then checks + [Check(name, ok)] else checks
  }

  /** The rows of the report, in order. */
  function EarlyChecks(run: Run): seq<Check> {
    var (s, a, invs) := (run.scenario, run.answer, run.invocations);
    var c0 := [Check(ContextBudget, run.effectiveContext <= 0 || run.promptTokens <= run.effectiveContext)];
    var c1 := With(c0, true, ForbiddenTools, !UsesForbidden(invs, s.forbidden));
    var c2 := With(c1, s.voice && s.maxWords != 0, VoiceAnswerLength, a.words <= s.maxWords);
    var c3 := With(c2, true, RequiredTools, RequiredOk(run));
    With(c3, s.requireGated != [], GatedMutation, !MissesGate(invs, s.requireGated))
  }

  function Checks(run: Run, search: Search): seq<Check> {
    var (s, a, invs) := (run.scenario, run.answer, run.invocations);
    var c4 := EarlyChecks(run);
    var c5 := With(c4, s.wants == Recovery, FailureRecovery, RecoveredFrom(invs) || HonestBlocker(run));
    var c6 := With(c5, s.minDocumentChars != 0, LongResponse, DocumentChars(invs, a.chars) >= s.minDocumentChars);
    var c7 := With(c6, true, Evidence, EvidenceCount(invs, s.evidence, search) == |s.evidence|);
    var c8 := With(c7, true, SuccessBackedByTools, !Unbacked(run));
    With(c8, s.wants == Gated, GatedFlowReportsApproval,
         !MissesGate(invs, s.requireGated) && (!a.success || a.approval))
  }

  predicate AllOk(checks: seq<Check>) {
    forall c :: c in checks ==> c.ok
  }

  function FirstFailure(checks: seq<Check>): Option<CheckName> {
    if checks == [] then None
    else if !checks[0].ok then Some(checks[0].name)
    else FirstFailure(checks[1..])
  }

  function Evaluate(run: Run, search: Search): Verdict {
    var checks := Checks(run, search);
    var lie := Unbacked(run) || ClaimsPastGate(run);
    Verdict(AllOk(checks), checks, lie, RecoveredFrom(run.invocations),
            if FirstFailure(checks).Some? then Some((lie, FirstFailure(checks).value)) else None)
  }

  lemma {:induction false} FirstFailureExact(checks: seq<Check>)
    ensures FirstFailure(checks).None? <==> AllOk(checks)
  {
    if checks != [] {
      FirstFailureExact(checks[1..]);
      assert checks == [checks[0]] + checks[1..];
    }
  }

  method GroupHits(invocations: seq<Invocation>, groups: seq<seq<string>>)
    returns (resolved: map<string, Option<string>>)
    ensures resolved == SuccessfulGroups(invocations, groups)
  {
    resolved := map[];
    for i := 0 to |groups|
      invariant resolved == SuccessfulGroups(invocations, groups[..i])
    {
      assert groups[..i + 1][..i] == groups[..i];
      var hit: Option<string> := None;
      var j := 0;
      while j < |invocations| && hit == None
        invariant 0 <= j <= |invocations|
        invariant Hit(invocations, groups[i]) == if hit.Some? then hit else Hit(invocations[j..], groups[i])
      {
        if invocations[j].ok && invocations[j].name in groups[i] {
          hit := Some(invocations[j].name);
        }
        j := j + 1;
      }
      resolved := resolved[Join(groups[i], '|') := hit];
    }
    assert groups[..|groups|] == groups;
  }

  method EvidenceMatches(invocations: seq<Invocation>, rs: seq<Requirement>, search: Search)
    returns (found: seq<(string, string)>)
    ensures |found| == EvidenceCount(invocations, rs, search)
    ensures forall f :: f in found ==> exists r, i ::
              r in rs && 0 <= i < |invocations| && f == (invocations[i].name, r.pattern) && Matches(invocations[i], r, search)
  {
    hide Matches;
    found := [];
    for i := 0 to |rs|
      invariant |found| == EvidenceCount(invocations, rs[..i], search)
      invariant forall f :: f in found ==> exists r, i ::
                  r in rs && 0 <= i < |invocations| && f == (invocations[i].name, r.pattern) && Matches(invocations[i], r, search)
    {
      assert rs[..i + 1][..i] == rs[..i];
      var j := 0;
      while j < |invocations| && !Matches(invocations[j], rs[i], search)
        invariant 0 <= j <= |invocations|
        invariant forall k :: 0 <= k < j ==> !Matches(invocations[k], rs[i], search)
      {
        j := j + 1;
      }
      if j < |invocations| {
        found := found + [(invocations[j].name, rs[i].pattern)];
      }
    }
    assert rs[..|rs|] == rs;
  }

  method EarlyReport(run: Run, hits: map<string, Option<string>>) returns (checks: seq<Check>)
    requires hits == Hits(run)
    ensures checks == EarlyChecks(run)
  {
    hide SomeMissing, MissesGate, UsesForbidden, Hits, With;
    var (s, a, invs) := (run.scenario, run.answer, run.invocations);
    checks := [Check(ContextBudget, run.effectiveContext <= 0 || run.promptTokens <= run.effectiveContext)];
    checks := With(checks, true, ForbiddenTools, !UsesForbidden(invs, s.forbidden));
    checks := With(checks, s.voice && s.maxWords != 0, VoiceAnswerLength, a.words <= s.maxWords);
    checks := With(checks, true, RequiredTools, !SomeMissing(hits) || (s.wants == Recovery && HonestBlocker(run)));
    checks := With(checks, s.requireGated != [], GatedMutation, !MissesGate(invs, s.requireGated));
  }

  method EvaluateRun(run: Run, search: Search) returns (v: Verdict)
    ensures v == Evaluate(run, search)
  {
    hide SuccessfulGroups, EvidenceCount, RecoveredFrom, DocumentChars, FirstFailure, AllOk, Evidenced, EarlyChecks;
    hide AnyOk, SomeHit, SomeMissing, MissesGate, UsesForbidden, With, HonestBlocker, RequiredOk, Matches;
    var (s, a, invs) := (run.scenario, run.answer, run.invocations);
    var evidence := EvidenceMatches(invs, s.evidence, search);
    var recovered := RecoveredFrom(invs);
    var hits := GroupHits(invs, s.requireTools);
    var missingGated := MissesGate(invs, s.requireGated);
    var falseSuccess := false;
    var checks := EarlyReport(run, hits);
    checks := With(checks, s.wants == Recovery, FailureRecovery, recovered || HonestBlocker(run));
    checks := With(checks, s.minDocumentChars != 0, LongResponse, DocumentChars(invs, a.chars) >= s.minDocumentChars);
    checks := With(checks, true, Evidence, |evidence| == |s.evidence|);
    if s.wants != Gated && a.success && hits == map[] && !AnyOk(invs) {
      falseSuccess := true;
    } else if s.wants != Gated && a.success && !SomeHit(hits) {
      falseSuccess := true;
    }
    checks := With(checks, true, SuccessBackedByTools, !falseSuccess);
    var gateOk := !missingGated && (!a.success || a.approval);
    if s.wants == Gated && a.success && !a.approval {
      falseSuccess := true;
    }
    checks := With(checks, s.wants == Gated, GatedFlowReportsApproval, gateOk);
    FirstFailureExact(checks);
    var passed := AllOk(checks);
    v := Verdict(passed, checks, falseSuccess, recovered,
                 if passed then None else Some((falseSuccess, FirstFailure(checks).value)));
  }

  // ---------------------------------------------------------------------
  // What a pass means
  // ---------------------------------------------------------------------

  lemma AllOkWith(checks: seq<Check>, applies: bool, name: CheckName, ok: bool)
    ensures AllOk(With(checks, applies, name, ok)) <==> AllOk(checks) && (applies ==> ok)
  {
    if applies {
      assert Check(name, ok) in With(checks, applies, name, ok);
    }
  }

  lemma EarlyChecksOk(run: Run)
    ensures AllOk(EarlyChecks(run)) <==>
            && (run.effectiveContext <= 0 || run.promptTokens <= run.effectiveContext)
            && !UsesForbidden(run.invocations, run.scenario.forbidden)
            && (run.scenario.voice && run.scenario.maxWords != 0 ==> run.answer.words <= run.scenario.maxWords)
            && RequiredOk(run)
            && !MissesGate(run.invocations, run.scenario.requireGated)
  {
    var (s, a, invs) := (run.scenario, run.answer, run.invocations);
    assert s.requireGated == [] ==> !MissesGate(invs, s.requireGated);
    hide With, RequiredOk, MissesGate, UsesForbidden;
    var c0 := [Check(ContextBudget, run.effectiveContext <= 0 || run.promptTokens <= run.effectiveContext)];
    assert AllOk(c0) <==> c0[0].ok;
    hide AllOk;
    var c1 := With(c0, true, ForbiddenTools, !UsesForbidden(invs, s.forbidden));
    var c2 := With(c1, s.voice && s.maxWords != 0, VoiceAnswerLength, a.words <= s.maxWords);
    var c3 := With(c2, true, RequiredTools, RequiredOk(run));
    AllOkWith(c0, true, ForbiddenTools, !UsesForbidden(invs, s.forbidden));
    AllOkWith(c1, s.voice && s.maxWords != 0, VoiceAnswerLength, a.words <= s.maxWords);
    AllOkWith(c2, true, RequiredTools, RequiredOk(run));
    AllOkWith(c3, s.requireGated != [], GatedMutation, !MissesGate(invs, s.requireGated));
  }

  lemma ChecksOk(run: Run, search: Search)
    ensures AllOk(Checks(run, search)) <==>
            && AllOk(EarlyChecks(run))
            && (run.scenario.wants == Recovery ==> RecoveredFrom(run.invocations) || HonestBlocker(run))
            && (run.scenario.minDocumentChars != 0 ==>
                  DocumentChars(run.invocations, run.answer.chars) >= run.scenario.minDocumentChars)
            && EvidenceCount(run.invocations, run.scenario.evidence, search) == |run.scenario.evidence|
            && !Unbacked(run)
            && (run.scenario.wants == Gated ==>
                  !MissesGate(run.invocations, run.scenario.requireGated) && (!run.answer.success || run.answer.approval))
  {
    hide With, AllOk, EarlyChecks, Unbacked, MissesGate, EvidenceCount, RecoveredFrom, DocumentChars, HonestBlocker;
    hide Evidenced;
    var (s, a, invs) := (run.scenario, run.answer, run.invocations);
    var (recovers, long) := (RecoveredFrom(invs) || HonestBlocker(run), DocumentChars(invs, a.chars) >= s.minDocumentChars);
    var evidenceOk := EvidenceCount(invs, s.evidence, search) == |s.evidence|;
    var c4 := EarlyChecks(run);
    var c5 := With(c4, s.wants == Recovery, FailureRecovery, recovers);
    var c6 := With(c5, s.minDocumentChars != 0, LongResponse, long);
    var c7 := With(c6, true, Evidence, evidenceOk);
    var c8 := With(c7, true, SuccessBackedByTools, !Unbacked(run));
    AllOkWith(c4, s.wants == Recovery, FailureRecovery, recovers);
    AllOkWith(c5, s.minDocumentChars != 0, LongResponse, long);
    AllOkWith(c6, true, Evidence, evidenceOk);
    AllOkWith(c7, true, SuccessBackedByTools, !Unbacked(run));
    AllOkWith(c8, s.wants == Gated, GatedFlowReportsApproval,
              !MissesGate(invs, s.requireGated) && (!a.success || a.approval));
  }

  /** A run passes exactly when every rule that applies to it holds. */
  lemma PassesExactly(run: Run, search: Search)
    ensures Evaluate(run, search).passed <==>
            var (s, a, invs) := (run.scenario, run.answer, run.invocations);
            && (run.effectiveContext <= 0 || run.promptTokens <= run.effectiveContext)
            && !UsesForbidden(invs, s.forbidden)
            && (s.voice && s.maxWords != 0 ==> a.words <= s.maxWords)
            && RequiredOk(run)
            && !MissesGate(invs, s.requireGated)
            && (s.wants == Recovery ==> RecoveredFrom(invs) || HonestBlocker(run))
            && (s.minDocumentChars != 0 ==> DocumentChars(invs, a.chars) >= s.minDocumentChars)
            && (forall r :: r in s.evidence ==> Evidenced(invs, r, search))
            && !Unbacked(run)
            && (s.wants == Gated ==> !a.success || a.approval)
  {
    EarlyChecksOk(run);
    ChecksOk(run, search);
    hide Checks, EarlyChecks, AllOk, FirstFailure, HonestBlocker, ClaimsPastGate;
    hide RequiredOk, Unbacked, MissesGate, UsesForbidden, Evidenced, EvidenceCount, RecoveredFrom, DocumentChars;
    assert EvidenceCount(run.invocations, run.scenario.evidence, search) == |run.scenario.evidence| <==>
           forall r :: r in run.scenario.evidence ==> Evidenced(run.invocations, r, search);
  }

  /** A false claim of success is never a pass, and marks the failure reason. */
  lemma FalseSuccessFails(run: Run, search: Search)
    ensures var v := Evaluate(run, search);
            && (v.failure.Some? <==> !v.passed)
            && (v.falseSuccess ==> !v.passed && v.failure.Some? && v.failure.value.0)
  {
    PassesExactly(run, search);
    FirstFailureExact(Checks(run, search));
    hide Checks, Unbacked, FirstFailure, AllOk, MissesGate, UsesForbidden, RequiredOk, EvidenceCount;
  }

  /** `recovered`, which looks at the first failure only, says exactly that some
      failure that is not a gate precedes some success. */
  lemma {:induction false} RecoveredExactly(invocations: seq<Invocation>)
    ensures RecoveredFrom(invocations) <==>
            exists i, j :: 0 <= i < j < |invocations|
                           && !invocations[i].ok && !invocations[i].gated && invocations[j].ok
  {
    if invocations != [] {
      var (first, rest) := (invocations[0], invocations[1..]);
      RecoveredExactly(rest);
      assert forall i :: 0 < i < |invocations| ==> invocations[i] == rest[i - 1];
      assert forall i :: 0 <= i < |rest| ==> rest[i] == invocations[i + 1];
      if !first.ok && !first.gated {
        if exists i, j :: 0 <= i < j < |invocations|
                          && !invocations[i].ok && !invocations[i].gated && invocations[j].ok {
          var i, j :| 0 <= i < j < |invocations|
                      && !invocations[i].ok && !invocations[i].gated && invocations[j].ok;
          assert rest[j - 1].ok;
        }
      }
    }
  }

  lemma {:induction false} HitExact(invocations: seq<Invocation>, group: seq<string>)
    ensures Hit(invocations, group).Some? <==> Called(invocations, group)
    ensures Hit(invocations, group).Some? ==>
              exists i :: 0 <= i < |invocations| && invocations[i].ok && invocations[i].name in group
                          && Hit(invocations, group) == Some(invocations[i].name)
  {
    if invocations != [] {
      var (first, rest) := (invocations[0], invocations[1..]);
      HitExact(rest, group);
      assert forall i :: 0 < i < |invocations| ==> invocations[i] == rest[i - 1];
      assert forall i :: 0 <= i < |rest| ==> rest[i] == invocations[i + 1];
      if first.ok && first.name in group {
        assert invocations[0].ok && invocations[0].name in group;
      }
    }
  }

  predicate Called(invocations: seq<Invocation>, group: seq<string>) {
    exists i :: 0 <= i < |invocations| && invocations[i].ok && invocations[i].name in group
  }

  /** No later group has the same key, so this one decides about it. */
  predicate Decides(groups: seq<seq<string>>, j: nat) {
    j < |groups| && forall k :: j < k < |groups| ==> Join(groups[k], '|') != Join(groups[j], '|')
  }

  /** Every name of `h` that can count is in `g`. */
  predicate Within(h: seq<string>, g: seq<string>) {
    forall name :: name in h && name != "" ==> name in g
  }

  /** Some deciding group can only be met by a member of `g`. */
  predicate Guaranteed(groups: seq<seq<string>>, g: seq<string>) {
    exists j: nat :: j < |groups| && Decides(groups, j) && Within(groups[j], g)
  }

  lemma DecidesInFront(groups: seq<seq<string>>, j: nat)
    requires j < |groups| - 1 && Join(groups[j], '|') != Join(groups[|groups| - 1], '|')
    ensures Decides(groups, j) <==> Decides(groups[..|groups| - 1], j)
  {
    var front := groups[..|groups| - 1];
    assert forall k :: 0 <= k < |front| ==> front[k] == groups[k];
    hide Join;
  }

  lemma {:induction false} DecidingHit(invocations: seq<Invocation>, groups: seq<seq<string>>, j: nat)
    requires Decides(groups, j)
    ensures var hits := SuccessfulGroups(invocations, groups);
            Join(groups[j], '|') in hits && hits[Join(groups[j], '|')] == Hit(invocations, groups[j])
  {
    if j < |groups| - 1 {
      DecidesInFront(groups, j);
      DecidingHit(invocations, groups[..|groups| - 1], j);
      hide Join, Hit;
    }
  }

  lemma {:induction false} KeyIsDecided(invocations: seq<Invocation>, groups: seq<seq<string>>, key: string)
      returns (j: nat)
    requires key in SuccessfulGroups(invocations, groups)
    ensures Decides(groups, j) && Join(groups[j], '|') == key
  {
    var front, last := groups[..|groups| - 1], groups[|groups| - 1];
    if key == Join(last, '|') {
      j := |groups| - 1;
    } else {
      j := KeyIsDecided(invocations, front, key);
      assert front[j] == groups[j];
      DecidesInFront(groups, j);
    }
  }

  /** A pass whose answer claims success has a successful call in every group that
      the scenario guarantees, and outside gated scenarios in some required one. */
  lemma PassIsEarned(run: Run, search: Search)
    requires Evaluate(run, search).passed && run.answer.success
    ensures forall g :: Guaranteed(run.scenario.requireTools, g) ==> Called(run.invocations, g)
    ensures run.scenario.wants != Gated ==> exists g :: g in run.scenario.requireTools && Called(run.invocations, g)
  {
    PassesExactly(run, search);
    var (invs, groups) := (run.invocations, run.scenario.requireTools);
    hide Evaluate, SuccessfulGroups, Hit, Join, MissesGate, UsesForbidden;
    forall g | Guaranteed(groups, g)
      ensures Called(invs, g)
    {
      var j: nat :| j < |groups| && Decides(groups, j) && Within(groups[j], g);
      DecidingHit(invs, groups, j);
      HitExact(invs, groups[j]);
      assert Counts(Hits(run)[Join(groups[j], '|')]);
    }
    if run.scenario.wants != Gated {
      var k :| k in Hits(run) && Counts(Hits(run)[k]);
      var j := KeyIsDecided(invs, groups, k);
      DecidingHit(invs, groups, j);
      HitExact(invs, groups[j]);
      assert groups[j] in groups;
    }
  }

  /** For each of the first `n` groups that decide, a call that counts for it and
      is not in `g`. */
  lemma {:induction false} CallsOutside(groups: seq<seq<string>>, g: seq<string>, n: nat) returns (invs: seq<Invocation>)
    requires n <= |groups| && !Guaranteed(groups, g)
    ensures forall i :: 0 <= i < |invs| ==> invs[i].ok && invs[i].name != "" && invs[i].name !in g
    ensures forall j: nat :: j < n && Decides(groups, j) ==> Called(invs, groups[j])
  {
    if n == 0 {
      invs := [];
    } else {
      hide Join;
      var before := CallsOutside(groups, g, n - 1);
      if Decides(groups, n - 1) {
        assert !Within(groups[n - 1], g);
        var name :| name in groups[n - 1] && name != "" && name !in g;
        invs := before + [Invocation(name, map[], true, false, Obj([]), "")];
        assert invs[|before|].ok && invs[|before|].name in groups[n - 1];
      } else {
        invs := before;
      }
      forall j: nat | j < n && Decides(groups, j)
        ensures Called(invs, groups[j])
      {
        if j < n - 1 {
          var i :| 0 <= i < |before| && before[i].ok && before[i].name in groups[j];
          assert invs[i] == before[i];
        }
      }
    }
  }

  /** A scenario that requires only these groups, and a run that claims success. */
  function PlainRun(groups: seq<seq<string>>, invs: seq<Invocation>): Run {
    Run(Scenario([], [], false, 0, groups, [], Answer, 0), invs, Reading(true, false, false, 0, 0), 0, 0)
  }

  lemma PlainRunPasses(groups: seq<seq<string>>, invs: seq<Invocation>, search: Search)
    requires groups != []
    requires forall i :: 0 <= i < |invs| ==> invs[i].ok && invs[i].name != ""
    requires forall j: nat :: j < |groups| && Decides(groups, j) ==> Called(invs, groups[j])
    ensures Evaluate(PlainRun(groups, invs), search).passed
  {
    var run := PlainRun(groups, invs);
    PassesExactly(run, search);
    hide Evaluate, SuccessfulGroups, Hit, Join;
    forall k | k in Hits(run)
      ensures Counts(Hits(run)[k])
    {
      var j := KeyIsDecided(invs, groups, k);
      DecidingHit(invs, groups, j);
      HitExact(invs, groups[j]);
    }
    assert Decides(groups, |groups| - 1);
    DecidingHit(invs, groups, |groups| - 1);
    assert Join(groups[|groups| - 1], '|') in Hits(run);
  }

  /** Exactly: all passes that claim success, whatever the scenario asks for
      besides these groups, have a successful call in `g` if and only if some
      deciding group lies within `g`. */
  lemma GuaranteedExactly(groups: seq<seq<string>>, g: seq<string>)
    requires groups != []
    ensures Guaranteed(groups, g) <==>
            forall run: Run, search: Search ::
              run.scenario.requireTools == groups && Evaluate(run, search).passed && run.answer.success ==>
                Called(run.invocations, g)
  {
    hide Evaluate, Guaranteed, Decides;
    if Guaranteed(groups, g) {
      forall run: Run, search: Search |
        run.scenario.requireTools == groups && Evaluate(run, search).passed && run.answer.success
        ensures Called(run.invocations, g)
      {
        PassIsEarned(run, search);
      }
    } else {
      var search := Search((pattern, text) => false, result => "");
      var invs := CallsOutside(groups, g, |groups|);
      PlainRunPasses(groups, invs, search);
      var run := PlainRun(groups, invs);
      assert run.scenario.requireTools == groups && Evaluate(run, search).passed && run.answer.success;
      assert !Called(run.invocations, g);
    }
  }

  ghost predicate BarFree(groups: seq<seq<string>>) {
    forall g, name :: g in groups && name in g ==> '|' !in name
  }

  lemma {:induction false} LastWithKey(groups: seq<seq<string>>, i: nat, n: nat) returns (j: nat)
    requires i < n <= |groups|
    ensures i <= j < n && Join(groups[j], '|') == Join(groups[i], '|')
    ensures forall k :: j < k < n ==> Join(groups[k], '|') != Join(groups[i], '|')
  {
    hide Join;
    if n == i + 1 || Join(groups[n - 1], '|') == Join(groups[i], '|') {
      j := n - 1;
    } else {
      j := LastWithKey(groups, i, n - 1);
    }
  }

  /** Without a bar in a name every required group is guaranteed. */
  lemma BarFreeGuarantees(groups: seq<seq<string>>, i: nat)
    requires BarFree(groups) && i < |groups|
    ensures Guaranteed(groups, groups[i])
  {
    var j := LastWithKey(groups, i, |groups|);
    assert groups[i] in groups && groups[j] in groups;
    SplitJoin(groups[i], '|');
    SplitJoin(groups[j], '|');
    hide Join, Split;
    assert Decides(groups, j) && Within(groups[j], groups[i]);
  }

  // ---------------------------------------------------------------------
  // The rules, each read off the run
  // ---------------------------------------------------------------------

  /** The first successful call of the group is there and has a name. */
  ghost predicate Met(invs: seq<Invocation>, group: seq<string>) {
    exists i :: 0 <= i < |invs| && MetAt(invs, group, i)
  }

  ghost predicate MetAt(invs: seq<Invocation>, group: seq<string>, i: int)
    requires 0 <= i < |invs|
  {
    && invs[i].ok && invs[i].name in group && invs[i].name != ""
    && forall k :: 0 <= k < i && invs[k].ok ==> invs[k].name !in group
  }

  ghost predicate AllMet(run: Run) {
    forall j: nat :: Decides(run.scenario.requireTools, j) ==> Met(run.invocations, run.scenario.requireTools[j])
  }

  ghost predicate SomeMet(run: Run) {
    exists j: nat :: Decides(run.scenario.requireTools, j) && Met(run.invocations, run.scenario.requireTools[j])
  }

  /** Every named tool was stopped by its gate at least once. */
  ghost predicate AllStopped(run: Run) {
    forall name :: name in run.scenario.requireGated ==>
      exists i :: 0 <= i < |run.invocations| && run.invocations[i].gated && run.invocations[i].name == name
  }

  /** The pattern is in what an admissible tool answered, or in what its gate did. */
  ghost predicate Proves(inv: Invocation, r: Requirement, search: Search) {
    && (inv.ok || inv.gated) && inv.name in r.tools
    && search.finds(r.pattern, inv.resultText + "\n" + search.dumps(inv.result))
  }

  /** A document of that length in the answer or in a successful result. */
  ghost predicate LongEnough(run: Run, n: int) {
    || run.answer.chars >= n
    || exists i :: 0 <= i < |run.invocations| && IsLong(run.invocations[i], n)
  }

  ghost predicate IsLong(inv: Invocation, n: int) {
    inv.ok && exists text :: Get(inv.result, "content") == Some(Str(text)) && |text| >= n
  }

  predicate Applies(s: Scenario, name: CheckName) {
    match name
    case VoiceAnswerLength => s.voice && s.maxWords != 0
    case GatedMutation => s.requireGated != []
    case FailureRecovery => s.wants == Recovery
    case LongResponse => s.minDocumentChars != 0
    case GatedFlowReportsApproval => s.wants == Gated
    case _ => true
  }

  /** What each rule asks of a run. Only in a recovery scenario does an answer that
      claims no success and names a blocker stand in for tools or for a retry. */
  ghost predicate Obeys(run: Run, search: Search, name: CheckName) {
    var (s, a, invs) := (run.scenario, run.answer, run.invocations);
    var excused := s.wants == Recovery && !a.success && a.blocker;
    match name
    case ContextBudget => run.effectiveContext <= 0 || run.promptTokens <= run.effectiveContext
    case ForbiddenTools => forall i :: 0 <= i < |invs| ==> invs[i].name !in s.forbidden
    case VoiceAnswerLength => a.words <= s.maxWords
    case RequiredTools => AllMet(run) || excused
    case GatedMutation => AllStopped(run)
    case FailureRecovery => excused || exists i, j :: 0 <= i < j < |invs| && !invs[i].ok && !invs[i].gated && invs[j].ok
    case LongResponse => LongEnough(run, s.minDocumentChars)
    case Evidence => forall r :: r in s.evidence ==> exists i :: 0 <= i < |invs| && Proves(invs[i], r, search)
    case SuccessBackedByTools => s.wants != Gated && a.success ==> SomeMet(run)
    case GatedFlowReportsApproval => AllStopped(run) && (a.success ==> a.approval)
  }

  function Rank(name: CheckName): nat {
    match name
    case ContextBudget => 0
    case ForbiddenTools => 1
    case VoiceAnswerLength => 2
    case RequiredTools => 3
    case GatedMutation => 4
    case FailureRecovery => 5
    case LongResponse => 6
    case Evidence => 7
    case SuccessBackedByTools => 8
    case GatedFlowReportsApproval => 9
  }

  lemma {:induction false} HitIsMet(invs: seq<Invocation>, group: seq<string>)
    ensures Counts(Hit(invs, group)) <==> Met(invs, group)
  {
    if invs != [] {
      var (first, rest) := (invs[0], invs[1..]);
      HitIsMet(rest, group);
      assert forall i :: 0 < i < |invs| ==> invs[i] == rest[i - 1];
      if first.ok && first.name in group {
        assert first.name != "" ==> MetAt(invs, group, 0);
      } else {
        assert forall i :: 0 <= i < |rest| ==> (MetAt(rest, group, i) <==> MetAt(invs, group, i + 1));
        assert forall i :: 0 < i < |invs| ==> (MetAt(rest, group, i - 1) <==> MetAt(invs, group, i));
      }
    }
  }

  lemma HitsAreMet(run: Run)
    ensures SomeMissing(Hits(run)) <==> !AllMet(run)
    ensures SomeHit(Hits(run)) <==> SomeMet(run)
  {
    var (invs, groups, hits) := (run.invocations, run.scenario.requireTools, Hits(run));
    hide Hit, SuccessfulGroups, Join, Decides, Met, Counts;
    forall j: nat | Decides(groups, j)
      ensures j < |groups| && Join(groups[j], '|') in hits
      ensures Counts(hits[Join(groups[j], '|')]) <==> Met(invs, groups[j])
    {
      DecidesInRange(groups, j);
      DecidingHit(invs, groups, j);
      HitIsMet(invs, groups[j]);
    }
    forall k | k in hits
      ensures exists j: nat :: Decides(groups, j) && (Counts(hits[k]) <==> Met(invs, groups[j]))
    {
      var j := KeyIsDecided(invs, groups, k);
      assert Decides(groups, j) && Join(groups[j], '|') == k;
    }
  }

  lemma DecidesInRange(groups: seq<seq<string>>, j: nat)
    requires Decides(groups, j)
    ensures j < |groups|
  {
  }

  lemma {:induction false} DocumentIsLong(invs: seq<Invocation>, answer: nat, n: int)
    ensures DocumentChars(invs, answer) >= n <==> answer >= n || exists i :: 0 <= i < |invs| && IsLong(invs[i], n)
  {
    if invs != [] {
      var front, last := invs[..|invs| - 1], invs[|invs| - 1];
      DocumentIsLong(front, answer, n);
      assert forall i :: 0 <= i < |front| ==> front[i] == invs[i];
      var content := Get(last.result, "content");
      assert IsLong(last, n) <==> last.ok && content.Some? && content.value.Str? && |content.value.text| >= n;
      hide IsLong, Get;
      if exists i :: 0 <= i < |invs| && IsLong(invs[i], n) {
        var i :| 0 <= i < |invs| && IsLong(invs[i], n);
        assert i < |front| ==> IsLong(front[i], n);
      }
    }
  }

  /** The rows for the rules up to a rank: each rule that applies, once, in order,
      with its outcome. */
  ghost predicate Reports(run: Run, search: Search, checks: seq<Check>, n: nat) {
    && (forall i :: 0 <= i < |checks| ==>
          && Rank(checks[i].name) < n && Applies(run.scenario, checks[i].name)
          && (checks[i].ok <==> Obeys(run, search, checks[i].name)))
    && (forall i, j :: 0 <= i < j < |checks| ==> Rank(checks[i].name) < Rank(checks[j].name))
    && (forall name :: Rank(name) < n && Applies(run.scenario, name) ==> exists i :: 0 <= i < |checks| && checks[i].name == name)
  }

  lemma ReportNext(run: Run, search: Search, checks: seq<Check>, applies: bool, name: CheckName, ok: bool)
    requires Reports(run, search, checks, Rank(name)) && applies == Applies(run.scenario, name)
    requires applies ==> ok == Obeys(run, search, name)
    ensures Reports(run, search, With(checks, applies, name, ok), Rank(name) + 1)
  {
    hide Obeys, Applies, Rank;
    var after := With(checks, applies, name, ok);
    assert forall i :: 0 <= i < |checks| ==> after[i] == checks[i];
    forall other | Rank(other) < Rank(name) + 1 && Applies(run.scenario, other)
      ensures exists i :: 0 <= i < |after| && after[i].name == other
    {
      if Rank(other) < Rank(name) {
        var i :| 0 <= i < |checks| && checks[i].name == other;
        assert after[i].name == other;
      } else {
        RanksDiffer(other, name);
        assert after[|checks|].name == other;
      }
    }
  }

  lemma RanksDiffer(a: CheckName, b: CheckName)
    ensures Rank(a) == Rank(b) ==> a == b
  {
  }

  lemma FirstRule(run: Run, search: Search, ok: bool)
    requires ok <==> Obeys(run, search, ContextBudget)
    ensures Reports(run, search, [Check(ContextBudget, ok)], 1)
  {
    hide Obeys;
    var none: seq<Check> := [];
    assert Reports(run, search, none, 0);
    hide Reports;
    ReportNext(run, search, none, true, ContextBudget, ok);
    assert With(none, true, ContextBudget, ok) == [Check(ContextBudget, ok)];
  }

  lemma ForbiddenExactly(run: Run, search: Search)
    ensures UsesForbidden(run.invocations, run.scenario.forbidden) <==> !Obeys(run, search, ForbiddenTools)
  {
  }

  lemma EarlyRules(run: Run, search: Search)
    ensures Reports(run, search, EarlyChecks(run), 5)
  {
    hide AllMet, SomeMet, Hits, AllStopped, MissesGate, UsesForbidden, With, Reports, SomeMissing, RequiredOk;
    var (s, a, invs) := (run.scenario, run.answer, run.invocations);
    ForbiddenExactly(run, search);
    RequiredIsObeyed(run, search);
    StoppedExactly(run);
    assert a.words <= s.maxWords <==> Obeys(run, search, VoiceAnswerLength);
    assert AllStopped(run) <==> Obeys(run, search, GatedMutation);
    var budget := run.effectiveContext <= 0 || run.promptTokens <= run.effectiveContext;
    FirstRule(run, search, budget);
    hide Obeys;
    var c0 := [Check(ContextBudget, budget)];
    var c1 := With(c0, true, ForbiddenTools, !UsesForbidden(invs, s.forbidden));
    ReportNext(run, search, c0, true, ForbiddenTools, !UsesForbidden(invs, s.forbidden));
    var c2 := With(c1, s.voice && s.maxWords != 0, VoiceAnswerLength, a.words <= s.maxWords);
    ReportNext(run, search, c1, s.voice && s.maxWords != 0, VoiceAnswerLength, a.words <= s.maxWords);
    var c3 := With(c2, true, RequiredTools, RequiredOk(run));
    ReportNext(run, search, c2, true, RequiredTools, RequiredOk(run));
    ReportNext(run, search, c3, s.requireGated != [], GatedMutation, !MissesGate(invs, s.requireGated));
  }

  lemma RequiredIsObeyed(run: Run, search: Search)
    ensures RequiredOk(run) <==> Obeys(run, search, RequiredTools)
  {
    HitsAreMet(run);
    hide AllMet, SomeMet, Hits, SomeMissing;
  }

  lemma StoppedExactly(run: Run)
    ensures MissesGate(run.invocations, run.scenario.requireGated) <==> !AllStopped(run)
  {
  }

  lemma BackedExactly(run: Run, search: Search)
    ensures Unbacked(run) <==> !Obeys(run, search, SuccessBackedByTools)
  {
    HitsAreMet(run);
    hide AllMet, SomeMet, Hits;
  }

  lemma EvidenceExactly(run: Run, search: Search)
    ensures EvidenceCount(run.invocations, run.scenario.evidence, search) == |run.scenario.evidence| <==>
            Obeys(run, search, Evidence)
  {
    var (invs, rs) := (run.invocations, run.scenario.evidence);
    assert forall inv, r :: Matches(inv, r, search) <==> Proves(inv, r, search);
    hide EvidenceCount, Matches, Proves;
  }

  lemma RecoveryExactly(run: Run, search: Search)
    ensures run.scenario.wants == Recovery ==>
              (RecoveredFrom(run.invocations) || HonestBlocker(run) <==> Obeys(run, search, FailureRecovery))
  {
    RecoveredExactly(run.invocations);
    hide RecoveredFrom;
  }

  lemma LengthExactly(run: Run, search: Search)
    ensures DocumentChars(run.invocations, run.answer.chars) >= run.scenario.minDocumentChars <==> Obeys(run, search, LongResponse)
  {
    DocumentIsLong(run.invocations, run.answer.chars, run.scenario.minDocumentChars);
    hide DocumentChars, IsLong;
  }

  lemma AllRules(run: Run, search: Search)
    ensures Reports(run, search, Checks(run, search), 10)
  {
    hide Reports, With, EarlyChecks, RecoveredFrom, DocumentChars, EvidenceCount, Unbacked, MissesGate, HonestBlocker;
    hide AllStopped, Obeys;
    var (s, a, invs) := (run.scenario, run.answer, run.invocations);
    EarlyRules(run, search);
    RecoveryExactly(run, search);
    LengthExactly(run, search);
    EvidenceExactly(run, search);
    BackedExactly(run, search);
    ReportedExactly(run, search);
    var (recovers, long) := (RecoveredFrom(invs) || HonestBlocker(run), DocumentChars(invs, a.chars) >= s.minDocumentChars);
    var evidenceOk := EvidenceCount(invs, s.evidence, search) == |s.evidence|;
    var gateOk := !MissesGate(invs, s.requireGated) && (!a.success || a.approval);
    var c4 := EarlyChecks(run);
    var c5 := With(c4, s.wants == Recovery, FailureRecovery, recovers);
    ReportNext(run, search, c4, s.wants == Recovery, FailureRecovery, recovers);
    var c6 := With(c5, s.minDocumentChars != 0, LongResponse, long);
    ReportNext(run, search, c5, s.minDocumentChars != 0, LongResponse, long);
    var c7 := With(c6, true, Evidence, evidenceOk);
    ReportNext(run, search, c6, true, Evidence, evidenceOk);
    var c8 := With(c7, true, SuccessBackedByTools, !Unbacked(run));
    ReportNext(run, search, c7, true, SuccessBackedByTools, !Unbacked(run));
    ReportNext(run, search, c8, s.wants == Gated, GatedFlowReportsApproval, gateOk);
  }

  lemma ReportedExactly(run: Run, search: Search)
    ensures !MissesGate(run.invocations, run.scenario.requireGated) && (!run.answer.success || run.answer.approval) <==>
            Obeys(run, search, GatedFlowReportsApproval)
  {
    StoppedExactly(run);
    hide MissesGate, AllStopped;
  }

  /** The whole verdict, read off the run: a row for each rule that applies, in
      order, with its outcome; passed if all hold; else the first that fails, with
      a false claim of success marked. */
  lemma VerdictExactly(run: Run, search: Search)
    ensures var v := Evaluate(run, search);
            && Reports(run, search, v.checks, 10)
            && (v.passed <==> forall name :: Applies(run.scenario, name) ==> Obeys(run, search, name))
            && (v.falseSuccess <==> run.answer.success && if run.scenario.wants == Gated then !run.answer.approval else !SomeMet(run))
            && (v.failure.Some? <==> !v.passed)
            && (v.failure.Some? ==>
                  && v.failure.value.0 == v.falseSuccess
                  && Applies(run.scenario, v.failure.value.1) && !Obeys(run, search, v.failure.value.1)
                  && forall name :: Rank(name) < Rank(v.failure.value.1) && Applies(run.scenario, name) ==> Obeys(run, search, name))
  {
    AllRules(run, search);
    BackedExactly(run, search);
    var checks := Checks(run, search);
    FirstFailureExact(checks);
    FirstFailureIsFirst(checks);
    hide Checks, FirstFailure, Unbacked, SomeMet, AllMet, AllStopped, Proves, IsLong;
    AllObeyed(run, search, checks);
    assert Obeys(run, search, SuccessBackedByTools) <==> (run.scenario.wants != Gated && run.answer.success ==> SomeMet(run));
    hide Obeys, Applies, AllOk;
    if FirstFailure(checks).Some? {
      var i :| 0 <= i < |checks| && FirstFailure(checks) == Some(checks[i].name) && !checks[i].ok
               && forall j :: 0 <= j < i ==> checks[j].ok;
      forall name | Rank(name) < Rank(checks[i].name) && Applies(run.scenario, name)
        ensures Obeys(run, search, name)
      {
        var j :| 0 <= j < |checks| && checks[j].name == name;
        assert j < i;
      }
    }
  }

  lemma AllObeyed(run: Run, search: Search, checks: seq<Check>)
    requires Reports(run, search, checks, 10)
    ensures AllOk(checks) <==> forall name :: Applies(run.scenario, name) ==> Obeys(run, search, name)
  {
    hide Obeys, Applies;
    assert forall name :: Rank(name) < 10;
    forall i | 0 <= i < |checks|
      ensures checks[i] in checks && Applies(run.scenario, checks[i].name)
    {
    }
    if AllOk(checks) {
      forall name | Applies(run.scenario, name)
        ensures Obeys(run, search, name)
      {
        var i :| 0 <= i < |checks| && checks[i].name == name;
        assert checks[i] in checks;
      }
    }
  }

  lemma {:induction false} FirstFailureIsFirst(checks: seq<Check>)
    ensures FirstFailure(checks).Some? ==>
              exists i :: 0 <= i < |checks| && FirstFailure(checks) == Some(checks[i].name) && !checks[i].ok
                          && forall j :: 0 <= j < i ==> checks[j].ok
  {
    if checks != [] && checks[0].ok && FirstFailure(checks).Some? {
      var rest := checks[1..];
      FirstFailureIsFirst(rest);
      var i :| 0 <= i < |rest| && FirstFailure(rest) == Some(rest[i].name) && !rest[i].ok
               && forall j :: 0 <= j < i ==> rest[j].ok;
      assert forall j :: 0 < j < i + 1 ==> checks[j] == rest[j - 1];
      assert checks[i + 1] == rest[i];
    }
  }

  /** Required tools: unless a recovery scenario ends with an honest blocker, a
      pass has a call in every guaranteed group, whatever the answer claims; with
      one the rule asks for nothing. */
  lemma RequiredToolsExactly(run: Run, search: Search)
    ensures var excused := run.scenario.wants == Recovery && !run.answer.success && run.answer.blocker;
            && (Evaluate(run, search).passed && !excused ==>
                  forall g :: Guaranteed(run.scenario.requireTools, g) ==> Called(run.invocations, g))
            && (excused ==> Obeys(run, search, RequiredTools))
            && (!excused ==> (Obeys(run, search, RequiredTools) <==> AllMet(run)))
  {
    VerdictExactly(run, search);
    hide Evaluate, Reports;
    assert Applies(run.scenario, RequiredTools);
    var (groups, invs) := (run.scenario.requireTools, run.invocations);
    hide Applies, Decides;
    forall g | Guaranteed(groups, g) && AllMet(run)
      ensures Called(invs, g)
    {
      var j: nat :| j < |groups| && Decides(groups, j) && Within(groups[j], g);
      assert Met(invs, groups[j]);
    }
  }

  // ---------------------------------------------------------------------
  // Over replays
  // ---------------------------------------------------------------------

  /** A call of the transcript that really succeeded: its tool was there and not
      failing, and if it needs approval it carried one. */
  predicate Genuine(w: World, inv: Invocation) {
    && inv.ok && inv.name !in w.unavailable && inv.name !in w.failing
    && (NeedsApproval(inv.name, inv.args) ==> Approved(inv.args))
  }

  /** Whatever transcript is replayed against whatever world: a pass that claims
      success has a genuine call in every guaranteed group, and a gate that a
      scenario requires was met by a call that changed no data. */
  lemma ReplayPassIsEarned(
    w: World, calls: seq<Call>, py: Foreign, run: Run, search: Search)
    requires run.invocations == Replayed(w, calls, py)
    requires Evaluate(run, search).passed
    ensures |run.invocations| == |calls|
    ensures run.answer.success ==> forall g :: Guaranteed(run.scenario.requireTools, g) ==>
              exists i :: 0 <= i < |calls| && calls[i].name in g && Genuine(w, run.invocations[i])
    ensures forall name :: name in run.scenario.requireGated ==>
              exists i :: 0 <= i < |calls| && calls[i].name == name
                          && run.invocations[i].gated && !Approved(calls[i].args)
                          && WorldAfter(w, calls[..i + 1], py).services == WorldAfter(w, calls[..i], py).services
  {
    PassesExactly(run, search);
    hide Evaluate, Approved, NeedsApproval, WorldAfter, Replayed, RequiredOk, Unbacked, UsesForbidden;
    ReplayKeepsData(w, calls, py);
    var invs := run.invocations;
    if run.answer.success {
      PassIsEarned(run, search);
      forall g | Guaranteed(run.scenario.requireTools, g)
        ensures exists i :: 0 <= i < |calls| && calls[i].name in g && Genuine(w, invs[i])
      {
        assert Called(invs, g);
        var i :| 0 <= i < |invs| && invs[i].ok && invs[i].name in g;
        ReplayIsHonest(w, calls, py, i);
        assert Genuine(w, invs[i]);
      }
    }
    forall name | name in run.scenario.requireGated
      ensures exists i :: 0 <= i < |calls| && calls[i].name == name
                          && invs[i].gated && !Approved(calls[i].args)
                          && WorldAfter(w, calls[..i + 1], py).services == WorldAfter(w, calls[..i], py).services
    {
      assert WasGated(invs, name);
      var i :| 0 <= i < |invs| && invs[i].name == name && invs[i].gated;
      ReplayIsHonest(w, calls, py, i);
      assert 0 <= i < |calls| && calls[i].name == name;
    }
  }
}
