/** `maintainability_dispositions.py`: recorded decisions may only change by deliberate, reviewed edits. */
module Dispositions {
  import opened Results
  import opened Digests
  import WorkspaceGlobs

  datatype Decision = RefactorRequired | CohesionAccepted | TemporaryWaiver | WaiverResolved

  /** A date as written: a day, or text that is no date. */
  datatype Date = On(day: int) | NoDate(text: string)

  datatype Key = Key(finding: string, path: string, symbol: string)

  datatype Record = Record(key: Key, disposition: Decision, responsibility: Option<string>, value: Option<int>,
                           fingerprint: Option<string>, supersedes: Option<string>, expires: Option<Date>,
                           plan: Option<string>, approvedOn: Option<Date>, reviewer: Option<string>,
                           rationale: Option<string>, owner: string)

  type Registry = seq<Record>

  predicate Filled(text: Option<string>) {
    text.Some? && exists k :: 0 <= k < |text.value| && text.value[k] !in " \t\r\n"
  }

  predicate Dated(date: Option<Date>) {
    date.Some? && (date.value.On? || Filled(Some(date.value.text)))
  }

  predicate Owned(r: Record) { r.responsibility.Some? && r.responsibility.value != "" }

  /** An edit must answer for these: work still to be done, and waivers not expired or without a readable expiry. */
  predicate Active(r: Record, today: int) {
    || r.disposition == RefactorRequired
    || (r.disposition == TemporaryWaiver
        && (r.expires.None? || r.expires.value.NoDate? || r.expires.value.day >= today))
  }

  /** The same by the dates: a waiver is in force up to and on the day it expires. */
  ghost predicate InForce(r: Record, today: int) {
    || r.disposition == RefactorRequired
    || (r.disposition == TemporaryWaiver
        && !exists day :: r.expires == Some(On(day)) && day < today)
  }

  lemma ActiveExactlyWhen(r: Record, today: int)
    ensures Active(r, today) <==> InForce(r, today)
    ensures r.disposition == TemporaryWaiver ==>
              (!Active(r, today) <==> r.expires.Some? && r.expires.value.On? && r.expires.value.day < today)
  {
  }

  method ActiveRecords(registry: Registry, today: int) returns (active: seq<Record>)
    ensures forall r :: r in active <==> r in registry && InForce(r, today)
  {
    active := [];
    for k := 0 to |registry|
      invariant forall r :: r in active <==> r in registry[..k] && Active(r, today)
    {
      if Active(registry[k], today) { active := active + [registry[k]]; }
    }
    assert registry[..|registry|] == registry;
  }

  function Renamed(path: string, renames: map<string, string>): string {
    if path in renames then renames[path] else path
  }

  /** `item` could preserve or resolve `was`: the same identity after renames, or the same named responsibility. */
  predicate Continues(was: Record, item: Record, renames: map<string, string>) {
    && item.key.finding == was.key.finding
    && ((item.key.path == Renamed(was.key.path, renames) && item.key.symbol == was.key.symbol)
        || (Owned(was) && item.responsibility == was.responsibility))
  }

  /** Record `k` is the one deliberate continuation of `was`. */
  predicate SoleHeir(was: Record, registry: Registry, renames: map<string, string>, k: nat) {
    && k < |registry| && Continues(was, registry[k], renames)
    && forall j :: 0 <= j < |registry| && Continues(was, registry[j], renames) ==> j == k
  }

  method TransitionCandidates(was: Record, registry: Registry, renames: map<string, string>)
    returns (result: seq<Record>, ghost at: seq<nat>)
    ensures forall r :: r in result <==> r in registry && Continues(was, r, renames)
    ensures |at| == |result| && forall m :: 0 <= m < |at| ==> at[m] < |registry| && registry[at[m]] == result[m]
    ensures forall k: nat :: k in at <==> k < |registry| && Continues(was, registry[k], renames)
    ensures forall m, n :: 0 <= m < n < |at| ==> at[m] < at[n]
  {
    result, at := [], [];
    for k := 0 to |registry|
      invariant |at| == |result|
      invariant forall m :: 0 <= m < |at| ==> at[m] < k && registry[at[m]] == result[m]
      invariant forall j: nat :: j in at <==> j < k && Continues(was, registry[j], renames)
      invariant forall m, n :: 0 <= m < n < |at| ==> at[m] < at[n]
    {
      if Continues(was, registry[k], renames) { result, at := result + [registry[k]], at + [k]; }
    }
    ResultIsAt(was, registry, renames, result, at);
  }

  lemma ResultIsAt(was: Record, registry: Registry, renames: map<string, string>, result: seq<Record>, at: seq<nat>)
    requires |at| == |result| && forall m :: 0 <= m < |at| ==> at[m] < |registry| && registry[at[m]] == result[m]
    requires forall k: nat :: k in at <==> k < |registry| && Continues(was, registry[k], renames)
    ensures forall r :: r in result <==> r in registry && Continues(was, r, renames)
  {
    forall r | r in result ensures r in registry && Continues(was, r, renames) {
      var m :| 0 <= m < |result| && result[m] == r;
      assert at[m] in at;
    }
    forall r | r in registry && Continues(was, r, renames) ensures r in result {
      var k: nat :| k < |registry| && registry[k] == r;
      assert k in at;
      var m :| 0 <= m < |at| && at[m] == k;
      assert result[m] in result;
    }
  }

  // ---------------------------------------------------------------- one transition

  /** The waiver as it was: the same measured value, source, lineage, expiry and plan. */
  predicate Exact(was: Record, item: Record) {
    && item.disposition == TemporaryWaiver && item.value == was.value && item.fingerprint == was.fingerprint
    && item.supersedes == was.supersedes && item.expires == was.expires && item.plan == was.plan
  }

  /** A record that was reviewed no earlier and names the source it supersedes. */
  predicate Supersedes(was: Record, item: Record) {
    && item.approvedOn.Some? && item.approvedOn.value.On? && was.approvedOn.Some? && was.approvedOn.value.On?
    && item.approvedOn.value.day >= was.approvedOn.value.day
    && item.supersedes == was.fingerprint && item.responsibility == was.responsibility
    && Filled(item.reviewer) && Filled(item.rationale)
  }

  predicate ValidWaiverTransition(was: Record, item: Record) {
    || Exact(was, item)
    || (Supersedes(was, item)
        && (item.disposition == WaiverResolved
            || (item.disposition == TemporaryWaiver && item.fingerprint != was.fingerprint
                && Dated(item.expires) && Filled(item.plan))))
  }

  predicate Reviewed(item: Record) { Filled(item.reviewer) && Dated(item.approvedOn) && Filled(item.rationale) }

  predicate KeepsResponsibility(was: Record, item: Record) {
    Owned(was) ==> item.responsibility == was.responsibility
  }

  predicate ValidTransition(was: Record, item: Record) {
    match was.disposition
    case TemporaryWaiver => ValidWaiverTransition(was, item)
    case RefactorRequired =>
      KeepsResponsibility(was, item)
      && (item.disposition == RefactorRequired || (item.disposition == CohesionAccepted && Reviewed(item)))
    case _ => true
  }

  /** What an edit of the registry is judged with: renamed paths, analysed sources, findings observed now, the day. */
  datatype Evidence = Evidence(renames: map<string, string>, sources: set<string>, observed: set<Key>, today: int)

  predicate SourceProven(was: Record, item: Record, e: Evidence) {
    (item.disposition == WaiverResolved || (item.disposition == TemporaryWaiver && item.fingerprint != was.fingerprint))
    ==> item.key.path in e.sources
  }

  predicate ResolutionProven(item: Record, e: Evidence) {
    item.disposition == WaiverResolved ==> item.key !in e.observed
  }

  predicate ProvenHeir(was: Record, current: Registry, e: Evidence, k: nat) {
    && SoleHeir(was, current, e.renames, k)
    && ValidTransition(was, current[k]) && SourceProven(was, current[k], e) && ResolutionProven(current[k], e)
  }

  ghost predicate Answered(was: Record, current: Registry, e: Evidence) {
    exists k: nat :: ProvenHeir(was, current, e, k)
  }

  // ---------------------------------------------------------------- what answers for a decision, in full

  /** Some character of the text is no blank. */
  ghost predicate HasText(text: Option<string>) {
    exists before, c, after ::
      text == Some(before + [c] + after) && c != ' ' && c != '\t' && c != '\r' && c != '\n'
  }

  /** A reviewer, a readable or at least written date, and a reason are given. */
  ghost predicate ReviewGiven(item: Record) {
    HasText(item.reviewer) && HasText(item.rationale) && HasDate(item.approvedOn)
  }

  ghost predicate HasDate(date: Option<Date>) {
    (exists day :: date == Some(On(day))) || exists text :: date == Some(NoDate(text)) && HasText(Some(text))
  }

  /** The waiver has the same value, source, lineage, expiry and plan. */
  predicate KeptExact(was: Record, item: Record) {
    && item.disposition == TemporaryWaiver
    && (item.value, item.fingerprint, item.supersedes, item.expires, item.plan)
       == (was.value, was.fingerprint, was.supersedes, was.expires, was.plan)
  }

  /** The record, reviewed on the same day or later, names the waiver's source as the one it supersedes; it resolves
      the waiver, or waives another source with an expiry and a plan. */
  ghost predicate ReplacesWaiver(was: Record, item: Record) {
    && (exists day, later :: was.approvedOn == Some(On(day)) && item.approvedOn == Some(On(later)) && day <= later)
    && item.supersedes == was.fingerprint && item.responsibility == was.responsibility
    && HasText(item.reviewer) && HasText(item.rationale)
    && (item.disposition == WaiverResolved
        || (item.disposition == TemporaryWaiver && item.fingerprint != was.fingerprint && HasText(item.plan)
            && HasDate(item.expires)))
  }

  /** The same identity after renames, or the same responsibility, if any is named. */
  predicate SameDecision(was: Record, item: Record, e: Evidence) {
    && was.key.finding == item.key.finding
    && ((was.key.symbol == item.key.symbol
         && item.key.path == if was.key.path in e.renames then e.renames[was.key.path] else was.key.path)
        || (was.responsibility == item.responsibility && was.responsibility != None && was.responsibility != Some("")))
  }

  /** What one record must be to answer for another. */
  ghost predicate AnswersFor(was: Record, item: Record, e: Evidence) {
    && SameDecision(was, item, e)
    && (was.disposition == TemporaryWaiver ==> KeptExact(was, item) || ReplacesWaiver(was, item))
    && (was.disposition == RefactorRequired ==>
          && (was.responsibility == None || was.responsibility == Some("") || item.responsibility == was.responsibility)
          && (item.disposition == RefactorRequired || (item.disposition == CohesionAccepted && ReviewGiven(item))))
    && (item.disposition == WaiverResolved ==> item.key.path in e.sources && item.key !in e.observed)
    && (item.disposition == TemporaryWaiver && item.fingerprint != was.fingerprint ==> item.key.path in e.sources)
  }

  lemma HasTextExactlyWhen(text: Option<string>)
    ensures HasText(text) <==> Filled(text)
  {
    if Filled(text) {
      var k :| 0 <= k < |text.value| && text.value[k] !in " \t\r\n";
      var v, blanks := text.value, " \t\r\n";
      assert blanks[0] == ' ' && blanks[1] == '\t' && blanks[2] == '\r' && blanks[3] == '\n';
      assert v == v[..k] + [v[k]] + v[k + 1..];
      assert text == Some(v[..k] + [v[k]] + v[k + 1..]);
    }
    forall before, c, after | text == Some(before + [c] + after) && c != ' ' && c != '\t' && c != '\r' && c != '\n'
      ensures Filled(text)
    {
      assert text.value[|before|] == c;
    }
  }

  lemma HasDateExactlyWhen(date: Option<Date>)
    ensures HasDate(date) <==> Dated(date)
  {
    if date.Some? && date.value.On? { assert date == Some(On(date.value.day)); }
    if date.Some? && date.value.NoDate? {
      assert date == Some(NoDate(date.value.text));
      HasTextExactlyWhen(Some(date.value.text));
    }
  }

  lemma WaiverExactlyWhen(was: Record, item: Record)
    ensures KeptExact(was, item) <==> Exact(was, item)
    ensures KeptExact(was, item) || ReplacesWaiver(was, item) <==> ValidWaiverTransition(was, item)
  {
    HasTextExactlyWhen(item.reviewer);
    HasTextExactlyWhen(item.rationale);
    HasTextExactlyWhen(item.plan);
    HasDateExactlyWhen(item.expires);
    if Supersedes(was, item) {
      assert was.approvedOn == Some(On(was.approvedOn.value.day));
      assert item.approvedOn == Some(On(item.approvedOn.value.day));
    }
  }

  lemma ReviewExactlyWhen(item: Record)
    ensures ReviewGiven(item) <==> Reviewed(item)
  {
    HasTextExactlyWhen(item.reviewer);
    HasTextExactlyWhen(item.rationale);
    HasDateExactlyWhen(item.approvedOn);
  }

  lemma AnswersExactlyWhen(was: Record, item: Record, e: Evidence)
    requires was.disposition == TemporaryWaiver || was.disposition == RefactorRequired
    ensures AnswersFor(was, item, e) <==>
              && Continues(was, item, e.renames) && ValidTransition(was, item)
              && SourceProven(was, item, e) && ResolutionProven(item, e)
  {
    WaiverExactlyWhen(was, item);
    ReviewExactlyWhen(item);
  }

  /** A decision is answered for by the one record that continues it, which must be all that. */
  lemma AnsweredExactlyWhen(was: Record, current: Registry, e: Evidence)
    requires was.disposition == TemporaryWaiver || was.disposition == RefactorRequired
    ensures Answered(was, current, e) <==>
              exists k :: 0 <= k < |current| && AnswersFor(was, current[k], e)
                          && forall j :: 0 <= j < |current| && SameDecision(was, current[j], e) ==> j == k
  {
    forall j | 0 <= j < |current|
      ensures SameDecision(was, current[j], e) <==> Continues(was, current[j], e.renames)
      ensures AnswersFor(was, current[j], e) <==>
                && Continues(was, current[j], e.renames) && ValidTransition(was, current[j])
                && SourceProven(was, current[j], e) && ResolutionProven(current[j], e)
    {
      AnswersExactlyWhen(was, current[j], e);
    }
    if k: nat :| ProvenHeir(was, current, e, k) { assert AnswersFor(was, current[k], e); }
    if k :| 0 <= k < |current| && AnswersFor(was, current[k], e)
            && forall j :: 0 <= j < |current| && SameDecision(was, current[j], e) ==> j == k {
      assert ProvenHeir(was, current, e, k);
    }
  }

  /** The active decisions that an edit drops or weakens. There is a finding exactly when there are any. */
  method TransitionFindings(prior: Registry, current: Registry, e: Evidence) returns (invalid: seq<Key>)
    ensures forall key :: key in invalid <==>
              exists was :: was in prior && was.key == key && InForce(was, e.today) && !Answered(was, current, e)
  {
    invalid := [];
    var active := ActiveRecords(prior, e.today);
    for n := 0 to |active|
      invariant forall key :: key in invalid <==>
                  exists was :: was in active[..n] && was.key == key && !Answered(was, current, e)
    {
      var was := active[n];
      var candidates, at := TransitionCandidates(was, current, e.renames);
      var accepted := |candidates| == 1 && ValidTransition(was, candidates[0])
                      && SourceProven(was, candidates[0], e) && ResolutionProven(candidates[0], e);
      OneCandidate(was, current, e, candidates, at);
      ghost var before := invalid;
      if !accepted { invalid := invalid + [was.key]; }
      assert active[..n + 1] == active[..n] + [was];
      assert forall x :: x in active[..n + 1] <==> x in active[..n] || x == was;
      assert forall key :: key in invalid <==> key in before || (!accepted && key == was.key);
    }
    assert active[..|active|] == active;
  }

  lemma OneCandidate(was: Record, current: Registry, e: Evidence, candidates: seq<Record>, at: seq<nat>)
    requires |at| == |candidates| && forall m :: 0 <= m < |at| ==> at[m] < |current| && current[at[m]] == candidates[m]
    requires forall k: nat :: k in at <==> k < |current| && Continues(was, current[k], e.renames)
    requires forall m, n :: 0 <= m < n < |at| ==> at[m] < at[n]
    ensures Answered(was, current, e) <==>
              && |candidates| == 1 && ValidTransition(was, candidates[0])
              && SourceProven(was, candidates[0], e) && ResolutionProven(candidates[0], e)
  {
    assert |at| > 1 ==> at[0] < at[1];
    if |candidates| == 1 && ValidTransition(was, candidates[0])
       && SourceProven(was, candidates[0], e) && ResolutionProven(candidates[0], e) {
      assert at[0] in at;
      assert ProvenHeir(was, current, e, at[0]);
    }
    if Answered(was, current, e) {
      var k: nat :| ProvenHeir(was, current, e, k);
      assert k in at;
      forall m | 0 <= m < |at| ensures at[m] == k { assert at[m] in at; }
      assert candidates[0] == current[k];
    }
  }

  // ---------------------------------------------------------------- along a chain of accepted edits

  ghost predicate Accepted(prior: Registry, current: Registry, e: Evidence) {
    forall was :: was in prior && InForce(was, e.today) ==> Answered(was, current, e)
  }

  /** Each registry follows the one before by an edit without findings; an untouched registry is not judged. */
  ghost predicate Chain(registries: seq<Registry>, evidence: seq<Evidence>) {
    && registries != [] && |evidence| == |registries| - 1
    && forall n :: 0 <= n < |evidence| ==>
         registries[n + 1] == registries[n] || Accepted(registries[n], registries[n + 1], evidence[n])
  }

  /** `next` is what became of `was` in one step of a chain. */
  ghost predicate Became(was: Record, next: Record, prior: Registry, current: Registry, e: Evidence) {
    || (current == prior && next == was)
    || exists k: nat :: ProvenHeir(was, current, e, k) && current[k] == next
  }

  /** `line` follows one decision through the first registries of a chain. */
  ghost predicate Descent(registries: seq<Registry>, evidence: seq<Evidence>, line: seq<Record>) {
    && 0 < |line| <= |registries| && |evidence| == |registries| - 1
    && (forall n :: 0 <= n < |line| ==> line[n] in registries[n])
    && forall n :: 0 <= n < |line| - 1 ==> Became(line[n], line[n + 1], registries[n], registries[n + 1], evidence[n])
  }

  lemma NextInLine(was: Record, prior: Registry, current: Registry, e: Evidence) returns (next: Record)
    requires was in prior && InForce(was, e.today) && (current == prior || Accepted(prior, current, e))
    ensures next in current && Became(was, next, prior, current, e)
  {
    if current == prior {
      next := was;
    } else {
      var k: nat :| ProvenHeir(was, current, e, k);
      next := current[k];
    }
  }

  /** A decision to refactor is never lost: it has one descendant in every later registry, still to be refactored
      and with its responsibility, until one is a reviewed acceptance. */
  lemma {:induction false} RefactoringIsNeverDropped(registries: seq<Registry>, evidence: seq<Evidence>, r: Record,
                                                     upto: nat) returns (line: seq<Record>)
    requires Chain(registries, evidence) && upto < |registries|
    requires r in registries[0] && r.disposition == RefactorRequired
    ensures Descent(registries, evidence, line) && line[0] == r
    ensures forall n :: 0 <= n < |line| - 1 ==> line[n].disposition == RefactorRequired
    ensures forall n :: 0 <= n < |line| ==> KeepsResponsibility(r, line[n]) && line[n].key.finding == r.key.finding
    ensures var last := line[|line| - 1];
            || (last.disposition == RefactorRequired && |line| == upto + 1)
            || (last.disposition == CohesionAccepted && Reviewed(last) && |line| <= upto + 1)
  {
    if upto == 0 {
      line := [r];
    } else {
      line := RefactoringIsNeverDropped(registries, evidence, r, upto - 1);
      var last := line[|line| - 1];
      if last.disposition == RefactorRequired {
        var next := NextInLine(last, registries[upto - 1], registries[upto - 1 + 1], evidence[upto - 1]);
        RefactorStep(last, next, registries[upto - 1], registries[upto - 1 + 1], evidence[upto - 1]);
        line := line + [next];
      }
    }
  }

  lemma RefactorStep(was: Record, next: Record, prior: Registry, current: Registry, e: Evidence)
    requires was.disposition == RefactorRequired && Became(was, next, prior, current, e)
    ensures next.disposition == RefactorRequired || (next.disposition == CohesionAccepted && Reviewed(next))
    ensures KeepsResponsibility(was, next) && next.key.finding == was.key.finding
  {
  }

  /** What becomes of a waiver in one step: it stays exact, or gives way to a record that supersedes exactly its
      source and was reviewed no earlier, with the source analysed; a resolution also needs the finding gone. */
  ghost predicate WaiverStep(was: Record, next: Record, e: Evidence) {
    || Exact(was, next)
    || (Supersedes(was, next) && next.key.path in e.sources
        && ((next.disposition == WaiverResolved && next.key !in e.observed)
            || (next.disposition == TemporaryWaiver && next.fingerprint != was.fingerprint)))
  }

  /** An active waiver has one descendant in every later registry, each step lawful, until it is resolved or expires. */
  lemma {:induction false} WaiversAreNeverLoosened(registries: seq<Registry>, evidence: seq<Evidence>, r: Record,
                                                   upto: nat)
    returns (line: seq<Record>)
    requires Chain(registries, evidence) && upto < |registries|
    requires r in registries[0] && r.disposition == TemporaryWaiver
    ensures Descent(registries, evidence, line) && line[0] == r && |line| <= upto + 1
    ensures forall n :: 0 <= n < |line| - 1 ==> line[n].disposition == TemporaryWaiver
    ensures forall n :: 0 <= n < |line| - 1 ==> WaiverStep(line[n], line[n + 1], evidence[n])
    ensures var last := line[|line| - 1];
            || last.disposition == WaiverResolved
            || (last.disposition == TemporaryWaiver
                && (|line| == upto + 1
                    || (last.expires.Some? && last.expires.value.On?
                        && last.expires.value.day < evidence[|line| - 1].today)))
  {
    if upto == 0 {
      line := [r];
    } else {
      line := WaiversAreNeverLoosened(registries, evidence, r, upto - 1);
      var last := line[|line| - 1];
      if last.disposition == TemporaryWaiver && |line| == upto && InForce(last, evidence[upto - 1].today) {
        var next := NextInLine(last, registries[upto - 1], registries[upto - 1 + 1], evidence[upto - 1]);
        assert WaiverStep(last, next, evidence[upto - 1]);
        line := line + [next];
      }
    }
  }

  // ---------------------------------------------------------------- review dates

  predicate NoEarlier(a: Record, b: Record) {
    a.approvedOn.Some? && a.approvedOn.value.On? ==>
      b.approvedOn.Some? && b.approvedOn.value.On? && a.approvedOn.value.day <= b.approvedOn.value.day
  }

  /** Review dates along a line of waivers never fall exactly when no record that is kept exact is backdated: the
      approval date is not among the fields that an exact waiver must keep. */
  lemma {:induction false} ReviewDatesGrow(line: seq<Record>, evidence: seq<Evidence>)
    requires |line| <= |evidence| + 1
    requires forall n :: 0 <= n < |line| - 1 ==> WaiverStep(line[n], line[n + 1], evidence[n])
    ensures (forall a, b :: 0 <= a <= b < |line| ==> NoEarlier(line[a], line[b])) <==>
            (forall n :: 0 <= n < |line| - 1 && Exact(line[n], line[n + 1]) ==> NoEarlier(line[n], line[n + 1]))
  {
    if forall n :: 0 <= n < |line| - 1 && Exact(line[n], line[n + 1]) ==> NoEarlier(line[n], line[n + 1]) {
      forall a, b | 0 <= a <= b < |line| ensures NoEarlier(line[a], line[b]) {
        DatesGrowTo(line, evidence, a, b);
      }
    }
  }

  lemma {:induction false} DatesGrowTo(line: seq<Record>, evidence: seq<Evidence>, a: nat, b: nat)
    requires |line| <= |evidence| + 1
    requires forall n :: 0 <= n < |line| - 1 ==> WaiverStep(line[n], line[n + 1], evidence[n])
    requires forall n :: 0 <= n < |line| - 1 && Exact(line[n], line[n + 1]) ==> NoEarlier(line[n], line[n + 1])
    requires a <= b < |line|
    ensures NoEarlier(line[a], line[b])
    decreases b
  {
    if a < b {
      DatesGrowTo(line, evidence, a, b - 1);
      assert WaiverStep(line[b - 1], line[b - 1 + 1], evidence[b - 1]);
    }
  }

  const FINDINGS := {"quality.large-file", "quality.large-type", "quality.large-function", "quality.high-cyclomatic",
                     "quality.high-cognitive", "quality.deep-nesting"}

  predicate IsDate(date: Option<Date>) { date.Some? && date.value.On? }

  predicate AtLeast(text: Option<string>, length: nat) { text.Some? && |text.value| >= length }

  /** The fields that belong to a waiver still in force. */
  predicate WaiverFieldsOnly(r: Record, all: bool) {
    if all then r.value.Some? && r.fingerprint.Some? && r.expires.Some? && r.plan.Some?
    else r.value.None? && r.fingerprint.None? && r.expires.None? && r.plan.None?
  }

  /** What the registry's schema asks of one record. */
  predicate SchemaValid(r: Record) {
    && r.key.finding in FINDINGS && r.key.path != "" && r.key.symbol != "" && r.owner != ""
    && AtLeast(r.reviewer, 1) && IsDate(r.approvedOn) && AtLeast(r.responsibility, 20) && AtLeast(r.rationale, 20)
    && (r.value.Some? ==> r.value.value >= 1)
    && (r.fingerprint.Some? ==> IsDigest(r.fingerprint.value))
    && (r.supersedes.Some? ==> IsDigest(r.supersedes.value))
    && (r.expires.Some? ==> IsDate(r.expires)) && (r.plan.Some? ==> AtLeast(r.plan, 40))
    && match r.disposition
       case TemporaryWaiver => WaiverFieldsOnly(r, true)
       case WaiverResolved => WaiverFieldsOnly(r, false) && r.supersedes.Some?
       case _ => WaiverFieldsOnly(r, false) && r.supersedes.None?
  }

  /** A path inside the repository, written in the one way it is compared by. */
  predicate Normalized(path: string) {
    path == "." || forall p :: p in WorkspaceGlobs.Split(path) ==> p != "" && p != "." && p != ".."
  }

  /** A registry in which validation finds nothing. */
  predicate ValidRegistry(registry: Registry) {
    && (forall r :: r in registry ==> SchemaValid(r) && Normalized(r.key.path))
    && forall i, k :: 0 <= i < k < |registry| ==> registry[i].key != registry[k].key
  }

  function Fingerprint(digit: char): string { "sha256:" + seq(64, (k: nat) => digit) }

  lemma FingerprintIsDigest(digit: char)
    requires '0' <= digit <= '9'
    ensures IsDigest(Fingerprint(digit))
  {
    assert Fingerprint(digit)[..7] == "sha256:";
  }

  function SampleWaiver(day: int, source: string, before: Option<string>): Record {
    Record(Key("quality.large-file", "a.py", "<file>"), TemporaryWaiver, Some("Parses every report format."), Some(900),
           Some(source), before, Some(On(100)), Some("Move each report format into a module of its own."),
           Some(On(day)), Some("maintainer"), Some("The formats are split one at a time."), "maintainers")
  }

  lemma SampleIsReviewed(waiver: Record)
    requires exists day, source, before :: waiver == SampleWaiver(day, source, before)
    ensures Filled(waiver.reviewer) && Filled(waiver.rationale) && Filled(waiver.plan)
  {
    FilledByLast(waiver.reviewer.value);
    FilledByLast(waiver.rationale.value);
    FilledByLast(waiver.plan.value);
  }

  lemma FilledByLast(text: string)
    requires text != "" && ' ' < text[|text| - 1]
    ensures Filled(Some(text))
  {
    assert text[|text| - 1] !in " \t\r\n";
  }

  lemma SampleIsValid(day: int, source: string, before: Option<string>)
    requires IsDigest(source) && (before.Some? ==> IsDigest(before.value))
    ensures ValidRegistry([SampleWaiver(day, source, before)])
  {
    WorkspaceGlobs.SplitOfPart("a.py");
  }

  /** Two accepted edits between valid registries that move a waiver's review from day 10 back to day 5: first the exact
      waiver is backdated, then a replacement is reviewed no earlier than the new date only. */
  lemma KeptWaiverCanBeBackdated() returns (registries: seq<Registry>, evidence: seq<Evidence>)
    ensures Chain(registries, evidence) && |registries| == 3
    ensures forall n :: 0 <= n < 3 ==> |registries[n]| == 1 && ValidRegistry(registries[n])
    ensures forall n :: 0 <= n < 2 ==> Accepted(registries[n], registries[n + 1], evidence[n])
    ensures WaiverStep(registries[0][0], registries[1][0], evidence[0])
    ensures WaiverStep(registries[1][0], registries[2][0], evidence[1])
    ensures !NoEarlier(registries[0][0], registries[2][0])
  {
    var s, t := Fingerprint('1'), Fingerprint('2');
    var a, b, c := SampleWaiver(10, s, None), SampleWaiver(1, s, None), SampleWaiver(5, t, Some(s));
    var e := Evidence(map[], {"a.py"}, {}, 0);
    FingerprintIsDigest('1');
    FingerprintIsDigest('2');
    SampleIsValid(10, s, None);
    SampleIsValid(1, s, None);
    SampleIsValid(5, t, Some(s));
    SampleIsReviewed(c);
    assert s[7] == '1' && t[7] == '2';
    assert ProvenHeir(a, [b], e, 0);
    assert ProvenHeir(b, [c], e, 0);
    registries, evidence := [[a], [b], [c]], [e, e];
  }
}
