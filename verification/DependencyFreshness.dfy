/** `dependency_evidence.py` and the rest of `dependency_runner.py`: the fail-closed freshness gate.
    Moments are microseconds in UTC. */
module DependencyFreshness {
  import opened Results
  import opened DependencyDefects
  import opened DependencyRatchet

  type Moment = int

  const DAY: int := 86_400_000_000
  const MINIMUM_AGE_FLOOR: int := 14

  /** One raw registry record. `selected` is the coordinate, when all its fields are present and non-empty;
      `complete` and `strict` say that no field is missing, and that none is unknown. */
  datatype Evidence = Evidence(
    selected: Option<Coordinate>, complete: bool, strict: bool, evaluatedAt: Option<Moment>,
    publishedAt: Option<Moment>, authoritative: bool)

  /** `justified` says that every free-text field is filled in. */
  datatype Override = Override(
    selected: Option<Coordinate>, complete: bool, strict: bool, approvedAt: Option<Moment>, expiresAt: Option<Moment>,
    publishedAt: Option<Moment>, authoritative: bool, justified: bool, byOperator: bool)

  /** An optional registry file: absent, unreadable, with a wrong envelope, or its records. */
  datatype Registry<R> = NoFile | Unreadable | WrongEnvelope | Records(records: seq<R>)

  datatype Policy = Policy(minimumAge: Option<int>, overrideMaxDays: Option<int>, otherwiseValid: bool)

  datatype Index = Index(indexed: set<Coordinate>, matched: set<Coordinate>, faulty: bool)

  function DateOf(m: Moment): int {
    m / DAY
  }

  /** The minimum age and longest override to judge by, and whether the policy states them; never below the floor. */
  function ValidatePolicy(policy: Policy): (r: (int, int, bool))
    ensures r.0 >= MINIMUM_AGE_FLOOR && r.1 > 0
    ensures r.2 ==> policy.minimumAge == Some(r.0) && policy.overrideMaxDays == Some(r.1)
    ensures r.2 <==> && policy.otherwiseValid
                     && (exists age :: age >= 14 && policy.minimumAge == Some(age))
                     && (exists days :: days > 0 && policy.overrideMaxDays == Some(days))
  {
    var ageValid := policy.minimumAge.Some? && policy.minimumAge.value >= MINIMUM_AGE_FLOOR;
    var daysValid := policy.overrideMaxDays.Some? && policy.overrideMaxDays.value > 0;
    (if ageValid then policy.minimumAge.value else MINIMUM_AGE_FLOOR,
     if daysValid then policy.overrideMaxDays.value else 1,
     ageValid && daysValid && policy.otherwiseValid)
  }

  /** One evidence record raises no error. */
  predicate EvidenceValid(e: Evidence, minimumAge: int, asOf: Moment) {
    && e.complete && e.strict && e.evaluatedAt.Some? && e.publishedAt.Some?
    && !(e.evaluatedAt.value - e.publishedAt.value < minimumAge * DAY)
    && e.authoritative
    && !(e.evaluatedAt.value > asOf)
  }

  predicate TimingValid(o: Override, maxDays: int, asOf: Moment) {
    && o.approvedAt.Some? && o.expiresAt.Some?
    && !(o.expiresAt.value <= o.approvedAt.value)
    && !(o.approvedAt.value > asOf)
    && !(DateOf(o.expiresAt.value) - DateOf(o.approvedAt.value) > maxDays)
    && !(o.expiresAt.value < asOf)
  }

  predicate OverrideValid(o: Override, maxDays: int, asOf: Moment) {
    && o.complete && o.strict && TimingValid(o, maxDays, asOf)
    && o.publishedAt.Some? && !(o.publishedAt.value > o.approvedAt.value)
    && o.authoritative && o.justified && o.byOperator
  }

  function EvidenceCoordinate(e: Evidence): Option<Coordinate> { e.selected }

  function OverrideCoordinate(o: Override): Option<Coordinate> { o.selected }

  function EvidenceTest(minimumAge: int, asOf: Moment): Evidence -> bool {
    e => EvidenceValid(e, minimumAge, asOf)
  }

  function OverrideTest(maxDays: int, asOf: Moment): Override -> bool {
    o => OverrideValid(o, maxDays, asOf)
  }

  /** The registry's relevant records: every one valid, no coordinate twice. */
  ghost predicate Sound<R>(records: seq<R>, selected: R -> Option<Coordinate>, valid: R -> bool,
                           relevant: set<Coordinate>) {
    && (forall i :: 0 <= i < |records| && selected(records[i]).Some? && selected(records[i]).value in relevant ==>
          valid(records[i]))
    && (forall i, k ::
          0 <= i < k < |records| && selected(records[i]).Some? && selected(records[i]).value in relevant ==>
            selected(records[i]) != selected(records[k]))
  }

  /** What indexing a registry yields. */
  ghost predicate IndexOf<R>(registry: Registry<R>, selected: R -> Option<Coordinate>, valid: R -> bool,
                                 relevant: set<Coordinate>, index: Index) {
    match registry
    case NoFile => index == Index({}, {}, false)
    case Unreadable => index == Index({}, {}, true)
    case WrongEnvelope => index == Index({}, relevant, true)
    case Records(records) =>
      && (forall c :: c in index.matched <==> c in relevant && Recorded(registry, selected, c))
      && (!index.faulty <==> Sound(records, selected, valid, relevant))
      && index.indexed <= index.matched
      && (!index.faulty ==> index.indexed == index.matched)
  }

  predicate Recorded<R(==)>(registry: Registry<R>, selected: R -> Option<Coordinate>, c: Coordinate) {
    registry.Records? && exists r | r in registry.records :: selected(r) == Some(c)
  }

  /** What a registry says of the coordinates that matter. A faulty envelope counts as matching everything, so that
      it is reported once instead of as missing evidence everywhere. */
  method IndexRecords<R(==)>(registry: Registry<R>, selected: R -> Option<Coordinate>, valid: R -> bool,
                        relevant: set<Coordinate>)
    returns (index: Index)
    ensures IndexOf(registry, selected, valid, relevant, index)
  {
    if registry.NoFile? { return Index({}, {}, false); }
    if registry.Unreadable? { return Index({}, {}, true); }
    if registry.WrongEnvelope? { return Index({}, relevant, true); }
    var records := registry.records;
    var indexed: set<Coordinate>, matched: set<Coordinate>, faulty := {}, {}, false;
    for i := 0 to |records|
      invariant forall c :: c in matched <==> c in relevant && exists r :: r in records[..i] && selected(r) == Some(c)
      invariant indexed <= matched && (!faulty ==> indexed == matched)
      invariant !faulty <==> Sound(records[..i], selected, valid, relevant)
    {
      var record := records[i];
      var coordinate := selected(record);
      assert forall r :: r in records[..i + 1] <==> r in records[..i] || r == record;
      SoundExtends(records, i, selected, valid, relevant);
      if coordinate.None? || coordinate.value !in relevant { continue; }
      matched := matched + {coordinate.value};
      if !valid(record) {
        faulty := true;
      } else if coordinate.value in indexed {
        faulty := true;
      } else {
        indexed := indexed + {coordinate.value};
      }
    }
    assert records[..|records|] == records;
    index := Index(indexed, matched, faulty);
  }

  lemma SoundExtends<R>(records: seq<R>, i: nat, selected: R -> Option<Coordinate>, valid: R -> bool,
                        relevant: set<Coordinate>)
    requires i < |records|
    ensures Sound(records[..i + 1], selected, valid, relevant)
         <==> Sound(records[..i], selected, valid, relevant)
              && (selected(records[i]).Some? && selected(records[i]).value in relevant ==>
                    valid(records[i]) && forall r :: r in records[..i] ==> selected(r) != selected(records[i]))
  {
    var longer, shorter := records[..i + 1], records[..i];
    assert forall k :: 0 <= k < i ==> longer[k] == shorter[k];
    assert longer[i] == records[i];
  }

  // ---------------------------------------------------------------- reconciliation

  datatype ChangeStatus =
    | Removed | NoCoordinateChanges | EvidenceMissing | EvidenceInvalid | LocalWorkspace | OperatorOverride
    | EvidenceVerified

  function StatusOf(change: Change, evidence: Index, overrides: Index): ChangeStatus {
    var external := change.changed - change.local;
    var byEvidence, byOverride := external * evidence.indexed, external * overrides.indexed;
    if change.removed then Removed
    else if change.changed == {} then NoCoordinateChanges
    else if external - (evidence.matched + overrides.matched) != {} then EvidenceMissing
    else if external - byEvidence - byOverride != {} then EvidenceInvalid
    else if external == {} then LocalWorkspace
    else if byOverride != {} && byEvidence == {} then OperatorOverride
    else EvidenceVerified
  }

  /** A coordinate of the change that does not come from the workspace. */
  predicate External(change: Change, c: Coordinate) { c in change.changed && c !in change.local }

  /** Which status a change gets, coordinate by coordinate. */
  lemma StatusExactlyWhen(change: Change, evidence: Index, overrides: Index)
    requires evidence.indexed <= evidence.matched && overrides.indexed <= overrides.matched
    ensures var status := StatusOf(change, evidence, overrides);
            var touched := !change.removed && exists c :: c in change.changed;
            var matched := forall c :: External(change, c) ==> c in evidence.matched || c in overrides.matched;
            var covered := forall c :: External(change, c) ==> c in evidence.indexed || c in overrides.indexed;
            && (status == Removed <==> change.removed)
            && (status == NoCoordinateChanges <==> !change.removed && !touched)
            && (status == EvidenceMissing <==> touched && !matched)
            && (status == EvidenceInvalid <==> touched && matched && !covered)
            && (status == LocalWorkspace <==> touched && forall c :: !External(change, c))
            && (status == EvidenceVerified <==>
                  touched && covered && exists c :: External(change, c) && c in evidence.indexed)
  {
    var external := change.changed - change.local;
    assert forall c :: c in external <==> External(change, c);
    IsEmptyExactlyWhen(external);
    IsEmptyExactlyWhen(change.changed);
    IsEmptyExactlyWhen(external - (evidence.matched + overrides.matched));
    IsEmptyExactlyWhen(external - external * evidence.indexed - external * overrides.indexed);
    IsEmptyExactlyWhen(external * evidence.indexed);
    var unmatched := external - (evidence.matched + overrides.matched);
    assert forall c :: c in unmatched <==>
                       External(change, c) && !(c in evidence.matched || c in overrides.matched);
    var uncovered := external - external * evidence.indexed - external * overrides.indexed;
    assert forall c :: c in uncovered <==>
                       External(change, c) && !(c in evidence.indexed || c in overrides.indexed);
  }

  lemma IsEmptyExactlyWhen<T>(s: set<T>)
    ensures s == {} <==> forall c :: c !in s
  {
    if s != {} { var c :| c in s; }
  }

  /** Reconcile changed coordinates with the registries; report each uncovered coordinate. */
  method EvaluateCandidateChanges(changes: seq<Change>, evidence: Index, overrides: Index)
    returns (statuses: seq<ChangeStatus>, uncovered: set<Coordinate>)
    requires forall change :: change in changes && change.removed ==> change.changed == {}
    ensures |statuses| == |changes|
    ensures forall i :: 0 <= i < |changes| ==> statuses[i] == StatusOf(changes[i], evidence, overrides)
    ensures uncovered == set change, c | change in changes
                           && c in change.changed - change.local - (evidence.matched + overrides.matched) :: c
  {
    statuses, uncovered := [], {};
    for i := 0 to |changes|
      invariant |statuses| == i && forall k :: 0 <= k < i ==> statuses[k] == StatusOf(changes[k], evidence, overrides)
      invariant uncovered == set change, c | change in changes[..i]
                               && c in change.changed - change.local - (evidence.matched + overrides.matched) :: c
    {
      var change := changes[i];
      assert forall r :: r in changes[..i + 1] <==> r in changes[..i] || r == change;
      statuses := statuses + [StatusOf(change, evidence, overrides)];
      if change.removed { continue; }
      var missing := change.changed - change.local - (evidence.matched + overrides.matched);
      uncovered := uncovered + missing;
    }
    assert changes[..|changes|] == changes;
  }

  // ---------------------------------------------------------------- the gate

  /** Everything one run of the checker reads. */
  datatype Inputs = Inputs(
    syntax: Syntax, governed: string -> bool, workspace: Workspace, policy: Policy, asOf: Moment, asOfValid: bool,
    profileValid: bool, packetResolved: bool, records: seq<Record>, evidence: Registry<Evidence>,
    overrides: Registry<Override>)

  /** The newly introduced coordinates that need a registry record. */
  function Relevant(inputs: Inputs): set<Coordinate> {
    set r, c | r in inputs.records && Resolves(inputs.syntax, inputs.governed, r)
               && c in RecordChange(inputs.syntax, inputs.workspace, r).changed
                       - RecordChange(inputs.syntax, inputs.workspace, r).local :: c
  }

  ghost predicate RegistrySound<R>(registry: Registry<R>, selected: R -> Option<Coordinate>, valid: R -> bool,
                                   relevant: set<Coordinate>) {
    registry.NoFile? || (registry.Records? && Sound(registry.records, selected, valid, relevant))
  }

  /** What it takes for the checker to report nothing. */
  ghost predicate Clean(inputs: Inputs) {
    && ValidatePolicy(inputs.policy).2 && inputs.asOfValid && inputs.profileValid && inputs.packetResolved
    && (forall r :: r in inputs.records && inputs.governed(r.path) ==> RecordFindings(inputs.syntax, r) == {})
    && RegistriesSound(inputs) && AllRecorded(inputs)
  }

  /** Every relevant coordinate has a record in one of the registries. */
  ghost predicate AllRecorded(inputs: Inputs) {
    forall c :: c in Relevant(inputs) ==>
      || Recorded(inputs.evidence, EvidenceCoordinate, c)
      || Recorded(inputs.overrides, OverrideCoordinate, c)
  }

  /** One run of the dependency checker; it passes exactly when nothing is left to report. */
  method Check(inputs: Inputs) returns (passed: bool)
    ensures passed <==> Clean(inputs)
  {
    var (minimumAge, maxDays, policyValid) := ValidatePolicy(inputs.policy);
    var changes, relevant, findings :=
      ResolveCandidateChanges(inputs.syntax, inputs.governed, inputs.workspace, inputs.records);
    RelevantIsResolved(inputs, changes);
    var evidence := IndexRecords(inputs.evidence, EvidenceCoordinate, EvidenceTest(minimumAge, inputs.asOf), relevant);
    var overrides := IndexRecords(inputs.overrides, OverrideCoordinate, OverrideTest(maxDays, inputs.asOf), relevant);
    var _, uncovered := EvaluateCandidateChanges(changes, evidence, overrides);
    UncoveredIsUnrecorded(changes, relevant, evidence.matched + overrides.matched);
    NothingFound(inputs, findings);
    NothingUncovered(inputs, evidence, overrides);
    passed := policyValid && inputs.asOfValid && inputs.profileValid && inputs.packetResolved
              && findings == {} && !evidence.faulty && !overrides.faulty && uncovered == {};
  }

  /** What indexing the two registries for the relevant coordinates yields. */
  ghost predicate Indexed(inputs: Inputs, evidence: Index, overrides: Index) {
    var (minimumAge, maxDays, _) := ValidatePolicy(inputs.policy);
    var relevant := Relevant(inputs);
    && IndexOf(inputs.evidence, EvidenceCoordinate, EvidenceTest(minimumAge, inputs.asOf), relevant, evidence)
    && IndexOf(inputs.overrides, OverrideCoordinate, OverrideTest(maxDays, inputs.asOf), relevant, overrides)
  }

  ghost predicate RegistriesSound(inputs: Inputs) {
    var (minimumAge, maxDays, _) := ValidatePolicy(inputs.policy);
    var relevant := Relevant(inputs);
    && RegistrySound(inputs.evidence, EvidenceCoordinate, EvidenceTest(minimumAge, inputs.asOf), relevant)
    && RegistrySound(inputs.overrides, OverrideCoordinate, OverrideTest(maxDays, inputs.asOf), relevant)
  }

  lemma NothingUncovered(inputs: Inputs, evidence: Index, overrides: Index)
    requires Indexed(inputs, evidence, overrides)
    ensures !evidence.faulty && !overrides.faulty <==> RegistriesSound(inputs)
    ensures RegistriesSound(inputs) ==>
              (Relevant(inputs) - (evidence.matched + overrides.matched) == {} <==> AllRecorded(inputs))
  {
    var (minimumAge, maxDays, _) := ValidatePolicy(inputs.policy);
    var evidenceTest, overrideTest := EvidenceTest(minimumAge, inputs.asOf), OverrideTest(maxDays, inputs.asOf);
    var relevant := Relevant(inputs);
    SoundRegistryMatches(inputs.evidence, EvidenceCoordinate, evidenceTest, relevant, evidence);
    SoundRegistryMatches(inputs.overrides, OverrideCoordinate, overrideTest, relevant, overrides);
    NothingLeft(relevant, evidence.matched + overrides.matched);
    assert !evidence.faulty && !overrides.faulty ==>
      ((forall c :: c in relevant ==> c in evidence.matched + overrides.matched) <==> AllRecorded(inputs));
  }

  lemma NothingLeft<T>(all: set<T>, covered: set<T>)
    ensures all - covered == {} <==> forall c :: c in all ==> c in covered
  {
    forall c | c in all && c !in covered ensures all - covered != {} { assert c in all - covered; }
  }

  lemma RelevantIsResolved(inputs: Inputs, changes: seq<Change>)
    requires forall c :: c in changes <==>
               exists r :: r in inputs.records && Resolves(inputs.syntax, inputs.governed, r)
                           && c == RecordChange(inputs.syntax, inputs.workspace, r)
    ensures Relevant(inputs) == set change, c | change in changes && c in change.changed - change.local :: c
  {
  }

  lemma UncoveredIsUnrecorded(changes: seq<Change>, relevant: set<Coordinate>, matched: set<Coordinate>)
    requires relevant == set change, c | change in changes && c in change.changed - change.local :: c
    ensures relevant - matched ==
              set change, c | change in changes && c in change.changed - change.local - matched :: c
  {
    forall c | c in relevant - matched
      ensures c in set change, d | change in changes && d in change.changed - change.local - matched :: d
    {
      var change :| change in changes && c in change.changed - change.local;
      assert c in change.changed - change.local - matched;
    }
  }

  lemma NothingFound(inputs: Inputs, findings: set<Finding>)
    requires findings ==
               set r, f | r in inputs.records && inputs.governed(r.path) && f in RecordFindings(inputs.syntax, r) :: f
    ensures findings == {} <==>
              forall r :: r in inputs.records && inputs.governed(r.path) ==> RecordFindings(inputs.syntax, r) == {}
  {
    forall r | r in inputs.records && inputs.governed(r.path) ensures RecordFindings(inputs.syntax, r) <= findings {}
  }

  lemma SoundRegistryMatches<R>(registry: Registry<R>, selected: R -> Option<Coordinate>, valid: R -> bool,
                                relevant: set<Coordinate>, index: Index)
    requires IndexOf(registry, selected, valid, relevant, index)
    ensures !index.faulty <==> RegistrySound(registry, selected, valid, relevant)
    ensures !index.faulty ==> forall c :: c in relevant ==> (c in index.matched <==> Recorded(registry, selected, c))
  {
  }

  /** An evidence record that is good: complete, with known fields only, authoritative, evaluated by now, and published
      long enough before. */
  predicate GoodEvidence(e: Evidence, minimumAge: int, asOf: Moment) {
    && e.complete && e.strict && e.authoritative && e.publishedAt.Some? && e.evaluatedAt.Some?
    && e.publishedAt.value + minimumAge * 86_400_000_000 <= e.evaluatedAt.value <= asOf
  }

  /** An override that is good: complete, with known fields only, authoritative, justified, by an operator, of a
      published version, approved by now, not expired, and for no more days than allowed. */
  predicate GoodOverride(o: Override, maxDays: int, asOf: Moment) {
    && o.complete && o.strict && o.authoritative && o.justified && o.byOperator
    && o.publishedAt.Some? && o.approvedAt.Some? && o.expiresAt.Some?
    && o.publishedAt.value <= o.approvedAt.value < o.expiresAt.value
    && o.approvedAt.value <= asOf <= o.expiresAt.value
    && o.expiresAt.value / 86_400_000_000 - o.approvedAt.value / 86_400_000_000 <= maxDays
  }

  lemma GoodExactlyWhen(e: Evidence, o: Override, minimumAge: int, maxDays: int, asOf: Moment)
    ensures EvidenceValid(e, minimumAge, asOf) <==> GoodEvidence(e, minimumAge, asOf)
    ensures OverrideValid(o, maxDays, asOf) <==> GoodOverride(o, maxDays, asOf)
  {
  }

  /** What a governed record of the packet newly introduces and nothing else accounts for. */
  ghost predicate Demanded(inputs: Inputs, c: Coordinate) {
    exists r :: r in inputs.records && inputs.governed(r.path) && NeedsEvidence(inputs.syntax, inputs.workspace, r, c)
  }

  lemma DemandedExactlyWhen(inputs: Inputs, c: Coordinate)
    ensures Demanded(inputs, c) <==> c in Relevant(inputs)
  {
    forall r ensures NeedsEvidence(inputs.syntax, inputs.workspace, r, c) <==>
                     Parses(inputs.syntax, r)
                     && c in RecordChange(inputs.syntax, inputs.workspace, r).changed
                             - RecordChange(inputs.syntax, inputs.workspace, r).local {
      NeedsEvidenceExactlyWhen(inputs.syntax, inputs.workspace, r, c);
    }
  }

  /** The registry can be read, and of what is demanded it holds good records only, and no two of the same. */
  ghost predicate EvidenceInOrder(inputs: Inputs, minimumAge: int) {
    match inputs.evidence
    case NoFile => true
    case Unreadable => false
    case WrongEnvelope => false
    case Records(records) =>
      && (forall i, c :: 0 <= i < |records| && records[i].selected == Some(c) && Demanded(inputs, c) ==>
            GoodEvidence(records[i], minimumAge, inputs.asOf))
      && forall i, k, c :: 0 <= i < k < |records| && records[i].selected == Some(c) && Demanded(inputs, c) ==>
           records[k].selected != Some(c)
  }

  ghost predicate OverridesInOrder(inputs: Inputs, maxDays: int) {
    match inputs.overrides
    case NoFile => true
    case Unreadable => false
    case WrongEnvelope => false
    case Records(records) =>
      && (forall i, c :: 0 <= i < |records| && records[i].selected == Some(c) && Demanded(inputs, c) ==>
            GoodOverride(records[i], maxDays, inputs.asOf))
      && forall i, k, c :: 0 <= i < k < |records| && records[i].selected == Some(c) && Demanded(inputs, c) ==>
           records[k].selected != Some(c)
  }

  /** Some record of a registry is about `c`. */
  predicate OnRecord(inputs: Inputs, c: Coordinate) {
    || (inputs.evidence.Records? && exists e | e in inputs.evidence.records :: e.selected == Some(c))
    || (inputs.overrides.Records? && exists o | o in inputs.overrides.records :: o.selected == Some(c))
  }

  /** When the checker passes, in full. */
  lemma CleanExactlyWhen(inputs: Inputs)
    ensures Clean(inputs) <==>
              && (exists age, days :: age >= 14 && days > 0 && inputs.policy == Policy(Some(age), Some(days), true)
                    && EvidenceInOrder(inputs, age) && OverridesInOrder(inputs, days))
              && inputs.asOfValid && inputs.profileValid && inputs.packetResolved
              && (forall r, f :: r in inputs.records && inputs.governed(r.path) ==>
                    f !in RecordFindings(inputs.syntax, r))
              && forall c :: Demanded(inputs, c) ==> OnRecord(inputs, c)
  {
    forall c ensures Demanded(inputs, c) <==> c in Relevant(inputs) { DemandedExactlyWhen(inputs, c); }
    forall r | r in inputs.records && inputs.governed(r.path)
      ensures RecordFindings(inputs.syntax, r) == {} <==> forall f :: f !in RecordFindings(inputs.syntax, r)
    {
    }
    if ValidatePolicy(inputs.policy).2 {
      var age, days := inputs.policy.minimumAge.value, inputs.policy.overrideMaxDays.value;
      assert inputs.policy == Policy(Some(age), Some(days), true);
      RegistriesExactlyWhen(inputs, age, days);
    }
  }

  lemma RegistriesExactlyWhen(inputs: Inputs, age: int, days: int)
    requires inputs.policy == Policy(Some(age), Some(days), true) && age >= 14 && days > 0
    ensures RegistriesSound(inputs) <==> EvidenceInOrder(inputs, age) && OverridesInOrder(inputs, days)
  {
    var relevant := Relevant(inputs);
    forall c ensures Demanded(inputs, c) <==> c in relevant { DemandedExactlyWhen(inputs, c); }
    if inputs.evidence.Records? {
      var records := inputs.evidence.records;
      forall e ensures EvidenceTest(age, inputs.asOf)(e) <==> GoodEvidence(e, age, inputs.asOf) {
        assert EvidenceValid(e, age, inputs.asOf) <==> GoodEvidence(e, age, inputs.asOf);
      }
      assert Sound(records, EvidenceCoordinate, EvidenceTest(age, inputs.asOf), relevant)
             <==> EvidenceInOrder(inputs, age);
    }
    if inputs.overrides.Records? {
      var records := inputs.overrides.records;
      forall o ensures OverrideTest(days, inputs.asOf)(o) <==> GoodOverride(o, days, inputs.asOf) {
        assert OverrideValid(o, days, inputs.asOf) <==> GoodOverride(o, days, inputs.asOf);
      }
      assert Sound(records, OverrideCoordinate, OverrideTest(days, inputs.asOf), relevant)
             <==> OverridesInOrder(inputs, days);
    }
  }

  /** Fail-closed freshness. If the checker passes, every coordinate that a governed file of the packet newly introduces
      is excused by a repaired defect, is a local workspace version, was published at least fourteen full days before a
      dated evaluation, or is covered by an operator's unexpired override. */
  lemma FailClosed(inputs: Inputs, record: Record, before: Image, after: Image, c: Coordinate)
    requires Clean(inputs) && record in inputs.records && inputs.governed(record.path)
    requires !record.deleted && record.after != None
    requires Reads(inputs.syntax, record.before, before) && Reads(inputs.syntax, record.after, after)
    requires c in after.coordinates && c !in before.coordinates
    ensures || Excused(record.path, before, after, c)
            || FromWorkspace(inputs.workspace, record.path, c)
            || HasFreshEvidence(inputs, c) || HasCurrentOverride(inputs, c)
  {
    CleanExactlyWhen(inputs);
    if NeedsEvidence(inputs.syntax, inputs.workspace, record, c) { assert Demanded(inputs, c); }
  }

  /** Evidence for `c`, at least fourteen days old when it was evaluated, which was not in the future. */
  ghost predicate HasFreshEvidence(inputs: Inputs, c: Coordinate) {
    inputs.evidence.Records?
    && exists e :: e in inputs.evidence.records && e.selected == Some(c) && GoodEvidence(e, 14, inputs.asOf)
  }

  /** An operator's override of `c` in force now, for no longer than the policy allows. */
  ghost predicate HasCurrentOverride(inputs: Inputs, c: Coordinate) {
    inputs.overrides.Records? && inputs.policy.overrideMaxDays.Some?
    && exists o :: o in inputs.overrides.records && o.selected == Some(c)
                   && GoodOverride(o, inputs.policy.overrideMaxDays.value, inputs.asOf)
  }

  /** So a row that a change adds to a package lock, exact and sound, is not accepted without evidence, unless the
      change repairs a faulty row of the same package. */
  lemma FailClosedForLockRows(inputs: Inputs, record: Record, priorRows: seq<LockRow>, rows: seq<LockRow>, row: LockRow,
                              c: Coordinate)
    requires Clean(inputs) && record in inputs.records && inputs.governed(record.path) && !record.deleted
    requires record.before == Some(Lock(priorRows)) && record.after == Some(Lock(rows))
    requires row in rows && SoundRow(inputs.syntax, row, c)
    requires forall r :: r in priorRows ==> !SoundRow(inputs.syntax, r, c)
    ensures || RepairsRow(inputs.syntax, priorRows, rows, c.name)
            || FromWorkspace(inputs.workspace, record.path, c)
            || HasFreshEvidence(inputs, c) || HasCurrentOverride(inputs, c)
  {
    var syntax := inputs.syntax;
    assert Clean(inputs);
    assert UnsupportedFormat(record.path) !in RecordFindings(syntax, record);
    assert Parses(syntax, record);
    var before, after := ImageOf(syntax, Lock(priorRows)).value, ImageOf(syntax, Lock(rows)).value;
    LockExactlyWhen(syntax, priorRows);
    LockExactlyWhen(syntax, rows);
    FailClosed(inputs, record, before, after, c);
    if Excused(record.path, before, after, c) { ExcusedRepairsRow(syntax, record.path, priorRows, rows, c); }
  }

  /** A row of the package had a fault that no row of it has any more. */
  ghost predicate RepairsRow(syntax: Syntax, priorRows: seq<LockRow>, rows: seq<LockRow>, name: string) {
    && (exists r, d :: r in priorRows && FaultyField(syntax, r, d) && d.repairKey == LockKey(name))
    && forall r, d :: r in rows && FaultyField(syntax, r, d) ==> d.repairKey != LockKey(name)
  }

  lemma ExcusedRepairsRow(syntax: Syntax, path: string, priorRows: seq<LockRow>, rows: seq<LockRow>, c: Coordinate)
    requires ImageOf(syntax, Lock(priorRows)).Ok? && ImageOf(syntax, Lock(rows)).Ok?
    requires Excused(path, ImageOf(syntax, Lock(priorRows)).value, ImageOf(syntax, Lock(rows)).value, c)
    ensures RepairsRow(syntax, priorRows, rows, c.name)
  {
    var before, after := ImageOf(syntax, Lock(priorRows)).value, ImageOf(syntax, Lock(rows)).value;
    LockExactlyWhen(syntax, priorRows);
    LockExactlyWhen(syntax, rows);
    var key :| Repairs(path, c, key) && (exists d :: d in before.defects && d.repairKey == key)
               && forall d :: d in after.defects ==> d.repairKey != key;
    var d :| d in before.defects && d.repairKey == key;
    assert key == LockKey(c.name);
  }
}
