/** `telemetry.py` and `skill_telemetry.py`: the projection of an event onto the fields that may be stored. */
module TelemetrySchema {
  import opened Results
  import opened TextOrder
  import opened Digests

  datatype Json =
    | Null
    | Bool(b: bool)
    | Int(n: int)
    | Float(x: real)
    | NotFinite
    | Text(s: string)
    | List(items: seq<Json>)
    | Object(fields: map<string, Json>)

  type Fields = map<string, Json>

  const MAX_ID_LENGTH: nat := 256
  const MAX_PACK_SUMMARIES: nat := 10

  const TRIGGERS := {"manual", "hook", "test"}
  const EXPECTED_STATUSES := {"passed", "failed", "warning", "blocked"}
  const DISPOSITIONS := {"confirmed-issue", "false-positive", "mixed", "unreviewed"}
  const FAILURE_KINDS := {"check", "timeout", "cancelled", "execution", "invalid-output", "integrity",
                          "configuration", "selection", "runtime"}

  function Get(f: Fields, name: string): Option<Json> { if name in f then Some(f[name]) else None }

  function Cut(s: string): string { if |s| > MAX_ID_LENGTH then s[..MAX_ID_LENGTH] else s }

  // ---------------------------------------------------------------- values

  /** `str(uuid.UUID(s))`, or nothing when the text names no UUID. */
  type Identities = string -> Option<string>

  ghost predicate Canonical(u: Identities) {
    forall s :: u(s).Some? ==> u(u(s).value) == u(s)
  }

  datatype Rule =
    | Constant(value: Json)
    | AnyText
    | SomeText
    | OneOf(choices: set<string>)
    | Digest
    | Whole
    | Amount
    | Flag
    | Identity
    | Expected
    | Packs
    | FailureCounts
    | PackIds

  predicate IsWhole(v: Json) { v.Int? && v.n >= 0 }

  predicate IsAmount(v: Json) { (v.Int? && v.n >= 0) || (v.Float? && v.x >= 0.0) }

  function AmountOf(v: Json): real
    requires IsAmount(v)
  {
    if v.Int? then v.n as real else v.x
  }

  /** A pack summary has an identity and a duration and nothing else. */
  function Summary(item: Json): Option<Json> {
    if item.Object? && "id" in item.fields && item.fields["id"].Text?
       && "duration_ms" in item.fields && IsAmount(item.fields["duration_ms"])
    then Some(Object(map["id" := Text(Cut(item.fields["id"].s)), "duration_ms" := item.fields["duration_ms"]]))
    else None
  }

  predicate IsSummary(item: Json) { Summary(item) == Some(item) }

  /** The slower pack first, then the smaller identity. */
  predicate SortsBefore(a: Json, b: Json)
    requires IsSummary(a) && IsSummary(b)
  {
    var x, y := AmountOf(a.fields["duration_ms"]), AmountOf(b.fields["duration_ms"]);
    x > y || (x == y && !Below(b.fields["id"].s, a.fields["id"].s))
  }

  predicate SortedSummaries(s: seq<Json>) {
    (forall x :: x in s ==> IsSummary(x)) && forall i, j :: 0 <= i < j < |s| ==> SortsBefore(s[i], s[j])
  }

  function Summaries(items: seq<Json>): (r: seq<Json>)
    ensures forall x :: x in r ==> IsSummary(x)
  {
    if items == [] then []
    else
      (if Summary(items[0]).Some? then [Summary(items[0]).value] else []) + Summaries(items[1..])
  }

  lemma SortsBeforeIsTransitive(a: Json, b: Json, c: Json)
    requires IsSummary(a) && IsSummary(b) && IsSummary(c) && SortsBefore(a, b) && SortsBefore(b, c)
    ensures SortsBefore(a, c)
  {
    var x, y, z := a.fields["id"].s, b.fields["id"].s, c.fields["id"].s;
    if Below(z, x) {
      BelowIsTotal(y, z);
      if Below(y, z) { BelowIsTransitive(y, z, x); }
    }
  }

  lemma SortsBeforeIsTotal(a: Json, b: Json)
    requires IsSummary(a) && IsSummary(b)
    ensures SortsBefore(a, b) || SortsBefore(b, a)
  {
    var x, y := a.fields["id"].s, b.fields["id"].s;
    if Below(x, y) && Below(y, x) {
      BelowIsTransitive(x, y, x);
      BelowIsIrreflexive(x);
    }
  }

  function Insert(x: Json, s: seq<Json>): (r: seq<Json>)
    requires IsSummary(x) && SortedSummaries(s)
    ensures SortedSummaries(r) && multiset(r) == multiset(s) + multiset{x}
  {
    if s == [] then [x]
    else if SortsBefore(x, s[0]) then
      assert forall k :: 0 < k < |s| ==> SortsBefore(x, s[k]) by {
        forall k | 0 < k < |s| ensures SortsBefore(x, s[k]) { SortsBeforeIsTransitive(x, s[0], s[k]); }
      }
      assert forall y :: y in [x] + s ==> y == x || y in s;
      [x] + s
    else
      var rest := Insert(x, s[1..]);
      InsertAfter(x, s, rest);
      [s[0]] + rest
  }

  lemma InsertAfter(x: Json, s: seq<Json>, rest: seq<Json>)
    requires IsSummary(x) && SortedSummaries(s) && s != [] && !SortsBefore(x, s[0])
    requires SortedSummaries(rest) && multiset(rest) == multiset(s[1..]) + multiset{x}
    ensures SortedSummaries([s[0]] + rest) && multiset([s[0]] + rest) == multiset(s) + multiset{x}
  {
    SortsBeforeIsTotal(x, s[0]);
    assert s == [s[0]] + s[1..];
    forall k | 0 <= k < |rest| ensures SortsBefore(s[0], rest[k]) {
      assert rest[k] in multiset(rest);
      if rest[k] != x {
        assert rest[k] in s[1..];
        var m :| 0 <= m < |s| - 1 && s[1..][m] == rest[k];
        assert SortsBefore(s[0], s[m + 1]);
      }
    }
    forall y | y in [s[0]] + rest ensures IsSummary(y) {}
  }

  /** `sorted` by duration and identity. */
  function Sort(s: seq<Json>): (r: seq<Json>)
    requires forall x :: x in s ==> IsSummary(x)
    ensures SortedSummaries(r) && multiset(r) == multiset(s)
  {
    if s == [] then []
    else
      assert s == [s[0]] + s[1..];
      Insert(s[0], Sort(s[1..]))
  }

  function Take<T>(s: seq<T>, n: nat): seq<T> { if |s| > n then s[..n] else s }

  function InsertText(x: string, s: seq<string>): (r: seq<string>)
    requires Ascending(s)
    ensures Ascending(r) && Elements(r) == Elements(s) + {x}
  {
    if s == [] then [x]
    else if x == s[0] then s
    else if Below(x, s[0]) then
      assert forall k :: 0 < k < |s| ==> Below(x, s[k]) by {
        forall k | 0 < k < |s| ensures Below(x, s[k]) { BelowIsTransitive(x, s[0], s[k]); }
      }
      ElementsOfAppend([x], s);
      [x] + s
    else
      var rest := InsertText(x, s[1..]);
      InsertTextAfter(x, s, rest);
      [s[0]] + rest
  }

  lemma InsertTextAfter(x: string, s: seq<string>, rest: seq<string>)
    requires Ascending(s) && s != [] && x != s[0] && !Below(x, s[0])
    requires Ascending(rest) && Elements(rest) == Elements(s[1..]) + {x}
    ensures Ascending([s[0]] + rest) && Elements([s[0]] + rest) == Elements(s) + {x}
  {
    BelowIsTotal(x, s[0]);
    assert s == [s[0]] + s[1..];
    ElementsOfAppend([s[0]], rest);
    ElementsOfAppend([s[0]], s[1..]);
    forall k | 0 <= k < |rest| ensures Below(s[0], rest[k]) {
      assert rest[k] in Elements(rest);
      if rest[k] != x {
        var m :| 0 <= m < |s| - 1 && s[1..][m] == rest[k];
        assert Below(s[0], s[m + 1]);
      }
    }
  }

  /** The distinct texts of a list, sorted. */
  function Texts(items: seq<Json>): (r: seq<string>)
    ensures Ascending(r)
  {
    if items == [] then []
    else if items[0].Text? then InsertText(Cut(items[0].s), Texts(items[1..]))
    else Texts(items[1..])
  }

  function TextList(s: seq<string>): seq<Json> { seq(|s|, (k: nat) requires k < |s| => Text(s[k])) }

  function CountsOf(f: Fields): Fields { map name | name in f && name in FAILURE_KINDS && IsWhole(f[name]) :: f[name] }

  /** What one field keeps of the value that an event carries. */
  function Keep(u: Identities, rule: Rule, v: Option<Json>, trigger: Option<Json>): Option<Json> {
    match rule
    case Constant(value) => Some(value)
    case AnyText => if v.Some? && v.value.Text? then Some(Text(Cut(v.value.s))) else None
    case SomeText => if v.Some? && v.value.Text? && v.value.s != "" then Some(Text(Cut(v.value.s))) else None
    case OneOf(choices) => if v.Some? && v.value.Text? && v.value.s in choices then v else None
    case Digest => if v.Some? && v.value.Text? && IsDigest(v.value.s) then v else None
    case Whole => if v.Some? && IsWhole(v.value) then v else None
    case Amount => if v.Some? && IsAmount(v.value) then v else None
    case Flag => if v.Some? && v.value.Bool? then v else None
    case Identity =>
      if v.Some? && v.value.Text? && u(v.value.s).Some? then Some(Text(u(v.value.s).value)) else None
    case Expected =>
      if trigger == Some(Text("test")) && v.Some? && v.value.Text? && v.value.s in EXPECTED_STATUSES then v else None
    case Packs =>
      if v.Some? && v.value.List? && Summaries(v.value.items) != []
      then Some(List(Take(Sort(Summaries(v.value.items)), MAX_PACK_SUMMARIES))) else None
    case FailureCounts => if v.Some? && v.value.Object? then Some(Object(CountsOf(v.value.fields))) else None
    case PackIds =>
      if v.Some? && v.value.List? then Some(List(TextList(Take(Texts(v.value.items), MAX_PACK_SUMMARIES)))) else None
  }

  // ---------------------------------------------------------------- keeping twice is keeping once

  lemma {:induction false} SummariesOfSummaries(s: seq<Json>)
    requires forall x :: x in s ==> IsSummary(x)
    ensures Summaries(s) == s
  {
    if s != [] {
      SummariesOfSummaries(s[1..]);
      assert IsSummary(s[0]);
      assert s == [s[0]] + s[1..];
    }
  }

  lemma InsertAtFront(x: Json, s: seq<Json>)
    requires IsSummary(x) && SortedSummaries(s) && (s != [] ==> SortsBefore(x, s[0]))
    ensures Insert(x, s) == [x] + s
  {
  }

  lemma RestIsSorted(s: seq<Json>)
    requires SortedSummaries(s) && s != []
    ensures SortedSummaries(s[1..]) && IsSummary(s[0]) && (|s| > 1 ==> SortsBefore(s[0], s[1..][0]))
  {
  }

  lemma {:induction false} SortOfSorted(s: seq<Json>)
    requires SortedSummaries(s)
    ensures Sort(s) == s
  {
    if s != [] {
      RestIsSorted(s);
      SortOfSorted(s[1..]);
      InsertAtFront(s[0], s[1..]);
      assert s == [s[0]] + s[1..];
    }
  }

  lemma PacksKeptTwice(items: seq<Json>)
    requires Summaries(items) != []
    ensures var once := Take(Sort(Summaries(items)), MAX_PACK_SUMMARIES);
            Summaries(once) == once != [] && Take(Sort(once), MAX_PACK_SUMMARIES) == once
  {
    var sorted := Sort(Summaries(items));
    assert |multiset(sorted)| == |sorted| && |multiset(Summaries(items))| == |Summaries(items)|;
    var once := Take(sorted, MAX_PACK_SUMMARIES);
    assert SortedSummaries(once);
    SummariesOfSummaries(once);
    SortOfSorted(once);
  }

  lemma {:induction false} TextsOfTexts(s: seq<string>)
    requires forall x :: x in s ==> |x| <= MAX_ID_LENGTH
    ensures Elements(Texts(TextList(s))) == Elements(s)
  {
    if s != [] {
      TextsOfTexts(s[1..]);
      assert TextList(s)[1..] == TextList(s[1..]);
      assert s == [s[0]] + s[1..];
      ElementsOfAppend([s[0]], s[1..]);
    }
  }

  lemma {:induction false} TextsAreCut(items: seq<Json>)
    ensures forall x :: x in Texts(items) ==> |x| <= MAX_ID_LENGTH
  {
    if items != [] {
      TextsAreCut(items[1..]);
      if items[0].Text? {
        var rest, x0 := Texts(items[1..]), Cut(items[0].s);
        assert Texts(items) == InsertText(x0, rest);
        forall x | x in Texts(items) ensures |x| <= MAX_ID_LENGTH {
          assert x in Elements(InsertText(x0, rest));
          assert x in Elements(rest) || x == x0;
        }
      } else {
        assert Texts(items) == Texts(items[1..]);
      }
    }
  }

  lemma PackIdsKeptTwice(items: seq<Json>)
    ensures var once := Take(Texts(items), MAX_PACK_SUMMARIES);
            Take(Texts(TextList(once)), MAX_PACK_SUMMARIES) == once
  {
    var once := Take(Texts(items), MAX_PACK_SUMMARIES);
    TextsAreCut(items);
    TextsOfTexts(once);
    SortedIsUnique(Texts(TextList(once)), once);
  }

  /** A kept value is kept as it is, under any trigger that agrees on being a test. */
  lemma KeepIsIdempotent(u: Identities, rule: Rule, v: Option<Json>, trigger: Option<Json>, later: Option<Json>)
    requires Canonical(u) && Keep(u, rule, v, trigger).Some?
    requires trigger == Some(Text("test")) <==> later == Some(Text("test"))
    ensures Keep(u, rule, Keep(u, rule, v, trigger), later) == Keep(u, rule, v, trigger)
  {
    match rule
    case Packs => PacksKeptTwice(v.value.items);
    case PackIds => PackIdsKeptTwice(v.value.items);
    case FailureCounts => assert CountsOf(CountsOf(v.value.fields)) == CountsOf(v.value.fields);
    case _ =>
  }

  // ---------------------------------------------------------------- events

  const SKILL_EVENTS := {"skill-decision", "test-batch-terminal"}
  const EVENTS := {"run-started", "run-terminal", "run-reviewed", "skill-decision", "test-batch-terminal"}

  const HOSTS := {"codex", "claude", "unknown"}
  const CHOICES := {"direct", "reuse", "external", "attended", "bounded-fallback"}
  const REASONS := {"quick-check", "existing-proof", "long-batch", "independent-work", "attended", "unsupported-host",
                    "unsafe-prerequisite"}
  const OUTCOMES := {"succeeded", "failed", "blocked", "cancelled", "timed_out"}
  const HANDOFFS := {"succeeded", "failed", "blocked", "cancelled", "not-requested"}

  function RunRule(name: string): Option<Rule> {
    match name
    case "run_id" | "runtime_version" | "stage" | "mode" | "status" | "termination_reason" => Some(AnyText)
    case "scope_fingerprint" | "subject_digest" => Some(Digest)
    case "changed_path_count" | "selected_pack_count" | "blocking_finding_count" => Some(Whole)
    case "duration_ms" | "pack_duration_ms" | "planning_duration_ms" => Some(Amount)
    case "trigger" => Some(OneOf(TRIGGERS))
    case "expected_status" => Some(Expected)
    case _ => None
  }

  function TerminalRule(name: string): Option<Rule> {
    match name
    case "packs" => Some(Packs)
    case "failure_counts" => Some(FailureCounts)
    case "failed_pack_ids" => Some(PackIds)
    case _ => RunRule(name)
  }

  function ReviewRule(name: string): Option<Rule> {
    match name
    case "run_id" => Some(SomeText)
    case "disposition" => Some(OneOf(DISPOSITIONS))
    case _ => None
  }

  function SkillRule(name: string): Option<Rule> {
    match name
    case "decision_id" => Some(Identity)
    case "skill" => Some(OneOf({"test-execution"}))
    case "host" => Some(OneOf(HOSTS))
    case "runtime_version" => Some(SomeText)
    case _ => None
  }

  function DecisionRule(name: string): Option<Rule> {
    match name
    case "choice" => Some(OneOf(CHOICES))
    case "reason" => Some(OneOf(REASONS))
    case "observation" => Some(Constant(Text("reported")))
    case _ => SkillRule(name)
  }

  function BatchRule(name: string): Option<Rule> {
    match name
    case "outcome" => Some(OneOf(OUTCOMES))
    case "observation" => Some(Constant(Text("runtime")))
    case "duration_ms" => Some(Amount)
    case "cleanup_confirmed" => Some(Flag)
    case "input_tokens" | "cached_input_tokens" | "output_tokens" => Some(Whole)
    case "handoff" => Some(OneOf(HANDOFFS))
    case _ => SkillRule(name)
  }

  /** What each kind of event keeps of each field. */
  type Schema = string -> Option<Rule>

  function RuleOf(event: string, name: string): Option<Rule> {
    if name == "schema_version" then Some(Constant(Int(4)))
    else if name == "event" then Some(Constant(Text(event)))
    else if event == "run-started" then RunRule(name)
    else if event == "run-terminal" then TerminalRule(name)
    else if event == "run-reviewed" then ReviewRule(name)
    else if event == "skill-decision" then DecisionRule(name)
    else BatchRule(name)
  }

  function SchemaOf(event: string): Schema { name => RuleOf(event, name) }

  /** The fields without which an event is not stored. */
  function Required(event: string): set<string> {
    if event == "run-reviewed" then {"run_id", "disposition"}
    else if event == "skill-decision" then {"decision_id", "skill", "host", "choice", "reason"}
    else if event == "test-batch-terminal" then {"decision_id", "skill", "host", "outcome"}
    else {}
  }

  /** Fields that are stored whether the event carries them or not. */
  const ALWAYS := {"schema_version", "event", "observation"}

  function KeepField(u: Identities, schema: Schema, f: Fields, name: string): Option<Json> {
    if schema(name).None? then None else Keep(u, schema(name).value, Get(f, name), Get(f, "trigger"))
  }

  function Project(u: Identities, schema: Schema, f: Fields): Fields {
    map name | name in f.Keys + ALWAYS && KeepField(u, schema, f, name).Some? :: KeepField(u, schema, f, name).value
  }

  predicate IsEvent(e: Json) {
    e.Object? && "event" in e.fields && e.fields["event"].Text? && e.fields["event"].s in EVENTS
  }

  /** What is stored of an event: the fields its kind allows, if those it requires are there. */
  function Sanitize(u: Identities, e: Json): Option<Fields> {
    if !IsEvent(e) then None
    else
      var event := e.fields["event"].s;
      var kept := Project(u, SchemaOf(event), e.fields);
      if Required(event) <= kept.Keys then Some(kept) else None
  }

  /** The fields are gathered one at a time. */
  method SanitizeEvent(u: Identities, e: Json) returns (r: Option<Fields>)
    ensures r == Sanitize(u, e)
  {
    if !IsEvent(e) { return None; }
    var event := e.fields["event"].s;
    var result := Gather(u, SchemaOf(event), e.fields);
    r := if Required(event) <= result.Keys then Some(result) else None;
  }

  method Gather(u: Identities, schema: Schema, f: Fields) returns (result: Fields)
    ensures result == Project(u, schema, f)
  {
    result := map[];
    var names := f.Keys + ALWAYS;
    while names != {}
      invariant names <= f.Keys + ALWAYS
      invariant forall n :: n in result <==> n in Project(u, schema, f) && n !in names
      invariant forall n :: n in result ==> result[n] == Project(u, schema, f)[n]
      decreases |names|
    {
      var name :| name in names;
      names := names - {name};
      var value := KeepField(u, schema, f, name);
      if value.Some? { result := result[name := value.value]; }
    }
  }

  /** A conditional field comes with the trigger it depends on, and only the fixed fields have fixed values. */
  ghost predicate Regular(schema: Schema) {
    && (forall n :: schema(n) == Some(Expected) ==> schema("trigger") == Some(OneOf(TRIGGERS)))
    && (forall n :: schema(n).Some? && schema(n).value.Constant? ==> n in ALWAYS)
  }

  lemma RunRules(name: string)
    ensures TerminalRule(name).Some? ==> !TerminalRule(name).value.Constant?
    ensures RunRule(name).Some? ==> !RunRule(name).value.Constant?
    ensures TerminalRule("trigger") == RunRule("trigger") == Some(OneOf(TRIGGERS))
    ensures TerminalRule("recorded_at") == RunRule("recorded_at") == None
  {
  }

  lemma SkillRules(name: string)
    ensures DecisionRule(name).Some? && DecisionRule(name).value.Constant? ==> name in ALWAYS
    ensures BatchRule(name).Some? && BatchRule(name).value.Constant? ==> name in ALWAYS
    ensures DecisionRule(name) != Some(Expected) && BatchRule(name) != Some(Expected)
    ensures DecisionRule("recorded_at") == BatchRule("recorded_at") == None
  {
  }

  ghost predicate RegularRule(event: string, name: string, rule: Option<Rule>) {
    && (rule == Some(Expected) ==> event == "run-started" || event == "run-terminal")
    && (rule.Some? && rule.value.Constant? ==> name in ALWAYS)
  }

  lemma RulesAreRegular(event: string, name: string)
    ensures RegularRule(event, name, RuleOf(event, name))
  {
    if event == "run-started" || event == "run-terminal" { RunRules(name); }
    else if event != "run-reviewed" { SkillRules(name); }
  }

  lemma FixedRules(event: string)
    ensures RuleOf(event, "event") == Some(Constant(Text(event))) && RuleOf(event, "recorded_at") == None
    ensures event == "run-started" || event == "run-terminal" ==> RuleOf(event, "trigger") == Some(OneOf(TRIGGERS))
  {
    RunRules("");
    SkillRules("");
  }

  lemma SchemasAreRegular(event: string)
    ensures Regular(SchemaOf(event))
    ensures event in SKILL_EVENTS ==> forall n :: SchemaOf(event)(n) != Some(Expected)
  {
    FixedRules(event);
    forall name ensures RegularRule(event, name, SchemaOf(event)(name)) { RulesAreRegular(event, name); }
  }

  lemma KeptIsKept(u: Identities, schema: Schema, f: Fields, name: string)
    requires Canonical(u) && Regular(schema)
    ensures KeepField(u, schema, Project(u, schema, f), name) == KeepField(u, schema, f, name)
    ensures Get(Project(u, schema, f), name) == KeepField(u, schema, f, name)
  {
    var kept := Project(u, schema, f);
    GetProjected(u, schema, f, name);
    GetProjected(u, schema, f, "trigger");
    if schema(name).Some? && Get(kept, name).Some? {
      var later := if schema(name).value == Expected then Get(kept, "trigger") else Get(f, "trigger");
      KeepIsIdempotent(u, schema(name).value, Get(f, name), Get(f, "trigger"), later);
    }
  }

  lemma GetProjected(u: Identities, schema: Schema, f: Fields, name: string)
    requires Regular(schema)
    ensures Get(Project(u, schema, f), name) == KeepField(u, schema, f, name)
  {
    if name !in f.Keys + ALWAYS && schema(name).Some? { assert !schema(name).value.Constant?; }
  }

  lemma ProjectTwice(u: Identities, schema: Schema, f: Fields)
    requires Canonical(u) && Regular(schema)
    ensures Project(u, schema, Project(u, schema, f)) == Project(u, schema, f)
  {
    var once := Project(u, schema, f);
    var twice := Project(u, schema, once);
    forall name ensures Get(twice, name) == Get(once, name) {
      KeptIsKept(u, schema, f, name);
      GetProjected(u, schema, once, name);
    }
    SameFields(twice, once);
  }

  lemma SameFields(a: Fields, b: Fields)
    requires forall name :: Get(a, name) == Get(b, name)
    ensures a == b
  {
    forall name ensures name in a <==> name in b { assert Get(a, name) == Get(b, name); }
    forall name | name in a ensures a[name] == b[name] { assert Get(a, name) == Get(b, name); }
  }

  /** A stored event is stored again unchanged: sanitizing twice is sanitizing once. */
  lemma SanitizeIsIdempotent(u: Identities, e: Json)
    requires Canonical(u) && Sanitize(u, e).Some?
    ensures Sanitize(u, Object(Sanitize(u, e).value)) == Sanitize(u, e)
    ensures Get(Sanitize(u, e).value, "event") == Get(e.fields, "event")
  {
    var event := e.fields["event"].s;
    var schema := SchemaOf(event);
    SchemasAreRegular(event);
    FixedRules(event);
    GetProjected(u, schema, e.fields, "event");
    ProjectTwice(u, schema, e.fields);
  }

  /** An older observation under a newer one of the same kind: the result needs no further sanitizing. */
  lemma MergedIsSanitized(u: Identities, prior: Fields, newer: Fields)
    requires Canonical(u) && IsEvent(Object(newer)) && Get(prior, "event") == Get(newer, "event")
    requires newer["event"].s in SKILL_EVENTS
    requires Sanitize(u, Object(prior)) == Some(prior) && Sanitize(u, Object(newer)) == Some(newer)
    ensures Sanitize(u, Object(prior + newer)) == Some(prior + newer)
  {
    var event := newer["event"].s;
    SchemasAreRegular(event);
    MergedIsProjected(u, SchemaOf(event), prior, newer);
  }

  lemma KeepIgnoresTrigger(u: Identities, rule: Rule, v: Option<Json>, trigger: Option<Json>, other: Option<Json>)
    requires rule != Expected
    ensures Keep(u, rule, v, trigger) == Keep(u, rule, v, other)
  {
  }

  /** What a field keeps depends on its own value alone, so it is the same in the source it comes from. */
  lemma MergedField(u: Identities, schema: Schema, source: Fields, merged: Fields, name: string)
    requires Regular(schema) && schema(name) != Some(Expected) && Project(u, schema, source) == source
    requires Get(merged, name) == Get(source, name)
    ensures Get(Project(u, schema, merged), name) == Get(merged, name)
  {
    GetProjected(u, schema, merged, name);
    GetProjected(u, schema, source, name);
    if schema(name).Some? {
      KeepIgnoresTrigger(u, schema(name).value, Get(source, name), Get(merged, "trigger"), Get(source, "trigger"));
    }
  }

  lemma MergedIsProjected(u: Identities, schema: Schema, prior: Fields, newer: Fields)
    requires Regular(schema) && forall n :: schema(n) != Some(Expected)
    requires Project(u, schema, prior) == prior && Project(u, schema, newer) == newer
    ensures Project(u, schema, prior + newer) == prior + newer
  {
    var merged := prior + newer;
    forall name ensures Get(Project(u, schema, merged), name) == Get(merged, name) {
      MergedField(u, schema, if name in newer then newer else prior, merged, name);
    }
    SameFields(Project(u, schema, merged), merged);
  }

  // ---------------------------------------------------------------- what each kind of event keeps, field by field

  /** A text keeps its first 256 characters; anything else is dropped. */
  ghost predicate KeepsText(was: Option<Json>, kept: Option<Json>) {
    match was
    case Some(Text(s)) =>
      exists head, tail :: s == head + tail && kept == Some(Text(head))
                           && (if |s| <= 256 then tail == "" else |head| == 256)
    case _ => kept == None
  }

  /** The same for a text that has to be there and must not be empty. */
  ghost predicate KeepsSomeText(was: Option<Json>, kept: Option<Json>) {
    if was == Some(Text("")) then kept == None else KeepsText(was, kept)
  }

  ghost predicate HexDigest(s: string) {
    exists hex :: s == "sha256:" + hex && |hex| == 64 && forall c :: c in hex ==> '0' <= c <= '9' || 'a' <= c <= 'f'
  }

  ghost predicate KeepsDigest(was: Option<Json>, kept: Option<Json>) {
    match was
    case Some(Text(s)) => kept == if HexDigest(s) then was else None
    case _ => kept == None
  }

  predicate KeepsChoice(was: Option<Json>, kept: Option<Json>, choices: set<string>) {
    match was
    case Some(Text(s)) => kept == if s in choices then was else None
    case _ => kept == None
  }

  predicate KeepsCount(was: Option<Json>, kept: Option<Json>) {
    match was
    case Some(Int(n)) => kept == if n >= 0 then was else None
    case _ => kept == None
  }

  predicate KeepsAmount(was: Option<Json>, kept: Option<Json>) {
    match was
    case Some(Int(n)) => kept == if n >= 0 then was else None
    case Some(Float(x)) => kept == if x >= 0.0 then was else None
    case _ => kept == None
  }

  predicate KeepsFlag(was: Option<Json>, kept: Option<Json>) {
    match was
    case Some(Bool(_)) => kept == was
    case _ => kept == None
  }

  predicate KeepsIdentity(u: Identities, was: Option<Json>, kept: Option<Json>) {
    match was
    case Some(Text(s)) => (match u(s) case Some(id) => kept == Some(Text(id)) case None => kept == None)
    case _ => kept == None
  }

  /** The counts of known kinds of failure, each a whole number. */
  ghost predicate KeepsFailures(was: Option<Json>, kept: Option<Json>) {
    match was
    case Some(Object(f)) =>
      && kept.Some? && kept.value.Object?
      && (forall name :: name in kept.value.fields <==>
            name in {"check", "timeout", "cancelled", "execution", "invalid-output", "integrity", "configuration",
                     "selection", "runtime"}
            && name in f && f[name].Int? && f[name].n >= 0)
      && forall name :: name in kept.value.fields ==> name in f && kept.value.fields[name] == f[name]
    case _ => kept == None
  }

  lemma DigestExactlyWhen(s: string)
    ensures HexDigest(s) <==> IsDigest(s)
  {
    if IsDigest(s) {
      var hex := s[7..];
      assert s == "sha256:" + hex;
      forall c | c in hex ensures '0' <= c <= '9' || 'a' <= c <= 'f' {
        var k :| 0 <= k < 64 && hex[k] == c;
        assert s[k + 7] == c;
      }
    }
    if HexDigest(s) {
      var hex :| s == "sha256:" + hex && |hex| == 64 && forall c :: c in hex ==> '0' <= c <= '9' || 'a' <= c <= 'f';
      assert s[..7] == "sha256:";
      forall k | 7 <= k < 71 ensures '0' <= s[k] <= '9' || 'a' <= s[k] <= 'f' {
        assert s[k] == hex[k - 7] && hex[k - 7] in hex;
      }
    }
  }

  lemma KeepsTexts(u: Identities, v: Option<Json>, trigger: Option<Json>, choices: set<string>)
    ensures KeepsText(v, Keep(u, AnyText, v, trigger))
    ensures KeepsSomeText(v, Keep(u, SomeText, v, trigger))
    ensures KeepsChoice(v, Keep(u, OneOf(choices), v, trigger), choices)
  {
    if v.Some? && v.value.Text? {
      var t := v.value.s;
      assert t == t[..|Cut(t)|] + t[|Cut(t)|..] && Cut(t) == t[..|Cut(t)|];
    }
  }

  lemma KeepsNumbers(u: Identities, v: Option<Json>, trigger: Option<Json>)
    ensures KeepsCount(v, Keep(u, Whole, v, trigger))
    ensures KeepsAmount(v, Keep(u, Amount, v, trigger))
    ensures KeepsFlag(v, Keep(u, Flag, v, trigger))
  {
  }

  lemma KeepsDigests(u: Identities, v: Option<Json>, trigger: Option<Json>)
    ensures KeepsDigest(v, Keep(u, Digest, v, trigger))
  {
    if v.Some? && v.value.Text? { DigestExactlyWhen(v.value.s); }
  }

  lemma KeepsIdentities(u: Identities, v: Option<Json>, trigger: Option<Json>)
    ensures KeepsIdentity(u, v, Keep(u, Identity, v, trigger))
  {
  }

  lemma KeepsFailureCounts(u: Identities, v: Option<Json>, trigger: Option<Json>)
    ensures KeepsFailures(v, Keep(u, FailureCounts, v, trigger))
  {
  }

  // ---------------------------------------------------------------- pack summaries and identities

  /** The first 256 characters of a text. */
  ghost predicate Heads(s: string, head: string) {
    head <= s && (if |s| <= 256 then head == s else |head| == 256)
  }

  /** The summary of an item that names a pack and says how long it took. */
  ghost predicate Summarizes(item: Json, summary: Json) {
    exists f, id, head, duration ::
      && item == Object(f) && Get(f, "id") == Some(Text(id)) && Get(f, "duration_ms") == Some(duration)
      && ((duration.Int? && duration.n >= 0) || (duration.Float? && duration.x >= 0.0))
      && Heads(id, head) && summary == Object(map["id" := Text(head), "duration_ms" := duration])
  }

  lemma SummarizesExactlyWhen(item: Json, summary: Json)
    ensures Summary(item) == Some(summary) <==> Summarizes(item, summary)
  {
    if Summary(item) == Some(summary) { SummaryIsOne(item, summary); }
    if Summarizes(item, summary) { OneIsSummary(item, summary); }
  }

  lemma SummaryIsOne(item: Json, summary: Json)
    requires Summary(item) == Some(summary)
    ensures Summarizes(item, summary)
  {
    var f := item.fields;
    assert item == Object(f) && Get(f, "id") == Some(Text(f["id"].s));
    assert Get(f, "duration_ms") == Some(f["duration_ms"]);
    assert Heads(f["id"].s, Cut(f["id"].s));
  }

  lemma OneIsSummary(item: Json, summary: Json)
    requires Summarizes(item, summary)
    ensures Summary(item) == Some(summary)
  {
    var f, id, head, duration :|
      && item == Object(f) && Get(f, "id") == Some(Text(id)) && Get(f, "duration_ms") == Some(duration)
      && ((duration.Int? && duration.n >= 0) || (duration.Float? && duration.x >= 0.0))
      && Heads(id, head) && summary == Object(map["id" := Text(head), "duration_ms" := duration]);
    assert head == Cut(id);
  }

  /** The summaries are those of the items that have one, one after the other. */
  lemma SummariesAreRest(item: Json, rest: seq<Json>)
    ensures Summaries([]) == []
    ensures forall summary :: Summarizes(item, summary) ==> Summaries([item] + rest) == [summary] + Summaries(rest)
    ensures (forall summary :: !Summarizes(item, summary)) ==> Summaries([item] + rest) == Summaries(rest)
  {
    assert ([item] + rest)[1..] == rest;
    forall summary ensures Summary(item) == Some(summary) <==> Summarizes(item, summary) {
      SummarizesExactlyWhen(item, summary);
    }
  }

  /** Longer durations first, and identities in order where they are equal. */
  ghost predicate SlowestFirst(s: seq<Json>) {
    forall i, j :: 0 <= i < j < |s| ==> NoFaster(s[i], s[j])
  }

  function Milliseconds(v: Json): real {
    match v
    case Int(n) => n as real
    case Float(x) => x
    case _ => 0.0
  }

  ghost predicate NoFaster(a: Json, b: Json) {
    exists p, x, q, y ::
      && a == Object(map["id" := Text(p), "duration_ms" := x]) && b == Object(map["id" := Text(q), "duration_ms" := y])
      && (Milliseconds(y) < Milliseconds(x) || (Milliseconds(x) == Milliseconds(y) && (p == q || Below(p, q))))
  }

  /** Of the summaries, in that order, the first ten; nothing when there are none. */
  ghost predicate KeepsPacks(was: Option<Json>, kept: Option<Json>) {
    match was
    case Some(List(items)) =>
      if forall item, summary :: item in items ==> !Summarizes(item, summary) then kept == None
      else exists all :: multiset(all) == multiset(Summaries(items)) && SlowestFirst(all)
                         && kept == Some(List(FirstTen(all)))
    case _ => kept == None
  }

  lemma SortedIsSlowestFirst(s: seq<Json>)
    requires SortedSummaries(s)
    ensures SlowestFirst(s)
  {
    forall i, j | 0 <= i < j < |s| ensures NoFaster(s[i], s[j]) {
      assert IsSummary(s[i]) && IsSummary(s[j]) && SortsBefore(s[i], s[j]);
      SortedIsNoFaster(s[i], s[j]);
    }
  }

  lemma SortedIsNoFaster(a: Json, b: Json)
    requires IsSummary(a) && IsSummary(b) && SortsBefore(a, b)
    ensures NoFaster(a, b)
  {
    SummaryIsBare(a);
    SummaryIsBare(b);
    var p, x, q, y := a.fields["id"].s, a.fields["duration_ms"], b.fields["id"].s, b.fields["duration_ms"];
    BelowIsTotal(p, q);
    assert a == Object(map["id" := Text(p), "duration_ms" := x]);
    assert b == Object(map["id" := Text(q), "duration_ms" := y]);
    assert Milliseconds(x) == AmountOf(x) && Milliseconds(y) == AmountOf(y);
  }

  lemma SummaryIsBare(x: Json)
    requires IsSummary(x)
    ensures x == Object(map["id" := Text(x.fields["id"].s), "duration_ms" := x.fields["duration_ms"]])
  {
    assert x == Object(map["id" := Text(Cut(x.fields["id"].s)), "duration_ms" := x.fields["duration_ms"]]);
    assert x.fields["id"] == Text(Cut(x.fields["id"].s));
  }

  lemma {:induction false} NoSummaries(items: seq<Json>)
    ensures Summaries(items) == [] <==> forall item, summary :: item in items ==> !Summarizes(item, summary)
  {
    if items != [] {
      NoSummaries(items[1..]);
      assert items == [items[0]] + items[1..];
      forall summary ensures Summary(items[0]) == Some(summary) <==> Summarizes(items[0], summary) {
        SummarizesExactlyWhen(items[0], summary);
      }
      assert Summary(items[0]).Some? ==> Summary(items[0]) == Some(Summary(items[0]).value);
    }
  }

  function FirstTen<T>(all: seq<T>): seq<T> { if |all| <= 10 then all else all[..10] }

  lemma PacksExactlyWhen(u: Identities, v: Option<Json>, trigger: Option<Json>)
    ensures KeepsPacks(v, Keep(u, Packs, v, trigger))
  {
    if v.Some? && v.value.List? {
      NoSummaries(v.value.items);
      if Summaries(v.value.items) != [] { var all := PacksKept(u, v.value.items, trigger); }
    }
  }

  lemma PacksKept(u: Identities, items: seq<Json>, trigger: Option<Json>) returns (all: seq<Json>)
    requires Summaries(items) != []
    ensures multiset(all) == multiset(Summaries(items)) && SlowestFirst(all)
    ensures Keep(u, Packs, Some(List(items)), trigger) == Some(List(FirstTen(all)))
  {
    all := Sort(Summaries(items));
    SortedIsSlowestFirst(all);
  }

  /** The distinct identities, each cut, in order, the first ten of them. */
  ghost predicate KeepsPackIds(was: Option<Json>, kept: Option<Json>) {
    match was
    case Some(List(items)) =>
      exists all: seq<string> ::
        && Ascending(all) && (forall x :: x in all <==> exists s :: Text(s) in items && Heads(s, x))
        && kept == Some(List(TextList(FirstTen(all))))
    case _ => kept == None
  }

  lemma {:induction false} TextsExactlyWhen(items: seq<Json>)
    ensures forall x :: x in Texts(items) <==> exists s :: Text(s) in items && Heads(s, x)
  {
    if items != [] {
      var rest := items[1..];
      TextsExactlyWhen(rest);
      assert items == [items[0]] + rest;
      forall x ensures x in Texts(items) <==> exists s :: Text(s) in items && Heads(s, x) {
        assert x in Texts(items) <==> x in Elements(Texts(items));
        assert x in Texts(rest) <==> x in Elements(Texts(rest));
        if items[0].Text? {
          assert Heads(items[0].s, x) <==> x == Cut(items[0].s);
          assert items[0] == Text(items[0].s);
        }
      }
    }
  }

  lemma PackIdsExactlyWhen(u: Identities, v: Option<Json>, trigger: Option<Json>)
    ensures KeepsPackIds(v, Keep(u, PackIds, v, trigger))
  {
    if v.Some? && v.value.List? {
      var all := Texts(v.value.items);
      TextsExactlyWhen(v.value.items);
      assert Keep(u, PackIds, v, trigger) == Some(List(TextList(FirstTen(all))));
    }
  }

  // ---------------------------------------------------------------- what is stored of each kind of event

  /** The trigger is a test, and the expected status is a known one. */
  predicate KeepsExpected(f: Fields, kept: Option<Json>) {
    if Get(f, "trigger") == Some(Text("test"))
    then KeepsChoice(Get(f, "expected_status"), kept, {"passed", "failed", "warning", "blocked"})
    else kept == None
  }

  /** What every record of a run's start or end holds of each field. */
  ghost predicate RunFields(f: Fields, r: Fields, kind: string) {
    && Get(r, "schema_version") == Some(Int(4)) && Get(r, "event") == Some(Text(kind))
    && (forall n :: n in {"run_id", "runtime_version", "stage", "mode", "status", "termination_reason"} ==>
          KeepsText(Get(f, n), Get(r, n)))
    && (forall n :: n in {"scope_fingerprint", "subject_digest"} ==> KeepsDigest(Get(f, n), Get(r, n)))
    && (forall n :: n in {"changed_path_count", "selected_pack_count", "blocking_finding_count"} ==>
          KeepsCount(Get(f, n), Get(r, n)))
    && (forall n :: n in {"duration_ms", "pack_duration_ms", "planning_duration_ms"} ==>
          KeepsAmount(Get(f, n), Get(r, n)))
    && KeepsChoice(Get(f, "trigger"), Get(r, "trigger"), {"manual", "hook", "test"})
    && KeepsExpected(f, Get(r, "expected_status"))
  }

  const RUN_NAMES := {"schema_version", "event", "run_id", "runtime_version", "stage", "mode", "status",
                      "termination_reason", "scope_fingerprint", "subject_digest", "changed_path_count",
                      "selected_pack_count", "blocking_finding_count", "duration_ms", "pack_duration_ms",
                      "planning_duration_ms", "trigger", "expected_status"}

  lemma KeptOf(u: Identities, kind: string, f: Fields, name: string)
    ensures Get(Project(u, SchemaOf(kind), f), name) == KeepField(u, SchemaOf(kind), f, name)
    ensures Get(Project(u, SchemaOf(kind), f), name).Some? ==> RuleOf(kind, name).Some?
  {
    SchemasAreRegular(kind);
    GetProjected(u, SchemaOf(kind), f, name);
  }

  lemma RunTexts(u: Identities, kind: string, f: Fields, n: string)
    requires kind == "run-started" || kind == "run-terminal"
    requires n in {"run_id", "runtime_version", "stage", "mode", "status", "termination_reason"}
    ensures KeepsText(Get(f, n), Get(Project(u, SchemaOf(kind), f), n))
  {
    KeptOf(u, kind, f, n);
    assert RuleOf(kind, n) == Some(AnyText);
    KeepsTexts(u, Get(f, n), Get(f, "trigger"), {});
  }

  lemma RunNumbers(u: Identities, kind: string, f: Fields, n: string)
    requires kind == "run-started" || kind == "run-terminal"
    ensures n in {"changed_path_count", "selected_pack_count", "blocking_finding_count"} ==>
              KeepsCount(Get(f, n), Get(Project(u, SchemaOf(kind), f), n))
    ensures n in {"duration_ms", "pack_duration_ms", "planning_duration_ms"} ==>
              KeepsAmount(Get(f, n), Get(Project(u, SchemaOf(kind), f), n))
  {
    KeptOf(u, kind, f, n);
    RunNumberRule(kind, n);
    KeepsNumbers(u, Get(f, n), Get(f, "trigger"));
  }

  lemma RunNumberRule(kind: string, n: string)
    requires kind == "run-started" || kind == "run-terminal"
    ensures n in {"changed_path_count", "selected_pack_count", "blocking_finding_count"} ==>
              RuleOf(kind, n) == Some(Whole)
    ensures n in {"duration_ms", "pack_duration_ms", "planning_duration_ms"} ==> RuleOf(kind, n) == Some(Amount)
  {
    assert RuleOf("run-terminal", n) == TerminalRule(n) || n in {"schema_version", "event"};
  }

  lemma Stored(u: Identities, kind: string, f: Fields)
    requires Get(f, "event") == Some(Text(kind)) && kind in EVENTS
    ensures var r := Project(u, SchemaOf(kind), f);
            Sanitize(u, Object(f)) == if Required(kind) <= r.Keys then Some(r) else None
  {
    assert Object(f).fields["event"] == Text(kind);
  }

  lemma KeptBy(u: Identities, kind: string, f: Fields, n: string, rule: Rule)
    requires RuleOf(kind, n) == Some(rule)
    ensures Get(Project(u, SchemaOf(kind), f), n) == Keep(u, rule, Get(f, n), Get(f, "trigger"))
  {
    KeptOf(u, kind, f, n);
  }

  lemma RunDigests(u: Identities, kind: string, f: Fields, n: string)
    requires kind == "run-started" || kind == "run-terminal"
    requires n in {"scope_fingerprint", "subject_digest"}
    ensures KeepsDigest(Get(f, n), Get(Project(u, SchemaOf(kind), f), n))
  {
    DigestRule(kind, n);
    KeptBy(u, kind, f, n, Digest);
    KeepsDigests(u, Get(f, n), Get(f, "trigger"));
  }

  lemma DigestRule(kind: string, n: string)
    requires kind == "run-started" || kind == "run-terminal"
    requires n in {"scope_fingerprint", "subject_digest"}
    ensures RuleOf(kind, n) == Some(Digest)
  {
  }

  lemma RunTrigger(u: Identities, kind: string, f: Fields)
    requires kind == "run-started" || kind == "run-terminal"
    ensures KeepsChoice(Get(f, "trigger"), Get(Project(u, SchemaOf(kind), f), "trigger"), {"manual", "hook", "test"})
  {
    FixedRules(kind);
    KeptBy(u, kind, f, "trigger", OneOf(TRIGGERS));
    KeepsTexts(u, Get(f, "trigger"), Get(f, "trigger"), TRIGGERS);
  }

  lemma RunExpected(u: Identities, kind: string, f: Fields)
    requires kind == "run-started" || kind == "run-terminal"
    ensures KeepsExpected(f, Get(Project(u, SchemaOf(kind), f), "expected_status"))
  {
    KeptBy(u, kind, f, "expected_status", Expected);
  }

  lemma FixedKept(u: Identities, kind: string, f: Fields)
    ensures Get(Project(u, SchemaOf(kind), f), "schema_version") == Some(Int(4))
    ensures Get(Project(u, SchemaOf(kind), f), "event") == Some(Text(kind))
  {
    KeptBy(u, kind, f, "schema_version", Constant(Int(4)));
    KeptBy(u, kind, f, "event", Constant(Text(kind)));
  }

  lemma RunFieldsKept(u: Identities, kind: string, f: Fields)
    requires kind == "run-started" || kind == "run-terminal"
    ensures RunFields(f, Project(u, SchemaOf(kind), f), kind)
  {
    var r := Project(u, SchemaOf(kind), f);
    forall n | n in {"run_id", "runtime_version", "stage", "mode", "status", "termination_reason"}
      ensures KeepsText(Get(f, n), Get(r, n))
    {
      RunTexts(u, kind, f, n);
    }
    forall n
      ensures n in {"changed_path_count", "selected_pack_count", "blocking_finding_count"} ==>
                KeepsCount(Get(f, n), Get(r, n))
      ensures n in {"duration_ms", "pack_duration_ms", "planning_duration_ms"} ==> KeepsAmount(Get(f, n), Get(r, n))
    {
      RunNumbers(u, kind, f, n);
    }
    forall n | n in {"scope_fingerprint", "subject_digest"} ensures KeepsDigest(Get(f, n), Get(r, n)) {
      RunDigests(u, kind, f, n);
    }
    RunTrigger(u, kind, f);
    RunExpected(u, kind, f);
    FixedKept(u, kind, f);
  }

  /** The start of a run is always stored: these fields and no others. */
  lemma StartedKeeps(u: Identities, f: Fields)
    requires Get(f, "event") == Some(Text("run-started"))
    ensures Sanitize(u, Object(f)).Some?
    ensures var r := Sanitize(u, Object(f)).value; RunFields(f, r, "run-started") && r.Keys <= RUN_NAMES
  {
    var r := Project(u, SchemaOf("run-started"), f);
    Stored(u, "run-started", f);
    RunFieldsKept(u, "run-started", f);
    forall n | n in r ensures n in RUN_NAMES { StartedNames(u, f, n); }
  }

  lemma StartedNames(u: Identities, f: Fields, n: string)
    requires n in Project(u, SchemaOf("run-started"), f)
    ensures n in RUN_NAMES
  {
    KeptOf(u, "run-started", f, n);
  }

  /** So is its end, with the summaries of its packs, its failures and the packs that failed. */
  lemma TerminalKeeps(u: Identities, f: Fields)
    requires Get(f, "event") == Some(Text("run-terminal"))
    ensures Sanitize(u, Object(f)).Some?
    ensures var r := Sanitize(u, Object(f)).value;
            && RunFields(f, r, "run-terminal") && r.Keys <= RUN_NAMES + {"packs", "failure_counts", "failed_pack_ids"}
            && KeepsPacks(Get(f, "packs"), Get(r, "packs"))
            && KeepsFailures(Get(f, "failure_counts"), Get(r, "failure_counts"))
            && KeepsPackIds(Get(f, "failed_pack_ids"), Get(r, "failed_pack_ids"))
  {
    var kind := "run-terminal";
    var r := Project(u, SchemaOf(kind), f);
    Stored(u, kind, f);
    RunFieldsKept(u, kind, f);
    TerminalPacks(u, f);
    TerminalFailures(u, f);
    TerminalPackIds(u, f);
    forall n | n in r ensures n in RUN_NAMES + {"packs", "failure_counts", "failed_pack_ids"} {
      TerminalNames(u, f, n);
    }
  }

  lemma TerminalNames(u: Identities, f: Fields, n: string)
    requires n in Project(u, SchemaOf("run-terminal"), f)
    ensures n in RUN_NAMES + {"packs", "failure_counts", "failed_pack_ids"}
  {
    KeptOf(u, "run-terminal", f, n);
    TerminalRuleNames(n);
  }

  lemma TerminalRuleNames(n: string)
    requires RuleOf("run-terminal", n).Some?
    ensures n in RUN_NAMES + {"packs", "failure_counts", "failed_pack_ids"}
  {
    if n !in {"packs", "failure_counts", "failed_pack_ids"} { assert RuleOf("run-started", n).Some?; }
  }

  lemma TerminalPacks(u: Identities, f: Fields)
    ensures KeepsPacks(Get(f, "packs"), Get(Project(u, SchemaOf("run-terminal"), f), "packs"))
  {
    KeptBy(u, "run-terminal", f, "packs", Packs);
    PacksExactlyWhen(u, Get(f, "packs"), Get(f, "trigger"));
  }

  lemma TerminalFailures(u: Identities, f: Fields)
    ensures KeepsFailures(Get(f, "failure_counts"), Get(Project(u, SchemaOf("run-terminal"), f), "failure_counts"))
  {
    KeptBy(u, "run-terminal", f, "failure_counts", FailureCounts);
    KeepsFailureCounts(u, Get(f, "failure_counts"), Get(f, "trigger"));
  }

  lemma TerminalPackIds(u: Identities, f: Fields)
    ensures KeepsPackIds(Get(f, "failed_pack_ids"), Get(Project(u, SchemaOf("run-terminal"), f), "failed_pack_ids"))
  {
    KeptBy(u, "run-terminal", f, "failed_pack_ids", PackIds);
    PackIdsExactlyWhen(u, Get(f, "failed_pack_ids"), Get(f, "trigger"));
  }

  /** A review is stored exactly when it names a run and a known disposition, and then nothing else of it. */
  lemma ReviewKeeps(u: Identities, f: Fields)
    requires Get(f, "event") == Some(Text("run-reviewed"))
    ensures Sanitize(u, Object(f)).Some? <==>
              && (exists id :: Get(f, "run_id") == Some(Text(id)) && id != "")
              && exists d :: d in {"confirmed-issue", "false-positive", "mixed", "unreviewed"}
                             && Get(f, "disposition") == Some(Text(d))
    ensures Sanitize(u, Object(f)).Some? ==>
              var r := Sanitize(u, Object(f)).value;
              && Get(r, "schema_version") == Some(Int(4)) && Get(r, "event") == Some(Text("run-reviewed"))
              && KeepsText(Get(f, "run_id"), Get(r, "run_id")) && Get(r, "disposition") == Get(f, "disposition")
              && r.Keys == {"schema_version", "event", "run_id", "disposition"}
  {
    var kind := "run-reviewed";
    var r := Project(u, SchemaOf(kind), f);
    Stored(u, kind, f);
    forall n ensures n in r <==> Get(r, n).Some? {}
    forall n | n in r ensures n in {"schema_version", "event", "run_id", "disposition"} { ReviewNames(u, f, n); }
    FixedKept(u, kind, f);
    ReviewKept(u, f);
  }

  lemma ReviewNames(u: Identities, f: Fields, n: string)
    requires n in Project(u, SchemaOf("run-reviewed"), f)
    ensures n in {"schema_version", "event", "run_id", "disposition"}
  {
    KeptOf(u, "run-reviewed", f, n);
  }

  lemma ReviewKept(u: Identities, f: Fields)
    ensures var r := Project(u, SchemaOf("run-reviewed"), f);
            && (Get(r, "run_id").Some? <==> exists id :: Get(f, "run_id") == Some(Text(id)) && id != "")
            && (Get(r, "run_id").Some? ==> KeepsText(Get(f, "run_id"), Get(r, "run_id")))
            && (Get(r, "disposition").Some? <==>
                  exists d :: d in {"confirmed-issue", "false-positive", "mixed", "unreviewed"}
                              && Get(f, "disposition") == Some(Text(d)))
            && (Get(r, "disposition").Some? ==> Get(r, "disposition") == Get(f, "disposition"))
  {
    KeptBy(u, "run-reviewed", f, "run_id", SomeText);
    KeptBy(u, "run-reviewed", f, "disposition", OneOf(DISPOSITIONS));
    KeepsTexts(u, Get(f, "run_id"), Get(f, "trigger"), {});
    ChosenExactlyWhen(u, f, "disposition", DISPOSITIONS);
    if "run_id" in f && f["run_id"].Text? { assert Get(f, "run_id") == Some(Text(f["run_id"].s)); }
  }

  /** The fields that both kinds of skill observation must have. */
  ghost predicate SkillFields(u: Identities, f: Fields, r: Fields) {
    && Get(r, "schema_version") == Some(Int(4)) && Get(r, "event") == Get(f, "event")
    && KeepsIdentity(u, Get(f, "decision_id"), Get(r, "decision_id"))
    && Get(r, "skill") == Get(f, "skill") && Get(r, "host") == Get(f, "host")
    && KeepsSomeText(Get(f, "runtime_version"), Get(r, "runtime_version"))
  }

  ghost predicate SkillNamed(u: Identities, f: Fields) {
    && (exists id, canonical :: Get(f, "decision_id") == Some(Text(id)) && u(id) == Some(canonical))
    && Get(f, "skill") == Some(Text("test-execution")) && Chosen(f, "host", {"codex", "claude", "unknown"})
  }

  ghost predicate Chosen(f: Fields, name: string, choices: set<string>) {
    exists c :: c in choices && Get(f, name) == Some(Text(c))
  }

  lemma SkillKept(u: Identities, kind: string, f: Fields)
    requires kind == "skill-decision" || kind == "test-batch-terminal"
    requires Get(f, "event") == Some(Text(kind))
    ensures var r := Project(u, SchemaOf(kind), f);
            && ({"decision_id", "skill", "host"} <= r.Keys <==> SkillNamed(u, f))
            && ({"decision_id", "skill", "host"} <= r.Keys ==> SkillFields(u, f, r))
  {
    var r := Project(u, SchemaOf(kind), f);
    forall n ensures n in r <==> Get(r, n).Some? {}
    FixedKept(u, kind, f);
    SkillIdentity(u, kind, f);
    SkillChoices(u, kind, f);
    SkillVersion(u, kind, f);
  }

  lemma SkillIdentity(u: Identities, kind: string, f: Fields)
    requires kind == "skill-decision" || kind == "test-batch-terminal"
    ensures var kept := Get(Project(u, SchemaOf(kind), f), "decision_id");
            && KeepsIdentity(u, Get(f, "decision_id"), kept)
            && (kept.Some? <==>
                  exists id, canonical :: Get(f, "decision_id") == Some(Text(id)) && u(id) == Some(canonical))
  {
    KeptBy(u, kind, f, "decision_id", Identity);
    KeepsIdentities(u, Get(f, "decision_id"), Get(f, "trigger"));
    var was := Get(f, "decision_id");
    if was.Some? && was.value.Text? && u(was.value.s).Some? {
      assert was == Some(Text(was.value.s)) && u(was.value.s) == Some(u(was.value.s).value);
    }
  }

  lemma SkillChoices(u: Identities, kind: string, f: Fields)
    requires kind == "skill-decision" || kind == "test-batch-terminal"
    ensures var skill, host := Get(Project(u, SchemaOf(kind), f), "skill"), Get(Project(u, SchemaOf(kind), f), "host");
            && (skill.Some? <==> Get(f, "skill") == Some(Text("test-execution")))
            && (host.Some? <==> Chosen(f, "host", {"codex", "claude", "unknown"}))
            && (skill.Some? ==> skill == Get(f, "skill")) && (host.Some? ==> host == Get(f, "host"))
  {
    KeptBy(u, kind, f, "skill", OneOf({"test-execution"}));
    KeptBy(u, kind, f, "host", OneOf(HOSTS));
    ChosenExactlyWhen(u, f, "host", HOSTS);
    ChosenExactlyWhen(u, f, "skill", {"test-execution"});
  }

  lemma SkillVersion(u: Identities, kind: string, f: Fields)
    requires kind == "skill-decision" || kind == "test-batch-terminal"
    ensures KeepsSomeText(Get(f, "runtime_version"), Get(Project(u, SchemaOf(kind), f), "runtime_version"))
  {
    KeptBy(u, kind, f, "runtime_version", SomeText);
    KeepsTexts(u, Get(f, "runtime_version"), Get(f, "trigger"), {});
  }

  lemma ChosenExactlyWhen(u: Identities, f: Fields, name: string, choices: set<string>)
    ensures var kept := Keep(u, OneOf(choices), Get(f, name), Get(f, "trigger"));
            && (kept.Some? <==> Chosen(f, name, choices))
            && (kept.Some? ==> kept == Get(f, name))
  {
    if name in f && f[name].Text? { assert Get(f, name) == Some(Text(f[name].s)); }
  }

  /** A decision is stored exactly when it names a batch and a host, and a known choice and reason. */
  lemma DecisionKeeps(u: Identities, f: Fields)
    requires Get(f, "event") == Some(Text("skill-decision"))
    ensures Sanitize(u, Object(f)).Some? <==>
              && SkillNamed(u, f)
              && Chosen(f, "choice", {"direct", "reuse", "external", "attended", "bounded-fallback"})
              && Chosen(f, "reason", {"quick-check", "existing-proof", "long-batch", "independent-work", "attended",
                                      "unsupported-host", "unsafe-prerequisite"})
    ensures Sanitize(u, Object(f)).Some? ==>
              var r := Sanitize(u, Object(f)).value;
              && SkillFields(u, f, r) && Get(r, "choice") == Get(f, "choice") && Get(r, "reason") == Get(f, "reason")
              && Get(r, "observation") == Some(Text("reported"))
              && r.Keys <= {"schema_version", "event", "decision_id", "skill", "host", "runtime_version", "choice",
                            "reason", "observation"}
  {
    var kind := "skill-decision";
    var r := Project(u, SchemaOf(kind), f);
    Stored(u, kind, f);
    forall n ensures n in r <==> Get(r, n).Some? {}
    forall n | n in r
      ensures n in {"schema_version", "event", "decision_id", "skill", "host", "runtime_version", "choice", "reason",
                    "observation"}
    {
      DecisionNames(u, f, n);
    }
    SkillKept(u, kind, f);
    DecisionKept(u, f);
  }

  lemma DecisionNames(u: Identities, f: Fields, n: string)
    requires n in Project(u, SchemaOf("skill-decision"), f)
    ensures n in {"schema_version", "event", "decision_id", "skill", "host", "runtime_version", "choice", "reason",
                  "observation"}
  {
    KeptOf(u, "skill-decision", f, n);
  }

  lemma DecisionKept(u: Identities, f: Fields)
    ensures var r := Project(u, SchemaOf("skill-decision"), f);
            && (Get(r, "choice").Some? <==>
                  Chosen(f, "choice", {"direct", "reuse", "external", "attended", "bounded-fallback"}))
            && (Get(r, "reason").Some? <==>
                  Chosen(f, "reason", {"quick-check", "existing-proof", "long-batch", "independent-work", "attended",
                                       "unsupported-host", "unsafe-prerequisite"}))
            && (Get(r, "choice").Some? ==> Get(r, "choice") == Get(f, "choice"))
            && (Get(r, "reason").Some? ==> Get(r, "reason") == Get(f, "reason"))
            && Get(r, "observation") == Some(Text("reported"))
  {
    KeptBy(u, "skill-decision", f, "choice", OneOf(CHOICES));
    KeptBy(u, "skill-decision", f, "reason", OneOf(REASONS));
    KeptBy(u, "skill-decision", f, "observation", Constant(Text("reported")));
    ChosenExactlyWhen(u, f, "choice", CHOICES);
    ChosenExactlyWhen(u, f, "reason", REASONS);
  }

  /** The end of a batch is stored exactly when it names a batch and a host, and a known outcome. */
  lemma BatchKeeps(u: Identities, f: Fields)
    requires Get(f, "event") == Some(Text("test-batch-terminal"))
    ensures Sanitize(u, Object(f)).Some? <==>
              SkillNamed(u, f) && Chosen(f, "outcome", {"succeeded", "failed", "blocked", "cancelled", "timed_out"})
    ensures Sanitize(u, Object(f)).Some? ==>
              var r := Sanitize(u, Object(f)).value;
              && SkillFields(u, f, r) && Get(r, "outcome") == Get(f, "outcome")
              && Get(r, "observation") == Some(Text("runtime"))
              && BatchFields(f, r)
              && r.Keys <= {"schema_version", "event", "decision_id", "skill", "host", "runtime_version", "outcome",
                            "observation", "duration_ms", "cleanup_confirmed", "input_tokens", "cached_input_tokens",
                            "output_tokens", "handoff"}
  {
    var kind := "test-batch-terminal";
    var r := Project(u, SchemaOf(kind), f);
    Stored(u, kind, f);
    forall n ensures n in r <==> Get(r, n).Some? {}
    forall n | n in r
      ensures n in {"schema_version", "event", "decision_id", "skill", "host", "runtime_version", "outcome",
                    "observation", "duration_ms", "cleanup_confirmed", "input_tokens", "cached_input_tokens",
                    "output_tokens", "handoff"}
    {
      BatchNames(u, f, n);
    }
    SkillKept(u, kind, f);
    BatchOutcome(u, f);
    BatchKept(u, f);
  }

  lemma BatchNames(u: Identities, f: Fields, n: string)
    requires n in Project(u, SchemaOf("test-batch-terminal"), f)
    ensures n in {"schema_version", "event", "decision_id", "skill", "host", "runtime_version", "outcome",
                  "observation", "duration_ms", "cleanup_confirmed", "input_tokens", "cached_input_tokens",
                  "output_tokens", "handoff"}
  {
    KeptOf(u, "test-batch-terminal", f, n);
  }

  lemma BatchOutcome(u: Identities, f: Fields)
    ensures var r := Project(u, SchemaOf("test-batch-terminal"), f);
            && (Get(r, "outcome").Some? <==>
                  Chosen(f, "outcome", {"succeeded", "failed", "blocked", "cancelled", "timed_out"}))
            && (Get(r, "outcome").Some? ==> Get(r, "outcome") == Get(f, "outcome"))
            && Get(r, "observation") == Some(Text("runtime"))
  {
    KeptBy(u, "test-batch-terminal", f, "outcome", OneOf(OUTCOMES));
    KeptBy(u, "test-batch-terminal", f, "observation", Constant(Text("runtime")));
    ChosenExactlyWhen(u, f, "outcome", OUTCOMES);
  }

  ghost predicate BatchFields(f: Fields, r: Fields) {
    && KeepsAmount(Get(f, "duration_ms"), Get(r, "duration_ms"))
    && KeepsFlag(Get(f, "cleanup_confirmed"), Get(r, "cleanup_confirmed"))
    && (forall n :: n in {"input_tokens", "cached_input_tokens", "output_tokens"} ==> KeepsCount(Get(f, n), Get(r, n)))
    && KeepsChoice(Get(f, "handoff"), Get(r, "handoff"),
                   {"succeeded", "failed", "blocked", "cancelled", "not-requested"})
  }

  lemma BatchKept(u: Identities, f: Fields)
    ensures BatchFields(f, Project(u, SchemaOf("test-batch-terminal"), f))
  {
    var kind := "test-batch-terminal";
    var r := Project(u, SchemaOf(kind), f);
    KeptBy(u, kind, f, "duration_ms", Amount);
    KeepsNumbers(u, Get(f, "duration_ms"), Get(f, "trigger"));
    KeptBy(u, kind, f, "cleanup_confirmed", Flag);
    KeepsNumbers(u, Get(f, "cleanup_confirmed"), Get(f, "trigger"));
    forall n | n in {"input_tokens", "cached_input_tokens", "output_tokens"} ensures KeepsCount(Get(f, n), Get(r, n)) {
      BatchCounts(u, f, n);
    }
    BatchHandoff(u, f);
  }

  lemma BatchCounts(u: Identities, f: Fields, n: string)
    requires n in {"input_tokens", "cached_input_tokens", "output_tokens"}
    ensures KeepsCount(Get(f, n), Get(Project(u, SchemaOf("test-batch-terminal"), f), n))
  {
    KeptBy(u, "test-batch-terminal", f, n, Whole);
    KeepsNumbers(u, Get(f, n), Get(f, "trigger"));
  }

  lemma BatchHandoff(u: Identities, f: Fields)
    ensures KeepsChoice(Get(f, "handoff"), Get(Project(u, SchemaOf("test-batch-terminal"), f), "handoff"),
                        {"succeeded", "failed", "blocked", "cancelled", "not-requested"})
  {
    KeptBy(u, "test-batch-terminal", f, "handoff", OneOf(HANDOFFS));
    KeepsTexts(u, Get(f, "handoff"), Get(f, "trigger"), HANDOFFS);
  }
}
