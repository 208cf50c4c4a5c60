/** `telemetry.py`: the bounded local store of sanitized events, one JSON object a line, rewritten at every append. */
module Telemetry {
  import opened Results
  import opened TextOrder
  import opened TelemetrySchema

  const MAX_RECORDS: nat := 1000
  const MAX_TELEMETRY_BYTES: nat := 1048576

  /** Bytes that a record takes as a line, its newline included. */
  type Sizes = Json -> nat

  // ---------------------------------------------------------------- bounded records

  function Total(size: Sizes, records: seq<Json>): nat {
    if records == [] then 0 else size(records[0]) + Total(size, records[1..])
  }

  function Fitting(size: Sizes, records: seq<Json>): seq<Json> {
    if records == [] then []
    else (if size(records[0]) <= MAX_TELEMETRY_BYTES then [records[0]] else []) + Fitting(size, records[1..])
  }

  function Newest(records: seq<Json>): seq<Json> {
    if |records| > MAX_RECORDS then records[|records| - MAX_RECORDS..] else records
  }

  /** At most a thousand records, and all when there are fewer. */
  lemma NewestIsEnd(records: seq<Json>)
    ensures var r := Newest(records);
            && |r| <= |records| && r == records[|records| - |r|..] && |r| <= 1000 && (|r| < 1000 ==> r == records)
  {
  }

  /** `kept` is the longest end of `all` that fits the byte ceiling. */
  ghost predicate LongestEnd(size: Sizes, all: seq<Json>, kept: seq<Json>) {
    exists d: nat :: EndFrom(size, all, kept, d)
  }

  ghost predicate EndFrom(size: Sizes, all: seq<Json>, kept: seq<Json>, d: nat) {
    && d <= |all| && kept == all[d..] && Total(size, kept) <= MAX_TELEMETRY_BYTES
    && (d > 0 ==> Total(size, all[d - 1..]) > MAX_TELEMETRY_BYTES)
  }

  lemma {:induction false} FittingSplits(size: Sizes, a: seq<Json>, b: seq<Json>)
    ensures Fitting(size, a + b) == Fitting(size, a) + Fitting(size, b)
  {
    if a == [] {
      assert a + b == b;
    } else {
      FittingSplits(size, a[1..], b);
      assert (a + b)[1..] == a[1..] + b && (a + b)[0] == a[0];
      var head := if size(a[0]) <= MAX_TELEMETRY_BYTES then [a[0]] else [];
      AppendAssociates(head, Fitting(size, a[1..]), Fitting(size, b));
    }
  }

  /** The longest end of the newest records that fits the file; a record too long for any file does not count. */
  method BoundedRecords(size: Sizes, records: seq<Json>) returns (kept: seq<Json>)
    ensures LongestEnd(size, Fitting(size, Newest(records)), kept)
  {
    var recent := Newest(records);
    kept := [];
    var bytes := 0;
    var i := |recent|;
    assert recent[i..] == [];
    while i > 0
      invariant 0 <= i <= |recent|
      invariant kept == Fitting(size, recent[i..])
      invariant bytes == Total(size, kept) <= MAX_TELEMETRY_BYTES
    {
      var line := recent[i - 1];
      assert recent[i - 1..] == [line] + recent[i..];
      if size(line) > MAX_TELEMETRY_BYTES { i := i - 1; continue; }
      if bytes + size(line) > MAX_TELEMETRY_BYTES {
        StoppedAt(size, recent, i, kept);
        return;
      }
      assert ([line] + kept)[1..] == kept;
      kept := [line] + kept;
      bytes := bytes + size(line);
      i := i - 1;
    }
    assert recent[0..] == recent;
    assert EndFrom(size, Fitting(size, recent), kept, 0);
  }

  lemma StoppedAt(size: Sizes, recent: seq<Json>, i: nat, kept: seq<Json>)
    requires 0 < i <= |recent| && kept == Fitting(size, recent[i..]) && Total(size, kept) <= MAX_TELEMETRY_BYTES
    requires size(recent[i - 1]) <= MAX_TELEMETRY_BYTES < Total(size, kept) + size(recent[i - 1])
    ensures LongestEnd(size, Fitting(size, recent), kept)
  {
    var line, front := recent[i - 1], Fitting(size, recent[..i - 1]);
    assert recent == recent[..i - 1] + ([line] + recent[i..]);
    FittingSplits(size, recent[..i - 1], [line] + recent[i..]);
    assert ([line] + recent[i..])[1..] == recent[i..];
    assert Fitting(size, [line] + recent[i..]) == [line] + kept;
    EndsAfter(size, front, line, kept);
  }

  lemma EndsAfter(size: Sizes, front: seq<Json>, line: Json, kept: seq<Json>)
    requires Total(size, kept) <= MAX_TELEMETRY_BYTES < Total(size, kept) + size(line)
    ensures LongestEnd(size, front + ([line] + kept), kept)
  {
    var all, d := front + ([line] + kept), |front| + 1;
    assert all[d..] == kept && all[d - 1..] == [line] + kept;
    assert ([line] + kept)[1..] == kept;
    assert EndFrom(size, all, kept, d);
  }

  // ---------------------------------------------------------------- reading back

  /** The whole lines within the last bytes read: all, or for a longer file those after the first newline among them. */
  function InReach(size: Sizes, lines: seq<Json>): seq<Json> {
    if Total(size, lines) <= MAX_TELEMETRY_BYTES then lines else AfterNewline(size, lines)
  }

  function AfterNewline(size: Sizes, lines: seq<Json>): seq<Json> {
    if lines == [] || Total(size, lines) < MAX_TELEMETRY_BYTES then lines else AfterNewline(size, lines[1..])
  }

  /** They are an end of the file below the ceiling, and the longest one: the line before reaches the ceiling. */
  lemma {:induction false} AfterNewlineIsEnd(size: Sizes, lines: seq<Json>) returns (d: nat)
    ensures d <= |lines| && AfterNewline(size, lines) == lines[d..] && Total(size, lines[d..]) < MAX_TELEMETRY_BYTES
    ensures d > 0 ==> Total(size, lines[d - 1..]) >= MAX_TELEMETRY_BYTES
  {
    d := 0;
    assert lines[0..] == lines;
    if lines != [] && Total(size, lines) >= MAX_TELEMETRY_BYTES {
      var e := AfterNewlineIsEnd(size, lines[1..]);
      d := e + 1;
      assert lines[1..][e..] == lines[d..];
      if e > 0 { assert lines[1..][e - 1..] == lines[d - 1..]; }
    }
  }

  /** A file of at most one mebibyte is read whole. Of a longer one, the lines below that size are. */
  lemma InReachIsEnd(size: Sizes, lines: seq<Json>) returns (d: nat)
    ensures d <= |lines| && InReach(size, lines) == lines[d..] && (d == 0 <==> Total(size, lines) <= 1048576)
    ensures d > 0 ==> Total(size, lines[d..]) < 1048576 <= Total(size, lines[d - 1..])
  {
    d := 0;
    assert lines[0..] == lines;
    if Total(size, lines) > MAX_TELEMETRY_BYTES { d := AfterNewlineIsEnd(size, lines); }
  }

  /** What one line of the file is read as. */
  function Reread(u: Identities, line: Json): Option<Json> {
    var kept := Sanitize(u, line);
    if kept.None? then None
    else if "recorded_at" in line.fields && line.fields["recorded_at"].Text?
    then Some(Object(kept.value["recorded_at" := Text(Cut(line.fields["recorded_at"].s))]))
    else Some(Object(kept.value))
  }

  /** The sanitized event, with the first 256 characters of its own time. */
  lemma RereadKeeps(u: Identities, f: Fields, name: string)
    ensures Reread(u, Object(f)).Some? <==> Sanitize(u, Object(f)).Some?
    ensures Reread(u, Object(f)).Some? ==>
              && Reread(u, Object(f)).value.Object?
              && var r := Reread(u, Object(f)).value.fields;
                 && (name != "recorded_at" ==> Get(r, name) == Get(Sanitize(u, Object(f)).value, name))
                 && (forall stamp :: Get(f, "recorded_at") == Some(Text(stamp)) ==>
                       exists head :: Heads(stamp, head) && Get(r, "recorded_at") == Some(Text(head)))
  {
    if "recorded_at" in f && f["recorded_at"].Text? {
      assert Heads(f["recorded_at"].s, Cut(f["recorded_at"].s));
    }
  }

  function RereadAll(u: Identities, lines: seq<Json>): seq<Json> {
    if lines == [] then []
    else RereadAll(u, lines[..|lines| - 1])
         + (if Reread(u, lines[|lines| - 1]).Some? then [Reread(u, lines[|lines| - 1]).value] else [])
  }

  /** One line, sanitized again and with its own time. */
  method RereadLine(u: Identities, line: Json) returns (r: Option<Json>)
    ensures r == Reread(u, line)
  {
    var kept := SanitizeEvent(u, line);
    if kept.None? { return None; }
    var stamp := Get(line.fields, "recorded_at");
    r := Some(Object(if stamp.Some? && stamp.value.Text?
                     then kept.value["recorded_at" := Text(Cut(stamp.value.s))] else kept.value));
  }

  method ExistingRecords(u: Identities, size: Sizes, lines: seq<Json>) returns (records: seq<Json>)
    ensures records == RereadAll(u, Newest(InReach(size, lines)))
  {
    var recent := Newest(InReach(size, lines));
    records := [];
    for k := 0 to |recent|
      invariant records == RereadAll(u, recent[..k])
    {
      assert recent[..k + 1][..k] == recent[..k];
      var record := RereadLine(u, recent[k]);
      if record.Some? { records := records + [record.value]; }
    }
    assert recent[..|recent|] == recent;
  }

  /** The store wrote this record: reading it back changes nothing. */
  predicate Written(u: Identities, record: Json) { Reread(u, record) == Some(record) }

  lemma {:induction false} RereadingChangesNothing(u: Identities, lines: seq<Json>)
    requires forall l :: l in lines ==> Written(u, l)
    ensures RereadAll(u, lines) == lines
  {
    if lines != [] {
      var n := |lines| - 1;
      assert lines == lines[..n] + [lines[n]];
      assert Written(u, lines[n]);
      RereadingChangesNothing(u, lines[..n]);
    }
  }

  predicate Sanitized(u: Identities, f: Fields) { Sanitize(u, Object(f)) == Some(f) }

  lemma ProjectIgnores(u: Identities, schema: Schema, f: Fields, name: string, v: Json)
    requires Regular(schema) && schema(name) == None && name != "trigger"
    ensures Project(u, schema, f[name := v]) == Project(u, schema, f)
  {
    var g := f[name := v];
    forall n ensures Get(Project(u, schema, g), n) == Get(Project(u, schema, f), n) {
      GetProjected(u, schema, g, n);
      GetProjected(u, schema, f, n);
    }
    SameFields(Project(u, schema, g), Project(u, schema, f));
  }

  /** A sanitized event with a time stamp is a record that reads back as it is. */
  lemma StampedIsWritten(u: Identities, f: Fields, stamp: string)
    requires Sanitized(u, f) && |stamp| <= MAX_ID_LENGTH
    ensures Written(u, Object(f["recorded_at" := Text(stamp)]))
  {
    var event := f["event"].s;
    SchemasAreRegular(event);
    FixedRules(event);
    ProjectIgnores(u, SchemaOf(event), f, "recorded_at", Text(stamp));
  }

  lemma WrittenIsSanitized(u: Identities, record: Json)
    requires Canonical(u) && Written(u, record)
    ensures Sanitized(u, record.fields - {"recorded_at"})
    ensures Get(record.fields - {"recorded_at"}, "event") == Get(record.fields, "event")
    ensures "recorded_at" in record.fields ==>
              record.fields["recorded_at"].Text? && |record.fields["recorded_at"].s| <= MAX_ID_LENGTH
  {
    var kept := Sanitize(u, record).value;
    var event := record.fields["event"].s;
    SanitizeIsIdempotent(u, record);
    SchemasAreRegular(event);
    FixedRules(event);
    GetProjected(u, SchemaOf(event), record.fields, "recorded_at");
    assert record.fields - {"recorded_at"} == kept;
  }

  // ---------------------------------------------------------------- one append

  predicate IsObservation(f: Fields) {
    Get(f, "event") == Some(Text("skill-decision")) || Get(f, "event") == Some(Text("test-batch-terminal"))
  }

  /** Both are the one observation of the same kind for the same decision. */
  predicate SameObservation(f: Fields, g: Fields) {
    IsObservation(f) && Get(f, "event") == Get(g, "event") && Get(f, "decision_id") == Get(g, "decision_id")
  }

  predicate Matches(f: Fields, record: Json) { record.Object? && SameObservation(f, record.fields) }

  function Earlier(records: seq<Json>, f: Fields): (r: Option<Json>)
    ensures r.Some? ==> r.value in records && Matches(f, r.value)
    ensures r.None? ==> forall x :: x in records ==> !Matches(f, x)
  {
    if records == [] then None
    else if Matches(f, records[0]) then Some(records[0])
    else Earlier(records[1..], f)
  }

  function Without(records: seq<Json>, f: Fields): (r: seq<Json>)
    ensures forall x :: x in r <==> x in records && !Matches(f, x)
    ensures |r| <= |records|
  {
    if records == [] then []
    else (if Matches(f, records[0]) then [] else [records[0]]) + Without(records[1..], f)
  }

  /** Only an observation takes another record's place. */
  lemma {:induction false} OthersStay(records: seq<Json>, f: Fields)
    requires forall x :: x in records ==> !Matches(f, x)
    ensures Without(records, f) == records
  {
    if records != [] {
      OthersStay(records[1..], f);
      assert records == [records[0]] + records[1..];
    }
  }

  /** The record that an accepted event becomes. An observation keeps its first time and what it does not restate. */
  function Entry(records: seq<Json>, f: Fields, now: string): Json {
    var prior := Earlier(records, f);
    if prior.None? then Object(f["recorded_at" := Text(now)])
    else
      var stamp := if "recorded_at" in prior.value.fields then prior.value.fields["recorded_at"] else Text(now);
      Object((prior.value.fields - {"recorded_at"} + f)["recorded_at" := stamp])
  }

  /** The record observes what the event observes. */
  ghost predicate Observes(f: Fields, record: Json) {
    exists g, kind :: record == Object(g) && kind in {"skill-decision", "test-batch-terminal"}
      && Get(f, "event") == Some(Text(kind)) && Get(g, "event") == Some(Text(kind))
      && Get(f, "decision_id") == Get(g, "decision_id")
  }

  lemma ObservesExactlyWhen(f: Fields, record: Json)
    ensures Observes(f, record) <==> Matches(f, record)
  {
    if Matches(f, record) {
      var kind := f["event"].s;
      assert record == Object(record.fields) && kind in {"skill-decision", "test-batch-terminal"};
    }
  }

  /** The first of the records that observes the same. */
  ghost predicate FirstObserves(records: seq<Json>, f: Fields, i: nat) {
    i < |records| && Observes(f, records[i]) && forall k :: 0 <= k < i ==> !Observes(f, records[k])
  }

  lemma {:induction false} EarlierIsFirst(records: seq<Json>, f: Fields, i: nat)
    requires FirstObserves(records, f, i)
    ensures Earlier(records, f) == Some(records[i])
  {
    ObservesExactlyWhen(f, records[0]);
    if i > 0 {
      assert records[1..][i - 1] == records[i] && !Observes(f, records[0]);
      assert forall k :: 0 <= k < i - 1 ==> records[1..][k] == records[k + 1];
      EarlierIsFirst(records[1..], f, i - 1);
    }
  }

  /** A new event becomes a record of its own fields and the time. */
  lemma NewEntry(records: seq<Json>, f: Fields, now: string)
    requires forall x :: x in records ==> !Observes(f, x)
    ensures Entry(records, f, now) == Object(f["recorded_at" := Text(now)])
  {
    forall x | x in records ensures !Matches(f, x) { ObservesExactlyWhen(f, x); }
  }

  /** An observation made again keeps its first time and the fields it does not state now. */
  lemma RepeatedEntry(records: seq<Json>, f: Fields, now: string, i: nat, name: string)
    requires FirstObserves(records, f, i)
    ensures Entry(records, f, now).Object?
    ensures var g := records[i].fields;
            Get(Entry(records, f, now).fields, name) ==
              if name == "recorded_at" then (if name in g then Some(g[name]) else Some(Text(now)))
              else if name in f then Some(f[name])
              else if name in g then Some(g[name]) else None
  {
    EarlierIsFirst(records, f, i);
  }

  /** Records that observe the same go; the others stay, in their order. */
  lemma WithoutIsRest(x: Json, rest: seq<Json>, f: Fields)
    ensures Without([], f) == []
    ensures Without([x] + rest, f) == (if Observes(f, x) then [] else [x]) + Without(rest, f)
  {
    ObservesExactlyWhen(f, x);
    assert ([x] + rest)[1..] == rest;
  }

  predicate Terminal(record: Json, run: Option<Json>) {
    record.Object? && Get(record.fields, "event") == Some(Text("run-terminal")) && Get(record.fields, "run_id") == run
  }

  /** A review needs the retained end of the run it reviews. */
  predicate Reviewable(records: seq<Json>, f: Fields) {
    Get(f, "event") == Some(Text("run-reviewed")) ==> exists x :: x in records && Terminal(x, Get(f, "run_id"))
  }

  /** The end of the event's run is among the records. */
  ghost predicate HasTerminal(records: seq<Json>, f: Fields) {
    exists g :: Object(g) in records && Get(g, "event") == Some(Text("run-terminal"))
                && Get(g, "run_id") == Get(f, "run_id")
  }

  lemma ReviewableExactlyWhen(records: seq<Json>, f: Fields)
    ensures Reviewable(records, f) <==> (Get(f, "event") == Some(Text("run-reviewed")) ==> HasTerminal(records, f))
  {
    forall x | x in records && Terminal(x, Get(f, "run_id")) ensures HasTerminal(records, f) {
      assert x == Object(x.fields);
    }
    forall g | Object(g) in records && Get(g, "event") == Some(Text("run-terminal"))
               && Get(g, "run_id") == Get(f, "run_id")
      ensures exists x :: x in records && Terminal(x, Get(f, "run_id"))
    {
      assert Terminal(Object(g), Get(f, "run_id"));
    }
  }

  predicate OneEach(records: seq<Json>) {
    forall i, k :: 0 <= i < k < |records| && records[i].Object? ==> !Matches(records[i].fields, records[k])
  }

  ghost predicate AllWritten(u: Identities, records: seq<Json>) { forall x :: x in records ==> Written(u, x) }

  ghost predicate Bounded(u: Identities, size: Sizes, records: seq<Json>) {
    && |records| <= MAX_RECORDS && Total(size, records) <= MAX_TELEMETRY_BYTES
    && AllWritten(u, records) && OneEach(records)
  }

  lemma EntryIsWritten(u: Identities, records: seq<Json>, f: Fields, now: string)
    requires Canonical(u) && Sanitized(u, f) && |now| <= MAX_ID_LENGTH
    requires AllWritten(u, records)
    ensures Written(u, Entry(records, f, now))
    ensures IsObservation(f) <==> IsObservation(Entry(records, f, now).fields)
    ensures forall x :: Matches(Entry(records, f, now).fields, x) <==> Matches(f, x)
  {
    var prior := Earlier(records, f);
    EventIsKept(u, f);
    if prior.None? {
      StampedIsWritten(u, f, now);
    } else {
      WrittenIsSanitized(u, prior.value);
      var before := prior.value.fields - {"recorded_at"};
      MergedIsSanitized(u, before, f);
      var stamp := if "recorded_at" in prior.value.fields then prior.value.fields["recorded_at"].s else now;
      StampedIsWritten(u, before + f, stamp);
    }
  }

  lemma EventIsKept(u: Identities, f: Fields)
    requires Canonical(u) && Sanitized(u, f)
    ensures IsEvent(Object(f)) && "recorded_at" !in f
    ensures IsObservation(f) ==> "decision_id" in f && f["event"].s in SKILL_EVENTS
  {
    var event := f["event"].s;
    SchemasAreRegular(event);
    FixedRules(event);
    GetProjected(u, SchemaOf(event), f, "recorded_at");
    assert IsObservation(f) ==> "decision_id" in Required(event);
  }

  lemma {:induction false} AllFit(size: Sizes, records: seq<Json>)
    requires forall x :: x in records ==> size(x) <= MAX_TELEMETRY_BYTES
    ensures Fitting(size, records) == records
  {
    if records != [] {
      AllFit(size, records[1..]);
      assert records == [records[0]] + records[1..];
    }
  }

  lemma {:induction false} EachFits(size: Sizes, records: seq<Json>)
    ensures forall x :: x in records ==> size(x) <= Total(size, records)
  {
    if records != [] {
      EachFits(size, records[1..]);
      assert records == [records[0]] + records[1..];
    }
  }

  lemma {:induction false} OthersAreOneEach(records: seq<Json>, f: Fields)
    requires OneEach(records)
    ensures OneEach(Without(records, f))
  {
    if records != [] {
      assert forall i, k :: 0 <= i < k < |records| - 1 ==>
        records[1..][i] == records[i + 1] && records[1..][k] == records[k + 1];
      OthersAreOneEach(records[1..], f);
      var rest := Without(records[1..], f);
      forall k | 0 <= k < |rest| && records[0].Object? ensures !Matches(records[0].fields, rest[k]) {
        assert rest[k] in records[1..];
        var m :| 0 <= m < |records| - 1 && records[1..][m] == rest[k];
        assert records[m + 1] == rest[k];
      }
    }
  }

  /** All records, with the newest last, before the ceilings apply. */
  function Appended(records: seq<Json>, f: Fields, now: string): seq<Json> {
    Without(records, f) + [Entry(records, f, now)]
  }

  lemma OneMoreIsOneEach(u: Identities, records: seq<Json>, f: Fields, now: string)
    requires Canonical(u) && Sanitized(u, f) && |now| <= MAX_ID_LENGTH
    requires AllWritten(u, records) && OneEach(records)
    ensures OneEach(Appended(records, f, now)) && AllWritten(u, Appended(records, f, now))
  {
    var others, entry := Without(records, f), Entry(records, f, now);
    OthersAreOneEach(records, f);
    EntryIsWritten(u, records, f, now);
    forall i | 0 <= i < |others| && others[i].Object? ensures !Matches(others[i].fields, entry) {
      assert others[i] in others;
      MatchesBothWays(entry, others[i], f);
    }
  }

  lemma MatchesBothWays(a: Json, b: Json, f: Fields)
    requires a.Object? && b.Object? && (forall x :: Matches(a.fields, x) <==> Matches(f, x)) && !Matches(f, b)
    ensures !Matches(b.fields, a)
  {
    assert !Matches(a.fields, b);
  }

  function Front(records: seq<Json>): seq<Json> { if records == [] then [] else records[..|records| - 1] }

  /** A last record that fits the file is kept, and one that does not is the only one missing. */
  lemma EndIsLast(size: Sizes, front: seq<Json>, last: Json, kept: seq<Json>)
    requires LongestEnd(size, Fitting(size, front + [last]), kept)
    requires forall x :: x in front ==> size(x) <= MAX_TELEMETRY_BYTES
    ensures if size(last) <= MAX_TELEMETRY_BYTES
            then Fitting(size, front + [last]) == front + [last] && kept != [] && kept[|kept| - 1] == last
            else kept == [] || kept[|kept| - 1] != last
  {
    AllFit(size, front);
    FittingSplits(size, front, [last]);
    assert [last][1..] == [];
    if size(last) <= MAX_TELEMETRY_BYTES {
      assert Fitting(size, [last]) == [last];
      EndHoldsLast(size, front + [last], kept);
    } else {
      assert Fitting(size, [last]) == [];
      assert front + [] == front;
      EndIsPart(size, front, kept, last);
    }
  }

  lemma EndHoldsLast(size: Sizes, all: seq<Json>, kept: seq<Json>)
    requires all != [] && LongestEnd(size, all, kept) && size(all[|all| - 1]) <= MAX_TELEMETRY_BYTES
    ensures kept != [] && kept[|kept| - 1] == all[|all| - 1]
  {
    var last := all[|all| - 1];
    assert [last][1..] == [] && all[|all| - 1..] == [last];
    assert Total(size, [last]) == size(last);
    var d: nat :| EndFrom(size, all, kept, d);
  }

  lemma EndIsPart(size: Sizes, all: seq<Json>, kept: seq<Json>, x: Json)
    requires LongestEnd(size, all, kept) && x !in all
    ensures kept == [] || kept[|kept| - 1] != x
  {
    var d: nat :| EndFrom(size, all, kept, d);
    assert kept != [] ==> kept[|kept| - 1] == all[|all| - 1];
  }

  lemma EndStaysBounded(u: Identities, size: Sizes, all: seq<Json>, kept: seq<Json>)
    requires LongestEnd(size, Newest(all), kept) && OneEach(all) && AllWritten(u, all)
    ensures Bounded(u, size, kept)
  {
    var d: nat :| EndFrom(size, Newest(all), kept, d);
    EndIsOneEach(all, |all| - |kept|);
    assert kept == all[|all| - |kept|..];
  }

  lemma EndIsOneEach(all: seq<Json>, from: nat)
    requires OneEach(all) && from <= |all|
    ensures OneEach(all[from..])
  {
    var kept := all[from..];
    forall i, k | 0 <= i < k < |kept| && kept[i].Object? ensures !Matches(kept[i].fields, kept[k]) {
      assert kept[i] == all[from + i] && kept[k] == all[from + k];
    }
  }

  /** The records with the rendered event last, if it fits. */
  method WithEntry(u: Identities, size: Sizes, existing: seq<Json>, f: Fields, now: string)
    returns (records: Option<seq<Json>>)
    requires Canonical(u) && Bounded(u, size, existing) && Sanitized(u, f) && |now| <= MAX_ID_LENGTH
    ensures records.Some? <==> size(Entry(existing, f, now)) <= MAX_TELEMETRY_BYTES
    ensures records.Some? ==>
              && Bounded(u, size, records.value) && records.value != []
              && records.value[|records.value| - 1] == Entry(existing, f, now)
              && LongestEnd(size, Newest(Appended(existing, f, now)), records.value)
  {
    var rendered := Entry(existing, f, now);
    var kept := BoundedRecords(size, Without(existing, f) + [rendered]);
    AppendedFits(u, size, existing, f, now, kept);
    records := if kept == [] || kept[|kept| - 1] != rendered then None else Some(kept);
  }

  class Store {
    const identities: Identities
    const size: Sizes
    var lines: seq<Json>
    /** Locks not obtained in time, and files that could not be read or written. */
    ghost var faults: nat

    /** Within both ceilings, every line as the store wrote it, one observation for each decision. */
    ghost predicate Valid() reads this { Canonical(identities) && Bounded(identities, size, lines) }

    /** The absent file. */
    constructor (u: Identities, s: Sizes)
      requires Canonical(u)
      ensures Valid() && lines == [] && identities == u && size == s
    {
      identities, size, lines, faults := u, s, [], 0;
    }

    ghost predicate Accepts(event: Json, now: string) reads this {
      var f := Sanitize(identities, event);
      && f.Some? && size(Entry(lines, f.value, now)) <= MAX_TELEMETRY_BYTES
      && (Get(f.value, "event") == Some(Text("run-reviewed")) ==> HasTerminal(lines, f.value))
    }

    /** Append one event. An accepted event is the last record, after the longest end of the others that fits.
        Failing to lock, read or write refuses it without effect. */
    method Append(event: Json, now: string) returns (ok: bool)
      requires Valid() && |now| <= MAX_ID_LENGTH
      modifies this
      ensures Valid()
      ensures ok ==> old(Accepts(event, now))
      ensures old(faults) <= faults && (faults == old(faults) && old(Accepts(event, now)) ==> ok)
      ensures !ok ==> lines == old(lines)
      ensures |lines| <= 1000 && Total(size, lines) <= 1048576
      // A review is stored only beside the end of the run that it reviews.
      ensures ok && event.Object? && Get(event.fields, "event") == Some(Text("run-reviewed")) ==>
                HasTerminal(old(lines), Sanitize(identities, event).value)
      ensures ok ==> var f := Sanitize(identities, event).value;
                     && lines != [] && lines[|lines| - 1] == Entry(old(lines), f, now)
                     && LongestEnd(size, Newest(Appended(old(lines), f, now)), lines)
    {
      var sanitized := SanitizeEvent(identities, event);
      if sanitized.None? { return false; }
      var f := sanitized.value;
      SanitizeIsIdempotent(identities, event);
      var locked: bool := *;
      if !locked {
        faults := faults + 1;
        return false;
      }
      var records := WithEvent(f, now);
      if records.None? { return false; }
      ok := *;
      if ok { lines := records.value; } else { faults := faults + 1; }
    }

    /** The records with the event among them, if it has its run and fits. */
    method WithEvent(f: Fields, now: string) returns (records: Option<seq<Json>>)
      requires Valid() && Sanitized(identities, f) && |now| <= MAX_ID_LENGTH
      ensures records.Some? <==>
                && size(Entry(lines, f, now)) <= MAX_TELEMETRY_BYTES
                && (Get(f, "event") == Some(Text("run-reviewed")) ==> HasTerminal(lines, f))
      ensures records.Some? ==>
                && Bounded(identities, size, records.value) && records.value != []
                && records.value[|records.value| - 1] == Entry(lines, f, now)
                && LongestEnd(size, Newest(Appended(lines, f, now)), records.value)
    {
      var existing := ReadBack();
      ReviewableExactlyWhen(existing, f);
      if !Reviewable(existing, f) { return None; }
      records := WithEntry(identities, size, existing, f, now);
    }

    /** What the store has written, read back. */
    method ReadBack() returns (records: seq<Json>)
      requires Valid()
      ensures records == lines
    {
      records := ExistingRecords(identities, size, lines);
      RereadingChangesNothing(identities, lines);
    }
  }

  lemma AppendedFits(u: Identities, size: Sizes, records: seq<Json>, f: Fields, now: string, kept: seq<Json>)
    requires Canonical(u) && Bounded(u, size, records) && Sanitized(u, f) && |now| <= MAX_ID_LENGTH
    requires LongestEnd(size, Fitting(size, Newest(Appended(records, f, now))), kept)
    ensures var entry := Entry(records, f, now);
            && (size(entry) <= MAX_TELEMETRY_BYTES <==> kept != [] && kept[|kept| - 1] == entry)
            && (size(entry) <= MAX_TELEMETRY_BYTES ==>
                  Bounded(u, size, kept) && LongestEnd(size, Newest(Appended(records, f, now)), kept))
  {
    var entry, recent := Entry(records, f, now), Newest(Appended(records, f, now));
    EarlierFit(size, records, f, now);
    EndIsLast(size, Front(recent), entry, kept);
    if size(entry) <= MAX_TELEMETRY_BYTES { AppendedIsBounded(u, size, records, f, now, kept); }
  }

  lemma EarlierFit(size: Sizes, records: seq<Json>, f: Fields, now: string)
    requires Total(size, records) <= MAX_TELEMETRY_BYTES
    ensures var recent := Newest(Appended(records, f, now));
            && recent == Front(recent) + [Entry(records, f, now)]
            && forall x :: x in Front(recent) ==> size(x) <= MAX_TELEMETRY_BYTES
  {
    var all := Appended(records, f, now);
    EachFits(size, records);
    NewestKeepsLast(all);
    assert Front(all) == Without(records, f);
  }

  lemma AppendedIsBounded(u: Identities, size: Sizes, records: seq<Json>, f: Fields, now: string, kept: seq<Json>)
    requires Canonical(u) && Bounded(u, size, records) && Sanitized(u, f) && |now| <= MAX_ID_LENGTH
    requires LongestEnd(size, Newest(Appended(records, f, now)), kept)
    ensures Bounded(u, size, kept)
  {
    OneMoreIsOneEach(u, records, f, now);
    EndStaysBounded(u, size, Appended(records, f, now), kept);
  }

  lemma NewestKeepsLast(all: seq<Json>)
    requires all != []
    ensures var recent := Newest(all);
            && recent != [] && recent[|recent| - 1] == all[|all| - 1]
            && forall x :: x in Front(recent) ==> x in Front(all)
  {
    var recent := Newest(all);
    forall x | x in Front(recent) ensures x in Front(all) {
      var k :| 0 <= k < |recent| - 1 && recent[k] == x;
      assert Front(all)[|all| - |recent| + k] == x;
    }
  }
}
