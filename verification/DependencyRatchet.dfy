/** `dependency_runner.py`: what one change introduces, and what a whole history can never bring back. */
module DependencyRatchet {
  import opened Results
  import opened DependencyDefects

  /** Declared workspace consumers, and the unique local version of each workspace package. */
  datatype Workspace = Workspace(consumers: set<string>, versions: map<string, string>)

  /** One record of a change packet; a missing image is a file that does not exist on that side. */
  datatype Record = Record(path: string, deleted: bool, before: Option<Document>, after: Option<Document>)

  datatype Change = Change(path: string, removed: bool, changed: set<Coordinate>, local: set<Coordinate>)

  datatype Finding = UnsupportedFormat(path: string) | NewDefect(path: string, identity: Identity)

  predicate EndsWith(text: string, suffix: string) {
    |suffix| <= |text| && text[|text| - |suffix|..] == suffix
  }

  function ManifestFields(artifactType: string): set<string> {
    match artifactType
    case "direct" => {"dependencies"}
    case "development" => {"devDependencies"}
    case "optional" => {"optionalDependencies"}
    case "peer" => {"peerDependencies"}
    case "override" => {"overrides", "resolutions", "pnpm.overrides"}
    case "toolchain" => {"packageManager"}
    case _ => {}
  }

  /** The repair keys `c` matches in `path`: its name under each field that holds its type, or its locked name. */
  function NpmRepairKeys(path: string, c: Coordinate): set<RepairKey> {
    if c.ecosystem != "npm" then {}
    else if EndsWith(path, "package.json") then set f | f in ManifestFields(c.artifactType) :: ManifestKey(f, c.name)
    else if EndsWith(path, "package-lock.json") then {LockKey(c.name)}
    else {}
  }

  function Identities(image: Image): set<Identity> {
    set d | d in image.defects :: d.identity
  }

  function RepairKeys(image: Image): set<RepairKey> {
    set d | d in image.defects :: d.repairKey
  }

  function ImageOrEmpty(syntax: Syntax, document: Option<Document>): Result<Image, ()> {
    if document.None? then Ok(Image({}, {})) else ImageOf(syntax, document.value)
  }

  function Repaired(before: Image, after: Image): set<RepairKey> {
    RepairKeys(before) - RepairKeys(after)
  }

  /** New coordinates that no repair in the same file excuses. */
  function Introduced(path: string, before: Image, after: Image): set<Coordinate> {
    set c | c in after.coordinates - before.coordinates && NpmRepairKeys(path, c) * Repaired(before, after) == {}
  }

  /** Exact versions of unique workspace members that a declared consumer uses. */
  function LocalOnes(workspace: Workspace, path: string, changed: set<Coordinate>): set<Coordinate> {
    set c | c in changed && path in workspace.consumers && c.ecosystem == "npm"
            && c.artifactType in {"direct", "development", "optional", "peer"}
            && c.name in workspace.versions && workspace.versions[c.name] == c.version
  }

  predicate Removes(record: Record) {
    record.deleted || record.after.None?
  }

  predicate Parses(syntax: Syntax, record: Record) {
    Removes(record) || (ImageOrEmpty(syntax, record.before).Ok? && ImageOrEmpty(syntax, record.after).Ok?)
  }

  function RecordFindings(syntax: Syntax, record: Record): set<Finding> {
    if Removes(record) then {}
    else if !Parses(syntax, record) then {UnsupportedFormat(record.path)}
    else
      var before, after := ImageOrEmpty(syntax, record.before).value, ImageOrEmpty(syntax, record.after).value;
      set i | i in Identities(after) - Identities(before) :: NewDefect(record.path, i)
  }

  function RecordChange(syntax: Syntax, workspace: Workspace, record: Record): Change
    requires Parses(syntax, record)
  {
    if Removes(record) then Change(record.path, true, {}, {})
    else
      var before, after := ImageOrEmpty(syntax, record.before).value, ImageOrEmpty(syntax, record.after).value;
      var changed := Introduced(record.path, before, after);
      Change(record.path, false, changed, LocalOnes(workspace, record.path, changed))
  }

  predicate Resolves(syntax: Syntax, governed: string -> bool, record: Record) {
    governed(record.path) && Parses(syntax, record)
  }

  /** One change for each governed record that can be read, the coordinates that need evidence, and the findings. */
  method ResolveCandidateChanges(syntax: Syntax, governed: string -> bool, workspace: Workspace, records: seq<Record>)
    returns (changes: seq<Change>, relevant: set<Coordinate>, findings: set<Finding>)
    ensures forall c :: c in changes <==>
              exists r :: r in records && Resolves(syntax, governed, r) && c == RecordChange(syntax, workspace, r)
    ensures relevant == set change, c | change in changes && c in change.changed - change.local :: c
    ensures findings == set r, f | r in records && governed(r.path) && f in RecordFindings(syntax, r) :: f
  {
    changes, relevant, findings := [], {}, {};
    for i := 0 to |records|
      invariant forall c :: c in changes <==>
                  exists r :: r in records[..i] && Resolves(syntax, governed, r)
                              && c == RecordChange(syntax, workspace, r)
      invariant relevant == set change, c | change in changes && c in change.changed - change.local :: c
      invariant findings == set r, f | r in records[..i] && governed(r.path) && f in RecordFindings(syntax, r) :: f
    {
      var record := records[i];
      ghost var changes0 := changes;
      assert records[..i + 1] == records[..i] + [record];
      if governed(record.path) {
        if Parses(syntax, record) {
          var change := RecordChange(syntax, workspace, record);
          changes := changes + [change];
          relevant := relevant + (change.changed - change.local);
        }
        findings := findings + RecordFindings(syntax, record);
      }
      assert forall r :: r in records[..i + 1] <==> r in records[..i] || r == record;
    }
    assert records[..|records|] == records;
  }

  // ---------------------------------------------------------------- what one record calls for, in full

  ghost predicate Reads(syntax: Syntax, document: Option<Document>, image: Image) {
    match document
    case None => image == Image({}, {})
    case Some(d) => ImageOf(syntax, d) == Ok(image)
  }

  /** The manifest fields that hold npm coordinates of a type. */
  const FIELD_OF := {("direct", "dependencies"), ("development", "devDependencies"),
                     ("optional", "optionalDependencies"), ("peer", "peerDependencies"), ("override", "overrides"),
                     ("override", "resolutions"), ("override", "pnpm.overrides"), ("toolchain", "packageManager")}

  /** The coordinate, in this file, is what repairs a defect of this key. */
  ghost predicate Repairs(path: string, c: Coordinate, key: RepairKey) {
    && c.ecosystem == "npm"
    && if exists folder :: path == folder + "package.json" then
         exists field :: (c.artifactType, field) in FIELD_OF && key == ManifestKey(field, c.name)
       else
         (exists folder :: path == folder + "package-lock.json") && key == LockKey(c.name)
  }

  lemma EndsWithExactlyWhen(text: string, suffix: string)
    ensures EndsWith(text, suffix) <==> exists head :: text == head + suffix
  {
    if EndsWith(text, suffix) { assert text == text[..|text| - |suffix|] + suffix; }
    forall head | text == head + suffix ensures text[|text| - |suffix|..] == suffix {}
  }

  lemma FieldExactlyWhen(artifactType: string, field: string)
    ensures field in ManifestFields(artifactType) <==> (artifactType, field) in FIELD_OF
  {
  }

  lemma RepairsExactlyWhen(path: string, c: Coordinate, key: RepairKey)
    ensures key in NpmRepairKeys(path, c) <==> Repairs(path, c, key)
  {
    EndsWithExactlyWhen(path, "package.json");
    EndsWithExactlyWhen(path, "package-lock.json");
    forall field ensures field in ManifestFields(c.artifactType) <==> (c.artifactType, field) in FIELD_OF {
      FieldExactlyWhen(c.artifactType, field);
    }
  }

  /** A defect that the coordinate repairs was there before and is gone. */
  ghost predicate Excused(path: string, before: Image, after: Image, c: Coordinate) {
    exists key :: Repairs(path, c, key) && (exists d :: d in before.defects && d.repairKey == key)
                  && forall d :: d in after.defects ==> d.repairKey != key
  }

  lemma ExcusedExactlyWhen(path: string, before: Image, after: Image, c: Coordinate)
    ensures NpmRepairKeys(path, c) * Repaired(before, after) != {} <==> Excused(path, before, after, c)
  {
    forall key ensures key in NpmRepairKeys(path, c) <==> Repairs(path, c, key) { RepairsExactlyWhen(path, c, key); }
    forall key ensures key in Repaired(before, after) <==>
                       (exists d :: d in before.defects && d.repairKey == key)
                       && forall d :: d in after.defects ==> d.repairKey != key {
    }
    if Excused(path, before, after, c) {
      var key :| Repairs(path, c, key) && (exists d :: d in before.defects && d.repairKey == key)
                 && forall d :: d in after.defects ==> d.repairKey != key;
      assert key in NpmRepairKeys(path, c) * Repaired(before, after);
    }
  }

  /** The exact version of a workspace package, named directly by a declared consumer. */
  predicate FromWorkspace(workspace: Workspace, path: string, c: Coordinate) {
    && path in workspace.consumers && c.ecosystem == "npm"
    && (c.artifactType == "direct" || c.artifactType == "development" || c.artifactType == "optional"
        || c.artifactType == "peer")
    && c.name in workspace.versions && workspace.versions[c.name] == c.version
  }

  /** The record introduces the coordinate, and nothing makes registry evidence unnecessary. */
  ghost predicate NeedsEvidence(syntax: Syntax, workspace: Workspace, record: Record, c: Coordinate) {
    && !record.deleted && record.after != None
    && exists before, after ::
         && Reads(syntax, record.before, before) && Reads(syntax, record.after, after)
         && c in after.coordinates && c !in before.coordinates
         && !Excused(record.path, before, after, c) && !FromWorkspace(workspace, record.path, c)
  }

  lemma NeedsEvidenceExactlyWhen(syntax: Syntax, workspace: Workspace, record: Record, c: Coordinate)
    ensures NeedsEvidence(syntax, workspace, record, c) <==>
              Parses(syntax, record)
              && c in RecordChange(syntax, workspace, record).changed - RecordChange(syntax, workspace, record).local
  {
    if !Removes(record) && Parses(syntax, record) {
      var before, after := ImageOrEmpty(syntax, record.before).value, ImageOrEmpty(syntax, record.after).value;
      assert Reads(syntax, record.before, before) && Reads(syntax, record.after, after);
      ExcusedExactlyWhen(record.path, before, after, c);
    }
  }

  /** A record is faulted for a side that cannot be read, and otherwise for each defect it adds. */
  lemma FaultedExactlyWhen(syntax: Syntax, record: Record, f: Finding)
    ensures f in RecordFindings(syntax, record) <==>
              && !record.deleted && record.after != None
              && if forall before, after ::
                      !(Reads(syntax, record.before, before) && Reads(syntax, record.after, after))
                 then f == UnsupportedFormat(record.path)
                 else exists before, after, identity ::
                        && Reads(syntax, record.before, before) && Reads(syntax, record.after, after)
                        && f == NewDefect(record.path, identity)
                        && (exists d :: d in after.defects && d.identity == identity)
                        && forall d :: d in before.defects ==> d.identity != identity
  {
    if !Removes(record) {
      if Parses(syntax, record) {
        var before, after := ImageOrEmpty(syntax, record.before).value, ImageOrEmpty(syntax, record.after).value;
        assert Reads(syntax, record.before, before) && Reads(syntax, record.after, after);
      }
    }
  }

  // ---------------------------------------------------------------- histories

  /** The versions of one file over time, every step of which the check accepted. */
  ghost predicate AcceptedHistory(syntax: Syntax, path: string, versions: seq<Option<Document>>) {
    forall i, k :: 0 <= i < k < |versions| && k == i + 1 ==>
      RecordFindings(syntax, Step(path, versions[i], versions[k])) == {}
  }

  /** The change record from one version to the next. */
  function Step(path: string, before: Option<Document>, after: Option<Document>): Record {
    Record(path, after.None?, before, after)
  }

  function VersionImage(syntax: Syntax, version: Option<Document>): Image {
    var image := ImageOrEmpty(syntax, version);
    if image.Ok? then image.value else Image({}, {})
  }

  function VersionKeys(syntax: Syntax, version: Option<Document>): set<RepairKey> {
    RepairKeys(VersionImage(syntax, version))
  }

  lemma KeysFollowIdentities(syntax: Syntax, version: Option<Document>)
    ensures VersionKeys(syntax, version) == set i | i in Identities(VersionImage(syntax, version)) :: KeyOf(i)
  {
    var image := VersionImage(syntax, version);
    if version.Some? && ImageOf(syntax, version.value).Ok? {
      ExtractedDefectsAreKeyed(syntax, version.value);
    }
    forall k | k in RepairKeys(image) ensures exists i :: i in Identities(image) && KeyOf(i) == k {
      var d :| d in image.defects && d.repairKey == k;
      assert d.identity in Identities(image) && KeyOf(d.identity) == k;
    }
    forall i | i in Identities(image) ensures KeyOf(i) in RepairKeys(image) {
      var d :| d in image.defects && d.identity == i;
    }
  }

  lemma AcceptedStepShrinks(syntax: Syntax, path: string, before: Option<Document>, after: Option<Document>)
    requires RecordFindings(syntax, Step(path, before, after)) == {}
    ensures Identities(VersionImage(syntax, after)) <= Identities(VersionImage(syntax, before))
    ensures VersionKeys(syntax, after) <= VersionKeys(syntax, before)
  {
    var record := Step(path, before, after);
    assert UnsupportedFormat(path) !in RecordFindings(syntax, record);
    assert Parses(syntax, record);
    forall i | i in Identities(VersionImage(syntax, after)) ensures i in Identities(VersionImage(syntax, before)) {
      assert NewDefect(path, i) !in RecordFindings(syntax, record);
    }
    KeysFollowIdentities(syntax, before);
    KeysFollowIdentities(syntax, after);
  }

  /** The ratchet: along an accepted history the defects of a file, and their repair keys, never grow,
      even across deletions and re-creations of the file. */
  lemma {:induction false} DefectsNeverGrow(syntax: Syntax, path: string, versions: seq<Option<Document>>, i: nat,
                                            k: nat)
    requires AcceptedHistory(syntax, path, versions) && i <= k < |versions|
    ensures Identities(VersionImage(syntax, versions[k])) <= Identities(VersionImage(syntax, versions[i]))
    ensures VersionKeys(syntax, versions[k]) <= VersionKeys(syntax, versions[i])
    decreases k - i
  {
    if i < k {
      DefectsNeverGrow(syntax, path, versions, i, k - 1);
      AcceptedStepShrinks(syntax, path, versions[k - 1], versions[k]);
    }
  }

  /** A repair key that disappeared never returns. */
  lemma RepairedKeyNeverReturns(syntax: Syntax, path: string, versions: seq<Option<Document>>, i: nat, k: nat,
                                key: RepairKey)
    requires AcceptedHistory(syntax, path, versions) && i <= k < |versions|
    requires key !in VersionKeys(syntax, versions[i])
    ensures key !in VersionKeys(syntax, versions[k])
  {
    DefectsNeverGrow(syntax, path, versions, i, k);
  }

  /** The coordinate enters at step `i` without evidence because a repair of `key` excuses it. */
  predicate Excuses(syntax: Syntax, path: string, versions: seq<Option<Document>>, i: nat, key: RepairKey,
                    c: Coordinate)
    requires i + 1 < |versions|
  {
    var before, after := VersionImage(syntax, versions[i]), VersionImage(syntax, versions[i + 1]);
    && c in after.coordinates - before.coordinates
    && key in NpmRepairKeys(path, c) * Repaired(before, after)
  }

  /** So each repair key excuses coordinates in at most one step of the whole history. */
  lemma RepairKeyExcusesOnce(syntax: Syntax, path: string, versions: seq<Option<Document>>, i: nat, k: nat,
                             key: RepairKey, c: Coordinate, d: Coordinate)
    requires AcceptedHistory(syntax, path, versions) && i + 1 < |versions| && k + 1 < |versions|
    requires Excuses(syntax, path, versions, i, key, c) && Excuses(syntax, path, versions, k, key, d)
    ensures i == k
  {
    if i < k {
      RepairedKeyNeverReturns(syntax, path, versions, i + 1, k, key);
    } else if k < i {
      RepairedKeyNeverReturns(syntax, path, versions, k + 1, i, key);
    }
  }

  /** And exactly the excused or unchanged coordinates escape the demand for evidence. */
  lemma IntroducedOrExcused(syntax: Syntax, path: string, versions: seq<Option<Document>>, i: nat, c: Coordinate)
    requires i + 1 < |versions|
    requires c in VersionImage(syntax, versions[i + 1]).coordinates - VersionImage(syntax, versions[i]).coordinates
    ensures c !in Introduced(path, VersionImage(syntax, versions[i]), VersionImage(syntax, versions[i + 1]))
            <==> exists key :: Excuses(syntax, path, versions, i, key, c)
  {
    var before, after := VersionImage(syntax, versions[i]), VersionImage(syntax, versions[i + 1]);
    var keys := NpmRepairKeys(path, c) * Repaired(before, after);
    if keys != {} {
      var key :| key in keys;
      assert Excuses(syntax, path, versions, i, key, c);
    }
  }
}
