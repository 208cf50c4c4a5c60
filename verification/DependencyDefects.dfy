/** `dependency_extractors.py`: coordinates and entry-level defects of one governed file. */
module DependencyDefects {
  import opened Results
  import opened TextOrder

  datatype Coordinate = Coordinate(ecosystem: string, name: string, version: string, artifactType: string)

  /** A JSON value: text, or any other value by its serialization. */
  datatype Json = Text(text: string) | Literal(literal: string)

  /** What makes a defect the same defect before and after an edit. */
  datatype Identity =
    | ManifestDefect(field: string, name: string, value: Json)
    | LockDefect(name: string, field: string, value: Json)
    | ActionDefect(uses: string)

  /** What a later valid coordinate must name to repair the defect. */
  datatype RepairKey =
    | ManifestKey(field: string, name: string)
    | LockKey(name: string)
    | ActionKey(action: string)

  datatype Defect = Defect(identity: Identity, repairKey: RepairKey)

  datatype Image = Image(coordinates: set<Coordinate>, defects: set<Defect>)

  /** The syntax the extractors decide by: names, exact versions, tarball sources, integrity, commit ids. */
  datatype Syntax = Syntax(
    isName: string -> bool, isExact: string -> bool, isTarball: (string, string, Json) -> bool,
    isIntegrity: Json -> bool, isCommit: string -> bool, lower: string -> string,
    splitManager: Json -> Option<(string, string)>)

  datatype Group = Absent | NotAnObject | Entries(items: map<string, Json>)

  /** The `pnpm` member of a manifest apart from its overrides, which are one of the groups. */
  datatype PnpmFields = NoPnpm | PnpmNotAnObject | PnpmObject(fields: set<string>)

  const DEPENDENCY_BEARING := {"packageExtensions", "patchedDependencies"}

  predicate PnpmRefused(pnpm: PnpmFields) {
    pnpm.PnpmNotAnObject? || (pnpm.PnpmObject? && DEPENDENCY_BEARING * pnpm.fields != {})
  }

  datatype LockRow =
    | NotAnEntry
    | Skipped
    | Unnamed
    | Row(name: string, version: Json, resolved: Json, integrity: Json, artifactType: string)

  /** A governed file after reading: a manifest, a lock, a workflow, or a format without entry defects. */
  datatype Document =
    | Manifest(groups: seq<(string, string, Group)>, pnpm: PnpmFields, manager: Option<Json>)
    | Lock(rows: seq<LockRow>)
    | Workflow(uses: seq<string>)
    | Strict(coordinates: set<Coordinate>)
    | Unsupported

  function NpmManifestDefect(name: string, field: string, value: Json): Defect {
    Defect(ManifestDefect(field, name, value), ManifestKey(field, name))
  }

  function NpmLockDefect(name: string, field: string, value: Json): Defect {
    Defect(LockDefect(name, field, value), LockKey(name))
  }

  /** The part of an action reference before its last `@`; empty when there is none. */
  function ActionName(uses: string): (name: string)
    ensures |name| <= |uses| && name == uses[..|name|]
    ensures |name| < |uses| ==> name == "" || uses[|name|] == '@'
  {
    if uses == "" then ""
    else if uses[|uses| - 1] == '@' then uses[..|uses| - 1]
    else ActionName(uses[..|uses| - 1])
  }

  function WorkflowActionDefect(uses: string): Defect {
    Defect(ActionDefect(uses), ActionKey(if ActionName(uses) == "" then uses else ActionName(uses)))
  }

  /** The repair key is a function of the identity: editing a defect's value keeps its key. */
  function KeyOf(identity: Identity): RepairKey {
    match identity
    case ManifestDefect(field, name, _) => ManifestKey(field, name)
    case LockDefect(name, _, _) => LockKey(name)
    case ActionDefect(uses) => ActionKey(if ActionName(uses) == "" then uses else ActionName(uses))
  }

  predicate Keyed(defects: set<Defect>) {
    forall d :: d in defects ==> d.repairKey == KeyOf(d.identity)
  }

  // ---------------------------------------------------------------- manifests

  predicate ExactEntry(syntax: Syntax, name: string, value: Json) {
    syntax.isName(name) && value.Text? && syntax.isExact(value.text)
  }

  function GroupCoordinates(syntax: Syntax, artifactType: string, items: map<string, Json>,
                            names: set<string>): set<Coordinate> {
    set n | n in names && n in items && ExactEntry(syntax, n, items[n]) ::
      Coordinate("npm", n, items[n].text, artifactType)
  }

  function GroupDefects(syntax: Syntax, field: string, items: map<string, Json>, names: set<string>): set<Defect> {
    set n | n in names && n in items && !ExactEntry(syntax, n, items[n]) :: NpmManifestDefect(n, field, items[n])
  }

  lemma GroupExtends(syntax: Syntax, field: string, artifactType: string, items: map<string, Json>,
                     names: set<string>, n: string)
    requires n in items
    ensures GroupCoordinates(syntax, artifactType, items, names + {n})
         == GroupCoordinates(syntax, artifactType, items, names)
            + (if ExactEntry(syntax, n, items[n]) then {Coordinate("npm", n, items[n].text, artifactType)} else {})
    ensures GroupDefects(syntax, field, items, names + {n})
         == GroupDefects(syntax, field, items, names)
            + (if ExactEntry(syntax, n, items[n]) then {} else {NpmManifestDefect(n, field, items[n])})
  {
  }

  /** Add one group of a manifest to an image: a coordinate for each exact entry, a defect for each other one. */
  method AppendManifestEntries(syntax: Syntax, items: map<string, Json>, field: string, artifactType: string,
                               image: Image)
    returns (r: Image)
    ensures r.coordinates == image.coordinates + GroupCoordinates(syntax, artifactType, items, items.Keys)
    ensures r.defects == image.defects + GroupDefects(syntax, field, items, items.Keys)
  {
    var coordinates: set<Coordinate>, defects: set<Defect> := {}, {};
    var names := Sorted(items.Keys);
    ghost var seen: set<string> := {};
    for i := 0 to |names|
      invariant seen == Elements(names[..i])
      invariant coordinates == GroupCoordinates(syntax, artifactType, items, seen)
      invariant defects == GroupDefects(syntax, field, items, seen)
    {
      var name := names[i];
      assert name in Elements(names);
      var value := items[name];
      GroupExtends(syntax, field, artifactType, items, seen, name);
      if !syntax.isName(name) || !value.Text? || !syntax.isExact(value.text) {
        assert !ExactEntry(syntax, name, value);
        defects := defects + {NpmManifestDefect(name, field, value)};
      } else {
        coordinates := coordinates + {Coordinate("npm", name, value.text, artifactType)};
      }
      ElementsOfPrefix(names, i);
      seen := seen + {name};
    }
    assert names[..|names|] == names;
    r := Image(image.coordinates + coordinates, image.defects + defects);
  }

  /** The coordinates and defects of one lock row. */
  function RowImage(syntax: Syntax, row: LockRow): Image
    requires row.Row?
  {
    var version := if row.version.Text? then row.version.text else "";
    var defects :=
      (if row.version.Text? && syntax.isExact(row.version.text) then {}
       else {NpmLockDefect(row.name, "version", row.version)})
      + (if syntax.isTarball(row.name, version, row.resolved) then {}
         else {NpmLockDefect(row.name, "source", row.resolved)})
      + (if syntax.isIntegrity(row.integrity) then {} else {NpmLockDefect(row.name, "integrity", row.integrity)});
    Image(if defects == {} then {Coordinate("npm", row.name, version, row.artifactType)} else {}, defects)
  }

  function UseImage(syntax: Syntax, uses: string): Image {
    var name := ActionName(uses);
    var revision := if |name| < |uses| then uses[|name| + 1..] else "";
    if |uses| >= 2 && uses[..2] == "./" then Image({}, {})
    else if name == "" || !syntax.isCommit(revision) then Image({}, {WorkflowActionDefect(uses)})
    else Image({Coordinate("github-actions", syntax.lower(name), syntax.lower(revision), "ci")}, {})
  }

  function ManagerImage(syntax: Syntax, manager: Option<Json>): Image {
    if manager.None? then Image({}, {})
    else
      var split := syntax.splitManager(manager.value);
      if split.None? then Image({}, {NpmManifestDefect("<packageManager>", "packageManager", manager.value)})
      else if !syntax.isExact(split.value.1) then
        Image({}, {NpmManifestDefect(split.value.0, "packageManager", manager.value)})
      else Image({Coordinate("npm", split.value.0, split.value.1, "toolchain")}, {})
  }

  function Join(a: Image, b: Image): Image {
    Image(a.coordinates + b.coordinates, a.defects + b.defects)
  }

  function GroupImage(syntax: Syntax, group: (string, string, Group)): Image
    requires !group.2.NotAnObject?
  {
    if group.2.Absent? then Image({}, {})
    else Image(GroupCoordinates(syntax, group.1, group.2.items, group.2.items.Keys),
               GroupDefects(syntax, group.0, group.2.items, group.2.items.Keys))
  }

  function GroupsImage(syntax: Syntax, groups: seq<(string, string, Group)>): Result<Image, ()> {
    if groups == [] then Ok(Image({}, {}))
    else
      var before := GroupsImage(syntax, groups[..|groups| - 1]);
      var last := groups[|groups| - 1];
      if before.Err? || last.2.NotAnObject? then Err(()) else Ok(Join(before.value, GroupImage(syntax, last)))
  }

  function RowsImage(syntax: Syntax, rows: seq<LockRow>): Result<Image, ()> {
    if rows == [] then Ok(Image({}, {}))
    else
      var before := RowsImage(syntax, rows[..|rows| - 1]);
      var last := rows[|rows| - 1];
      if before.Err? || last.NotAnEntry? || last.Unnamed? then Err(())
      else if last.Skipped? then before
      else Ok(Join(before.value, RowImage(syntax, last)))
  }

  predicate IsDocker(uses: string) {
    |uses| >= 9 && uses[..9] == "docker://"
  }

  function UsesImage(syntax: Syntax, uses: seq<string>): Result<Image, ()> {
    if uses == [] then Ok(Image({}, {}))
    else
      var before := UsesImage(syntax, uses[..|uses| - 1]);
      var last := uses[|uses| - 1];
      if before.Err? || IsDocker(last) then Err(()) else Ok(Join(before.value, UseImage(syntax, last)))
  }

  /** The supported dependency surface of a document with its repairable defects, or a failure to parse. */
  function ImageOf(syntax: Syntax, document: Document): Result<Image, ()> {
    match document
    case Manifest(groups, pnpm, manager) =>
      var image := GroupsImage(syntax, groups);
      if image.Err? || PnpmRefused(pnpm) then Err(()) else Ok(Join(image.value, ManagerImage(syntax, manager)))
    case Lock(rows) => RowsImage(syntax, rows)
    case Workflow(uses) => UsesImage(syntax, uses)
    case Strict(coordinates) => Ok(Image(coordinates, {}))
    case Unsupported => Err(())
  }

  method ReadManifest(syntax: Syntax, groups: seq<(string, string, Group)>, pnpm: PnpmFields, manager: Option<Json>)
    returns (r: Result<Image, ()>)
    ensures r == ImageOf(syntax, Manifest(groups, pnpm, manager))
    ensures r.Err? <==> (exists k :: 0 <= k < |groups| && groups[k].2.NotAnObject?) || PnpmRefused(pnpm)
  {
    var image := Image({}, {});
    for i := 0 to |groups|
      invariant GroupsImage(syntax, groups[..i]) == Ok(image)
      invariant forall k :: 0 <= k < i ==> !groups[k].2.NotAnObject?
    {
      assert groups[..i + 1][..i] == groups[..i] && groups[..i + 1][i] == groups[i];
      var (field, artifactType, group) := groups[i];
      if group.NotAnObject? {
        GroupsFail(syntax, groups, i + 1);
        return Err(());
      }
      ghost var before := image;
      if group.Entries? {
        image := AppendManifestEntries(syntax, group.items, field, artifactType, image);
      }
      assert image == Join(before, GroupImage(syntax, groups[i]));
    }
    assert groups[..|groups|] == groups;
    if PnpmRefused(pnpm) { return Err(()); }
    r := Ok(Join(image, ManagerImage(syntax, manager)));
  }

  lemma {:induction false} GroupsFail(syntax: Syntax, groups: seq<(string, string, Group)>, n: nat)
    requires n <= |groups| && GroupsImage(syntax, groups[..n]).Err?
    ensures GroupsImage(syntax, groups).Err?
    decreases |groups|
  {
    if n < |groups| {
      var shorter := groups[..|groups| - 1];
      assert shorter[..n] == groups[..n];
      GroupsFail(syntax, shorter, n);
    } else {
      assert groups[..n] == groups;
    }
  }

  // ---------------------------------------------------------------- what a document yields, in full

  /** A lock row from which a coordinate can be taken: an exact version, its tarball, and an integrity. */
  ghost predicate SoundRow(syntax: Syntax, row: LockRow, c: Coordinate) {
    exists name, version, resolved, integrity, artifactType ::
      && row == Row(name, Text(version), resolved, integrity, artifactType)
      && c == Coordinate("npm", name, version, artifactType)
      && syntax.isExact(version) && syntax.isTarball(name, version, resolved) && syntax.isIntegrity(integrity)
  }

  /** One defect for each field of a row that is not as it has to be. */
  ghost predicate FaultyField(syntax: Syntax, row: LockRow, d: Defect) {
    && row.Row?
    && var name, version := row.name, (if row.version.Text? then row.version.text else "");
       || (!(row.version.Text? && syntax.isExact(version))
           && d == Defect(LockDefect(name, "version", row.version), LockKey(name)))
       || (!syntax.isTarball(name, version, row.resolved)
           && d == Defect(LockDefect(name, "source", row.resolved), LockKey(name)))
       || (!syntax.isIntegrity(row.integrity)
           && d == Defect(LockDefect(name, "integrity", row.integrity), LockKey(name)))
  }

  lemma RowExactlyWhen(syntax: Syntax, row: LockRow, c: Coordinate, d: Defect)
    requires row.Row?
    ensures c in RowImage(syntax, row).coordinates <==> SoundRow(syntax, row, c)
    ensures d in RowImage(syntax, row).defects <==> FaultyField(syntax, row, d)
  {
    var image := RowImage(syntax, row);
    assert FaultyField(syntax, row, d) <==> d in image.defects;
    if c in image.coordinates {
      assert NpmLockDefect(row.name, "version", row.version) !in image.defects;
      assert NpmLockDefect(row.name, "source", row.resolved) !in image.defects;
      assert NpmLockDefect(row.name, "integrity", row.integrity) !in image.defects;
      assert row == Row(c.name, Text(c.version), row.resolved, row.integrity, c.artifactType);
    }
    if SoundRow(syntax, row, c) { assert image.defects == {}; }
  }

  /** A lock can be read exactly when each of its rows is an entry with a name; it yields the coordinates of its sound
      rows and the defects of the others, field by field. */
  lemma {:induction false} LockExactlyWhen(syntax: Syntax, rows: seq<LockRow>)
    ensures var image := ImageOf(syntax, Lock(rows));
            && (image.Ok? <==> NotAnEntry !in rows && Unnamed !in rows)
            && (image.Ok? ==> forall c :: c in image.value.coordinates <==>
                                exists row :: row in rows && SoundRow(syntax, row, c))
            && (image.Ok? ==> forall d :: d in image.value.defects <==>
                                exists row :: row in rows && FaultyField(syntax, row, d))
  {
    if rows != [] {
      var front, last := rows[..|rows| - 1], rows[|rows| - 1];
      assert rows == front + [last];
      LockExactlyWhen(syntax, front);
      if last.Row? {
        forall c, d
          ensures c in RowImage(syntax, last).coordinates <==> SoundRow(syntax, last, c)
          ensures d in RowImage(syntax, last).defects <==> FaultyField(syntax, last, d)
        {
          RowExactlyWhen(syntax, last, c, d);
        }
      }
      var before, image := ImageOf(syntax, Lock(front)), ImageOf(syntax, Lock(rows));
      if image.Ok? { LockGrows(syntax, front, last, before.value, image.value); }
    }
  }

  lemma LockGrows(syntax: Syntax, front: seq<LockRow>, last: LockRow, before: Image, after: Image)
    requires forall c :: c in before.coordinates <==> exists row :: row in front && SoundRow(syntax, row, c)
    requires forall d :: d in before.defects <==> exists row :: row in front && FaultyField(syntax, row, d)
    requires forall c :: c in after.coordinates <==> c in before.coordinates || SoundRow(syntax, last, c)
    requires forall d :: d in after.defects <==> d in before.defects || FaultyField(syntax, last, d)
    ensures forall c :: c in after.coordinates <==> exists row :: row in front + [last] && SoundRow(syntax, row, c)
    ensures forall d :: d in after.defects <==> exists row :: row in front + [last] && FaultyField(syntax, row, d)
  {
    assert forall row :: row in front + [last] <==> row in front || row == last;
  }

  /** `uses` names an action and pins a commit of it, split at the last `@`. */
  predicate Pins(syntax: Syntax, uses: string, name: string, revision: string) {
    uses == name + "@" + revision && '@' !in revision && name != "" && syntax.isCommit(revision)
  }

  predicate InThisRepository(uses: string) { "./" <= uses }

  /** What an unpinned action is to be repaired by: the part before its last `@`, or all of it when that is empty. */
  ghost predicate RepairedBy(uses: string, action: string) {
    || (action != "" && exists revision :: uses == action + "@" + revision && '@' !in revision)
    || (action == uses && forall head, revision :: uses == head + "@" + revision && '@' !in revision ==> head == "")
  }

  lemma {:induction false} NameOfSplit(head: string, revision: string)
    requires '@' !in revision
    ensures ActionName(head + "@" + revision) == head
    decreases |revision|
  {
    var uses := head + "@" + revision;
    if revision == "" {
      assert uses[..|uses| - 1] == head;
    } else {
      assert uses[..|uses| - 1] == head + "@" + revision[..|revision| - 1];
      NameOfSplit(head, revision[..|revision| - 1]);
    }
  }

  lemma {:induction false} NameSplits(uses: string)
    requires ActionName(uses) != ""
    ensures var name := ActionName(uses);
            |name| < |uses| && uses == name + "@" + uses[|name| + 1..] && '@' !in uses[|name| + 1..]
  {
    var front := uses[..|uses| - 1];
    if uses[|uses| - 1] != '@' {
      NameSplits(front);
      assert uses == front + [uses[|uses| - 1]];
    }
  }

  lemma RepairedByExactlyWhen(uses: string, action: string)
    ensures RepairedBy(uses, action) <==> action == if ActionName(uses) == "" then uses else ActionName(uses)
  {
    forall head, revision | uses == head + "@" + revision && '@' !in revision ensures head == ActionName(uses) {
      NameOfSplit(head, revision);
    }
    if ActionName(uses) != "" { NameSplits(uses); }
  }

  /** A pinned action outside this repository. */
  ghost predicate PinnedUse(syntax: Syntax, uses: string, c: Coordinate) {
    exists name, revision ::
      && Pins(syntax, uses, name, revision) && !InThisRepository(uses)
      && c == Coordinate("github-actions", syntax.lower(name), syntax.lower(revision), "ci")
  }

  ghost predicate UnpinnedUse(syntax: Syntax, uses: string, d: Defect) {
    && !InThisRepository(uses) && (forall name, revision :: !Pins(syntax, uses, name, revision))
    && exists action :: RepairedBy(uses, action) && d == Defect(ActionDefect(uses), ActionKey(action))
  }

  lemma PinsExactlyWhen(syntax: Syntax, uses: string, name: string, revision: string)
    ensures Pins(syntax, uses, name, revision) <==>
              && name != "" && name == ActionName(uses) && |name| < |uses| && revision == uses[|name| + 1..]
              && syntax.isCommit(revision)
  {
    if Pins(syntax, uses, name, revision) { NameOfSplit(name, revision); }
    if name != "" && name == ActionName(uses) { NameSplits(uses); }
  }

  lemma UseExactlyWhen(syntax: Syntax, uses: string, c: Coordinate, d: Defect)
    ensures c in UseImage(syntax, uses).coordinates <==> PinnedUse(syntax, uses, c)
    ensures d in UseImage(syntax, uses).defects <==> UnpinnedUse(syntax, uses, d)
  {
    var name := ActionName(uses);
    var revision := if |name| < |uses| then uses[|name| + 1..] else "";
    forall n, r ensures Pins(syntax, uses, n, r) <==>
                        n == name && r == revision && name != "" && syntax.isCommit(revision) {
      PinsExactlyWhen(syntax, uses, n, r);
      if name != "" { NameSplits(uses); }
    }
    forall action ensures RepairedBy(uses, action) <==> action == if name == "" then uses else name {
      RepairedByExactlyWhen(uses, action);
    }
    assert InThisRepository(uses) <==> |uses| >= 2 && uses[..2] == "./";
    assert name != "" && syntax.isCommit(revision) ==> Pins(syntax, uses, name, revision);
    assert RepairedBy(uses, if name == "" then uses else name);
  }

  lemma {:induction false} UsesAreJoined(syntax: Syntax, uses: seq<string>)
    ensures var image := UsesImage(syntax, uses);
            && (image.Ok? <==> forall u :: u in uses ==> !IsDocker(u))
            && (image.Ok? ==> forall c :: c in image.value.coordinates <==>
                                exists u :: u in uses && c in UseImage(syntax, u).coordinates)
            && (image.Ok? ==> forall d :: d in image.value.defects <==>
                                exists u :: u in uses && d in UseImage(syntax, u).defects)
  {
    if uses != [] {
      var front, last := uses[..|uses| - 1], uses[|uses| - 1];
      UsesAreJoined(syntax, front);
      assert forall u :: u in uses <==> u in front || u == last;
    }
  }

  /** A workflow can be read exactly when it uses no container image; it yields the pinned actions and, for each other
      one outside this repository, a defect. */
  lemma WorkflowExactlyWhen(syntax: Syntax, uses: seq<string>, c: Coordinate, d: Defect)
    ensures var image := ImageOf(syntax, Workflow(uses));
            && (image.Ok? <==> forall u :: u in uses ==> !("docker://" <= u))
            && (image.Ok? ==> (c in image.value.coordinates <==> exists u :: u in uses && PinnedUse(syntax, u, c)))
            && (image.Ok? ==> (d in image.value.defects <==> exists u :: u in uses && UnpinnedUse(syntax, u, d)))
  {
    UsesAreJoined(syntax, uses);
    forall u
      ensures IsDocker(u) <==> "docker://" <= u
      ensures c in UseImage(syntax, u).coordinates <==> PinnedUse(syntax, u, c)
      ensures d in UseImage(syntax, u).defects <==> UnpinnedUse(syntax, u, d)
    {
      UseExactlyWhen(syntax, u, c, d);
    }
  }

  /** An entry of a manifest's group with a name and an exact version. */
  ghost predicate ExactIn(syntax: Syntax, group: (string, string, Group), c: Coordinate) {
    && group.2.Entries? && c.name in group.2.items && group.2.items[c.name] == Text(c.version)
    && syntax.isName(c.name) && syntax.isExact(c.version) && c.ecosystem == "npm" && c.artifactType == group.1
  }

  ghost predicate InexactIn(syntax: Syntax, group: (string, string, Group), d: Defect) {
    exists name :: group.2.Entries? && name in group.2.items
      && (syntax.isName(name) ==> forall version :: group.2.items[name] == Text(version) ==> !syntax.isExact(version))
      && d == Defect(ManifestDefect(group.0, name, group.2.items[name]), ManifestKey(group.0, name))
  }

  lemma GroupExactlyWhen(syntax: Syntax, group: (string, string, Group), c: Coordinate, d: Defect)
    requires !group.2.NotAnObject?
    ensures c in GroupImage(syntax, group).coordinates <==> ExactIn(syntax, group, c)
    ensures d in GroupImage(syntax, group).defects <==> InexactIn(syntax, group, d)
  {
    if group.2.Entries? {
      forall name | name in group.2.items
        ensures ExactEntry(syntax, name, group.2.items[name]) <==>
                syntax.isName(name) && exists version :: group.2.items[name] == Text(version) && syntax.isExact(version)
      {
        if group.2.items[name].Text? { assert group.2.items[name] == Text(group.2.items[name].text); }
      }
    }
  }

  lemma {:induction false} GroupsExactlyWhen(syntax: Syntax, groups: seq<(string, string, Group)>)
    ensures var image := GroupsImage(syntax, groups);
            && (image.Ok? <==> forall k :: 0 <= k < |groups| ==> groups[k].2 != NotAnObject)
            && (image.Ok? ==> forall c :: c in image.value.coordinates <==>
                                exists g :: g in groups && ExactIn(syntax, g, c))
            && (image.Ok? ==> forall d :: d in image.value.defects <==>
                                exists g :: g in groups && InexactIn(syntax, g, d))
  {
    if groups != [] {
      var front, last := groups[..|groups| - 1], groups[|groups| - 1];
      assert groups == front + [last];
      GroupsExactlyWhen(syntax, front);
      if !last.2.NotAnObject? {
        forall c, d
          ensures c in GroupImage(syntax, last).coordinates <==> ExactIn(syntax, last, c)
          ensures d in GroupImage(syntax, last).defects <==> InexactIn(syntax, last, d)
        {
          GroupExactlyWhen(syntax, last, c, d);
        }
      }
      var before, image := GroupsImage(syntax, front), GroupsImage(syntax, groups);
      if image.Ok? { GroupsGrow(syntax, front, last, before.value, image.value); }
    }
  }

  lemma GroupsGrow(syntax: Syntax, front: seq<(string, string, Group)>, last: (string, string, Group), before: Image,
                   after: Image)
    requires forall c :: c in before.coordinates <==> exists g :: g in front && ExactIn(syntax, g, c)
    requires forall d :: d in before.defects <==> exists g :: g in front && InexactIn(syntax, g, d)
    requires forall c :: c in after.coordinates <==> c in before.coordinates || ExactIn(syntax, last, c)
    requires forall d :: d in after.defects <==> d in before.defects || InexactIn(syntax, last, d)
    ensures forall c :: c in after.coordinates <==> exists g :: g in front + [last] && ExactIn(syntax, g, c)
    ensures forall d :: d in after.defects <==> exists g :: g in front + [last] && InexactIn(syntax, g, d)
  {
    assert forall g :: g in front + [last] <==> g in front || g == last;
  }

  /** The package manager of a manifest, pinned to an exact version. */
  ghost predicate PinnedManager(syntax: Syntax, manager: Option<Json>, c: Coordinate) {
    && manager.Some? && syntax.splitManager(manager.value) == Some((c.name, c.version)) && syntax.isExact(c.version)
    && c.ecosystem == "npm" && c.artifactType == "toolchain"
  }

  ghost predicate UnpinnedManager(syntax: Syntax, manager: Option<Json>, d: Defect) {
    && manager.Some?
    && match syntax.splitManager(manager.value)
       case None =>
         d == Defect(ManifestDefect("packageManager", "<packageManager>", manager.value),
                     ManifestKey("packageManager", "<packageManager>"))
       case Some((name, version)) =>
         !syntax.isExact(version)
         && d == Defect(ManifestDefect("packageManager", name, manager.value), ManifestKey("packageManager", name))
  }

  /** A manifest can be read exactly when its groups and `pnpm` are objects and `pnpm` has no field that may hide
      dependencies; it yields the exact entries of its groups and a pinned package manager, and defects for the rest. */
  lemma ManifestExactlyWhen(syntax: Syntax, groups: seq<(string, string, Group)>, pnpm: PnpmFields,
                            manager: Option<Json>)
    ensures var image := ImageOf(syntax, Manifest(groups, pnpm, manager));
            && (image.Ok? <==>
                  && (forall k :: 0 <= k < |groups| ==> groups[k].2 != NotAnObject)
                  && pnpm != PnpmNotAnObject
                  && (pnpm.PnpmObject? ==>
                        "packageExtensions" !in pnpm.fields && "patchedDependencies" !in pnpm.fields))
            && (image.Ok? ==> forall c :: c in image.value.coordinates <==>
                  (exists g :: g in groups && ExactIn(syntax, g, c)) || PinnedManager(syntax, manager, c))
            && (image.Ok? ==> forall d :: d in image.value.defects <==>
                  (exists g :: g in groups && InexactIn(syntax, g, d)) || UnpinnedManager(syntax, manager, d))
  {
    GroupsExactlyWhen(syntax, groups);
    PnpmExactlyWhen(pnpm);
    forall c, d
      ensures c in ManagerImage(syntax, manager).coordinates <==> PinnedManager(syntax, manager, c)
      ensures d in ManagerImage(syntax, manager).defects <==> UnpinnedManager(syntax, manager, d)
    {
    }
  }

  lemma PnpmExactlyWhen(pnpm: PnpmFields)
    ensures PnpmRefused(pnpm) <==>
              pnpm == PnpmNotAnObject
              || (pnpm.PnpmObject? && ("packageExtensions" in pnpm.fields || "patchedDependencies" in pnpm.fields))
  {
    if pnpm.PnpmObject? {
      assert "packageExtensions" in pnpm.fields ==> "packageExtensions" in DEPENDENCY_BEARING * pnpm.fields;
      assert "patchedDependencies" in pnpm.fields ==> "patchedDependencies" in DEPENDENCY_BEARING * pnpm.fields;
    }
  }

  // ---------------------------------------------------------------- every extracted defect is keyed

  lemma {:induction false} GroupsKeyed(syntax: Syntax, groups: seq<(string, string, Group)>)
    requires GroupsImage(syntax, groups).Ok?
    ensures Keyed(GroupsImage(syntax, groups).value.defects)
  {
    if groups != [] { GroupsKeyed(syntax, groups[..|groups| - 1]); }
  }

  lemma {:induction false} RowsKeyed(syntax: Syntax, rows: seq<LockRow>)
    requires RowsImage(syntax, rows).Ok?
    ensures Keyed(RowsImage(syntax, rows).value.defects)
  {
    if rows != [] { RowsKeyed(syntax, rows[..|rows| - 1]); }
  }

  lemma {:induction false} UsesKeyed(syntax: Syntax, uses: seq<string>)
    requires UsesImage(syntax, uses).Ok?
    ensures Keyed(UsesImage(syntax, uses).value.defects)
  {
    if uses != [] { UsesKeyed(syntax, uses[..|uses| - 1]); }
  }

  /** Whatever the format, a defect's repair key is determined by its identity. */
  lemma ExtractedDefectsAreKeyed(syntax: Syntax, document: Document)
    requires ImageOf(syntax, document).Ok?
    ensures Keyed(ImageOf(syntax, document).value.defects)
  {
    match document
    case Manifest(groups, _, _) => GroupsKeyed(syntax, groups);
    case Lock(rows) => RowsKeyed(syntax, rows);
    case Workflow(uses) => UsesKeyed(syntax, uses);
    case _ =>
  }
}
