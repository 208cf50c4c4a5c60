/** `planning.py`: which packs a change calls for, closed under dependencies, in what order, or why not. */
module Planning {
  import opened Results
  import opened TextOrder
  import opened DependencyOrder
  import opened Packs
  import opened Configuration

  /** Shell-style matching of one path against one pattern. */
  type Matcher = (string, string) -> bool

  datatype Mode = All | Impacted

  datatype Blocker =
    | UnknownExplicitPack(packs: set<string>)
    | ExplicitPackUnavailable(packs: set<string>)
    | StageRequired
    | CoverageGap(builtin: string, owner: string)
    | UnknownImpact(path: string)
    | StageWithoutCommand(pack: string)
    | InvalidGraph

  datatype Plan = Plan(selected: set<string>, prerequisites: Graph, order: seq<string>, blockers: set<Blocker>) {
    predicate Ready() { blockers == {} }
  }

  /** A leading recursive segment also stands for no directory at all. */
  predicate Matches(fnmatch: Matcher, path: string, globs: seq<string>) {
    exists g | g in globs :: fnmatch(path, g) || (|g| >= 3 && g[..3] == "**/" && fnmatch(path, g[3..]))
  }

  function StageCandidates(packs: PackSet, stage: Option<string>, named: bool): set<string> {
    set p | p in packs && packs[p].status == "active"
            && ((stage.None? && named) || (stage.Some? && stage.value in packs[p].stages))
  }

  ghost function OwnerOf(packs: PackSet, builtin: string): string
    requires exists p :: Replaces(packs, p, builtin)
  {
    var p :| Replaces(packs, p, builtin);
    p
  }

  /** The validated ownership transfers: which pack replaces each replaced built-in. */
  ghost function Replacements(packs: PackSet): map<string, string> {
    map b | b in ReplacedBuiltins(packs) && (exists p :: Replaces(packs, p, b)) :: OwnerOf(packs, b)
  }

  function ReplacedBuiltins(packs: PackSet): set<string> {
    set p, b | p in packs && b in packs[p].takesOver :: b
  }

  function DependsOn(packs: PackSet): Graph {
    map p | p in packs :: packs[p].dependsOn
  }

  method ReplacementMap(packs: PackSet) returns (replacements: map<string, string>)
    requires Accepted(packs)
    ensures replacements == Replacements(packs)
  {
    replacements := map[];
    var rest := packs.Keys;
    while rest != {}
      invariant rest <= packs.Keys
      invariant forall b :: b in replacements ==> replacements[b] !in rest && Replaces(packs, replacements[b], b)
      invariant forall p, b :: p !in rest && Replaces(packs, p, b) ==> b in replacements && replacements[b] == p
      decreases rest
    {
      var p :| p in rest;
      rest := rest - {p};
      ghost var before := replacements;
      forall b | b in packs[p].takesOver ensures b !in before {
        if b in before { assert Replaces(packs, before[b], b) && Replaces(packs, p, b); }
      }
      replacements := replacements + map b | b in packs[p].takesOver :: p;
    }
    forall b ensures b in replacements <==> b in Replacements(packs) {
      if b in ReplacedBuiltins(packs) {
        var p :| p in packs && b in packs[p].takesOver;
        assert Replaces(packs, p, b);
      }
    }
  }

  // ---------------------------------------------------------------- impacted selection

  /** How the impacted selection sees one change: the packs, who may run, and who replaces whom. */
  datatype Impact = Impact(packs: PackSet, candidates: set<string>, fnmatch: Matcher, replacements: map<string,
                           string>) {

    function RawMatches(path: string): set<string> {
      set p | p in candidates && p in packs && Matches(fnmatch, path, packs[p].globs)
    }

    function Matched(path: string): set<string> {
      RawMatches(path) - replacements.Keys
    }

    function AlwaysRun(): set<string> {
      set p | p in candidates && p in packs && p !in replacements && packs[p].runWhen == "always"
    }

    /** The replaced built-ins that match a path which their replacement does not match. */
    function Gaps(path: string): set<string> {
      set b | b in replacements && b in RawMatches(path) && replacements[b] !in RawMatches(path)
    }

    predicate Owned(path: string) {
      exists p :: p in Matched(path) && p in packs && packs[p].role == "owner"
    }

    function PathBlockers(path: string): set<Blocker> {
      (set b | b in Gaps(path) :: CoverageGap(b, replacements[b]))
      + (if !Owned(path) && Gaps(path) == {} then {UnknownImpact(path)} else {})
    }

    /** What is selected, and what blocks, for a set of changed paths. */
    function Selected(paths: set<string>): set<string> {
      AlwaysRun() + set path, p | path in paths && p in Matched(path) :: p
    }

    function Blockers(paths: set<string>): set<Blocker> {
      set path, b | path in paths && b in PathBlockers(path) :: b
    }
  }

  /** What a set of changed paths selects and what blocks it, path by path. */
  method ImpactedSelection(impact: Impact, changedPaths: set<string>)
    returns (selected: set<string>, blockers: set<Blocker>)
    ensures selected == impact.Selected(changedPaths)
    ensures blockers == impact.Blockers(changedPaths)
  {
    selected, blockers := impact.AlwaysRun(), {};
    ghost var done: set<string> := {};
    NothingSelected(impact);
    var paths := Sorted(changedPaths);
    for i := 0 to |paths|
      invariant done == Elements(paths[..i])
      invariant selected == impact.Selected(done) && blockers == impact.Blockers(done)
    {
      ElementsOfPrefix(paths, i);
      ImpactExtends(impact, done, paths[i]);
      blockers := blockers + impact.PathBlockers(paths[i]);
      selected := selected + impact.Matched(paths[i]);
      done := done + {paths[i]};
    }
    assert paths[..|paths|] == paths;
  }

  lemma NothingSelected(impact: Impact)
    ensures impact.Selected({}) == impact.AlwaysRun() && impact.Blockers({}) == {}
  {
  }

  lemma ImpactExtends(impact: Impact, paths: set<string>, path: string)
    ensures impact.Selected(paths + {path}) == impact.Selected(paths) + impact.Matched(path)
    ensures impact.Blockers(paths + {path}) == impact.Blockers(paths) + impact.PathBlockers(path)
  {
  }

  // ---------------------------------------------------------------- the plan

  datatype Request = Request(
    fnmatch: Matcher, stage: Option<string>, mode: Mode, changedPaths: set<string>, explicit: set<string>)

  datatype Selection = Selection(selected: set<string>, blockers: set<Blocker>)

  function Candidates(packs: PackSet, request: Request): set<string> {
    StageCandidates(packs, request.stage, request.explicit != {})
  }

  /** Named packs that are available, and a blocker for those that are unknown or unavailable. */
  function ExplicitSelection(packs: PackSet, candidates: set<string>, explicit: set<string>): Selection {
    var missing := explicit - packs.Keys;
    var unavailable := explicit * packs.Keys - candidates;
    Selection(explicit * candidates,
              (if missing == {} then {} else {UnknownExplicitPack(missing)})
              + (if unavailable == {} then {} else {ExplicitPackUnavailable(unavailable)}))
  }

  /** Every effective owner. */
  function AllSelection(candidates: set<string>, stage: Option<string>, replaced: set<string>): Selection {
    Selection(candidates - replaced, if stage.None? then {StageRequired} else {})
  }

  ghost function InitialSelection(packs: PackSet, request: Request): Selection {
    var candidates := Candidates(packs, request);
    if request.explicit != {} then ExplicitSelection(packs, candidates, request.explicit)
    else if request.mode.All? then AllSelection(candidates, request.stage, Replacements(packs).Keys)
    else
      var impact := Impact(packs, candidates, request.fnmatch, Replacements(packs));
      Selection(impact.Selected(request.changedPaths), impact.Blockers(request.changedPaths))
  }

  predicate AppliesAt(command: Command, stage: string) {
    command.stages == {} || stage in command.stages
  }

  predicate HasCommandAt(pack: Pack, stage: string) {
    exists c | c in pack.commands :: AppliesAt(c, stage)
  }

  /** Selected blocking packs that declare the stage but have nothing to run there. */
  function StageBlockers(packs: PackSet, selected: set<string>, stage: Option<string>): set<Blocker> {
    if stage.None? then {}
    else set p | p in selected && p in packs && packs[p].enforcement.Blocking? && packs[p].status == "active"
                 && stage.value in packs[p].stages && !HasCommandAt(packs[p], stage.value)
             :: StageWithoutCommand(p)
  }

  /** Why a selection has no order: a dependency that is no candidate, packs without command, or a cycle. */
  ghost predicate Unordered(initial: set<string>, depends: Graph, candidates: set<string>, blockers: set<Blocker>,
                            gaps: set<string> -> set<Blocker>) {
    || (blockers == {InvalidGraph} && exists error :: Leaves(initial, depends, candidates, error))
    || exists closure :: LeastClosure(initial, depends, candidates, closure)
         && (if gaps(closure.Keys) != {} then blockers == gaps(closure.Keys)
             else blockers == {InvalidGraph} && Cyclic(closure))
  }

  /** When a plan is ready, and what it then is. */
  ghost predicate PlanOf(packs: PackSet, request: Request, plan: Plan) {
    var initial := InitialSelection(packs, request);
    var candidates := Candidates(packs, request);
    && (initial.blockers != {} ==> plan.blockers == initial.blockers)
    && (plan.Ready() ==>
          && initial.blockers == {}
          && LeastClosure(initial.selected, DependsOn(packs), candidates, plan.prerequisites)
          && plan.selected == plan.prerequisites.Keys
          && StageBlockers(packs, plan.selected, request.stage) == {}
          && Topological(plan.order, plan.prerequisites))
    && (initial.blockers == {} && !plan.Ready() ==>
          Unordered(initial.selected, DependsOn(packs), candidates, plan.blockers,
                    selected => StageBlockers(packs, selected, request.stage)))
    && (!plan.Ready() ==> plan.order == [])
  }

  /** The plan of one request, as `PlanOf` describes it. */
  method BuildPlan(packs: PackSet, request: Request) returns (plan: Plan)
    requires Accepted(packs)
    ensures PlanOf(packs, request, plan)
  {
    var candidates := Candidates(packs, request);
    var replacements := ReplacementMap(packs);
    var initial: Selection;
    if request.explicit != {} {
      initial := ExplicitSelection(packs, candidates, request.explicit);
    } else if request.mode.All? {
      initial := AllSelection(candidates, request.stage, replacements.Keys);
    } else {
      var impact := Impact(packs, candidates, request.fnmatch, replacements);
      var selected, blockers := ImpactedSelection(impact, request.changedPaths);
      initial := Selection(selected, blockers);
    }
    if initial.blockers != {} {
      return Plan(initial.selected, map[], [], initial.blockers);
    }
    plan := OrderSelection(packs, request, candidates, initial.selected);
  }

  /** Close the selection under dependencies and order it. */
  method OrderSelection(packs: PackSet, request: Request, candidates: set<string>, initial: set<string>)
    returns (plan: Plan)
    requires initial <= candidates && candidates <= packs.Keys
    ensures plan.Ready() ==>
              && LeastClosure(initial, DependsOn(packs), candidates, plan.prerequisites)
              && plan.selected == plan.prerequisites.Keys
              && StageBlockers(packs, plan.selected, request.stage) == {}
              && Topological(plan.order, plan.prerequisites)
    ensures !plan.Ready() ==>
              Unordered(initial, DependsOn(packs), candidates, plan.blockers,
                        selected => StageBlockers(packs, selected, request.stage))
    ensures !plan.Ready() ==> plan.order == []
  {
    var closure, _ := DependencyClosure(initial, DependsOn(packs), candidates);
    if closure.Err? {
      return Plan(initial, map[], [], {InvalidGraph});
    }
    var prerequisites := closure.value;
    var gaps := StageBlockers(packs, prerequisites.Keys, request.stage);
    if gaps != {} {
      return Plan(prerequisites.Keys, prerequisites, [], gaps);
    }
    var order, layer := ExecutionOrder(prerequisites);
    if order.Err? {
      return Plan(prerequisites.Keys, prerequisites, [], {InvalidGraph});
    }
    OrderIsTopological(order.value, prerequisites, layer);
    plan := Plan(prerequisites.Keys, prerequisites, order.value, {});
  }

  // ---------------------------------------------------------------- what a ready plan guarantees

  /** In an accepted pack set the transfers are a function from replaced built-ins to target packs. */
  lemma TransfersAreAFunction(packs: PackSet)
    requires Accepted(packs)
    ensures forall p, b :: Replaces(packs, p, b) ==>
              b in Replacements(packs) && Replacements(packs)[b] == p && packs[p].origin.Target?
    ensures forall b :: b in Replacements(packs) ==>
              Replaces(packs, Replacements(packs)[b], b) && b in packs && packs[b].origin.Builtin?
  {
    forall p, b | Replaces(packs, p, b) ensures b in Replacements(packs) && Replacements(packs)[b] == p {
      assert b in ReplacedBuiltins(packs);
    }
    forall b | b in Replacements(packs) ensures b in packs && packs[b].origin.Builtin? {
      assert Replaces(packs, Replacements(packs)[b], b);
    }
  }

  lemma NobodyDependsOnReplaced(packs: PackSet)
    requires Accepted(packs)
    ensures forall p, d {:trigger d in packs[p].dependsOn} :: p in packs && d in packs[p].dependsOn ==>
              d !in Replacements(packs)
  {
    TransfersAreAFunction(packs);
  }

  lemma UnreplacedStayClosed(packs: PackSet, selected: set<string>)
    requires Accepted(packs) && ClosedUnder(DependsOn(packs), selected)
    ensures ClosedUnder(DependsOn(packs), selected - Replacements(packs).Keys)
  {
    NobodyDependsOnReplaced(packs);
    var depends := DependsOn(packs);
    forall p, d {:trigger d in depends[p]} | p in selected - Replacements(packs).Keys && p in depends && d in depends[p]
      ensures d in selected - Replacements(packs).Keys
    {
      assert d in packs[p].dependsOn;
    }
  }

  lemma InitiallyUnreplaced(packs: PackSet, request: Request)
    requires Accepted(packs) && request.explicit == {}
    ensures InitialSelection(packs, request).selected !! Replacements(packs).Keys
  {
  }

  /** Unless packs were named one by one, no replaced built-in runs: not selected itself,
      and not brought back as somebody's dependency. */
  lemma NoReplacedBuiltinRuns(packs: PackSet, request: Request, plan: Plan)
    requires Accepted(packs) && PlanOf(packs, request, plan) && plan.Ready() && request.explicit == {}
    ensures forall p, b :: Replaces(packs, p, b) ==> b !in plan.selected && b !in plan.order
  {
    TransfersAreAFunction(packs);
    InitiallyUnreplaced(packs, request);
    UnreplacedStayClosed(packs, plan.selected);
    assert plan.selected <= plan.selected - Replacements(packs).Keys;
    forall b | b in plan.order ensures b in plan.selected { assert b in Elements(plan.order); }
  }

  lemma GapsBlock(impact: Impact, path: string)
    ensures impact.PathBlockers(path) == {} ==> impact.Gaps(path) == {} && impact.Owned(path)
  {
    if impact.Gaps(path) != {} {
      var b :| b in impact.Gaps(path);
      assert CoverageGap(b, impact.replacements[b]) in impact.PathBlockers(path);
    } else if !impact.Owned(path) {
      assert UnknownImpact(path) in impact.PathBlockers(path);
    }
  }

  lemma PathIsCovered(packs: PackSet, request: Request, plan: Plan, path: string) returns (impact: Impact)
    requires PlanOf(packs, request, plan) && plan.Ready()
    requires request.explicit == {} && request.mode.Impacted? && path in request.changedPaths
    ensures impact == Impact(packs, Candidates(packs, request), request.fnmatch, Replacements(packs))
    ensures impact.Gaps(path) == {} && impact.Owned(path) && impact.Matched(path) <= plan.selected
  {
    impact := Impact(packs, Candidates(packs, request), request.fnmatch, Replacements(packs));
    assert impact.PathBlockers(path) <= impact.Blockers(request.changedPaths);
    GapsBlock(impact, path);
    assert impact.Matched(path) <= impact.Selected(request.changedPaths);
  }

  lemma ReplacementCovers(packs: PackSet, request: Request, plan: Plan, path: string, builtin: string)
    requires Accepted(packs) && PlanOf(packs, request, plan) && plan.Ready()
    requires request.explicit == {} && request.mode.Impacted? && path in request.changedPaths
    requires builtin in Candidates(packs, request) && Matches(request.fnmatch, path, packs[builtin].globs)
    ensures (forall p :: !Replaces(packs, p, builtin)) ==> builtin in plan.selected
    ensures forall p :: Replaces(packs, p, builtin) ==>
              && p in plan.selected && builtin !in plan.selected
              && p in Candidates(packs, request) && Matches(request.fnmatch, path, packs[p].globs)
  {
    var impact := PathIsCovered(packs, request, plan, path);
    NoReplacedBuiltinRuns(packs, request, plan);
    TransfersAreAFunction(packs);
    assert builtin in impact.RawMatches(path);
    forall p | Replaces(packs, p, builtin) ensures p in impact.Matched(path) {
      assert builtin !in impact.Gaps(path);
    }
  }

  /** Replacement never weakens a check. In every ready impacted plan, each built-in of the stage that
      matches a changed path is selected itself, or is replaced by exactly one pack, which is selected,
      matches the same path and is blocking if the built-in is. */
  lemma ReplacementNeverWeakens(packs: PackSet, request: Request, plan: Plan, path: string, builtin: string)
    requires Accepted(packs) && PlanOf(packs, request, plan) && plan.Ready()
    requires request.explicit == {} && request.mode.Impacted? && path in request.changedPaths
    requires Available(packs, request, builtin) && packs[builtin].origin == Builtin
    requires Touched(packs[builtin], request, path)
    ensures (forall p :: p in packs ==> builtin !in packs[p].takesOver) ==> builtin in plan.selected
    ensures forall p :: p in packs && builtin in packs[p].takesOver ==>
              && p in plan.selected && builtin !in plan.selected
              && (forall q :: q in packs && builtin in packs[q].takesOver ==> q == p)
              && Available(packs, request, p) && Touched(packs[p], request, path)
              && (packs[builtin].enforcement == Blocking ==> packs[p].enforcement == Blocking)
  {
    AvailableExactlyWhen(packs, request, builtin);
    TouchedExactlyWhen(packs[builtin], request, path);
    ReplacementCovers(packs, request, plan, path, builtin);
    forall p | p in packs && builtin in packs[p].takesOver
      ensures p in plan.selected && builtin !in plan.selected
      ensures forall q :: q in packs && builtin in packs[q].takesOver ==> q == p
      ensures Available(packs, request, p) && Touched(packs[p], request, path)
      ensures packs[builtin].enforcement == Blocking ==> packs[p].enforcement == Blocking
    {
      assert Replaces(packs, p, builtin);
      AvailableExactlyWhen(packs, request, p);
      TouchedExactlyWhen(packs[p], request, path);
      forall q | q in packs && builtin in packs[q].takesOver ensures q == p { assert Replaces(packs, q, builtin); }
    }
  }

  /** Every changed path of a ready impacted plan has an owner among the selected packs. */
  lemma EveryPathIsOwned(packs: PackSet, request: Request, plan: Plan, path: string) returns (owner: string)
    requires PlanOf(packs, request, plan) && plan.Ready()
    requires request.explicit == {} && request.mode.Impacted? && path in request.changedPaths
    ensures owner in plan.selected && owner in packs && packs[owner].role == "owner"
    ensures Touched(packs[owner], request, path)
  {
    var impact := PathIsCovered(packs, request, plan, path);
    owner :| owner in impact.Matched(path) && owner in packs && packs[owner].role == "owner";
    TouchedExactlyWhen(packs[owner], request, path);
  }

  // ---------------------------------------------------------------- what a plan selects and what blocks it, in full

  /** Some changed path matches one of the pack's globs, with or without a leading recursive segment. */
  ghost predicate Touched(pack: Pack, request: Request, path: string) {
    exists g :: g in pack.globs
      && (request.fnmatch(path, g) || exists rest :: g == "**/" + rest && request.fnmatch(path, rest))
  }

  /** The pack is active and, where a stage is asked for, declares it. Only named packs do without a stage. */
  ghost predicate Available(packs: PackSet, request: Request, p: string) {
    && p in packs && packs[p].status == "active"
    && match request.stage
       case None => request.explicit != {}
       case Some(stage) => stage in packs[p].stages
  }

  ghost predicate TakenOver(packs: PackSet, p: string) {
    exists q :: q in packs && p in packs[q].takesOver
  }

  /** What the request itself calls for, before dependencies. */
  ghost predicate CalledFor(packs: PackSet, request: Request, p: string) {
    && Available(packs, request, p)
    && (if request.explicit != {} then p in request.explicit
        else
          && !TakenOver(packs, p)
          && (request.mode.Impacted? ==>
                packs[p].runWhen == "always"
                || exists path :: path in request.changedPaths && Touched(packs[p], request, path)))
  }

  lemma TouchedExactlyWhen(pack: Pack, request: Request, path: string)
    ensures Matches(request.fnmatch, path, pack.globs) <==> Touched(pack, request, path)
  {
    forall g | g in pack.globs
      ensures (|g| >= 3 && g[..3] == "**/" && request.fnmatch(path, g[3..]))
              <==> exists rest :: g == "**/" + rest && request.fnmatch(path, rest)
    {
      if |g| >= 3 && g[..3] == "**/" { assert g == "**/" + g[3..]; }
      forall rest | g == "**/" + rest ensures g[..3] == "**/" && g[3..] == rest {}
    }
  }

  lemma TakenOverExactlyWhen(packs: PackSet, p: string)
    ensures TakenOver(packs, p) <==> p in Replacements(packs)
  {
    if q :| q in packs && p in packs[q].takesOver { assert Replaces(packs, q, p) && p in ReplacedBuiltins(packs); }
  }

  lemma AvailableExactlyWhen(packs: PackSet, request: Request, p: string)
    ensures Available(packs, request, p) <==> p in Candidates(packs, request)
  {
  }

  lemma SelectedAtFirst(packs: PackSet, request: Request, p: string)
    ensures p in InitialSelection(packs, request).selected <==> CalledFor(packs, request, p)
  {
    AvailableExactlyWhen(packs, request, p);
    TakenOverExactlyWhen(packs, p);
    if Available(packs, request, p) && request.explicit == {} && request.mode.Impacted? {
      forall path ensures Matches(request.fnmatch, path, packs[p].globs) <==> Touched(packs[p], request, path) {
        TouchedExactlyWhen(packs[p], request, path);
      }
      var impact := Impact(packs, Candidates(packs, request), request.fnmatch, Replacements(packs));
      assert forall path :: p in impact.Matched(path) <==>
                            p !in Replacements(packs) && Matches(request.fnmatch, path, packs[p].globs);
    }
  }

  /** A ready plan selects what the request calls for and what that depends on, nothing else; each is available, and
      each blocking one that declares the stage has a command to run there. */
  lemma ReadyPlanSelects(packs: PackSet, request: Request, plan: Plan)
    requires PlanOf(packs, request, plan) && plan.Ready()
    ensures forall p :: CalledFor(packs, request, p) ==> p in plan.selected
    ensures forall p :: p in plan.selected ==> Available(packs, request, p)
    ensures forall p, d :: p in plan.selected && p in packs && d in packs[p].dependsOn ==> d in plan.selected
    ensures forall closed: set<string> ::
              (forall p :: CalledFor(packs, request, p) ==> p in closed)
              && (forall p, d :: p in closed && p in packs && d in packs[p].dependsOn ==> d in closed)
              ==> plan.selected <= closed
    ensures forall p :: p in plan.selected && p in packs && packs[p].enforcement == Blocking && request.stage.Some?
                        && request.stage.value in packs[p].stages ==>
              exists c :: c in packs[p].commands && (c.stages == {} || request.stage.value in c.stages)
  {
    var initial, depends := InitialSelection(packs, request), DependsOn(packs);
    forall p ensures p in initial.selected <==> CalledFor(packs, request, p) { SelectedAtFirst(packs, request, p); }
    forall p ensures Available(packs, request, p) <==> p in Candidates(packs, request) {
      AvailableExactlyWhen(packs, request, p);
    }
    forall p, d | p in plan.selected && p in packs && d in packs[p].dependsOn ensures d in plan.selected {
      assert d in depends[p];
    }
    forall closed: set<string> |
      (forall p :: CalledFor(packs, request, p) ==> p in closed)
      && (forall p, d :: p in closed && p in packs && d in packs[p].dependsOn ==> d in closed)
      ensures plan.selected <= closed
    {
      assert initial.selected <= closed && ClosedUnder(depends, closed);
    }
    forall p | p in plan.selected && p in packs && packs[p].enforcement == Blocking && request.stage.Some?
               && request.stage.value in packs[p].stages
      ensures exists c :: c in packs[p].commands && (c.stages == {} || request.stage.value in c.stages)
    {
      assert Available(packs, request, p);
      assert StageWithoutCommand(p) !in StageBlockers(packs, plan.selected, request.stage);
    }
  }

  /** In mode All a ready plan selects exactly the active packs of the stage that nobody takes over. */
  lemma AllModeSelects(packs: PackSet, request: Request, plan: Plan, p: string)
    requires Accepted(packs) && PlanOf(packs, request, plan) && plan.Ready()
    requires request.explicit == {} && request.mode == All
    ensures request.stage.Some?
    ensures p in plan.selected <==>
              && p in packs && packs[p].status == "active" && request.stage.value in packs[p].stages
              && forall q :: q in packs ==> p !in packs[q].takesOver
  {
    ReadyPlanSelects(packs, request, plan);
    NoReplacedBuiltinRuns(packs, request, plan);
    if p in plan.selected {
      assert Available(packs, request, p);
      forall q | q in packs ensures p !in packs[q].takesOver { assert !Replaces(packs, q, p); }
    }
    if p in packs && packs[p].status == "active" && request.stage.value in packs[p].stages
       && forall q :: q in packs ==> p !in packs[q].takesOver {
      assert !TakenOver(packs, p) && Available(packs, request, p);
      assert CalledFor(packs, request, p);
    }
  }

  /** A plan of named packs is blocked for exactly those names that are no packs, and for exactly those packs that are
      not available. */
  lemma NamedPacksBlock(packs: PackSet, request: Request, plan: Plan)
    requires PlanOf(packs, request, plan) && request.explicit != {}
    ensures forall names :: UnknownExplicitPack(names) in plan.blockers <==>
              names != {} && names == set p | p in request.explicit && p !in packs
    ensures forall names :: ExplicitPackUnavailable(names) in plan.blockers <==>
              names != {} && names == set p | p in request.explicit && p in packs
                && !(packs[p].status == "active" && (request.stage.Some? ==> request.stage.value in packs[p].stages))
    ensures plan.Ready() ==> forall p :: p in request.explicit ==> p in plan.selected
  {
    var candidates := Candidates(packs, request);
    NamedBlockersOnly(packs, request, plan);
    assert request.explicit - packs.Keys == set p | p in request.explicit && p !in packs;
    assert request.explicit * packs.Keys - candidates ==
      set p | p in request.explicit && p in packs
              && !(packs[p].status == "active" && (request.stage.Some? ==> request.stage.value in packs[p].stages));
    if plan.Ready() {
      forall p | p in request.explicit ensures p in plan.selected { NamedIsSelected(packs, request, plan, p); }
    }
  }

  lemma NamedIsSelected(packs: PackSet, request: Request, plan: Plan, p: string)
    requires PlanOf(packs, request, plan) && plan.Ready() && p in request.explicit
    ensures p in plan.selected
  {
    NamedOrBlocked(packs, request, p);
  }

  lemma NamedOrBlocked(packs: PackSet, request: Request, p: string)
    requires p in request.explicit
    ensures var initial := InitialSelection(packs, request); p in initial.selected || initial.blockers != {}
  {
    var unknown := request.explicit - packs.Keys;
    var unavailable := request.explicit * packs.Keys - Candidates(packs, request);
    var blockers := InitialSelection(packs, request).blockers;
    assert p in unknown ==> UnknownExplicitPack(unknown) in blockers;
    assert p in unavailable ==> ExplicitPackUnavailable(unavailable) in blockers;
  }

  lemma NamedBlockersOnly(packs: PackSet, request: Request, plan: Plan)
    requires PlanOf(packs, request, plan) && request.explicit != {}
    ensures forall names :: UnknownExplicitPack(names) in plan.blockers <==>
              UnknownExplicitPack(names) in InitialSelection(packs, request).blockers
    ensures forall names :: ExplicitPackUnavailable(names) in plan.blockers <==>
              ExplicitPackUnavailable(names) in InitialSelection(packs, request).blockers
  {
  }

  /** An impacted plan is blocked by exactly those replaced built-ins that match a changed path which their replacement
      does not match. */
  lemma CoverageGapBlocks(packs: PackSet, request: Request, plan: Plan, b: string, q: string)
    requires Accepted(packs) && PlanOf(packs, request, plan)
    requires request.explicit == {} && request.mode == Impacted
    ensures CoverageGap(b, q) in plan.blockers <==>
            exists path :: path in request.changedPaths && GapAt(packs, request, path, b, q)
  {
    var impact := Impact(packs, Candidates(packs, request), request.fnmatch, Replacements(packs));
    ImpactBlockersOnly(packs, request, plan);
    forall path ensures GapAt(packs, request, path, b, q) <==>
                        b in impact.Gaps(path) && impact.replacements[b] == q {
      GapExactlyWhen(packs, request, path, b, q);
    }
    forall path | path in request.changedPaths && b in impact.Gaps(path) && impact.replacements[b] == q
      ensures CoverageGap(b, q) in impact.Blockers(request.changedPaths)
    {
      assert CoverageGap(b, q) in impact.PathBlockers(path);
    }
  }

  /** And by exactly those changed paths that nobody owns, where no such gap explains it. */
  lemma UnknownImpactBlocks(packs: PackSet, request: Request, plan: Plan, path: string)
    requires Accepted(packs) && PlanOf(packs, request, plan)
    requires request.explicit == {} && request.mode == Impacted
    ensures UnknownImpact(path) in plan.blockers <==>
            && path in request.changedPaths && !OwnedAt(packs, request, path)
            && forall b, q :: !GapAt(packs, request, path, b, q)
  {
    var impact := Impact(packs, Candidates(packs, request), request.fnmatch, Replacements(packs));
    ImpactBlockersOnly(packs, request, plan);
    OwnedExactlyWhen(packs, request, path);
    NoGapExactlyWhen(packs, request, path);
    UnknownAt(impact, request.changedPaths, path);
  }

  lemma UnknownAt(impact: Impact, paths: set<string>, path: string)
    ensures UnknownImpact(path) in impact.Blockers(paths) <==>
            path in paths && !impact.Owned(path) && impact.Gaps(path) == {}
  {
    assert UnknownImpact(path) in impact.PathBlockers(path) <==> !impact.Owned(path) && impact.Gaps(path) == {};
  }

  lemma NoGapExactlyWhen(packs: PackSet, request: Request, path: string)
    requires Accepted(packs)
    ensures var impact := Impact(packs, Candidates(packs, request), request.fnmatch, Replacements(packs));
            impact.Gaps(path) == {} <==> forall b, q :: !GapAt(packs, request, path, b, q)
  {
    var impact := Impact(packs, Candidates(packs, request), request.fnmatch, Replacements(packs));
    forall b, q ensures GapAt(packs, request, path, b, q) ==> b in impact.Gaps(path) {
      GapExactlyWhen(packs, request, path, b, q);
    }
    if b :| b in impact.Gaps(path) { GapExactlyWhen(packs, request, path, b, impact.replacements[b]); }
  }

  /** An available owner that nobody takes over matches the path. */
  ghost predicate OwnedAt(packs: PackSet, request: Request, path: string) {
    exists p :: Available(packs, request, p) && !TakenOver(packs, p) && packs[p].role == "owner"
                && Touched(packs[p], request, path)
  }

  lemma OwnedExactlyWhen(packs: PackSet, request: Request, path: string)
    ensures Impact(packs, Candidates(packs, request), request.fnmatch, Replacements(packs)).Owned(path)
            <==> OwnedAt(packs, request, path)
  {
    var impact := Impact(packs, Candidates(packs, request), request.fnmatch, Replacements(packs));
    forall p ensures p in impact.Matched(path) <==>
                     Available(packs, request, p) && !TakenOver(packs, p) && Touched(packs[p], request, path) {
      AvailableExactlyWhen(packs, request, p);
      TakenOverExactlyWhen(packs, p);
      if p in packs { TouchedExactlyWhen(packs[p], request, path); }
    }
  }

  /** The available built-in `b` matches the path, and `q`, which takes it over, does not or is not available. */
  ghost predicate GapAt(packs: PackSet, request: Request, path: string, b: string, q: string) {
    && Available(packs, request, b) && Touched(packs[b], request, path)
    && q in packs && b in packs[q].takesOver
    && !(Available(packs, request, q) && Touched(packs[q], request, path))
  }

  lemma GapExactlyWhen(packs: PackSet, request: Request, path: string, b: string, q: string)
    requires Accepted(packs)
    ensures var impact := Impact(packs, Candidates(packs, request), request.fnmatch, Replacements(packs));
            GapAt(packs, request, path, b, q) <==> b in impact.Gaps(path) && impact.replacements[b] == q
  {
    TransfersAreAFunction(packs);
    AvailableExactlyWhen(packs, request, b);
    AvailableExactlyWhen(packs, request, q);
    if b in packs { TouchedExactlyWhen(packs[b], request, path); }
    if q in packs { TouchedExactlyWhen(packs[q], request, path); }
    assert Replaces(packs, q, b) <==> q in packs && b in packs[q].takesOver;
  }

  lemma ImpactBlockersOnly(packs: PackSet, request: Request, plan: Plan)
    requires PlanOf(packs, request, plan) && request.explicit == {} && request.mode == Impacted
    ensures forall b, q :: CoverageGap(b, q) in plan.blockers <==>
              CoverageGap(b, q) in InitialSelection(packs, request).blockers
    ensures forall path :: UnknownImpact(path) in plan.blockers <==>
              UnknownImpact(path) in InitialSelection(packs, request).blockers
  {
  }
}
