/** `execution_flow.py`: run the packs of a plan on one change packet. */
module Execution {
  import opened TextOrder
  import opened Packs
  import opened Planning
  import opened PackExecution

  datatype Verdict = Passed | Warning | Failed

  /** `ran` and `evidence` run in parallel; `stopped` says that the run was abandoned early. */
  datatype Run = Run(
    ran: seq<string>, evidence: seq<Item>, blocked: map<string, set<string>>, failed: set<string>,
    verdict: Verdict, termination: string, stopped: bool)

  const NOTHING_RUN := Run([], [], map[], {}, Passed, "completed", false)

  /** What a full run amounts to, pack after pack. `outcome` is what each pack yields when it runs. */
  function Visit(packs: PackSet, outcome: string -> Item, run: Run, pack: string): Run
    requires pack in packs
  {
    var prerequisites := run.failed * packs[pack].dependsOn;
    if prerequisites != {} then
      run.(blocked := run.blocked[pack := prerequisites], failed := run.failed + {pack},
           verdict := if packs[pack].enforcement.Blocking? then Failed else run.verdict)
    else
      var item := outcome(pack);
      var after := run.(ran := run.ran + [pack], evidence := run.evidence + [item],
                        termination := if item.termination.Some? then item.termination.value else run.termination);
      if DiagnosticStop(item) then
        after.(verdict := Failed, stopped := true)
      else if item.status.StatusFailed? then
        var severe := item.processFailures > 0 || packs[pack].enforcement.Blocking?;
        after.(failed := run.failed + {pack},
               verdict := if severe then Failed else if run.verdict.Passed? then Warning else run.verdict)
      else
        after.(verdict := if item.status.StatusWarning? && run.verdict.Passed? then Warning else run.verdict)
  }

  function Execute(packs: PackSet, outcome: string -> Item, order: seq<string>): Run
    requires forall p :: p in order ==> p in packs
  {
    if order == [] then NOTHING_RUN
    else
      var run := Execute(packs, outcome, order[..|order| - 1]);
      if run.stopped then run else Visit(packs, outcome, run, order[|order| - 1])
  }

  lemma {:induction false} StoppedStaysStopped(packs: PackSet, outcome: string -> Item, order: seq<string>, n: nat)
    requires forall p :: p in order ==> p in packs
    requires n <= |order| && Execute(packs, outcome, order[..n]).stopped
    ensures Execute(packs, outcome, order) == Execute(packs, outcome, order[..n])
    decreases |order|
  {
    if n < |order| {
      var shorter := order[..|order| - 1];
      assert shorter[..n] == order[..n];
      StoppedStaysStopped(packs, outcome, shorter, n);
    } else {
      assert order[..n] == order;
    }
  }

  /** One loop over the order amounts to `Execute`, an early return included. */
  method ExecutePacks(packs: PackSet, outcome: string -> Item, order: seq<string>)
    returns (ran: seq<string>, evidence: seq<Item>, verdict: Verdict, termination: string,
             blocked: map<string, set<string>>)
    requires forall p :: p in order ==> p in packs
    ensures var run := Execute(packs, outcome, order);
            && ran == run.ran && evidence == run.evidence && verdict == run.verdict
            && termination == run.termination && blocked == run.blocked
  {
    ran, evidence, verdict, termination, blocked := [], [], Passed, "completed", map[];
    var failed: set<string> := {};
    for i := 0 to |order|
      invariant Execute(packs, outcome, order[..i]) == Run(ran, evidence, blocked, failed, verdict, termination, false)
    {
      var pack := order[i];
      assert order[..i + 1][..i] == order[..i];
      var prerequisites := failed * packs[pack].dependsOn;
      if prerequisites != {} {
        blocked := blocked[pack := prerequisites];
        failed := failed + {pack};
        if packs[pack].enforcement.Blocking? { verdict := Failed; }
        continue;
      }
      var item := outcome(pack);
      ran, evidence := ran + [pack], evidence + [item];
      if item.termination.Some? { termination := item.termination.value; }
      if DiagnosticStop(item) {
        StoppedStaysStopped(packs, outcome, order, i + 1);
        return ran, evidence, Failed, termination, blocked;
      }
      if item.status.StatusFailed? {
        failed := failed + {pack};
        if item.processFailures > 0 || packs[pack].enforcement.Blocking? { verdict := Failed; }
      }
      if item.status in {StatusFailed, StatusWarning} && verdict.Passed? { verdict := Warning; }
    }
    assert order[..|order|] == order;
  }

  /** The reason of the last pack that gave one. */
  function LastReason(evidence: seq<Item>): string {
    if evidence == [] then "completed"
    else
      var last := evidence[|evidence| - 1];
      if last.termination.Some? then last.termination.value else LastReason(evidence[..|evidence| - 1])
  }

  /** A run ends for the reason of the last pack that ended early, and is completed when none did. */
  lemma {:induction false} TerminationIsLastReason(packs: PackSet, outcome: string -> Item, order: seq<string>)
    requires forall p :: p in order ==> p in packs
    ensures Execute(packs, outcome, order).termination == LastReason(Execute(packs, outcome, order).evidence)
    decreases |order|
  {
    if order != [] {
      var shorter := order[..|order| - 1];
      TerminationIsLastReason(packs, outcome, shorter);
      var run := Execute(packs, outcome, shorter);
      if !run.stopped { VisitKeepsReason(packs, outcome, run, order[|order| - 1]); }
    }
  }

  lemma VisitKeepsReason(packs: PackSet, outcome: string -> Item, run: Run, pack: string)
    requires pack in packs && run.termination == LastReason(run.evidence)
    ensures var after := Visit(packs, outcome, run, pack); after.termination == LastReason(after.evidence)
  {
    var after := Visit(packs, outcome, run, pack);
    VisitAddsEvidence(packs, outcome, run, pack);
    if after.evidence != run.evidence { ReasonOfLast(run.evidence, outcome(pack)); }
  }

  lemma VisitAddsEvidence(packs: PackSet, outcome: string -> Item, run: Run, pack: string)
    requires pack in packs
    ensures var after, item := Visit(packs, outcome, run, pack), outcome(pack);
            || (after.evidence == run.evidence && after.termination == run.termination)
            || (after.evidence == run.evidence + [item]
                && after.termination == if item.termination.Some? then item.termination.value else run.termination)
  {
  }

  lemma ReasonOfLast(evidence: seq<Item>, item: Item)
    ensures LastReason(evidence + [item]) ==
              if item.termination.Some? then item.termination.value else LastReason(evidence)
  {
    assert (evidence + [item])[..|evidence|] == evidence;
  }

  // ---------------------------------------------------------------- soundness

  /** The packs the run reached before it was abandoned, if it was. */
  function Reached(run: Run): set<string> {
    Elements(run.ran) + run.blocked.Keys
  }

  /** Each pack ran once, with its evidence beside it, and only the last one can have stopped the run. */
  ghost predicate EvidenceFits(outcome: string -> Item, run: Run) {
    && Distinct(run.ran) && |run.evidence| == |run.ran|
    && (forall i :: 0 <= i < |run.ran| ==> run.evidence[i] == outcome(run.ran[i]))
    && (forall i :: 0 <= i < |run.ran| - 1 ==> !DiagnosticStop(run.evidence[i]))
  }

  /** Everything a run says about the packs it reached. */
  ghost predicate Accounted(packs: PackSet, outcome: string -> Item, reached: seq<string>, run: Run) {
    && Elements(reached) == Reached(run)
    && Elements(run.ran) !! run.blocked.Keys
    && EvidenceFits(outcome, run)
    && (forall p :: p in run.failed <==> p in run.blocked || (p in run.ran && outcome(p).status.StatusFailed?
                                                              && !DiagnosticStop(outcome(p))))
    && (run.stopped <==> run.ran != [] && DiagnosticStop(run.evidence[|run.ran| - 1]))
    && (run.stopped ==> run.verdict.Failed?)
  }

  /** The run has reached exactly the first `n` packs of the order: all of them unless it stopped. */
  ghost predicate ReachedFirst(packs: PackSet, outcome: string -> Item, order: seq<string>, run: Run, n: nat) {
    n <= |order| && Accounted(packs, outcome, order[..n], run) && (n < |order| ==> run.stopped)
  }

  lemma {:induction false} ExecuteAccounts(packs: PackSet, outcome: string -> Item, order: seq<string>) returns (n: nat)
    requires Distinct(order) && forall p :: p in order ==> p in packs
    ensures ReachedFirst(packs, outcome, order, Execute(packs, outcome, order), n)
    decreases |order|
  {
    if order == [] {
      n := 0;
    } else {
      var shorter := order[..|order| - 1];
      n := ExecuteAccounts(packs, outcome, shorter);
      n := ReachedNext(packs, outcome, order, Execute(packs, outcome, shorter), n);
    }
  }

  lemma ReachedNext(packs: PackSet, outcome: string -> Item, order: seq<string>, run: Run, n: nat) returns (m: nat)
    requires Distinct(order) && order != [] && forall p :: p in order ==> p in packs
    requires ReachedFirst(packs, outcome, order[..|order| - 1], run, n)
    ensures var after := if run.stopped then run else Visit(packs, outcome, run, order[|order| - 1]);
            ReachedFirst(packs, outcome, order, after, m)
  {
    var shorter, pack := order[..|order| - 1], order[|order| - 1];
    if run.stopped {
      m := n;
      assert shorter[..n] == order[..n];
    } else {
      m := |order|;
      LastIsNew(order);
      assert shorter[..|shorter|] == shorter && order[..m] == shorter + [pack];
      VisitAccounts(packs, outcome, shorter, run, pack);
    }
  }

  lemma LastIsNew(order: seq<string>)
    requires Distinct(order) && order != []
    ensures order[|order| - 1] !in order[..|order| - 1]
  {
  }

  lemma BlockedAccounts(packs: PackSet, outcome: string -> Item, reached: seq<string>, run: Run, pack: string)
    requires pack in packs && pack !in reached && !run.stopped && Accounted(packs, outcome, reached, run)
    requires run.failed * packs[pack].dependsOn != {}
    ensures Accounted(packs, outcome, reached + [pack], Visit(packs, outcome, run, pack))
  {
    ElementsOfAppend(reached, [pack]);
    assert pack !in Elements(reached);
  }

  lemma RunAccounts(packs: PackSet, outcome: string -> Item, reached: seq<string>, run: Run, pack: string)
    requires pack in packs && pack !in reached && !run.stopped && Accounted(packs, outcome, reached, run)
    requires run.failed * packs[pack].dependsOn == {}
    ensures Accounted(packs, outcome, reached + [pack], Visit(packs, outcome, run, pack))
  {
    ElementsOfAppend(reached, [pack]);
    ElementsOfAppend(run.ran, [pack]);
    assert pack !in Elements(reached) && pack !in Elements(run.ran);
    EvidenceGrows(outcome, run, Visit(packs, outcome, run, pack), pack);
  }

  lemma EvidenceGrows(outcome: string -> Item, run: Run, after: Run, pack: string)
    requires EvidenceFits(outcome, run) && pack !in run.ran
    requires run.ran != [] ==> !DiagnosticStop(run.evidence[|run.ran| - 1])
    requires after.ran == run.ran + [pack] && after.evidence == run.evidence + [outcome(pack)]
    ensures EvidenceFits(outcome, after)
  {
  }

  lemma VisitAccounts(packs: PackSet, outcome: string -> Item, reached: seq<string>, run: Run, pack: string)
    requires pack in packs && pack !in reached && !run.stopped && Accounted(packs, outcome, reached, run)
    ensures Accounted(packs, outcome, reached + [pack], Visit(packs, outcome, run, pack))
  {
    if run.failed * packs[pack].dependsOn != {} {
      BlockedAccounts(packs, outcome, reached, run, pack);
    } else {
      RunAccounts(packs, outcome, reached, run, pack);
    }
  }

  /** Each pack of the order either ran, or was blocked, or comes after an early stop. */
  lemma EveryPackIsAccountedFor(packs: PackSet, outcome: string -> Item, order: seq<string>, p: string)
    requires Distinct(order) && (forall q :: q in order ==> q in packs) && p in order
    ensures var run := Execute(packs, outcome, order);
            && !(p in run.ran && p in run.blocked)
            && (p !in run.ran && p !in run.blocked ==> run.stopped)
            && (run.stopped ==> run.ran != [] && DiagnosticStop(outcome(run.ran[|run.ran| - 1])))
  {
    var run := Execute(packs, outcome, order);
    var n := ExecuteAccounts(packs, outcome, order);
    assert p in run.ran ==> p in Elements(run.ran);
    if n == |order| {
      assert order[..n] == order;
      assert p in Elements(order);
    }
  }

  /** Every dependency of a pack comes earlier in the order. */
  predicate DependenciesFirst(packs: PackSet, order: seq<string>) {
    forall i :: 0 <= i < |order| ==> order[i] in packs && packs[order[i]].dependsOn <= Elements(order[..i])
  }

  /** A pack runs only if every direct dependency ran without failing. */
  lemma {:induction false} RunsOnSoundDependencies(packs: PackSet, outcome: string -> Item, order: seq<string>,
                                                   p: string, d: string)
    requires Distinct(order) && DependenciesFirst(packs, order)
    requires (forall q :: q in order ==> q in packs) && p in Execute(packs, outcome, order).ran
    requires p in packs && d in packs[p].dependsOn
    ensures var run := Execute(packs, outcome, order);
            d in run.ran && !outcome(d).status.StatusFailed? && !DiagnosticStop(outcome(d))
    decreases |order|
  {
    var shorter := order[..|order| - 1];
    var run := Execute(packs, outcome, shorter);
    FrontIsDependenciesFirst(packs, order);
    if p in run.ran {
      RunsOnSoundDependencies(packs, outcome, shorter, p, d);
    } else {
      RanLast(packs, outcome, order, run, p, d);
    }
  }

  lemma FrontIsDependenciesFirst(packs: PackSet, order: seq<string>)
    requires order != [] && DependenciesFirst(packs, order)
    ensures DependenciesFirst(packs, order[..|order| - 1])
  {
    var shorter := order[..|order| - 1];
    forall i | 0 <= i < |shorter|
      ensures shorter[i] in packs && packs[shorter[i]].dependsOn <= Elements(shorter[..i])
    {
      assert shorter[..i] == order[..i];
    }
  }

  /** What ran last of all found each of its dependencies run and unfailed. */
  lemma RanLast(packs: PackSet, outcome: string -> Item, order: seq<string>, run: Run, p: string, d: string)
    requires Distinct(order) && order != [] && DependenciesFirst(packs, order) && forall q :: q in order ==> q in packs
    requires run == Execute(packs, outcome, order[..|order| - 1]) && !run.stopped && p !in run.ran
    requires p in Visit(packs, outcome, run, order[|order| - 1]).ran && p in packs && d in packs[p].dependsOn
    ensures d in run.ran && !outcome(d).status.StatusFailed? && !DiagnosticStop(outcome(d))
  {
    var shorter := order[..|order| - 1];
    var n := ExecuteAccounts(packs, outcome, shorter);
    assert shorter[..|shorter|] == shorter;
    assert p == order[|order| - 1] && run.failed * packs[p].dependsOn == {};
    RanAtTheEnd(packs, outcome, shorter, run, p, d);
  }

  lemma RanAtTheEnd(packs: PackSet, outcome: string -> Item, reached: seq<string>, run: Run, p: string, d: string)
    requires p in packs && d in packs[p].dependsOn && packs[p].dependsOn <= Elements(reached)
    requires Accounted(packs, outcome, reached, run) && !run.stopped && run.failed * packs[p].dependsOn == {}
    ensures d in run.ran && !outcome(d).status.StatusFailed? && !DiagnosticStop(outcome(d))
  {
    assert d !in run.failed * packs[p].dependsOn;
    assert d in Reached(run);
    var i :| 0 <= i < |run.ran| && run.ran[i] == d;
    assert !DiagnosticStop(run.evidence[i]);
  }

  predicate AllPassed(outcome: string -> Item, order: seq<string>) {
    forall p :: p in order ==> outcome(p).status.StatusPassed? && !DiagnosticStop(outcome(p))
  }

  /** Every pack of `order` ran, and nothing was blocked, failed or stopped. */
  predicate RanClean(run: Run, order: seq<string>) {
    run.ran == order && run.blocked == map[] && run.failed == {} && !run.stopped
  }

  /** The verdict is "passed" exactly when every pack ran, passed, and stopped nothing. */
  lemma {:induction false} PassedMeansAllPassed(packs: PackSet, outcome: string -> Item, order: seq<string>)
    requires forall p :: p in order ==> p in packs
    ensures var run := Execute(packs, outcome, order);
            && (run.verdict.Passed? <==> AllPassed(outcome, order))
            && (run.verdict.Passed? ==> RanClean(run, order))
            && (run.stopped ==> run.verdict.Failed?)
    decreases |order|
  {
    if order != [] {
      var shorter, last := order[..|order| - 1], order[|order| - 1];
      assert order == shorter + [last];
      PassedMeansAllPassed(packs, outcome, shorter);
      var run := Execute(packs, outcome, shorter);
      AllPassedGrows(outcome, shorter, last);
      if !run.stopped { VisitKeepsPassed(packs, outcome, shorter, run, last); }
    }
  }

  /** What the packs yield when they run their commands. */
  function ItemsOf(runs: string -> PackRun): string -> Item {
    (p: string) => PackItem(runs(p))
  }

  /** Down to the processes: a run passes exactly when, in every pack of the order, some command could run, and every
      one that could found the packet intact before and after it and ended clean, and the evidence is acceptable. */
  lemma RunPassesExactlyWhen(packs: PackSet, runs: string -> PackRun, order: seq<string>)
    requires forall p :: p in order ==> p in packs
    ensures Execute(packs, ItemsOf(runs), order).verdict.Passed? <==> forall p :: p in order ==> SoundPack(runs(p))
  {
    PassedMeansAllPassed(packs, ItemsOf(runs), order);
    forall p | p in order
      ensures ItemsOf(runs)(p).status.StatusPassed? && !DiagnosticStop(ItemsOf(runs)(p)) <==> SoundPack(runs(p))
    {
      PackPassedExactlyWhen(runs(p));
      if PackItem(runs(p)).status.StatusPassed? { PassedIsTrusted(runs(p)); }
    }
  }

  lemma AllPassedGrows(outcome: string -> Item, order: seq<string>, last: string)
    ensures AllPassed(outcome, order + [last]) <==>
              AllPassed(outcome, order) && outcome(last).status.StatusPassed? && !DiagnosticStop(outcome(last))
  {
    assert last in order + [last];
    assert forall p :: p in order ==> p in order + [last];
  }

  lemma VisitKeepsPassed(packs: PackSet, outcome: string -> Item, order: seq<string>, run: Run, pack: string)
    requires pack in packs && !run.stopped && (run.verdict.Passed? ==> RanClean(run, order))
    ensures var after := Visit(packs, outcome, run, pack);
            && (after.verdict.Passed? <==>
                  run.verdict.Passed? && outcome(pack).status.StatusPassed? && !DiagnosticStop(outcome(pack)))
            && (after.verdict.Passed? ==> RanClean(after, order + [pack]))
            && (after.stopped ==> after.verdict.Failed?)
  {
  }

  /** The verdict is "failed" exactly when the run was stopped, a pack failed severely,
      or a blocking pack was kept from running. */
  ghost predicate SevereFailure(packs: PackSet, outcome: string -> Item, run: Run) {
    || run.stopped
    || (exists p :: p in run.ran && p in packs && outcome(p).status.StatusFailed?
                    && (outcome(p).processFailures > 0 || packs[p].enforcement.Blocking?))
    || (exists p :: p in run.blocked && p in packs && packs[p].enforcement.Blocking?)
  }

  lemma {:induction false} FailedMeansSevere(packs: PackSet, outcome: string -> Item, order: seq<string>)
    requires Distinct(order) && forall p :: p in order ==> p in packs
    ensures var run := Execute(packs, outcome, order);
            run.verdict.Failed? <==> SevereFailure(packs, outcome, run)
    decreases |order|
  {
    if order != [] {
      var shorter := order[..|order| - 1];
      FailedMeansSevere(packs, outcome, shorter);
      var run := Execute(packs, outcome, shorter);
      if !run.stopped { VisitKeepsSevere(packs, outcome, run, order[|order| - 1]); }
    }
  }

  lemma StoppedExactlyWhen(packs: PackSet, outcome: string -> Item, order: seq<string>)
    requires Distinct(order) && forall p :: p in order ==> p in packs
    ensures var run := Execute(packs, outcome, order);
            run.stopped <==> exists p :: p in run.ran && DiagnosticStop(outcome(p))
  {
    var run := Execute(packs, outcome, order);
    var n := ExecuteAccounts(packs, outcome, order);
    if run.stopped { assert DiagnosticStop(outcome(run.ran[|run.ran| - 1])); }
    if p :| p in run.ran && DiagnosticStop(outcome(p)) {
      var i :| 0 <= i < |run.ran| && run.ran[i] == p;
      assert DiagnosticStop(run.evidence[i]);
    }
  }

  /** Down to the processes again: a run fails exactly when a pack that ran had refused evidence, a changed packet or an
      untrustworthy command, or failed and is blocking or had a command that ended badly; or when a blocking pack was
      kept from running. */
  lemma RunFailsExactlyWhen(packs: PackSet, runs: string -> PackRun, order: seq<string>)
    requires Distinct(order) && forall p :: p in order ==> p in packs
    ensures var run := Execute(packs, ItemsOf(runs), order);
            run.verdict.Failed? <==>
              || (exists p :: p in run.ran && StopsRun(runs(p)))
              || (exists p :: p in run.ran && p in packs && FailsPack(runs(p))
                              && (CountsFailure(runs(p)) || packs[p].enforcement == Blocking))
              || (exists p :: p in run.blocked && p in packs && packs[p].enforcement == Blocking)
  {
    FailedMeansSevere(packs, ItemsOf(runs), order);
    StoppedExactlyWhen(packs, ItemsOf(runs), order);
    forall p
      ensures DiagnosticStop(ItemsOf(runs)(p)) <==> StopsRun(runs(p))
      ensures ItemsOf(runs)(p).status.StatusFailed? <==> FailsPack(runs(p))
      ensures ItemsOf(runs)(p).processFailures > 0 <==> CountsFailure(runs(p))
    {
      ItemExactlyWhen(runs(p));
    }
  }

  /** A pack is kept from running by exactly those of its dependencies that failed or were kept from running. */
  lemma {:induction false} BlockedByFailures(packs: PackSet, outcome: string -> Item, order: seq<string>, p: string)
    requires Distinct(order) && DependenciesFirst(packs, order)
    requires (forall q :: q in order ==> q in packs) && p in packs && p in Execute(packs, outcome, order).blocked
    ensures var run := Execute(packs, outcome, order);
            && run.blocked[p] != {}
            && forall d :: d in run.blocked[p] <==>
                 d in packs[p].dependsOn && (d in run.blocked || (d in run.ran && outcome(d).status.StatusFailed?))
    decreases |order|
  {
    var shorter, last := order[..|order| - 1], order[|order| - 1];
    var run := Execute(packs, outcome, shorter);
    FrontIsDependenciesFirst(packs, order);
    if p in run.blocked {
      BlockedByFailures(packs, outcome, shorter, p);
    }
    if !run.stopped {
      var n := ExecuteAccounts(packs, outcome, shorter);
      assert shorter[..n] == shorter;
      BlockedAfter(packs, outcome, shorter, run, last, p);
    }
  }

  lemma BlockedAfter(packs: PackSet, outcome: string -> Item, reached: seq<string>, run: Run, pack: string, p: string)
    requires pack in packs && p in packs && pack !in reached && Accounted(packs, outcome, reached, run) && !run.stopped
    requires packs[pack].dependsOn <= Elements(reached) && (p in reached ==> packs[p].dependsOn <= Elements(reached))
    requires p in Visit(packs, outcome, run, pack).blocked
    requires p in run.blocked ==> run.blocked[p] != {} && forall d :: d in run.blocked[p] <==>
               d in packs[p].dependsOn && (d in run.blocked || (d in run.ran && outcome(d).status.StatusFailed?))
    ensures var after := Visit(packs, outcome, run, pack);
            && after.blocked[p] != {}
            && forall d :: d in after.blocked[p] <==>
                 d in packs[p].dependsOn && (d in after.blocked || (d in after.ran && outcome(d).status.StatusFailed?))
  {
    assert pack !in Elements(reached);
  }

  lemma VisitKeepsSevere(packs: PackSet, outcome: string -> Item, run: Run, pack: string)
    requires pack in packs && !run.stopped && (run.verdict.Failed? <==> SevereFailure(packs, outcome, run))
    ensures var after := Visit(packs, outcome, run, pack);
            after.verdict.Failed? <==> SevereFailure(packs, outcome, after)
  {
    var after := Visit(packs, outcome, run, pack);
    assert forall p :: p in run.ran ==> p in after.ran;
    assert forall p :: p in run.blocked ==> p in after.blocked;
    assert forall p :: p in after.ran ==> p in run.ran || p == pack;
    if run.failed * packs[pack].dependsOn != {} {
      assert pack in after.blocked && after.ran == run.ran;
    } else {
      assert after.ran[|after.ran| - 1] == pack && after.blocked == run.blocked;
    }
  }

  /** Planning and execution together: when the order of a ready plan is executed,
      nothing runs on a dependency that did not run or that failed. */
  lemma PlannedRunIsSound(packs: PackSet, request: Request, plan: Plan, outcome: string -> Item, p: string, d: string)
    requires PlanOf(packs, request, plan) && plan.Ready()
    requires forall q :: q in plan.order ==> q in packs
    requires p in Execute(packs, outcome, plan.order).ran && p in packs && d in packs[p].dependsOn
    ensures d in Execute(packs, outcome, plan.order).ran
    ensures !outcome(d).status.StatusFailed? && !DiagnosticStop(outcome(d))
  {
    forall i | 0 <= i < |plan.order| ensures packs[plan.order[i]].dependsOn <= Elements(plan.order[..i]) {
      var q := plan.order[i];
      assert q in Elements(plan.order);
      forall e | e in packs[q].dependsOn ensures e in Elements(plan.order[..i]) {
        assert e in DependsOn(packs)[q] && e in plan.prerequisites[q];
        assert e in Elements(plan.order);
        var k :| 0 <= k < |plan.order| && plan.order[k] == e;
        assert k < i && plan.order[..i][k] == e;
      }
    }
    RunsOnSoundDependencies(packs, outcome, plan.order, p, d);
  }
}
