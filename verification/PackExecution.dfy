/** `execution_commands.py` and `execute_pack`: what one pack's commands amount to. */
module PackExecution {
  import opened Results
  import opened TextOrder

  // ---------------------------------------------------------------- one process

  datatype FindingState = BlockingFinding | AdvisoryFinding | AcceptedFinding | WaivedFinding | SuppressedFinding

  /** A finding as a checker prints it: a text, or a record whose severity may be none of the known ones. */
  datatype RawFinding = TextFinding | RecordFinding(severity: Option<FindingState>)

  datatype Declared = DeclaresPassed | DeclaresWarning | DeclaresFailed | DeclaresNotApplicable | DeclaresOther

  datatype Envelope = Envelope(status: Declared, findings: seq<RawFinding>)

  /** How a process ended; the envelope is absent when its output is none. */
  datatype Process = Process(exitCode: int, termination: string, envelope: Option<Envelope>)

  datatype CommandStatus = CommandPassed | CommandWarning | CommandFailed | CommandNotApplicable

  datatype FailureKind =
    | NoFailure | CheckFailure | TimedOut | Cancelled | ExecutionFailure | InvalidOutput | IntegrityFailure

  /** The evidence of one command. */
  datatype CommandResult = CommandResult(
    status: CommandStatus, exitCode: int, termination: string, findings: seq<FindingState>, processFailure: bool,
    integrityFailure: bool, failure: FailureKind)

  predicate ProcessFailed(p: Process) { p.exitCode != 0 || p.termination != "completed" }

  /** The output is an envelope with a known status, and its records have known severities. */
  predicate ValidOutput(p: Process) {
    && p.envelope.Some? && !p.envelope.value.status.DeclaresOther?
    && RecordFinding(None) !in p.envelope.value.findings
  }

  /** A text counts by the verdict it comes with, and a record of unknown severity as blocking. */
  function StateOf(raw: RawFinding, failed: bool): FindingState {
    match raw
    case TextFinding => if failed then BlockingFinding else AdvisoryFinding
    case RecordFinding(severity) => if severity.Some? then severity.value else BlockingFinding
  }

  function Normal(raw: seq<RawFinding>, failed: bool): seq<FindingState> {
    seq(|raw|, i requires 0 <= i < |raw| => StateOf(raw[i], failed))
  }

  method NormalizedFindings(raw: seq<RawFinding>, failed: bool) returns (findings: seq<FindingState>)
    ensures findings == Normal(raw, failed)
  {
    findings := [];
    for i := 0 to |raw|
      invariant findings == Normal(raw, failed)[..i]
    {
      findings := findings + [StateOf(raw[i], failed)];
    }
  }

  function Reported(p: Process): seq<FindingState> {
    if p.envelope.None? then []
    else Normal(p.envelope.value.findings, ProcessFailed(p) || p.envelope.value.status.DeclaresFailed?)
  }

  function FailureOf(p: Process, status: CommandStatus, reportedBlocking: bool): FailureKind {
    if !status.CommandFailed? then NoFailure
    else if p.termination == "timeout" then TimedOut
    else if p.termination == "cancelled" then Cancelled
    else if p.termination != "completed" then ExecutionFailure
    else if !ValidOutput(p) then InvalidOutput
    else if p.exitCode < 0 then ExecutionFailure
    else if reportedBlocking then CheckFailure else ExecutionFailure
  }

  /** The findings of a process, with those that its missing envelope or unknown status adds. */
  function Counted(p: Process): seq<FindingState> {
    Reported(p) + if p.envelope.None? || p.envelope.value.status.DeclaresOther? then [BlockingFinding] else []
  }

  lemma InvalidOutputBlocks(p: Process)
    requires !ValidOutput(p)
    ensures BlockingFinding in Counted(p)
  {
    if p.envelope.Some? && !p.envelope.value.status.DeclaresOther? {
      var raw := p.envelope.value.findings;
      var k :| 0 <= k < |raw| && raw[k] == RecordFinding(None);
      assert Reported(p)[k] == BlockingFinding && Counted(p)[k] == Reported(p)[k];
    }
  }

  /** The process as evidence. It fails exactly when its evidence holds a blocking finding. */
  function NormalizedCommand(p: Process): (c: CommandResult)
    ensures c.status.CommandFailed? <==> BlockingFinding in c.findings
    ensures c.processFailure || c.integrityFailure ==> c.status.CommandFailed?
    ensures c.failure.NoFailure? <==> !c.status.CommandFailed?
    ensures c.status.CommandWarning? <==> !c.status.CommandFailed? && AdvisoryFinding in c.findings
    ensures c.exitCode == p.exitCode && c.termination == p.termination
    ensures c.processFailure <==> p.exitCode != 0 || p.termination != "completed"
  {
    var findings, failed := Counted(p), ProcessFailed(p);
    var blocking := BlockingFinding in findings;
    assert ValidOutput(p) || blocking by { if !ValidOutput(p) { InvalidOutputBlocks(p); } }
    var declaredFailed := p.envelope.None? || p.envelope.value.status in {DeclaresFailed, DeclaresOther};
    var status :=
      if failed || declaredFailed || blocking then CommandFailed
      else if AdvisoryFinding in findings then CommandWarning
      else if p.envelope.value.status.DeclaresNotApplicable? then CommandNotApplicable
      else CommandPassed;
    var unproven := status.CommandFailed? && !blocking;
    CommandResult(
      status, p.exitCode, p.termination, if unproven then findings + [BlockingFinding] else findings, failed,
      !failed && (!ValidOutput(p) || unproven), FailureOf(p, status, blocking))
  }

  /** A process that has nothing to say against the change: it ended well, declared so, and what it found is settled. */
  predicate Clean(p: Process) {
    && p.exitCode == 0 && p.termination == "completed"
    && p.envelope.Some? && p.envelope.value.status in {DeclaresPassed, DeclaresWarning, DeclaresNotApplicable}
    && forall f :: f in p.envelope.value.findings ==>
         f in {RecordFinding(Some(AcceptedFinding)), RecordFinding(Some(WaivedFinding)),
               RecordFinding(Some(SuppressedFinding))}
  }

  /** A process that speaks against the change: it ended badly, declared so or nothing known, or found something that
      blocks, of unknown severity included. */
  predicate Bad(p: Process) {
    || p.exitCode != 0 || p.termination != "completed"
    || p.envelope.None? || p.envelope.value.status in {DeclaresFailed, DeclaresOther}
    || RecordFinding(None) in p.envelope.value.findings
    || RecordFinding(Some(BlockingFinding)) in p.envelope.value.findings
  }

  lemma ReportedIn(p: Process, state: FindingState)
    requires p.envelope.Some?
    ensures var failed := ProcessFailed(p) || p.envelope.value.status.DeclaresFailed?;
            state in Reported(p) <==> exists f :: f in p.envelope.value.findings && StateOf(f, failed) == state
  {
    var raw, failed := p.envelope.value.findings, ProcessFailed(p) || p.envelope.value.status.DeclaresFailed?;
    if state in Reported(p) {
      var i :| 0 <= i < |raw| && Reported(p)[i] == state;
      assert raw[i] in raw;
    }
    if f :| f in raw && StateOf(f, failed) == state {
      var i :| 0 <= i < |raw| && raw[i] == f;
      assert Reported(p)[i] == state;
    }
  }

  /** A command passes, or does not apply, exactly when its process is clean. */
  lemma CleanExactlyWhen(p: Process)
    ensures NormalizedCommand(p).status in {CommandPassed, CommandNotApplicable} <==> Clean(p)
  {
    FindingsOfUnfailed(p);
    if p.envelope.Some? {
      forall f | f in p.envelope.value.findings
        ensures || f in {TextFinding, RecordFinding(None), RecordFinding(Some(AdvisoryFinding))}
                || f == RecordFinding(Some(BlockingFinding))
                || f in {RecordFinding(Some(AcceptedFinding)), RecordFinding(Some(WaivedFinding)),
                         RecordFinding(Some(SuppressedFinding))}
      {
        match f
        case TextFinding =>
        case RecordFinding(None) =>
        case RecordFinding(Some(BlockingFinding)) =>
        case RecordFinding(Some(AdvisoryFinding)) =>
        case RecordFinding(Some(AcceptedFinding)) =>
        case RecordFinding(Some(WaivedFinding)) =>
        case RecordFinding(Some(SuppressedFinding)) =>
      }
    }
  }

  /** Unless the process failed or declared failure, texts are advisory and records of unknown severity block. */
  lemma FindingsOfUnfailed(p: Process)
    ensures p.envelope.Some? && !ProcessFailed(p) && !p.envelope.value.status.DeclaresFailed? ==>
              var findings := p.envelope.value.findings;
              && (BlockingFinding in Reported(p) <==>
                    RecordFinding(None) in findings || RecordFinding(Some(BlockingFinding)) in findings)
              && (AdvisoryFinding in Reported(p) <==>
                    TextFinding in findings || RecordFinding(Some(AdvisoryFinding)) in findings)
  {
    if p.envelope.Some? {
      ReportedIn(p, BlockingFinding);
      ReportedIn(p, AdvisoryFinding);
      assert StateOf(TextFinding, false) == AdvisoryFinding && StateOf(RecordFinding(None), false) == BlockingFinding;
      assert StateOf(RecordFinding(Some(AdvisoryFinding)), false) == AdvisoryFinding;
      assert StateOf(RecordFinding(Some(BlockingFinding)), false) == BlockingFinding;
    }
  }

  /** Which of the four verdicts a process gets. */
  lemma VerdictExactlyWhen(p: Process)
    ensures var status := NormalizedCommand(p).status;
            && (status == CommandFailed <==> Bad(p))
            && (status == CommandWarning <==>
                  !Bad(p) && (TextFinding in p.envelope.value.findings
                              || RecordFinding(Some(AdvisoryFinding)) in p.envelope.value.findings))
            && (status == CommandNotApplicable <==> Clean(p) && p.envelope.value.status == DeclaresNotApplicable)
  {
    FindingsOfUnfailed(p);
    CleanExactlyWhen(p);
  }

  /** The kind of failure that is kept of a bad process. */
  lemma FailureKindExactlyWhen(p: Process)
    ensures var failure := NormalizedCommand(p).failure;
            && (failure == NoFailure <==> !Bad(p))
            && (failure == TimedOut <==> p.termination == "timeout")
            && (failure == Cancelled <==> p.termination == "cancelled")
            && (failure == InvalidOutput <==>
                  p.termination == "completed"
                  && (p.envelope.None? || p.envelope.value.status == DeclaresOther
                      || RecordFinding(None) in p.envelope.value.findings))
            && (failure == CheckFailure <==>
                  && p.exitCode >= 0 && p.termination == "completed"
                  && p.envelope.Some? && p.envelope.value.status != DeclaresOther
                  && RecordFinding(None) !in p.envelope.value.findings
                  && (RecordFinding(Some(BlockingFinding)) in p.envelope.value.findings
                      || (TextFinding in p.envelope.value.findings
                          && (p.exitCode > 0 || p.envelope.value.status == DeclaresFailed))))
            && failure != IntegrityFailure
  {
    VerdictExactlyWhen(p);
    FindingsOfUnfailed(p);
    FindingsOfFailed(p);
  }

  /** If it did, texts block too. */
  lemma FindingsOfFailed(p: Process)
    ensures p.envelope.Some? && (ProcessFailed(p) || p.envelope.value.status.DeclaresFailed?) ==>
              var findings := p.envelope.value.findings;
              BlockingFinding in Reported(p) <==>
                || TextFinding in findings || RecordFinding(None) in findings
                || RecordFinding(Some(BlockingFinding)) in findings
  {
    if p.envelope.Some? {
      ReportedIn(p, BlockingFinding);
      assert StateOf(RecordFinding(None), true) == BlockingFinding && StateOf(TextFinding, true) == BlockingFinding;
      assert StateOf(RecordFinding(Some(BlockingFinding)), true) == BlockingFinding;
    }
  }

  /** An ordinary verdict: exit status 0 or 1 with a valid envelope, and a failure only with a blocking finding. */
  predicate Ordinary(p: Process) {
    && p.exitCode in {0, 1} && p.termination == "completed"
    && p.envelope.Some? && p.envelope.value.status != DeclaresOther && RecordFinding(None) !in p.envelope.value.findings
    && (p.exitCode == 1 || p.envelope.value.status == DeclaresFailed ==>
          TextFinding in p.envelope.value.findings
          || RecordFinding(Some(BlockingFinding)) in p.envelope.value.findings)
  }

  /** The runner cannot trust this command's verdict. */
  predicate Untrusted(c: CommandResult) {
    c.failure !in {NoFailure, CheckFailure} || c.exitCode !in {0, 1} || c.termination != "completed"
  }

  lemma OrdinaryExactlyWhen(p: Process)
    ensures var c := NormalizedCommand(p); !Untrusted(c) && !c.integrityFailure <==> Ordinary(p)
  {
    FindingsOfFailed(p);
    FindingsOfUnfailed(p);
  }

  // ---------------------------------------------------------------- one pack

  datatype Status = StatusPassed | StatusWarning | StatusFailed

  /** One command of a pack: not runnable at this stage or without its arguments, or a process between two looks at the
      change packet. */
  datatype Trial = NotRunnable | Runnable(intactBefore: bool, process: Process, intactAfter: bool)

  /** The evidence manifest a pack leaves; `UnusableManifest` is no regular file, or no document of its schema. */
  datatype Manifest = NoManifest | UnusableManifest | Manifest(size: nat, claims: seq<string>, subject: string)

  const MAX_MANIFEST_BYTES: nat := 65536

  /** Everything that happens when a pack runs. */
  datatype PackRun = PackRun(trials: seq<Trial>, failFast: bool, manifest: Manifest, subject: Option<string>)

  /** The evidence of one pack that ran, and why it ended early, if it did. */
  datatype Item = Item(
    status: Status, invalidManifest: bool, integrityFailures: nat, processFailures: nat, commands: seq<CommandResult>,
    termination: Option<string>)

  predicate ManifestRefused(m: Manifest, subject: Option<string>) {
    match m
    case NoManifest => false
    case UnusableManifest => true
    case Manifest(size, claims, about) => size > MAX_MANIFEST_BYTES || !Distinct(claims) || subject != Some(about)
  }

  /** A command around which the packet has changed is refused, whatever its process did. */
  function Tried(t: Trial): CommandResult
    requires t.Runnable?
  {
    if !t.intactBefore then
      CommandResult(CommandFailed, 1, "packet-integrity", [BlockingFinding], false, true, IntegrityFailure)
    else
      var c := NormalizedCommand(t.process);
      if t.intactAfter then c
      else c.(status := CommandFailed, termination := "packet-integrity", findings := c.findings + [BlockingFinding],
              integrityFailure := true, failure := IntegrityFailure)
  }

  datatype Progress = Progress(commands: seq<CommandResult>, status: Status, termination: Option<string>, stopped: bool)

  function TryNext(p: Progress, t: Trial, failFast: bool): Progress {
    if t.NotRunnable? then p
    else
      var c := Tried(t);
      var commands := p.commands + [c];
      if c.status.CommandFailed? then Progress(commands, StatusFailed, Some(c.termination), failFast)
      else if c.status.CommandWarning? && p.status.StatusPassed? then p.(commands := commands, status := StatusWarning)
      else p.(commands := commands)
  }

  function Try(trials: seq<Trial>, failFast: bool): Progress {
    if trials == [] then Progress([], StatusPassed, None, false)
    else
      var p := Try(trials[..|trials| - 1], failFast);
      if p.stopped then p else TryNext(p, trials[|trials| - 1], failFast)
  }

  function Count(commands: seq<CommandResult>, counts: CommandResult -> bool): nat {
    if commands == [] then 0
    else Count(commands[..|commands| - 1], counts) + if counts(commands[|commands| - 1]) then 1 else 0
  }

  function PackItem(run: PackRun): Item {
    var p, refused := Try(run.trials, run.failFast), ManifestRefused(run.manifest, run.subject);
    Item(if p.commands == [] || refused then StatusFailed else p.status, refused,
         Count(p.commands, (c: CommandResult) => c.integrityFailure),
         Count(p.commands, (c: CommandResult) => c.processFailure), p.commands, p.termination)
  }

  lemma {:induction false} StoppedStays(trials: seq<Trial>, failFast: bool, n: nat)
    requires n <= |trials| && Try(trials[..n], failFast).stopped
    ensures Try(trials, failFast) == Try(trials[..n], failFast)
    decreases |trials|
  {
    if n < |trials| {
      var shorter := trials[..|trials| - 1];
      assert shorter[..n] == trials[..n];
      StoppedStays(shorter, failFast, n);
    } else {
      assert trials[..n] == trials;
    }
  }

  /** The loop over a pack's commands, left at the first failure of a pack that fails fast, amounts to `PackItem`. */
  method ExecutePack(run: PackRun) returns (item: Item)
    ensures item == PackItem(run)
  {
    var commands: seq<CommandResult>, status, termination: Option<string> := [], StatusPassed, None;
    var i, stopped := 0, false;
    while i < |run.trials| && !stopped
      invariant i <= |run.trials|
      invariant Try(run.trials[..i], run.failFast) == Progress(commands, status, termination, stopped)
    {
      assert run.trials[..i + 1][..i] == run.trials[..i];
      var t := run.trials[i];
      i := i + 1;
      if t.NotRunnable? { continue; }
      var command := Tried(t);
      commands := commands + [command];
      if command.status.CommandFailed? {
        status, termination, stopped := StatusFailed, Some(command.termination), run.failFast;
      } else if command.status.CommandWarning? && status.StatusPassed? {
        status := StatusWarning;
      }
    }
    if stopped { StoppedStays(run.trials, run.failFast, i); }
    else { assert run.trials[..i] == run.trials; }
    var refused := ManifestRefused(run.manifest, run.subject);
    if commands == [] || refused { status := StatusFailed; }
    item := Item(status, refused, Count(commands, (c: CommandResult) => c.integrityFailure),
                 Count(commands, (c: CommandResult) => c.processFailure), commands, termination);
  }

  // ---------------------------------------------------------------- what a pack's verdict means

  predicate Fails(t: Trial) { t.Runnable? && (!t.intactBefore || !t.intactAfter || Bad(t.process)) }

  /** The manifest, if there is one, is small enough, usable, claims nothing twice, and is about the run's subject. */
  predicate Acceptable(m: Manifest, subject: Option<string>) {
    m.NoManifest?
    || (m.Manifest? && m.size <= 65536 && Some(m.subject) == subject
        && forall i, k :: 0 <= i < k < |m.claims| ==> m.claims[i] != m.claims[k])
  }

  lemma AcceptableExactlyWhen(m: Manifest, subject: Option<string>)
    ensures Acceptable(m, subject) <==> !ManifestRefused(m, subject)
  {
  }

  lemma FailsExactlyWhen(t: Trial)
    requires t.Runnable?
    ensures Fails(t) <==> Tried(t).status.CommandFailed?
  {
    VerdictExactlyWhen(t.process);
  }

  /** The packet was intact around the command, and its process had nothing to say against the change. */
  predicate Sound(t: Trial) { t.Runnable? ==> t.intactBefore && t.intactAfter && Clean(t.process) }

  predicate SoundPack(run: PackRun) {
    && (exists t :: t in run.trials && t.Runnable?)
    && (forall t :: t in run.trials ==> Sound(t))
    && Acceptable(run.manifest, run.subject)
  }

  lemma SoundExactlyWhen(t: Trial)
    requires t.Runnable?
    ensures Sound(t) <==> Tried(t).status in {CommandPassed, CommandNotApplicable}
  {
    CleanExactlyWhen(t.process);
  }

  /** What the loop has come to after `trials`. */
  ghost predicate Judged(trials: seq<Trial>, p: Progress) {
    && (p.status.StatusFailed? <==> exists t :: t in trials && Fails(t))
    && (p.status.StatusPassed? <==> forall t :: t in trials ==> Sound(t))
    && (p.stopped ==> p.status.StatusFailed?)
    && (p.commands == [] <==> forall t :: t in trials ==> t.NotRunnable?)
  }

  lemma {:induction false} TryJudges(trials: seq<Trial>, failFast: bool)
    ensures Judged(trials, Try(trials, failFast))
    decreases |trials|
  {
    if trials != [] {
      var shorter, last := trials[..|trials| - 1], trials[|trials| - 1];
      assert trials == shorter + [last];
      TryJudges(shorter, failFast);
      if last.Runnable? {
        SoundExactlyWhen(last);
        FailsExactlyWhen(last);
      }
      var p := Try(shorter, failFast);
      if p.stopped {
        var t :| t in shorter && Fails(t);
        SoundExactlyWhen(t);
        FailsExactlyWhen(t);
        assert t in trials && t.Runnable?;
      } else {
        TryNextJudges(shorter, last, p, failFast);
      }
    }
  }

  lemma TryNextJudges(trials: seq<Trial>, t: Trial, p: Progress, failFast: bool)
    requires Judged(trials, p) && !p.stopped
    requires t.Runnable? ==> (Sound(t) <==> Tried(t).status in {CommandPassed, CommandNotApplicable})
    requires t.Runnable? ==> (Fails(t) <==> Tried(t).status.CommandFailed?)
    ensures Judged(trials + [t], TryNext(p, t, failFast))
  {
    var next := TryNext(p, t, failFast);
    assert next.status.StatusFailed? <==> p.status.StatusFailed? || Fails(t);
    assert next.status.StatusPassed? <==> p.status.StatusPassed? && Sound(t);
    JudgedGrows(trials, t, p, next);
  }

  lemma JudgedGrows(trials: seq<Trial>, t: Trial, p: Progress, next: Progress)
    requires Judged(trials, p)
    requires next.status.StatusFailed? <==> p.status.StatusFailed? || Fails(t)
    requires next.status.StatusPassed? <==> p.status.StatusPassed? && Sound(t)
    requires next.stopped ==> next.status.StatusFailed?
    requires next.commands == [] <==> p.commands == [] && t.NotRunnable?
    ensures Judged(trials + [t], next)
  {
    assert t in trials + [t];
    assert forall u :: u in trials + [t] <==> u in trials || u == t;
  }

  /** A pack passes exactly when some command could run, every one that could found the packet intact before and after
      it and ended clean, and the evidence it left, if any, is acceptable. */
  lemma PackPassedExactlyWhen(run: PackRun)
    ensures PackItem(run).status.StatusPassed? <==> SoundPack(run)
  {
    TryJudges(run.trials, run.failFast);
    AcceptableExactlyWhen(run.manifest, run.subject);
  }

  /** It fails exactly when no command could run, one that could failed, or its evidence is refused. */
  lemma PackFailedExactlyWhen(run: PackRun)
    ensures PackItem(run).status.StatusFailed? <==>
              || (forall t :: t in run.trials ==> t.NotRunnable?)
              || (exists t :: t in run.trials && Fails(t))
              || !Acceptable(run.manifest, run.subject)
  {
    TryJudges(run.trials, run.failFast);
    AcceptableExactlyWhen(run.manifest, run.subject);
  }

  function TriedIn(trials: seq<Trial>): seq<CommandResult> {
    if trials == [] then []
    else
      var t := trials[|trials| - 1];
      TriedIn(trials[..|trials| - 1]) + if t.Runnable? then [Tried(t)] else []
  }

  /** The evidence is that of the first `n` commands: all of them, or up to the first failure of a pack that fails fast.
      The reason why the pack ended early is that of the last failure among them. */
  ghost predicate TriedFirst(run: PackRun, item: Item, n: nat) {
    && n <= |run.trials| && item.commands == TriedIn(run.trials[..n])
    && (n < |run.trials| ==> run.failFast && n > 0 && Fails(run.trials[n - 1]))
    && (run.failFast ==> OnlyLastFails(run.trials[..n]))
    && item.termination == LastFailure(item.commands)
  }

  function LastFailure(commands: seq<CommandResult>): Option<string> {
    if commands == [] then None
    else
      var c := commands[|commands| - 1];
      if c.status.CommandFailed? then Some(c.termination) else LastFailure(commands[..|commands| - 1])
  }

  /** The loop has gone through all of `trials`. */
  ghost predicate WentThrough(trials: seq<Trial>, failFast: bool, p: Progress) {
    && p.commands == TriedIn(trials) && p.termination == LastFailure(p.commands)
    && (failFast ==> OnlyLastFails(trials))
    && (p.stopped <==> failFast && trials != [] && Fails(trials[|trials| - 1]))
  }

  lemma LastOfAppend(commands: seq<CommandResult>, c: CommandResult)
    ensures LastFailure(commands + [c]) ==
              if c.status.CommandFailed? then Some(c.termination) else LastFailure(commands)
  {
    assert (commands + [c])[..|commands|] == commands;
  }

  lemma TriedAppend(trials: seq<Trial>, t: Trial)
    ensures TriedIn(trials + [t]) == TriedIn(trials) + if t.Runnable? then [Tried(t)] else []
  {
    assert (trials + [t])[..|trials|] == trials;
  }

  /** What one more command adds to the evidence and to the reason. */
  lemma TryNextAdds(p: Progress, t: Trial, failFast: bool)
    requires p.termination == LastFailure(p.commands) && !p.stopped
    ensures var next := TryNext(p, t, failFast);
            && next.commands == p.commands + (if t.Runnable? then [Tried(t)] else [])
            && next.termination == LastFailure(next.commands)
            && (next.stopped <==> failFast && Fails(t))
  {
    if t.Runnable? {
      LastOfAppend(p.commands, Tried(t));
      FailsExactlyWhen(t);
    }
  }

  predicate OnlyLastFails(trials: seq<Trial>) {
    forall i :: 0 <= i < |trials| - 1 ==> !Fails(trials[i])
  }

  lemma OnlyLastAppend(trials: seq<Trial>, t: Trial)
    requires OnlyLastFails(trials) && (trials != [] ==> !Fails(trials[|trials| - 1]))
    ensures OnlyLastFails(trials + [t])
  {
  }

  lemma TryNextGoesThrough(trials: seq<Trial>, t: Trial, failFast: bool, p: Progress)
    requires WentThrough(trials, failFast, p) && !p.stopped
    ensures WentThrough(trials + [t], failFast, TryNext(p, t, failFast))
  {
    TriedAppend(trials, t);
    TryNextAdds(p, t, failFast);
    if failFast { OnlyLastAppend(trials, t); }
  }

  lemma {:induction false} TryReaches(trials: seq<Trial>, failFast: bool) returns (n: nat)
    ensures n <= |trials| && WentThrough(trials[..n], failFast, Try(trials, failFast))
    ensures n < |trials| ==> Try(trials, failFast).stopped
    decreases |trials|
  {
    if trials == [] {
      n := 0;
    } else {
      var shorter := trials[..|trials| - 1];
      n := TryReaches(shorter, failFast);
      assert shorter[..n] == trials[..n];
      if !Try(shorter, failFast).stopped {
        n := |trials|;
        assert shorter[..|shorter|] == shorter && trials[..n] == trials == shorter + [trials[|trials| - 1]];
        TryAppend(shorter, trials[|trials| - 1], failFast);
      }
    }
  }

  lemma TryAppend(shorter: seq<Trial>, last: Trial, failFast: bool)
    requires !Try(shorter, failFast).stopped && WentThrough(shorter, failFast, Try(shorter, failFast))
    ensures WentThrough(shorter + [last], failFast, Try(shorter + [last], failFast))
  {
    TryNextGoesThrough(shorter, last, failFast, Try(shorter, failFast));
    TryOne(shorter, last, failFast);
  }

  lemma TryOne(shorter: seq<Trial>, last: Trial, failFast: bool)
    requires !Try(shorter, failFast).stopped
    ensures Try(shorter + [last], failFast) == TryNext(Try(shorter, failFast), last, failFast)
  {
    assert (shorter + [last])[..|shorter|] == shorter;
  }

  /** What is kept of a pack that ran. */
  lemma PackTriesInOrder(run: PackRun) returns (n: nat)
    ensures TriedFirst(run, PackItem(run), n)
  {
    n := TryReaches(run.trials, run.failFast);
    assert WentThrough(run.trials[..n], run.failFast, Try(run.trials, run.failFast));
  }

  /** The evidence of the pack is not to be trusted further: the run ends with it. */
  predicate DiagnosticStop(item: Item) {
    || item.invalidManifest
    || item.integrityFailures > 0
    || exists c | c in item.commands :: Untrusted(c)
  }

  predicate Trusted(t: Trial) { t.Runnable? ==> t.intactBefore && t.intactAfter && Ordinary(t.process) }

  lemma {:induction false} CountsSome(commands: seq<CommandResult>, counts: CommandResult -> bool)
    ensures Count(commands, counts) > 0 <==> exists c :: c in commands && counts(c)
    decreases |commands|
  {
    if commands != [] {
      var shorter, last := commands[..|commands| - 1], commands[|commands| - 1];
      assert commands == shorter + [last];
      CountsSome(shorter, counts);
    }
  }

  lemma TrustedExactlyWhen(t: Trial)
    requires t.Runnable?
    ensures Trusted(t) <==> !Untrusted(Tried(t)) && !Tried(t).integrityFailure
  {
    OrdinaryExactlyWhen(t.process);
  }

  lemma {:induction false} TriedAreTrusted(trials: seq<Trial>)
    ensures (forall t :: t in trials ==> Trusted(t)) <==>
              forall c :: c in TriedIn(trials) ==> !Untrusted(c) && !c.integrityFailure
    decreases |trials|
  {
    if trials != [] {
      var shorter, last := trials[..|trials| - 1], trials[|trials| - 1];
      assert trials == shorter + [last];
      TriedAreTrusted(shorter);
      if last.Runnable? { TrustedExactlyWhen(last); }
    }
  }

  /** A pack stops the run exactly when its evidence is refused, or one of the commands that were reached found the
      packet changed or gave no ordinary verdict. */
  lemma StopExactlyWhen(run: PackRun) returns (n: nat)
    ensures TriedFirst(run, PackItem(run), n)
    ensures DiagnosticStop(PackItem(run)) <==>
              !Acceptable(run.manifest, run.subject) || exists t :: t in run.trials[..n] && !Trusted(t)
  {
    AcceptableExactlyWhen(run.manifest, run.subject);
    n := PackTriesInOrder(run);
    TriedAreTrusted(run.trials[..n]);
    CountsSome(PackItem(run).commands, (c: CommandResult) => c.integrityFailure);
  }

  /** The runner looked at the packet, started the command, and the process did not end by itself with 0. */
  predicate EndsBadly(t: Trial) {
    t.Runnable? && t.intactBefore && (t.process.exitCode != 0 || t.process.termination != "completed")
  }

  lemma {:induction false} TriedEndBadly(trials: seq<Trial>)
    ensures (exists c :: c in TriedIn(trials) && c.processFailure) <==> exists t :: t in trials && EndsBadly(t)
    decreases |trials|
  {
    if trials != [] {
      var shorter, last := trials[..|trials| - 1], trials[|trials| - 1];
      assert trials == shorter + [last];
      TriedEndBadly(shorter);
      assert last.Runnable? ==> (Tried(last).processFailure <==> EndsBadly(last));
    }
  }

  /** A pack counts a process failure exactly when a command that was reached ended badly. */
  lemma ProcessFailureExactlyWhen(run: PackRun) returns (n: nat)
    ensures TriedFirst(run, PackItem(run), n)
    ensures PackItem(run).processFailures > 0 <==> exists t :: t in run.trials[..n] && EndsBadly(t)
  {
    n := PackTriesInOrder(run);
    TriedEndBadly(run.trials[..n]);
    CountsSome(PackItem(run).commands, (c: CommandResult) => c.processFailure);
  }

  /** The commands a pack reaches: all, or those that no failure comes before in a pack that fails fast. */
  predicate Reaches(run: PackRun, i: nat) {
    i < |run.trials| && (run.failFast ==> forall k :: 0 <= k < i ==> !Fails(run.trials[k]))
  }

  lemma ReachesExactlyWhen(run: PackRun, n: nat, i: nat)
    requires TriedFirst(run, PackItem(run), n)
    ensures i < n <==> Reaches(run, i)
  {
    if i < n { assert run.failFast ==> forall k :: 0 <= k < i ==> !Fails(run.trials[..n][k]); }
  }

  predicate StopsRun(run: PackRun) {
    || !Acceptable(run.manifest, run.subject)
    || exists i :: 0 <= i < |run.trials| && Reaches(run, i) && !Trusted(run.trials[i])
  }

  predicate FailsPack(run: PackRun) {
    || (forall t :: t in run.trials ==> t.NotRunnable?)
    || (exists t :: t in run.trials && Fails(t))
    || !Acceptable(run.manifest, run.subject)
  }

  predicate CountsFailure(run: PackRun) {
    exists i :: 0 <= i < |run.trials| && Reaches(run, i) && EndsBadly(run.trials[i])
  }

  /** What the run learns of a pack, in terms of its processes alone. */
  lemma ItemExactlyWhen(run: PackRun)
    ensures DiagnosticStop(PackItem(run)) <==> StopsRun(run)
    ensures PackItem(run).status.StatusFailed? <==> FailsPack(run)
    ensures PackItem(run).processFailures > 0 <==> CountsFailure(run)
  {
    PackFailedExactlyWhen(run);
    var n := StopExactlyWhen(run);
    StopsOnReached(run, n);
    n := ProcessFailureExactlyWhen(run);
    CountsReached(run, n);
  }

  lemma StopsOnReached(run: PackRun, n: nat)
    requires TriedFirst(run, PackItem(run), n)
    ensures StopsRun(run) <==>
              !Acceptable(run.manifest, run.subject) || exists t :: t in run.trials[..n] && !Trusted(t)
  {
    forall i: nat ensures i < n <==> Reaches(run, i) { ReachesExactlyWhen(run, n, i); }
    if t :| t in run.trials[..n] && !Trusted(t) {
      var i :| 0 <= i < n && run.trials[..n][i] == t;
      assert Reaches(run, i) && run.trials[i] == t;
    }
    if i :| 0 <= i < |run.trials| && Reaches(run, i) && !Trusted(run.trials[i]) {
      assert run.trials[..n][i] == run.trials[i];
    }
  }

  lemma CountsReached(run: PackRun, n: nat)
    requires TriedFirst(run, PackItem(run), n)
    ensures CountsFailure(run) <==> exists t :: t in run.trials[..n] && EndsBadly(t)
  {
    forall i: nat ensures i < n <==> Reaches(run, i) { ReachesExactlyWhen(run, n, i); }
    if t :| t in run.trials[..n] && EndsBadly(t) {
      var i :| 0 <= i < n && run.trials[..n][i] == t;
      assert Reaches(run, i) && run.trials[i] == t;
    }
    if i :| 0 <= i < |run.trials| && Reaches(run, i) && EndsBadly(run.trials[i]) {
      assert run.trials[..n][i] == run.trials[i];
    }
  }

  lemma CleanIsOrdinary(p: Process)
    requires Clean(p)
    ensures Ordinary(p)
  {
  }

  /** A pack that passes never stops the run. */
  lemma PassedIsTrusted(run: PackRun)
    requires PackItem(run).status.StatusPassed?
    ensures !DiagnosticStop(PackItem(run))
  {
    PackPassedExactlyWhen(run);
    var n := StopExactlyWhen(run);
    forall t | t in run.trials[..n] ensures Trusted(t) {
      assert t in run.trials && Sound(t);
      if t.Runnable? { CleanIsOrdinary(t.process); }
    }
  }
}
