/** Which environment a command runs that entered through the pointer, and which one is active. */
module StartupReaders {
  import opened Results
  import opened StartupState
  import opened StartupSteps
  import opened StartupProtocol
  import opened StartupSafety
  import opened StartupTheorems

  // ---------------------------------------------------------------- what is decided

  /** The environment that the worktree is committed to: what a pending update or conversion would settle on now. */
  function Decided(d: Disk): Option<Environment> {
    if d.journal.Some? then Some(TargetEnvironment(d.journal.value, d.head))
    else if d.enabling.Some? then
      Some(if d.pointer.Link? then d.enabling.value.candidate else d.enabling.value.original)
    else if d.pointer.Missing? then None
    else Some(d.pointer.env)
  }

  /** Nothing was decided between: the same environment, the same committed lock, and the pointer as much a link. */
  predicate SameDecision(a: Disk, b: Disk) {
    Decided(a) == Decided(b) && a.head.lock == b.head.lock && (a.pointer.Link? <==> b.pointer.Link?)
  }

  /** A later release is committed, or the directory has become a link. */
  predicate Advanced(a: Disk, b: Disk) {
    Eligible(a.head.lock, b.head.lock) || (a.head.lock == b.head.lock && !a.pointer.Link? && b.pointer.Link?)
  }

  predicate LaterDecision(a: Disk, b: Disk) {
    Advanced(a, b) && Decided(a) != Decided(b) && (a.pointer.Link? ==> b.pointer.Link?)
  }

  /** What is decided is installed from the committed lock. */
  predicate DecidedMatches(d: Disk) { Decided(d).Some? && Decided(d).value.lock == d.head.lock }

  lemma RestMatches(s: State)
    requires Inv(s)
    ensures DecidedMatches(s.disk)
  {
  }

  lemma DecisionsCompose(a: Disk, b: Disk, c: Disk)
    requires DecidedMatches(a) && DecidedMatches(b) && DecidedMatches(c)
    requires SameDecision(a, b) || LaterDecision(a, b)
    requires SameDecision(b, c) || LaterDecision(b, c)
    ensures SameDecision(a, c) || LaterDecision(a, c)
    ensures SameDecision(a, c) <==> SameDecision(a, b) && SameDecision(b, c)
  {
  }

  // ---------------------------------------------------------------- one step

  /** A later release is decided exactly when its lock is committed; nothing else changes the decision. */
  predicate DecidesByCommit(d: Disk, d': Disk) {
    if d.head.lock != d'.head.lock then LaterDecision(d, d') else SameDecision(d, d')
  }

  lemma CommitDecides(j: Journal, recovering: bool, d: Disk, d': Disk, j': Journal, next: Option<Point>)
    requires ReachedPoint(j, AtCommit, d) && UpdateStep(j, AtCommit, recovering, d, d', j', next)
    ensures DecidesByCommit(d, d')
  {
    assert TargetEnvironment(d.journal.value, d'.head) == TargetEnvironment(j, d'.head);
  }

  lemma JournalWriteDecides(j: Journal, point: Point, recovering: bool, d: Disk, d': Disk, j': Journal,
                            next: Option<Point>)
    requires point in {AtWriteJournal, AtRemoveJournal, AtRemoveRestored}
    requires ReachedPoint(j, point, d) && UpdateStep(j, point, recovering, d, d', j', next)
    ensures DecidesByCommit(d, d')
  {
  }

  lemma OtherWriteDecides(j: Journal, point: Point, recovering: bool, d: Disk, d': Disk, j': Journal,
                          next: Option<Point>)
    requires !point.AtCommit? && point !in {AtWriteJournal, AtRemoveJournal, AtRemoveRestored}
    requires ReachedPoint(j, point, d) && UpdateStep(j, point, recovering, d, d', j', next)
    ensures DecidesByCommit(d, d')
  {
    assert d'.head == d.head && d'.journal.Some? && SameTransaction(d'.journal.value, d.journal.value);
  }

  lemma AdvanceDecides(s: State, a: Action, s': State)
    requires a.Advance? && Inv(s) && UpdateAction(s, a, s')
    ensures DecidesByCommit(s.disk, s'.disk)
  {
    var Updating(j, point, recovering) := s.procs[a.pid];
    var j', next := AdvanceStep(s, a, s');
    if point.AtCommit? {
      CommitDecides(j, recovering, s.disk, s'.disk, j', next);
    } else if point in {AtWriteJournal, AtRemoveJournal, AtRemoveRestored} {
      JournalWriteDecides(j, point, recovering, s.disk, s'.disk, j', next);
    } else {
      OtherWriteDecides(j, point, recovering, s.disk, s'.disk, j', next);
    }
  }

  lemma UpdateDecides(s: State, a: Action, s': State)
    requires IsUpdateAction(a) && Inv(s) && UpdateAction(s, a, s')
    ensures DecidesByCommit(s.disk, s'.disk)
  {
    if a.Advance? { AdvanceDecides(s, a, s'); }
  }

  lemma EnableDecides(s: State, a: Action, s': State)
    requires IsEnableAction(a) && Inv(s) && Inv(s') && EnableAction(s, a, s')
    ensures SameDecision(s.disk, s'.disk) || LaterDecision(s.disk, s'.disk)
    ensures LaterDecision(s.disk, s'.disk) <==> s.disk.pointer.Missing? && s'.disk.pointer.Link?
    ensures s'.disk.head == s.disk.head
  {
    if !a.BeginEnable? { assert Local(s.disk, s.nullBorn, s.procs[a.pid]); }
  }

  /** A switch completes: a new lock is committed, or a conversion links the pointer. */
  predicate SwitchCompletes(d: Disk, d': Disk) {
    d.head.lock != d'.head.lock || (d.pointer.Missing? && d'.pointer.Link?)
  }

  /** Each step leaves the decision or completes a switch, to a later one. */
  lemma StepDecides(s: State, a: Action, s': State)
    requires Inv(s) && Inv(s') && Next(s, a, s')
    ensures if SwitchCompletes(s.disk, s'.disk) then LaterDecision(s.disk, s'.disk) else SameDecision(s.disk, s'.disk)
  {
    if IsUpdateAction(a) {
      IsUpdateStep(s, a, s');
      UpdateDecides(s, a, s');
      UpdateKeepsRuntime(s, a, s');
    } else if IsEnableAction(a) {
      IsEnableStep(s, a, s');
      EnableDecides(s, a, s');
    } else {
      OutsidersKeep(s, a, s');
    }
  }

  lemma UpdateKeepsRuntime(s: State, a: Action, s': State)
    requires IsUpdateAction(a) && Inv(s) && UpdateAction(s, a, s')
    ensures s.disk.pointer.Missing? ==> s'.disk.pointer.Missing?
  {
    if a.Advance? { assert Local(s.disk, s.nullBorn, s.procs[a.pid]); }
  }

  // ---------------------------------------------------------------- whole runs

  predicate SwitchAt(states: seq<State>, n: nat) {
    n + 1 < |states| && SwitchCompletes(states[n].disk, states[n + 1].disk)
  }

  predicate NoSwitch(states: seq<State>, i: nat, k: nat) {
    forall n: nat :: i <= n < k ==> !SwitchAt(states, n)
  }

  lemma StepInRun(states: seq<State>, actions: seq<Action>, n: nat)
    requires Run(states, actions) && n + 1 < |states|
    ensures DecidedMatches(states[n].disk) && DecidedMatches(states[n + 1].disk)
    ensures if SwitchAt(states, n) then LaterDecision(states[n].disk, states[n + 1].disk)
            else SameDecision(states[n].disk, states[n + 1].disk)
  {
    InvHolds(states, actions, n);
    InvHolds(states, actions, n + 1);
    RestMatches(states[n]);
    RestMatches(states[n + 1]);
    StepDecides(states[n], actions[n], states[n + 1]);
  }

  ghost predicate StepsDecide(states: seq<State>) {
    && (forall n: nat :: n < |states| ==> DecidedMatches(states[n].disk))
    && forall n: nat :: n < |states| - 1 ==>
         if SwitchAt(states, n) then LaterDecision(states[n].disk, states[n + 1].disk)
         else SameDecision(states[n].disk, states[n + 1].disk)
  }

  lemma RunDecides(states: seq<State>, actions: seq<Action>)
    requires Run(states, actions)
    ensures StepsDecide(states)
  {
    forall n: nat | n < |states| ensures DecidedMatches(states[n].disk) {
      InvHolds(states, actions, n);
      RestMatches(states[n]);
    }
    forall n: nat | n < |states| - 1
      ensures if SwitchAt(states, n) then LaterDecision(states[n].disk, states[n + 1].disk)
              else SameDecision(states[n].disk, states[n + 1].disk)
    {
      StepInRun(states, actions, n);
    }
  }

  lemma {:induction false} StepsCompose(states: seq<State>, i: nat, k: nat)
    requires StepsDecide(states) && i <= k < |states|
    ensures if NoSwitch(states, i, k) then SameDecision(states[i].disk, states[k].disk)
            else LaterDecision(states[i].disk, states[k].disk)
    decreases k
  {
    if i < k {
      StepsCompose(states, i, k - 1);
      assert NoSwitch(states, i, k) <==> NoSwitch(states, i, k - 1) && !SwitchAt(states, k - 1);
      DecisionsCompose(states[i].disk, states[k - 1].disk, states[k - 1 + 1].disk);
    }
  }

  /** Decisions only go forward: the same environment is decided exactly as long as no switch completes. */
  lemma DecisionHistory(states: seq<State>, actions: seq<Action>, i: nat, k: nat)
    requires Run(states, actions) && i <= k < |states|
    ensures if NoSwitch(states, i, k) then SameDecision(states[i].disk, states[k].disk)
            else LaterDecision(states[i].disk, states[k].disk)
  {
    RunDecides(states, actions);
    StepsCompose(states, i, k);
  }

  // ---------------------------------------------------------------- commands that entered through the pointer

  predicate HasLoaded(p: Process) {
    p.Launched? || p.EnteringReader? || p.Reader? || p.Registering? || p.Discovering?
  }

  /** The process was there before with what it has loaded, or starts now. */
  lemma LoadedStays(s: State, a: Action, s': State, p: Pid)
    requires Next(s, a, s') && p in s'.procs && HasLoaded(s'.procs[p])
    ensures || (p in s.procs && HasLoaded(s.procs[p]) && s.procs[p].loaded == s'.procs[p].loaded)
            || (a == Launch(p, s'.procs[p].loaded) && Loadable(s'.procs[p].loaded, s.disk.pointer))
  {
    if IsReaderAction(a) { IsReaderStep(s, a, s'); }
    else if IsEventAction(a) { IsEventStep(s, a, s'); }
    else if IsApplyAction(a) { IsApplyStep(s, a, s'); }
    else if IsUpdateAction(a) { IsUpdateStep(s, a, s'); }
    else if IsEnableAction(a) { IsEnableStep(s, a, s'); }
    else { IsOtherStep(s, a, s'); }
  }

  /** Every process with something loaded was launched with it. */
  lemma {:induction false} WasLaunched(states: seq<State>, actions: seq<Action>, k: nat, p: Pid) returns (i: nat)
    requires Run(states, actions) && k < |states| && p in states[k].procs && HasLoaded(states[k].procs[p])
    ensures i < k && actions[i] == Launch(p, states[k].procs[p].loaded)
    ensures Loadable(states[k].procs[p].loaded, states[i].disk.pointer)
    decreases k
  {
    assert k > 0;
    LoadedStays(states[k - 1], actions[k - 1], states[k], p);
    var loaded := states[k].procs[p].loaded;
    if actions[k - 1] == Launch(p, loaded) && Loadable(loaded, states[k - 1].disk.pointer) {
      i := k - 1;
    } else {
      i := WasLaunched(states, actions, k - 1, p);
    }
  }

  /** What is active under a reader is what is decided. */
  lemma ActiveIsDecided(s: State, p: Pid)
    requires Inv(s) && ReaderInside(s, p) && !s.disk.pointer.Missing?
    ensures Decided(s.disk) == Some(s.disk.pointer.env)
  {
    assert Local(s.disk, s.nullBorn, s.procs[p]);
  }

  /** The last switch that completed from `i` to `k` led to `env`. */
  ghost predicate LastSwitchLedTo(states: seq<State>, i: nat, k: nat, env: Environment)
    requires k < |states|
  {
    exists n: nat :: i <= n < k && SwitchAt(states, n) && NoSwitch(states, n + 1, k)
                     && Decided(states[n + 1].disk) == Some(env)
  }

  lemma {:induction false} LastSwitch(states: seq<State>, i: nat, k: nat) returns (n: nat)
    requires i <= k < |states| && !NoSwitch(states, i, k)
    ensures i <= n < k && SwitchAt(states, n) && NoSwitch(states, n + 1, k)
    decreases k
  {
    if SwitchAt(states, k - 1) { n := k - 1; } else { n := LastSwitch(states, i, k - 1); }
  }

  lemma DecidedSince(states: seq<State>, i: nat, k: nat, env: Environment)
    requires StepsDecide(states) && i <= k < |states|
    ensures Decided(states[i].disk) == Some(env) ==> (Decided(states[k].disk) == Some(env) <==> NoSwitch(states, i, k))
    ensures Decided(states[i].disk) != Some(env) ==>
              (Decided(states[k].disk) == Some(env) <==> LastSwitchLedTo(states, i, k, env))
  {
    StepsCompose(states, i, k);
    if !NoSwitch(states, i, k) {
      var n := LastSwitch(states, i, k);
      StepsCompose(states, n + 1, k);
      assert Decided(states[n + 1].disk) == Decided(states[k].disk);
    }
    if LastSwitchLedTo(states, i, k, env) {
      var n: nat :| i <= n < k && SwitchAt(states, n) && NoSwitch(states, n + 1, k)
                    && Decided(states[n + 1].disk) == Some(env);
      StepsCompose(states, n + 1, k);
    }
  }

  /** Whether a reader inside runs the active environment. One loaded from a generation's path always does. One loaded
      through the pointer was launched at some step `i`, when the pointer led to what it loaded. If that was what was
      decided, it runs the active environment exactly when no switch has completed since; if it was the candidate of an
      update still under way, exactly when the last switch that has completed since led to it. */
  lemma ReaderRunsActiveExactlyWhen(states: seq<State>, actions: seq<Action>, k: nat, p: Pid) returns (i: nat)
    requires Run(states, actions) && k < |states| && ReaderInside(states[k], p) && !states[k].disk.pointer.Missing?
    ensures var active, loaded := states[k].disk.pointer.env, states[k].procs[p].loaded;
            && i < k && actions[i] == Launch(p, loaded)
            && (loaded.Generation? ==> loaded.env == active)
            && (loaded.RuntimePath? ==> !states[i].disk.pointer.Missing? && states[i].disk.pointer.env == loaded.env)
            && (loaded.RuntimePath? && Decided(states[i].disk) == Some(loaded.env) ==>
                  (loaded.env == active <==> NoSwitch(states, i, k)))
            && (loaded.RuntimePath? && Decided(states[i].disk) != Some(loaded.env) ==>
                  (loaded.env == active <==> LastSwitchLedTo(states, i, k, loaded.env)))
  {
    i := WasLaunched(states, actions, k, p);
    InvHolds(states, actions, k);
    ActiveIsDecided(states[k], p);
    ReaderSeesMatchingRuntime(states, actions, k, p);
    RunDecides(states, actions);
    if states[k].procs[p].loaded.RuntimePath? { DecidedSince(states, i, k, states[k].procs[p].loaded.env); }
  }
}
