/** Runs of the startup protocol that do happen: a conversion, a stopped one, a whole update, and commands beside
    them. */
module StartupRuns {
  import opened Results
  import opened StartupState
  import opened StartupSteps
  import opened StartupProtocol
  import opened StartupSafety
  import opened StartupTheorems

  /** Some actions lead from `first` to `s`; when `first` is initial, they are a run. */
  ghost predicate Reaches(first: State, s: State) {
    exists states, actions :: Leads(states, actions, first, s)
  }

  ghost predicate Leads(states: seq<State>, actions: seq<Action>, first: State, s: State) {
    && |states| == |actions| + 1
    && states[0] == first && states[|actions|] == s
    && forall i :: 0 <= i < |actions| ==> Next(states[i], actions[i], states[i + 1])
  }

  lemma ReachesIsRun(first: State, s: State) returns (states: seq<State>, actions: seq<Action>)
    requires Init(first) && Reaches(first, s)
    ensures Run(states, actions) && states[0] == first && states[|actions|] == s
  {
    states, actions :| Leads(states, actions, first, s);
  }

  lemma ReachesItself(s: State)
    ensures Reaches(s, s)
  {
    assert Leads([s], [], s, s);
  }

  lemma ReachesNext(first: State, s: State, a: Action, s': State)
    requires Reaches(first, s) && Next(s, a, s')
    ensures Reaches(first, s')
  {
    var states, actions :| Leads(states, actions, first, s);
    var longer, more := states + [s'], actions + [a];
    forall i | 0 <= i < |more| ensures Next(longer[i], more[i], longer[i + 1]) {
      if i < |actions| { assert Next(states[i], actions[i], states[i + 1]); }
    }
    assert Leads(longer, more, first, s');
  }

  function With(s: State, pid: Pid, p: Process): State { s.(procs := s.procs[pid := p]) }

  function Without(s: State, pid: Pid): State { s.(procs := s.procs - {pid}) }

  lemma Launches(first: State, s: State, pid: Pid, loaded: Loaded)
    requires Reaches(first, s) && pid !in s.procs && Loadable(loaded, s.disk.pointer)
    ensures Reaches(first, With(s, pid, Launched(loaded)))
  {
    assert OtherAction(s, Launch(pid, loaded), With(s, pid, Launched(loaded)));
    ReachesNext(first, s, Launch(pid, loaded), With(s, pid, Launched(loaded)));
  }

  lemma Dies(first: State, s: State, pid: Pid)
    requires Reaches(first, s) && pid in s.procs
    ensures Reaches(first, Without(s, pid))
  {
    assert OtherAction(s, Crash(pid), Without(s, pid));
    ReachesNext(first, s, Crash(pid), Without(s, pid));
  }

  /** A started command enters when no update holds the locks and nothing is pending, if it came through the pointer. */
  lemma Enters(first: State, s: State, pid: Pid, env: Environment)
    requires Reaches(first, s) && pid in s.procs && s.procs[pid] == Launched(RuntimePath(env))
    requires ReadersFree(s) && s.disk.journal.None?
    ensures Reaches(first, With(s, pid, Reader(RuntimePath(env))))
  {
    var s1, s2 := With(s, pid, EnteringReader(RuntimePath(env))), With(s, pid, Reader(RuntimePath(env)));
    assert ReaderAction(s, EnterReader(pid), s1);
    ReachesNext(first, s, EnterReader(pid), s1);
    assert s2 == With(s1, pid, Reader(RuntimePath(env)));
    assert ReaderAction(s1, AdmitReader(pid), s2);
    ReachesNext(first, s1, AdmitReader(pid), s2);
  }

  // ---------------------------------------------------------------- conversions

  function Converting(s: State, pid: Pid, next: Option<EnablePoint>): State
    requires pid in s.procs && s.procs[pid].Enabling?
  {
    if next.Some? then With(s, pid, Enabling(s.procs[pid].enabled, next.value)) else Without(s, pid)
  }

  lemma Converts(first: State, s: State, pid: Pid, d: Disk, next: Option<EnablePoint>)
    requires Reaches(first, s) && pid in s.procs && s.procs[pid].Enabling?
    requires EnableStep(s.procs[pid].enabled, s.procs[pid].step, s.disk, d, next)
    ensures Reaches(first, Converting(s, pid, next).(disk := d))
  {
    var s' := Converting(s, pid, next).(disk := d);
    assert EnableAction(s, AdvanceEnable(pid), s');
    ReachesNext(first, s, AdvanceEnable(pid), s');
  }

  predicate Convertible(d: Disk, e: EnableJournal) {
    && d.pointer == Directory(e.original) && e.candidate.owned && e.candidate != e.original
    && e.candidate.lock == d.lock == e.lock
  }

  lemma Begins(first: State, s: State, e: EnableJournal)
    requires Reaches(first, s) && Settled(s.disk) && Convertible(s.disk, e)
    requires s.procs == map[1 := Launched(RuntimePath(e.original))]
    ensures Reaches(first, With(s, 0, Enabling(e, AtWriteEnable)))
  {
    assert EnableAction(s, BeginEnable(0, e), With(s, 0, Enabling(e, AtWriteEnable)));
    ReachesNext(first, s, BeginEnable(0, e), With(s, 0, Enabling(e, AtWriteEnable)));
  }

  /** A command starts in the directory runtime, and then a conversion begins and renames it away. */
  lemma RenamesRuntime(s: State, e: EnableJournal)
    requires Init(s) && Convertible(s.disk, e)
    ensures Reaches(s, s.(disk := s.disk.(enabling := Some(e), pointer := Missing),
                          procs := map[0 := Enabling(e, AtLink), 1 := Launched(RuntimePath(e.original))]))
  {
    ReachesItself(s);
    Launches(s, s, 1, RuntimePath(e.original));
    var s1 := With(s, 1, Launched(RuntimePath(e.original)));
    Begins(s, s1, e);
    var s2 := With(s1, 0, Enabling(e, AtWriteEnable));
    Converts(s, s2, 0, s2.disk.(enabling := Some(e)), Some(AtRename));
    var s3 := Converting(s2, 0, Some(AtRename)).(disk := s2.disk.(enabling := Some(e)));
    Converts(s, s3, 0, s3.disk.(pointer := Missing), Some(AtLink));
    var s4 := Converting(s3, 0, Some(AtLink)).(disk := s3.disk.(pointer := Missing));
    assert s4.procs == map[0 := Enabling(e, AtLink), 1 := Launched(RuntimePath(e.original))];
  }

  /** A command of the old directory enters while the runtime is missing, after a conversion that stopped there. */
  lemma ReaderInsideLostRuntime(s: State, e: EnableJournal) returns (last: State)
    requires Init(s) && Convertible(s.disk, e)
    ensures Reaches(s, last) && RuntimeLost(last) && ReaderInside(last, 1)
  {
    RenamesRuntime(s, e);
    var renamed := s.(disk := s.disk.(enabling := Some(e), pointer := Missing),
                      procs := map[0 := Enabling(e, AtLink), 1 := Launched(RuntimePath(e.original))]);
    Dies(s, renamed, 0);
    var stopped := Without(renamed, 0);
    Enters(s, stopped, 1, e.original);
    last := With(stopped, 1, Reader(RuntimePath(e.original)));
  }

  /** A command of the old directory enters after a whole conversion, and runs what is no longer active. */
  lemma StaleReaderAfterConversion(s: State, e: EnableJournal) returns (last: State)
    requires Init(s) && Convertible(s.disk, e)
    ensures Reaches(s, last) && Settled(last.disk) && last.disk.pointer == Link(e.candidate)
    ensures ReaderInside(last, 1) && last.procs[1].loaded == RuntimePath(e.original)
    ensures last.procs[1].loaded.env != last.disk.pointer.env
  {
    RenamesRuntime(s, e);
    var s4 := s.(disk := s.disk.(enabling := Some(e), pointer := Missing),
                 procs := map[0 := Enabling(e, AtLink), 1 := Launched(RuntimePath(e.original))]);
    Converts(s, s4, 0, s4.disk.(pointer := Link(e.candidate)), Some(AtRemoveEnable));
    var s5 := Converting(s4, 0, Some(AtRemoveEnable)).(disk := s4.disk.(pointer := Link(e.candidate)));
    Converts(s, s5, 0, s5.disk.(enabling := None), None);
    var s6 := Converting(s5, 0, None).(disk := s5.disk.(enabling := None));
    Enters(s, s6, 1, e.original);
    last := With(s6, 1, Reader(RuntimePath(e.original)));
  }

  // ---------------------------------------------------------------- a whole update

  /** A settled worktree that runs an owned generation, and an owned one prepared from an eligible release. */
  predicate Updatable(d: Disk, candidate: Environment) {
    && Settled(d) && d.pointer.Link? && d.pointer.env.owned && candidate.owned && Eligible(d.lock, candidate.lock)
  }

  function Offered(lock: Lock, candidate: Environment): Receipt {
    Receipt(true, Unknown, Some(lock), Available(candidate.lock))
  }

  /** The first event of task 0 registers it and finds the release. */
  lemma Discovers(first: State, s: State, candidate: Environment)
    requires Reaches(first, s) && Updatable(s.disk, candidate) && s.disk.receipts == map[]
    requires s.procs == map[1 := Launched(RuntimePath(s.disk.pointer.env))]
    ensures Reaches(first, s.(disk := s.disk.(receipts := map[0 := Offered(s.disk.lock, candidate)]),
                              discoveries := s.discoveries + multiset{0}))
  {
    var loaded := RuntimePath(s.disk.pointer.env);
    Launches(first, s, 2, loaded);
    var s2 := With(s, 2, Registering(loaded, 0, Startup, None));
    BeginsEvent(first, s, s2, loaded);
    Registers(first, s2, loaded);
    var receipt := Receipt(true, Unknown, Some(s.disk.lock), Deferred(false));
    var discovering := Discovering(loaded, 0, receipt);
    assert s2.procs[2 := discovering] == s.procs[2 := discovering];
    var discovered := s.(discoveries := s.discoveries + multiset{0});
    FinishesDiscovery(first, discovered, loaded, receipt, Available(candidate.lock));
  }

  lemma BeginsEvent(first: State, s: State, s2: State, loaded: Loaded)
    requires Reaches(first, With(s, 2, Launched(loaded))) && 2 !in s.procs && loaded.RuntimePath?
    requires s.procs.Keys == {1} && s.procs[1].Launched? && s.disk.journal.None? && s.disk.receipts == map[]
    requires s2 == With(s, 2, Registering(loaded, 0, Startup, None))
    ensures Reaches(first, s2)
  {
    var s1 := With(s, 2, Launched(loaded));
    assert s2 == With(s1, 2, Registering(loaded, 0, Startup, None));
    assert EventAction(s1, BeginEvent(2, 0, Startup), s2);
    ReachesNext(first, s1, BeginEvent(2, 0, Startup), s2);
  }

  lemma FinishesDiscovery(first: State, s: State, loaded: Loaded, receipt: Receipt, answer: Answer)
    requires 2 !in s.procs && answer != Deferred(true)
    requires var registered := s.(disk := s.disk.(receipts := map[0 := receipt]));
             Reaches(first, With(registered, 2, Discovering(loaded, 0, receipt)))
    ensures Reaches(first, s.(disk := s.disk.(receipts := map[0 := receipt.(answer := answer)])))
  {
    var s3 := With(s.(disk := s.disk.(receipts := map[0 := receipt])), 2, Discovering(loaded, 0, receipt));
    var s4 := s.(disk := s.disk.(receipts := map[0 := receipt.(answer := answer)]));
    assert s4.procs == s3.procs - {2};
    assert EventAction(s3, FinishDiscovery(2, answer), s4);
    ReachesNext(first, s3, FinishDiscovery(2, answer), s4);
  }

  lemma Registers(first: State, s: State, loaded: Loaded)
    requires Reaches(first, s) && s.disk.receipts == map[]
    requires 2 in s.procs && s.procs[2] == Registering(loaded, 0, Startup, None)
    ensures var receipt := Receipt(true, Unknown, Some(s.disk.lock), Deferred(false));
            Reaches(first, With(s.(disk := s.disk.(receipts := map[0 := receipt]),
                                   discoveries := s.discoveries + multiset{0}), 2, Discovering(loaded, 0, receipt)))
  {
    var receipt := Receipt(true, Unknown, Some(s.disk.lock), Deferred(false));
    var s' := With(s.(disk := s.disk.(receipts := map[0 := receipt]), discoveries := s.discoveries + multiset{0}),
                   2, Discovering(loaded, 0, receipt));
    assert EventAction(s, Register(2, Unknown), s');
    ReachesNext(first, s, Register(2, Unknown), s');
  }

  function JournalOf(d: Disk, candidate: Environment): Journal
    requires d.pointer.Link?
  {
    Journal(0, 0, 0, Prepared, Snapshot(d.branch, d.head, d.work), d.lock, candidate.lock, d.pointer.env, candidate)
  }

  /** The task applies: it reserves the runtime, excludes readers, and passes the final check. */
  lemma Applies(first: State, s: State, candidate: Environment)
    requires Reaches(first, s) && Updatable(s.disk, candidate)
    requires s.disk.receipts == map[0 := Offered(s.disk.lock, candidate)]
    requires s.procs == map[1 := Launched(RuntimePath(s.disk.pointer.env))]
    ensures Reaches(first, With(s, 0, Updating(JournalOf(s.disk, candidate), AtWriteJournal, false)))
  {
    var previous := s.disk.pointer.env;
    assert CloseOthers(s.disk.receipts, 0) == s.disk.receipts;
    var s1 := With(s, 0, Preparing(0, previous, candidate));
    assert ApplyAction(s, BeginApply(0, 0, previous, candidate), s1);
    ReachesNext(first, s, BeginApply(0, 0, previous, candidate), s1);
    LocksReaders(first, s, s1, previous, candidate);
    PassesFinalCheck(first, s, With(s, 0, Checking(0, previous, candidate)), candidate);
  }

  lemma LocksReaders(first: State, s: State, s1: State, previous: Environment, candidate: Environment)
    requires s.procs.Keys == {1} && s.procs[1].Launched?
    requires s1 == With(s, 0, Preparing(0, previous, candidate)) && Reaches(first, s1)
    ensures Reaches(first, With(s, 0, Checking(0, previous, candidate)))
  {
    var s2 := With(s, 0, Checking(0, previous, candidate));
    assert s2 == With(s1, 0, Checking(0, previous, candidate));
    assert ApplyAction(s1, LockReaders(0), s2);
    ReachesNext(first, s1, LockReaders(0), s2);
  }

  lemma PassesFinalCheck(first: State, s: State, s2: State, candidate: Environment)
    requires Updatable(s.disk, candidate) && s.disk.receipts == map[0 := Offered(s.disk.lock, candidate)]
    requires s2 == With(s, 0, Checking(0, s.disk.pointer.env, candidate)) && Reaches(first, s2)
    ensures Reaches(first, With(s, 0, Updating(JournalOf(s.disk, candidate), AtWriteJournal, false)))
  {
    var s3 := With(s, 0, Updating(JournalOf(s.disk, candidate), AtWriteJournal, false));
    assert CloseOthers(s.disk.receipts, 0) == s.disk.receipts;
    assert s3 == With(s2, 0, Updating(JournalOf(s.disk, candidate), AtWriteJournal, false));
    assert ApplyAction(s2, FinalCheck(0, 0), s3);
    ReachesNext(first, s2, FinalCheck(0, 0), s3);
  }

  /** Process 0 stands at `next` of an update or a recovery, or has finished it. */
  function At(s: State, d: Disk, j: Journal, next: Option<Point>, recovering: bool): State {
    if next.Some? then With(s.(disk := d), 0, Updating(j, next.value, recovering)) else Without(s.(disk := d), 0)
  }

  lemma Advances(first: State, s: State, d: Disk, j: Journal, point: Point, recovering: bool, d': Disk, j': Journal,
                 next: Option<Point>)
    requires Reaches(first, At(s, d, j, Some(point), recovering))
    requires UpdateStep(j, point, recovering, d, d', j', next)
    ensures Reaches(first, At(s, d', j', next, recovering))
  {
    var a, b := At(s, d, j, Some(point), recovering), At(s, d', j', next, recovering);
    assert UpdateAction(a, Advance(0), b);
    ReachesNext(first, a, Advance(0), b);
  }

  function SwitchedDisk(d: Disk, j: Journal): Disk {
    d.(journal := Some(j.(phase := Activated)), pointer := Link(j.candidate), lock := j.candidateLock)
  }

  /** Journal, pointer, lock, phase, doctor. */
  lemma Switches(first: State, s: State, d: Disk, j: Journal)
    requires Reaches(first, At(s, d, j, Some(AtWriteJournal), false))
    requires j.candidate.owned && d.pointer.Link?
    ensures Reaches(first, At(s, SwitchedDisk(d, j), j.(phase := Activated), Some(AtCommit), false))
  {
    var d1 := d.(journal := Some(j));
    Advances(first, s, d, j, AtWriteJournal, false, d1, j, Some(AtSwitchPointer));
    var d2 := d1.(pointer := Link(j.candidate));
    Advances(first, s, d1, j, AtSwitchPointer, false, d2, j, Some(AtWriteLock));
    var d3 := d2.(lock := j.candidateLock);
    Advances(first, s, d2, j, AtWriteLock, false, d3, j, Some(AtMarkActivated));
    var j4 := j.(phase := Activated);
    var d4 := SwitchedDisk(d, j);
    Advances(first, s, d3, j, AtMarkActivated, false, d4, j4, Some(AtDoctor));
    Advances(first, s, d4, j4, AtDoctor, false, d4, j4, Some(AtCommit));
  }

  /** Commit, phase, pointer check, receipt, and the journal goes. */
  lemma Retires(first: State, s: State, d: Disk, j: Journal, head: Commit) returns (last: Disk)
    requires Reaches(first, At(s, d, j, Some(AtCommit), false))
    requires j.candidate.owned && d.pointer == Link(j.candidate) && d.lock == j.candidateLock
    requires d.head == j.before.head && d.branch == j.before.branch && d.work == j.before.work
    requires CommittedChild(j, head)
    ensures Reaches(first, At(s, last, j, None, false))
    ensures last == d.(journal := None, head := head,
                       receipts := CompletedReceipts(j, d.receipts, d.lock, Updated(head)))
  {
    var d1 := d.(head := head);
    Advances(first, s, d, j, AtCommit, false, d1, j, Some(AtMarkCommitted));
    var j2 := j.(phase := Committed);
    var d2 := d1.(journal := Some(j2));
    Advances(first, s, d1, j, AtMarkCommitted, false, d2, j2, Some(AtVerifyPointer));
    Advances(first, s, d2, j2, AtVerifyPointer, false, d2, j2, Some(AtComplete));
    var d3 := d2.(receipts := CompletedReceipts(j2, d2.receipts, d2.lock, Updated(head)));
    Advances(first, s, d2, j2, AtComplete, false, d3, j2, Some(AtRemoveJournal));
    last := d3.(journal := None);
    Advances(first, s, d3, j2, AtRemoveJournal, false, last, j2, None);
  }

  /** A whole update happens: from any bootstrapped worktree with a pointer and an eligible release, a task is offered
      it, applies it, and leaves everything settled on a new commit. A command started before it through the pointer
      then enters and runs what is no longer active. */
  lemma StaleReaderAfterUpdate(s: State, candidate: Environment, id: nat) returns (last: State)
    requires Init(s) && Updatable(s.disk, candidate)
    ensures Reaches(s, last) && Settled(last.disk)
    ensures last.disk.head == Child(id, s.disk.head, candidate.lock, [LOCK_PATH])
    ensures last.disk.pointer == Link(candidate) && last.disk.lock == candidate.lock
    ensures last.disk.receipts == map[0 := Receipt(true, Unknown, Some(candidate.lock), Updated(last.disk.head))]
    ensures ReaderInside(last, 1) && last.procs[1].loaded == RuntimePath(s.disk.pointer.env)
    ensures last.procs[1].loaded.env != last.disk.pointer.env
  {
    var loaded := RuntimePath(s.disk.pointer.env);
    ReachesItself(s);
    Launches(s, s, 1, loaded);
    var s1 := With(s, 1, Launched(loaded));
    Discovers(s, s1, candidate);
    var s2 := s1.(disk := s.disk.(receipts := map[0 := Offered(s.disk.lock, candidate)]),
                  discoveries := s.discoveries + multiset{0});
    Applies(s, s2, candidate);
    var j := JournalOf(s2.disk, candidate);
    assert At(s2, s2.disk, j, Some(AtWriteJournal), false) == With(s2, 0, Updating(j, AtWriteJournal, false));
    Switches(s, s2, s2.disk, j);
    var d := Retires(s, s2, SwitchedDisk(s2.disk, j), j.(phase := Activated),
                     Child(id, s.disk.head, candidate.lock, [LOCK_PATH]));
    var s3 := At(s2, d, j, None, false);
    assert s3.procs == map[1 := Launched(loaded)];
    Enters(s, s3, 1, s.disk.pointer.env);
    last := With(s3, 1, Reader(loaded));
  }

  // ---------------------------------------------------------------- a late commit

  lemma BeginsRecovery(first: State, s: State)
    requires Reaches(first, s) && s.procs.Keys == {1} && s.procs[1].Launched?
    ensures Reaches(first, With(s, 0, Recovering))
  {
    assert UpdateAction(s, BeginRecover(0), With(s, 0, Recovering));
    ReachesNext(first, s, BeginRecover(0), With(s, 0, Recovering));
  }

  /** With only started commands about, an interrupted update is taken over. */
  lemma TakesOver(first: State, s: State, d: Disk, j: Journal)
    requires Reaches(first, At(s, d, j, None, true)) && d.journal == Some(j) && d.enabling.None?
    requires s.procs.Keys == {1} && s.procs[1].Launched? && d.head == j.before.head
    ensures var taken := TakenOver(j, 0, false);
            Reaches(first, At(s, d.(journal := Some(taken)), taken, Some(AtCheck), true))
  {
    var r0, taken := At(s, d, j, None, true), TakenOver(j, 0, false);
    var r1, r2 := With(r0, 0, Recovering), At(s, d.(journal := Some(taken)), taken, Some(AtCheck), true);
    BeginsRecovery(first, r0);
    assert r2.procs == r1.procs[0 := Updating(taken, AtCheck, true)];
    assert UpdateAction(r1, TakeOver(0), r2);
    ReachesNext(first, r1, TakeOver(0), r2);
  }

  function RestoredDisk(d: Disk, j: Journal): Disk {
    d.(lock := j.oldLock, pointer := Link(j.previous))
  }

  /** Identities, lock, pointer, work: everything is old again. */
  lemma Restores(first: State, s: State, d: Disk, j: Journal)
    requires Reaches(first, At(s, d, j, Some(AtCheck), true)) && RestoreAccepts(j, d)
    requires d.head == j.before.head && d.work == j.before.work
    ensures Reaches(first, At(s, RestoredDisk(d, j), j, Some(AtCompleteRestored), true))
  {
    Advances(first, s, d, j, AtCheck, true, d, j, Some(AtRestoreLock));
    var d1 := d.(lock := j.oldLock);
    Advances(first, s, d, j, AtRestoreLock, true, d1, j, Some(AtRestorePointer));
    var d2 := RestoredDisk(d, j);
    Advances(first, s, d1, j, AtRestorePointer, true, d2, j, Some(AtAssertUnchanged));
    Advances(first, s, d2, j, AtAssertUnchanged, true, d2, j, Some(AtCompleteRestored));
  }

  lemma RetiresRestored(first: State, s: State, d: Disk, j: Journal) returns (last: Disk)
    requires Reaches(first, At(s, d, j, Some(AtCompleteRestored), true)) && d.head == j.before.head
    ensures Reaches(first, At(s, last, j, None, true))
    ensures last == d.(journal := None, receipts := CompletedReceipts(j, d.receipts, d.lock, Deferred(false)))
  {
    var d1 := d.(receipts := CompletedReceipts(j, d.receipts, d.lock, Deferred(false)));
    Advances(first, s, d, j, AtCompleteRestored, true, d1, j, Some(AtRemoveRestored));
    last := d1.(journal := None);
    Advances(first, s, d1, j, AtRemoveRestored, true, last, j, None);
  }

  /** The updater dies at its commit command, and a recovery restores and retires everything. */
  lemma RecoversAll(s: State, d: Disk, j: Journal) returns (last: State)
    requires s.procs.Keys == {1} && s.procs[1].Launched?
    requires d == SwitchedDisk(d, j) && WellFormed(j) && j.phase.Activated? && d.enabling.None?
    requires d.head == j.before.head && d.work == j.before.work && d.branch == j.before.branch
    ensures Reaches(At(s, d, j, Some(AtCommit), false), last)
    ensures last.procs.Keys == {1}
    ensures last.disk == RestoredDisk(d, j).(
              journal := None, receipts := CompletedReceipts(j, d.receipts, j.oldLock, Deferred(false)))
  {
    var first := At(s, d, j, Some(AtCommit), false);
    ReachesItself(first);
    Dies(first, first, 0);
    assert Without(first, 0) == At(s, d, j, None, true);
    TakesOver(first, s, d, j);
    var taken := TakenOver(j, 0, false);
    var d1 := d.(journal := Some(taken));
    Restores(first, s, d1, taken);
    var d2 := RetiresRestored(first, s, RestoredDisk(d1, taken), taken);
    last := At(s, d2, taken, None, true);
  }

  /** The commit command of a killed updater, which runs in a session of its own, lands when a recovery has restored
      and retired everything: the committed lock is then not the one on disk, and no journal is there to tell. */
  lemma LateCommitAfterRecovery(s: State, candidate: Environment, id: nat)
    returns (committing: State, j: Journal, last: State)
    requires Init(s) && Updatable(s.disk, candidate)
    ensures Reaches(s, committing) && 0 in committing.procs && committing.procs[0] == Updating(j, AtCommit, false)
    ensures Reaches(committing, last) && Settled(last.disk) && last.disk.head == j.before.head
    ensures var late := Child(id, j.before.head, j.candidateLock, [LOCK_PATH]);
            CommittedChild(j, late) && !AtRest(last.disk.(head := late))
  {
    var loaded := RuntimePath(s.disk.pointer.env);
    ReachesItself(s);
    Launches(s, s, 1, loaded);
    var s1 := With(s, 1, Launched(loaded));
    Discovers(s, s1, candidate);
    var s2 := s1.(disk := s.disk.(receipts := map[0 := Offered(s.disk.lock, candidate)]),
                  discoveries := s.discoveries + multiset{0});
    Applies(s, s2, candidate);
    j := JournalOf(s2.disk, candidate);
    assert At(s2, s2.disk, j, Some(AtWriteJournal), false) == With(s2, 0, Updating(j, AtWriteJournal, false));
    Switches(s, s2, s2.disk, j);
    var d := SwitchedDisk(s2.disk, j);
    j := j.(phase := Activated);
    committing := At(s2, d, j, Some(AtCommit), false);
    last := RecoversAll(s2, d, j);
  }
}
