/** What holds in every state of every run of the startup protocol. */
module StartupSafety {
  import opened Results
  import opened StartupState
  import opened StartupSteps
  import opened StartupProtocol

  // ---------------------------------------------------------------- the invariant

  /** What is on disk is always settled or recoverable. */
  predicate AtRest(d: Disk) {
    match d.journal
    case Some(j) =>
      && InFlight(j, d) && j.previous.lock == j.oldLock && j.before.branch == d.branch
      && j.before.work == d.work && j.task in d.receipts
    case None =>
      match d.enabling
      case Some(e) =>
        && EnableInFlight(e, d) && e.original.lock == e.lock == e.candidate.lock && d.head.lock == d.lock
        && e.candidate != e.original
      case None => Settled(d)
  }

  /** How far an update or recovery has come when it stands at `point`. */
  predicate ReachedPoint(j: Journal, point: Point, d: Disk) {
    && WellFormed(j) && j.previous.lock == j.oldLock
    && j.before.branch == d.branch && j.before.work == d.work && j.task in d.receipts
    && d.enabling.None?
    && (if point.AtWriteJournal? then d.journal.None?
        else d.journal.Some? && SameTransaction(d.journal.value, j))
    && match point
       case AtWriteJournal => AllOld(j, d)
       case AtSwitchPointer => AllOld(j, d)
       case AtWriteLock => d.pointer == Link(j.candidate) && d.lock == j.oldLock && d.head == j.before.head
       case AtMarkActivated => SwitchedOnly(j, d)
       case AtDoctor => SwitchedOnly(j, d)
       case AtCommit => SwitchedOnly(j, d)
       case AtMarkCommitted => AllNew(j, d)
       case AtVerifyPointer => AllNew(j, d)
       case AtComplete => AllNew(j, d)
       case AtRemoveJournal => AllNew(j, d)
       case AtCheck => InFlight(j, d)
       case AtRestoreLock => InFlight(j, d)
       case AtRestorePointer => InFlight(j, d) && d.lock == TargetLock(j, d.head)
       case _ => InFlight(j, d) && AtTarget(j, d)
  }

  predicate SwitchedOnly(j: Journal, d: Disk) {
    d.pointer == Link(j.candidate) && d.lock == j.candidateLock && d.head == j.before.head
  }

  predicate ReachedStep(e: EnableJournal, step: EnablePoint, d: Disk) {
    && e.candidate.owned && e.original.lock == e.lock == e.candidate.lock && e.candidate != e.original
    && d.journal.None? && d.lock == e.lock == d.head.lock
    && d.enabling == (if step.AtWriteEnable? then None else Some(e))
    && d.pointer == match step
                    case AtWriteEnable => Directory(e.original)
                    case AtRename => Directory(e.original)
                    case AtLink => Missing
                    case AtRemoveEnable => Link(e.candidate)
  }

  /** What admission has checked of a process inside `runtime_reader` stays true while it is inside. */
  predicate ReaderView(loaded: Loaded, d: Disk) {
    d.journal.None? && LoadedIsActive(loaded, d.pointer)
  }

  /** Every other task that is open was told to wait. */
  predicate OthersWait(receipts: map<Task, Receipt>, task: Task) {
    forall t :: t in receipts && t != task && receipts[t].open ==> receipts[t].answer == Deferred(true)
  }

  /** A task with a receipt that was not created while waiting. */
  predicate Registered(d: Disk, nullBorn: set<Task>, task: Task) {
    task in d.receipts && task !in nullBorn
  }

  /** The receipt an event read, seen from now: absent still, or still without a lock. */
  predicate PriorHolds(d: Disk, nullBorn: set<Task>, task: Task, prior: Option<Receipt>) {
    if prior.None? then task !in d.receipts
    else task in d.receipts && (task in nullBorn ==> prior.value.digest.None?)
  }

  /** What one running process knows about the disk. */
  predicate Local(d: Disk, nullBorn: set<Task>, p: Process) {
    match p
    case Launched(_) => true
    case EnteringReader(_) => true
    case Reader(loaded) => ReaderView(loaded, d)
    case JoinedReader => true
    case Registering(loaded, task, kind, prior) => ReaderView(loaded, d) && PriorHolds(d, nullBorn, task, prior)
    case Discovering(loaded, task, receipt) => ReaderView(loaded, d) && Registered(d, nullBorn, task)
    case MustWaiting(task, prior) => PriorHolds(d, nullBorn, task, prior)
    case Preparing(task, _, candidate) =>
      Registered(d, nullBorn, task) && candidate.owned && d.journal.None? && d.enabling.None?
    case Checking(task, _, candidate) =>
      Registered(d, nullBorn, task) && candidate.owned && d.journal.None? && d.enabling.None?
    case Updating(j, point, recovering) =>
      && ReachedPoint(j, point, d) && Registered(d, nullBorn, j.task)
      && (recovering ==> !Protected(point) && !point.AtWriteJournal?)
      && (!recovering ==> OthersWait(d.receipts, j.task))
    case Recovering => true
    case Enabling(e, step) => ReachedStep(e, step, d)
    case RecoveringEnable(e) => d.enabling == Some(e)
  }

  predicate Exclusive(p: Process, q: Process) {
    && (HoldsExclusive(p) ==> !HoldsShared(q))
    && (HoldsUpdateLock(p) ==> !HoldsUpdateLock(q))
    && (IsEvent(p) && IsEvent(q) ==> p.task != q.task)
  }

  /** Lock holders exclude each other, and the events of one task do not overlap. */
  predicate Exclusion(procs: map<Pid, Process>) {
    forall p, q :: p in procs && q in procs && p != q ==> Exclusive(procs[p], procs[q])
  }

  predicate Bookkeeping(d: Disk, nullBorn: set<Task>, discoveries: multiset<Task>) {
    && (forall t :: t in nullBorn ==> t in d.receipts && d.receipts[t].digest.None?)
    && (d.journal.Some? ==> Registered(d, nullBorn, d.journal.value.task))
    && (forall t :: t in discoveries ==> discoveries[t] == 1 && t in d.receipts)
  }

  predicate Locals(d: Disk, nullBorn: set<Task>, procs: map<Pid, Process>) {
    forall p :: p in procs ==> Local(d, nullBorn, procs[p])
  }

  predicate Inv(s: State) {
    && AtRest(s.disk)
    && Exclusion(s.procs)
    && Bookkeeping(s.disk, s.nullBorn, s.discoveries)
    && Locals(s.disk, s.nullBorn, s.procs)
  }

  // ---------------------------------------------------------------- preservation

  /** A process may start, or become `p`, when no other process conflicts with `p`. */
  lemma ExclusionExtends(procs: map<Pid, Process>, pid: Pid, p: Process)
    requires Exclusion(procs)
    requires forall q :: q in procs && q != pid ==> Exclusive(p, procs[q]) && Exclusive(procs[q], p)
    ensures Exclusion(procs[pid := p])
  {
  }

  lemma PreservedByReader(s: State, a: Action, s': State)
    requires IsReaderAction(a)
    requires Inv(s) && ReaderAction(s, a, s')
    ensures Inv(s')
  {
    ExclusionExtends(s.procs, a.pid, s'.procs[a.pid]);
  }

  lemma PreservedByProjectCommit(s: State, a: Action, s': State)
    requires a.ProjectCommit? && Inv(s) && OtherAction(s, a, s')
    ensures Inv(s')
  {
    forall p | p in s.procs ensures Local(s'.disk, s.nullBorn, s.procs[p]) {
      assert Local(s.disk, s.nullBorn, s.procs[p]);
    }
  }

  lemma PreservedByOther(s: State, a: Action, s': State)
    requires (a.Launch? || a.Crash? || a.HostExits?) && Inv(s) && OtherAction(s, a, s')
    ensures Inv(s')
  {
    if a.Launch? { ExclusionExtends(s.procs, a.pid, s'.procs[a.pid]); }
  }

  lemma PreservedByEventStart(s: State, a: Action, s': State)
    requires a.BeginEvent? || a.MustWait? || a.FailRegistration?
    requires Inv(s) && EventAction(s, a, s')
    ensures Inv(s')
  {
    assert a.FailRegistration? ==> Local(s.disk, s.nullBorn, s.procs[a.pid]);
    ExclusionExtends(s.procs, a.pid, s'.procs[a.pid]);
  }

  /** Writing the receipt of one task leaves what every other process knows intact. */
  lemma ReceiptWriteKeepsLocal(d: Disk, nullBorn: set<Task>, d': Disk, nullBorn': set<Task>, writer: Process,
                               p: Process)
    requires Local(d, nullBorn, p) && IsEvent(writer) && Exclusive(p, writer) && Exclusive(writer, p)
    requires var t := writer.task;
             && t in d'.receipts && d' == d.(receipts := d.receipts[t := d'.receipts[t]])
             && nullBorn <= nullBorn' <= nullBorn + {t}
             && (t in d.receipts ==> nullBorn' == nullBorn)
             && (HoldsShared(writer) || d'.receipts[t].answer == Deferred(true))
    ensures Local(d', nullBorn', p)
  {
  }

  /** The writer leaves at most a discovery behind, and the books stay right. */
  lemma ReceiptWriterIsSafe(s: State, a: Action, s': State)
    requires a.Register? || a.FinishDiscovery? || a.WriteMustWait?
    requires Inv(s) && EventAction(s, a, s')
    ensures AtRest(s'.disk) && Bookkeeping(s'.disk, s'.nullBorn, s'.discoveries)
    ensures a.pid in s'.procs ==> s'.procs[a.pid].Discovering? && s'.procs[a.pid].task == s.procs[a.pid].task
    ensures a.pid in s'.procs ==> Local(s'.disk, s'.nullBorn, s'.procs[a.pid])
  {
    assert Local(s.disk, s.nullBorn, s.procs[a.pid]);
  }

  lemma PreservedByReceiptWrite(s: State, a: Action, s': State)
    requires a.Register? || a.FinishDiscovery? || a.WriteMustWait?
    requires Inv(s) && EventAction(s, a, s')
    ensures Inv(s')
  {
    var writer := s.procs[a.pid];
    assert Local(s.disk, s.nullBorn, writer);
    ReceiptWriterIsSafe(s, a, s');
    forall p | p in s.procs && p != a.pid ensures Local(s'.disk, s'.nullBorn, s.procs[p]) {
      ReceiptWriteKeepsLocal(s.disk, s.nullBorn, s'.disk, s'.nullBorn, writer, s.procs[p]);
    }
    if a.pid in s'.procs { ExclusionExtends(s.procs, a.pid, s'.procs[a.pid]); }
  }

  /** Closing receipts is always harmless. */
  lemma ClosingKeepsLocal(d: Disk, nullBorn: set<Task>, d': Disk, p: Process)
    requires Local(d, nullBorn, p)
    requires d' == d.(receipts := d'.receipts) && d'.receipts.Keys == d.receipts.Keys
    requires forall t :: t in d.receipts ==> d'.receipts[t] in {d.receipts[t], d.receipts[t].(open := false)}
    ensures Local(d', nullBorn, p)
  {
  }

  lemma PreservedByCloseTask(s: State, a: Action, s': State)
    requires a.CloseTask? && Inv(s) && EventAction(s, a, s')
    ensures Inv(s')
  {
    forall p | p in s.procs ensures Local(s'.disk, s.nullBorn, s.procs[p]) {
      ClosingKeepsLocal(s.disk, s.nullBorn, s'.disk, s.procs[p]);
    }
  }

  /** Preparing and checking write nothing but closed receipts, and lead to an update that has not begun. */
  lemma ApplierIsSafe(s: State, a: Action, s': State)
    requires IsApplyAction(a) && Inv(s) && ApplyAction(s, a, s')
    ensures AtRest(s'.disk) && Bookkeeping(s'.disk, s.nullBorn, s.discoveries)
    ensures s'.disk.receipts.Keys == s.disk.receipts.Keys && s'.disk == s.disk.(receipts := s'.disk.receipts)
    ensures forall t :: t in s.disk.receipts ==>
              s'.disk.receipts[t] in {s.disk.receipts[t], s.disk.receipts[t].(open := false)}
    ensures a.pid in s'.procs && Local(s'.disk, s.nullBorn, s'.procs[a.pid])
  {
    if !a.BeginApply? { assert Local(s.disk, s.nullBorn, s.procs[a.pid]); }
  }

  lemma PreservedByApply(s: State, a: Action, s': State)
    requires IsApplyAction(a)
    requires Inv(s) && ApplyAction(s, a, s')
    ensures Inv(s')
  {
    ApplierIsSafe(s, a, s');
    forall p | p in s.procs ensures Local(s'.disk, s.nullBorn, s.procs[p]) {
      ClosingKeepsLocal(s.disk, s.nullBorn, s'.disk, s.procs[p]);
    }
    ExclusionExtends(s.procs, a.pid, s'.procs[a.pid]);
  }

  /** An action reaches its next point, and what it leaves on disk is settled or recoverable. */
  predicate SafeStep(j: Journal, recovering: bool, d: Disk, d': Disk, j': Journal, next: Option<Point>) {
    && (next.Some? ==> ReachedPoint(j', next.value, d'))
    && (recovering && next.Some? ==> !Protected(next.value) && !next.value.AtWriteJournal?)
    && AtRest(d') && SameTransaction(j', j)
    && d'.enabling == d.enabling
    && (d'.journal.Some? ==> d'.journal.value.task == j.task)
    && d'.receipts.Keys == d.receipts.Keys
    && (forall t :: t in d.receipts && t != j.task ==> d'.receipts[t] == d.receipts[t])
  }

  lemma SwitchStepIsSafe(j: Journal, point: Point, d: Disk, d': Disk, j': Journal, next: Option<Point>)
    requires point in {AtWriteJournal, AtSwitchPointer, AtWriteLock, AtMarkActivated, AtDoctor}
    requires ReachedPoint(j, point, d) && UpdateStep(j, point, false, d, d', j', next)
    ensures SafeStep(j, false, d, d', j', next)
  {
  }

  lemma CommitStepIsSafe(j: Journal, point: Point, d: Disk, d': Disk, j': Journal, next: Option<Point>)
    requires point in {AtCommit, AtMarkCommitted, AtVerifyPointer, AtComplete, AtRemoveJournal}
    requires ReachedPoint(j, point, d) && UpdateStep(j, point, false, d, d', j', next)
    ensures SafeStep(j, false, d, d', j', next)
  {
  }

  lemma RestoreWriteIsSafe(j: Journal, point: Point, recovering: bool, d: Disk, d': Disk, j': Journal,
                           next: Option<Point>)
    requires point in {AtCheck, AtRestoreLock, AtRestorePointer}
    requires ReachedPoint(j, point, d) && UpdateStep(j, point, recovering, d, d', j', next)
    ensures SafeStep(j, recovering, d, d', j', next)
  {
    assert CommittedHead(j, d.head).Ok?;
  }

  lemma RestoreCheckIsSafe(j: Journal, point: Point, recovering: bool, d: Disk, d': Disk, j': Journal,
                           next: Option<Point>)
    requires point in {AtAssertUnchanged, AtRecoveryDoctor}
    requires ReachedPoint(j, point, d) && UpdateStep(j, point, recovering, d, d', j', next)
    ensures SafeStep(j, recovering, d, d', j', next)
  {
  }

  lemma RestoreEndIsSafe(j: Journal, point: Point, recovering: bool, d: Disk, d': Disk, j': Journal,
                         next: Option<Point>)
    requires point in {AtCompleteRestored, AtRemoveRestored}
    requires ReachedPoint(j, point, d) && UpdateStep(j, point, recovering, d, d', j', next)
    ensures SafeStep(j, recovering, d, d', j', next)
  {
    assert CommittedHead(j, d.head).Ok?;
  }

  /** The heart of crash safety: every action of an update or recovery is safe. */
  lemma UpdateStepIsSafe(j: Journal, point: Point, recovering: bool, d: Disk, d': Disk, j': Journal,
                         next: Option<Point>)
    requires ReachedPoint(j, point, d) && UpdateStep(j, point, recovering, d, d', j', next)
    requires recovering ==> !Protected(point) && !point.AtWriteJournal?
    ensures SafeStep(j, recovering, d, d', j', next)
  {
    if point in {AtCheck, AtRestoreLock, AtRestorePointer} {
      RestoreWriteIsSafe(j, point, recovering, d, d', j', next);
    } else if point in {AtAssertUnchanged, AtRecoveryDoctor} {
      RestoreCheckIsSafe(j, point, recovering, d, d', j', next);
    } else if !Protected(point) && !point.AtWriteJournal? {
      RestoreEndIsSafe(j, point, recovering, d, d', j', next);
    } else if point in {AtWriteJournal, AtSwitchPointer, AtWriteLock, AtMarkActivated, AtDoctor} {
      SwitchStepIsSafe(j, point, d, d', j', next);
    } else {
      CommitStepIsSafe(j, point, d, d', j', next);
    }
  }

  /** A process that holds no lock is indifferent to what an updater writes. */
  lemma UnlockedLocal(d: Disk, nullBorn: set<Task>, d': Disk, p: Process)
    requires Local(d, nullBorn, p) && !HoldsShared(p) && !HoldsUpdateLock(p)
    requires d'.receipts.Keys == d.receipts.Keys
    ensures Local(d', nullBorn, p)
  {
  }

  /** While one process holds both locks, the rest hold none. */
  lemma OthersUnlocked(procs: map<Pid, Process>, pid: Pid, p: Pid)
    requires Exclusion(procs) && pid in procs && HoldsExclusive(procs[pid]) && p in procs && p != pid
    ensures !HoldsShared(procs[p]) && !HoldsUpdateLock(procs[p])
  {
    assert Exclusive(procs[pid], procs[p]);
  }

  /** What a safe step leaves true of its own process, and of the others, which hold no lock. */
  lemma SafeStepKeepsLocals(s: State, s': State, pid: Pid, j: Journal, point: Point, recovering: bool, j': Journal,
                            next: Option<Point>)
    requires Inv(s) && OnlyDisk(s, s') && pid in s.procs && s.procs[pid] == Updating(j, point, recovering)
    requires SafeStep(j, recovering, s.disk, s'.disk, j', next)
    ensures next.Some? ==> Local(s'.disk, s.nullBorn, Updating(j', next.value, recovering))
    ensures forall q :: q in s.procs && q != pid ==> Local(s'.disk, s.nullBorn, s.procs[q])
  {
    assert Local(s.disk, s.nullBorn, s.procs[pid]);
    forall q | q in s.procs && q != pid ensures Local(s'.disk, s.nullBorn, s.procs[q]) {
      OthersUnlocked(s.procs, pid, q);
      UnlockedLocal(s.disk, s.nullBorn, s'.disk, s.procs[q]);
    }
  }

  /** An advance is one action from a point that the disk has reached. */
  lemma AdvanceStep(s: State, a: Action, s': State) returns (j: Journal, next: Option<Point>)
    requires a.Advance? && Inv(s) && UpdateAction(s, a, s')
    ensures var p := s.procs[a.pid];
            && ReachedPoint(p.journal, p.point, s.disk)
            && (p.recovering ==> !Protected(p.point) && !p.point.AtWriteJournal?)
            && UpdateStep(p.journal, p.point, p.recovering, s.disk, s'.disk, j, next)
            && if next.Some? then Becomes(s, s', a.pid, Updating(j, next.value, p.recovering)) else Ends(s, s', a.pid)
  {
    var Updating(journal, point, recovering) := s.procs[a.pid];
    assert Local(s.disk, s.nullBorn, s.procs[a.pid]);
    j, next :| UpdateStep(journal, point, recovering, s.disk, s'.disk, j, next)
               && if next.Some? then Becomes(s, s', a.pid, Updating(j, next.value, recovering))
                  else Ends(s, s', a.pid);
  }

  /** An advance is a safe step of its process, or its last. */
  lemma AdvanceIsSafe(s: State, a: Action, s': State) returns (j: Journal, next: Option<Point>)
    requires a.Advance? && Inv(s) && UpdateAction(s, a, s')
    ensures var p := s.procs[a.pid];
            && SafeStep(p.journal, p.recovering, s.disk, s'.disk, j, next)
            && if next.Some? then Becomes(s, s', a.pid, Updating(j, next.value, p.recovering)) else Ends(s, s', a.pid)
  {
    var Updating(journal, point, recovering) := s.procs[a.pid];
    j, next := AdvanceStep(s, a, s');
    UpdateStepIsSafe(journal, point, recovering, s.disk, s'.disk, j, next);
  }

  lemma PreservedByAdvance(s: State, a: Action, s': State)
    requires a.Advance? && Inv(s) && UpdateAction(s, a, s')
    ensures Inv(s')
  {
    var j, next := AdvanceIsSafe(s, a, s');
    var Updating(journal, point, recovering) := s.procs[a.pid];
    SafeStepKeepsLocals(s, s', a.pid, journal, point, recovering, j, next);
    if next.Some? { ExclusionExtends(s.procs, a.pid, s'.procs[a.pid]); }
  }

  lemma PreservedByBeginRecover(s: State, a: Action, s': State)
    requires a.BeginRecover? && Inv(s) && UpdateAction(s, a, s')
    ensures Inv(s')
  {
    ExclusionExtends(s.procs, a.pid, s'.procs[a.pid]);
  }

  /** Whoever takes over finds nothing to do, a conversion, or a recoverable update whose journal it now owns. */
  lemma TakeOverIsSafe(s: State, a: Action, s': State)
    requires a.TakeOver? && Inv(s) && UpdateAction(s, a, s')
    ensures AtRest(s'.disk) && Bookkeeping(s'.disk, s.nullBorn, s.discoveries)
    ensures s'.disk.receipts.Keys == s.disk.receipts.Keys
    ensures a.pid in s'.procs ==>
              && Local(s'.disk, s.nullBorn, s'.procs[a.pid])
              && (s'.procs[a.pid].Updating? || s'.procs[a.pid].RecoveringEnable?)
  {
  }

  lemma PreservedByTakeOver(s: State, a: Action, s': State)
    requires a.TakeOver? && Inv(s) && UpdateAction(s, a, s')
    ensures Inv(s')
  {
    TakeOverIsSafe(s, a, s');
    forall q | q in s.procs && q != a.pid ensures Local(s'.disk, s.nullBorn, s.procs[q]) {
      OthersUnlocked(s.procs, a.pid, q);
      UnlockedLocal(s.disk, s.nullBorn, s'.disk, s.procs[q]);
    }
    if a.pid in s'.procs { ExclusionExtends(s.procs, a.pid, s'.procs[a.pid]); }
  }

  /** A conversion and its recovery leave the disk at rest, and know where they stand. */
  lemma EnableIsSafe(s: State, a: Action, s': State)
    requires IsEnableAction(a) && Inv(s) && EnableAction(s, a, s')
    ensures AtRest(s'.disk) && Bookkeeping(s'.disk, s.nullBorn, s.discoveries)
    ensures s'.disk.receipts == s.disk.receipts && (a.BeginEnable? ==> s'.disk == s.disk)
    ensures a.pid in s'.procs ==> s'.procs[a.pid].Enabling? && Local(s'.disk, s.nullBorn, s'.procs[a.pid])
  {
    if !a.BeginEnable? { assert Local(s.disk, s.nullBorn, s.procs[a.pid]); }
  }

  lemma PreservedByEnable(s: State, a: Action, s': State)
    requires IsEnableAction(a) && Inv(s) && EnableAction(s, a, s')
    ensures Inv(s')
  {
    EnableIsSafe(s, a, s');
    forall q | q in s.procs && q != a.pid && !a.BeginEnable? ensures Local(s'.disk, s.nullBorn, s.procs[q]) {
      OthersUnlocked(s.procs, a.pid, q);
      UnlockedLocal(s.disk, s.nullBorn, s'.disk, s.procs[q]);
    }
    if a.pid in s'.procs { ExclusionExtends(s.procs, a.pid, s'.procs[a.pid]); }
  }

  lemma PreservedByEvent(s: State, a: Action, s': State)
    requires IsEventAction(a)
    requires Inv(s) && EventAction(s, a, s')
    ensures Inv(s')
  {
    if a.CloseTask? {
      PreservedByCloseTask(s, a, s');
    } else if a.Register? || a.FinishDiscovery? || a.WriteMustWait? {
      PreservedByReceiptWrite(s, a, s');
    } else {
      PreservedByEventStart(s, a, s');
    }
  }

  lemma PreservedByUpdate(s: State, a: Action, s': State)
    requires IsUpdateAction(a)
    requires Inv(s) && UpdateAction(s, a, s')
    ensures Inv(s')
  {
    if a.Advance? {
      PreservedByAdvance(s, a, s');
    } else if a.TakeOver? {
      PreservedByTakeOver(s, a, s');
    } else {
      PreservedByBeginRecover(s, a, s');
    }
  }

  // The kind of an action decides which part of the step relation it is.

  lemma IsReaderStep(s: State, a: Action, s': State)
    requires Next(s, a, s') && IsReaderAction(a)
    ensures ReaderAction(s, a, s')
  {
  }

  lemma IsEventStep(s: State, a: Action, s': State)
    requires Next(s, a, s') && IsEventAction(a)
    ensures EventAction(s, a, s')
  {
  }

  lemma IsApplyStep(s: State, a: Action, s': State)
    requires Next(s, a, s') && IsApplyAction(a)
    ensures ApplyAction(s, a, s')
  {
  }

  lemma IsUpdateStep(s: State, a: Action, s': State)
    requires Next(s, a, s') && IsUpdateAction(a)
    ensures UpdateAction(s, a, s')
  {
  }

  lemma IsEnableStep(s: State, a: Action, s': State)
    requires Next(s, a, s') && IsEnableAction(a)
    ensures EnableAction(s, a, s')
  {
  }

  lemma IsOtherStep(s: State, a: Action, s': State)
    requires Next(s, a, s') && (a.Launch? || a.Crash? || a.HostExits? || a.ProjectCommit?)
    ensures OtherAction(s, a, s')
  {
  }

  /** Whoever neither updates nor converts leaves journals, pointer and lock alone, adds at most a commit of its own
      when no update is pending, and starts no conversion. */
  lemma OutsidersKeep(s: State, a: Action, s': State)
    requires Next(s, a, s') && !IsUpdateAction(a) && !IsEnableAction(a)
    ensures s'.disk == s.disk.(receipts := s'.disk.receipts, head := s'.disk.head, work := s'.disk.work)
    ensures s'.disk.head != s.disk.head ==>
              && s.disk.journal.None? && s'.disk.head.Child? && s'.disk.head.parent == s.disk.head
              && s'.disk.head.lock == s.disk.head.lock
    ensures forall p :: p in s'.procs && s'.procs[p].Enabling? ==> p in s.procs && s'.procs[p] == s.procs[p]
  {
    if IsReaderAction(a) { IsReaderStep(s, a, s'); }
    else if IsEventAction(a) { IsEventStep(s, a, s'); }
    else if IsApplyAction(a) { IsApplyStep(s, a, s'); }
    else { IsOtherStep(s, a, s'); }
  }

  lemma PreservedByOutsiders(s: State, a: Action, s': State)
    requires !IsApplyAction(a) && !IsUpdateAction(a) && !IsEnableAction(a)
    requires Inv(s) && Next(s, a, s')
    ensures Inv(s')
  {
    if IsReaderAction(a) {
      IsReaderStep(s, a, s');
      PreservedByReader(s, a, s');
    } else if IsEventAction(a) {
      IsEventStep(s, a, s');
      PreservedByEvent(s, a, s');
    } else {
      IsOtherStep(s, a, s');
      if a.ProjectCommit? { PreservedByProjectCommit(s, a, s'); } else { PreservedByOther(s, a, s'); }
    }
  }

  lemma PreservedByUpdaters(s: State, a: Action, s': State)
    requires IsApplyAction(a) || IsUpdateAction(a) || IsEnableAction(a)
    requires Inv(s) && Next(s, a, s')
    ensures Inv(s')
  {
    if IsApplyAction(a) {
      IsApplyStep(s, a, s');
      PreservedByApply(s, a, s');
    } else if IsUpdateAction(a) {
      IsUpdateStep(s, a, s');
      PreservedByUpdate(s, a, s');
    } else {
      IsEnableStep(s, a, s');
      PreservedByEnable(s, a, s');
    }
  }

  lemma InvPreserved(s: State, a: Action, s': State)
    requires Inv(s) && Next(s, a, s')
    ensures Inv(s')
  {
    if IsApplyAction(a) || IsUpdateAction(a) || IsEnableAction(a) {
      PreservedByUpdaters(s, a, s');
    } else {
      PreservedByOutsiders(s, a, s');
    }
  }

  lemma {:induction false} InvHolds(states: seq<State>, actions: seq<Action>, i: nat)
    requires Run(states, actions) && i < |states|
    ensures Inv(states[i])
  {
    if i > 0 {
      InvHolds(states, actions, i - 1);
      InvPreserved(states[i - 1], actions[i - 1], states[i]);
    }
  }
}
