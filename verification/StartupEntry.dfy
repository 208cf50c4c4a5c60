/** When each operation of the startup protocol can begin, and what an event writes, in full. */
module StartupEntry {
  import opened Results
  import opened StartupState
  import StartupSteps
  import opened StartupTransaction
  import opened StartupProtocol

  ghost predicate CanHappen(s: State, a: Action) { exists s' :: Next(s, a, s') }

  /** No process has excluded the readers. */
  predicate NobodyReplaces(s: State) {
    forall p :: p in s.procs ==>
      && !s.procs[p].Checking? && !s.procs[p].Updating? && !s.procs[p].Recovering?
      && !s.procs[p].Enabling? && !s.procs[p].RecoveringEnable?
  }

  /** No command is between its entry and its end, and no task's event is being served. */
  predicate NobodyReads(s: State) {
    forall p :: p in s.procs ==>
      !s.procs[p].EnteringReader? && !s.procs[p].Reader? && !s.procs[p].Registering? && !s.procs[p].Discovering?
  }

  predicate NobodyPrepares(s: State) { forall p :: p in s.procs ==> !s.procs[p].Preparing? }

  /** No other process handles an event of the task. */
  predicate NobodyServes(s: State, task: Task) {
    forall p :: p in s.procs ==>
      && (s.procs[p].Registering? ==> s.procs[p].task != task) && (s.procs[p].Discovering? ==> s.procs[p].task != task)
      && (s.procs[p].MustWaiting? ==> s.procs[p].task != task)
  }

  /** A process whose files come from one generation runs that one; of any other process nothing is known. */
  ghost predicate MayRun(loaded: Loaded, pointer: Pointer) {
    forall env :: loaded == Generation(env) ==> pointer == Link(env)
  }

  /** The open receipt of `task` is bound to the lock on disk. */
  predicate Bound(d: Disk, task: Task) {
    task in d.receipts && d.receipts[task].open && d.receipts[task].digest == Some(d.lock)
  }

  /** Every other open receipt belongs to a host that has exited. */
  predicate Alone(s: State, task: Task) {
    forall t :: t in s.disk.receipts && t != task && s.disk.receipts[t].open ==>
      s.disk.receipts[t].owner.Host? && s.disk.receipts[t].owner.id in s.gone
  }

  /** A later release of the same major version. */
  predicate Newer(current: Lock, candidate: Lock) {
    && candidate.version.major == current.version.major
    && (candidate.version.minor > current.version.minor
        || (candidate.version.minor == current.version.minor && candidate.version.patch > current.version.patch))
  }

  /** A run begins with nobody about and nothing pending, in any worktree whose runtime was installed from its lock,
      with that lock committed. */
  lemma BeginsExactlyWhen(s: State)
    ensures Init(s) <==>
              && s == State(s.disk, map[], s.gone, {}, multiset{})
              && s.disk.journal == None && s.disk.enabling == None && s.disk.receipts == map[]
              && (exists env: Environment :: env.lock == s.disk.lock && s.disk.pointer in {Directory(env), Link(env)})
              && s.disk.head.lock == s.disk.lock
  {
    if Init(s) { assert s.disk.pointer in {Directory(s.disk.pointer.env), Link(s.disk.pointer.env)}; }
  }

  // ---------------------------------------------------------------- readers

  lemma ReaderEntersExactlyWhen(s: State, pid: Pid)
    ensures CanHappen(s, EnterReader(pid)) <==> pid in s.procs && s.procs[pid].Launched? && NobodyReplaces(s)
  {
    if pid in s.procs && s.procs[pid].Launched? && NobodyReplaces(s) {
      assert Next(s, EnterReader(pid), s.(procs := s.procs[pid := EnteringReader(s.procs[pid].loaded)]));
    }
  }

  lemma ReaderIsAdmittedExactlyWhen(s: State, pid: Pid)
    ensures CanHappen(s, AdmitReader(pid)) <==>
              && pid in s.procs && s.procs[pid].EnteringReader? && s.disk.journal == None
              && MayRun(s.procs[pid].loaded, s.disk.pointer)
  {
    if (pid in s.procs && s.procs[pid].EnteringReader? && s.disk.journal == None
        && MayRun(s.procs[pid].loaded, s.disk.pointer)) {
      assert Next(s, AdmitReader(pid), s.(procs := s.procs[pid := Reader(s.procs[pid].loaded)]));
    }
  }

  /** The updater's own commands come in by its token, once the pointer has been switched and while it lives. */
  lemma ReaderJoinsExactlyWhen(s: State, pid: Pid, token: nat)
    ensures CanHappen(s, JoinReader(pid, token)) <==>
              && pid !in s.procs
              && exists j :: s.disk.journal == Some(j) && j.token == token && j.phase != Prepared && j.owner in s.procs
  {
    if pid !in s.procs && s.disk.journal.Some? {
      var j := s.disk.journal.value;
      if j.token == token && j.phase != Prepared && j.owner in s.procs {
        assert Next(s, JoinReader(pid, token), s.(procs := s.procs[pid := JoinedReader]));
      }
    }
  }

  // ---------------------------------------------------------------- events

  /** A task's event is served exactly when an ordinary command would be let in now, and otherwise told to wait. */
  lemma EventIsServedExactlyWhen(s: State, pid: Pid, task: Task, kind: EventKind)
    requires pid in s.procs && s.procs[pid].Launched?
    ensures CanHappen(s, BeginEvent(pid, task, kind)) <==>
              && NobodyServes(s, task) && NobodyReplaces(s) && s.disk.journal == None
              && MayRun(s.procs[pid].loaded, s.disk.pointer)
    ensures CanHappen(s, MustWait(pid, task)) <==>
              && NobodyServes(s, task)
              && (!NobodyReplaces(s) || s.disk.journal != None || !MayRun(s.procs[pid].loaded, s.disk.pointer))
  {
    var loaded := s.procs[pid].loaded;
    assert NobodyServes(s, task) <==> NoEventOf(s, task);
    assert NobodyReplaces(s) <==> ReadersFree(s);
    if NobodyServes(s, task) {
      if ReaderAdmitted(s, loaded) {
        var p := Registering(loaded, task, kind, Lookup(s.disk.receipts, task));
        assert Next(s, BeginEvent(pid, task, kind), s.(procs := s.procs[pid := p]));
      } else {
        var p := MustWaiting(task, Lookup(s.disk.receipts, task));
        assert Next(s, MustWait(pid, task), s.(procs := s.procs[pid := p]));
      }
    }
  }

  /** What an event that was let in writes first. A task keeps the lock that it began with: when the lock is another
      now, it needs approval. Only a prompt or a start, of a receipt still open, keeps the answer. */
  lemma RegistersAs(s: State, pid: Pid, owner: Owner, s': State)
    requires Next(s, Register(pid, owner), s')
    ensures pid in s.procs && s.procs[pid].Registering?
    ensures var task, kind, lock := s.procs[pid].task, s.procs[pid].kind, s.disk.lock;
            && s'.disk == s.disk.(receipts := s'.disk.receipts)
            && s'.disk.receipts.Keys == s.disk.receipts.Keys + {task}
            && (forall t :: t in s.disk.receipts && t != task ==> s'.disk.receipts[t] == s.disk.receipts[t])
            && s'.disk.receipts[task] == (
                 match s.procs[pid].prior
                 case None => Receipt(true, owner, Some(lock), Deferred(false))
                 case Some(Receipt(open, _, digest, answer)) =>
                   if digest != Some(lock) then Receipt(true, owner, digest, ApprovalRequired)
                   else if open && kind != Continuation then Receipt(true, owner, digest, answer)
                   else Receipt(true, owner, digest, Deferred(false)))
    // Releases are looked for by the first event of a task, if that event starts it.
    ensures var task := s.procs[pid].task;
            if s.procs[pid].prior == None && s.procs[pid].kind == Startup then
              && s'.discoveries == s.discoveries + multiset{task}
              && pid in s'.procs && s'.procs[pid].Discovering? && s'.procs[pid].task == task
            else s'.discoveries == s.discoveries && pid !in s'.procs
  {
  }

  /** An event that has to wait leaves an open receipt that says so, and binds the task to no new lock. */
  lemma WaitsAs(s: State, pid: Pid, owner: Owner, s': State)
    requires Next(s, WriteMustWait(pid, owner), s')
    ensures pid in s.procs && s.procs[pid].MustWaiting? && pid !in s'.procs
    ensures var task := s.procs[pid].task;
            && s'.disk == s.disk.(receipts := s'.disk.receipts)
            && s'.disk.receipts.Keys == s.disk.receipts.Keys + {task}
            && (forall t :: t in s.disk.receipts && t != task ==> s'.disk.receipts[t] == s.disk.receipts[t])
            && s'.disk.receipts[task] == (
                 match s.procs[pid].prior
                 case None => Receipt(true, owner, None, Deferred(true))
                 case Some(Receipt(_, _, digest, _)) => Receipt(true, owner, digest, Deferred(true)))
  {
  }

  // ---------------------------------------------------------------- updates

  /** One updater at a time: an update begins for a task that was offered a release, alone in the worktree, beside an
      owned active runtime and with nothing to recover. */
  lemma ApplyBeginsExactlyWhen(s: State, pid: Pid, task: Task, previous: Environment, candidate: Environment)
    ensures CanHappen(s, BeginApply(pid, task, previous, candidate)) <==>
              && pid !in s.procs && NobodyReplaces(s) && NobodyPrepares(s)
              && s.disk.journal == None && s.disk.enabling == None
              && Bound(s.disk, task) && s.disk.receipts[task].answer == Available(candidate.lock) && Alone(s, task)
              && Newer(s.disk.lock, candidate.lock) && candidate.owned
              && s.disk.pointer == Link(previous) && previous.owned
  {
    var a := BeginApply(pid, task, previous, candidate);
    assert NobodyReplaces(s) && NobodyPrepares(s) <==> UpdateLockFree(s);
    assert Alone(s, task) <==> OthersGone(s.disk.receipts, task, s.gone);
    var d := s.disk.(receipts := CloseOthers(s.disk.receipts, task));
    var s' := s.(disk := d, procs := s.procs[pid := Preparing(task, previous, candidate)]);
    if CanHappen(s, a) {
      var t :| Next(s, a, t);
    } else {
      assert !Next(s, a, s');
    }
  }

  /** Readers are excluded only once they have all left. */
  lemma ReadersAreLockedExactlyWhen(s: State, pid: Pid)
    ensures CanHappen(s, LockReaders(pid)) <==>
              pid in s.procs && s.procs[pid].Preparing? && NobodyReads(s) && NobodyReplaces(s)
  {
    assert NobodyReads(s) && NobodyReplaces(s) <==> ExclusiveFree(s);
    if pid in s.procs && s.procs[pid].Preparing? && ExclusiveFree(s) {
      var Preparing(task, previous, candidate) := s.procs[pid];
      assert Next(s, LockReaders(pid), s.(procs := s.procs[pid := Checking(task, previous, candidate)]));
    }
  }

  /** With readers excluded, everything that may have changed meanwhile is asked again. */
  lemma FinalCheckPassesExactlyWhen(s: State, pid: Pid, token: nat)
    ensures CanHappen(s, FinalCheck(pid, token)) <==>
              && pid in s.procs && s.procs[pid].Checking?
              && Bound(s.disk, s.procs[pid].task) && Alone(s, s.procs[pid].task)
              && s.disk.head.lock == s.disk.lock && Newer(s.disk.lock, s.procs[pid].candidate.lock)
              && s.disk.pointer == Link(s.procs[pid].previous) && s.procs[pid].previous.owned
  {
    var a := FinalCheck(pid, token);
    if pid in s.procs && s.procs[pid].Checking? {
      var Checking(task, previous, candidate) := s.procs[pid];
      assert Alone(s, task) <==> OthersGone(s.disk.receipts, task, s.gone);
      var d := s.disk;
      var j := Journal(task, pid, token, Prepared, Snapshot(d.branch, d.head, d.work), d.lock, candidate.lock,
                       previous, candidate);
      var s' := s.(disk := d.(receipts := CloseOthers(d.receipts, task)),
                   procs := s.procs[pid := Updating(j, StartupSteps.AtWriteJournal, false)]);
      if CanHappen(s, a) {
        var t :| Next(s, a, t);
      } else {
        assert !Next(s, a, s');
      }
    }
  }

  /** Recovery waits for updaters and for readers. */
  lemma RecoveryBeginsExactlyWhen(s: State, pid: Pid)
    ensures CanHappen(s, BeginRecover(pid)) <==>
              pid !in s.procs && NobodyPrepares(s) && NobodyReplaces(s) && NobodyReads(s)
  {
    assert NobodyPrepares(s) && NobodyReplaces(s) && NobodyReads(s) <==> UpdateLockFree(s) && ExclusiveFree(s);
    if pid !in s.procs && UpdateLockFree(s) && ExclusiveFree(s) {
      assert Next(s, BeginRecover(pid), s.(procs := s.procs[pid := Recovering]));
    }
  }

  /** Recovery goes on unless HEAD is neither the commit before the update nor the one that changed the lock alone. */
  lemma TakesOverExactlyWhen(s: State, pid: Pid)
    requires pid in s.procs && s.procs[pid].Recovering?
    ensures CanHappen(s, TakeOver(pid)) <==>
              s.disk.enabling != None || s.disk.journal == None ||
              var j, head := s.disk.journal.value, s.disk.head;
              || head == j.before.head
              || (head.Child? && head.parent == j.before.head && head.lock == j.candidateLock
                  && head.changed == ["config/governance/runtime.lock.yaml"])
  {
    var a := TakeOver(pid);
    if s.disk.enabling.Some? {
      assert Next(s, a, s.(procs := s.procs[pid := RecoveringEnable(s.disk.enabling.value)]));
    } else if s.disk.journal.None? {
      assert Next(s, a, s.(procs := s.procs - {pid}));
    } else {
      var j := s.disk.journal.value;
      var committed := CommittedHead(j, s.disk.head);
      if committed.Ok? {
        var taken := StartupSteps.TakenOver(j, pid, committed.value);
        assert Next(s, a, s.(disk := s.disk.(journal := Some(taken)),
                             procs := s.procs[pid := Updating(taken, StartupSteps.AtCheck, true)]));
      }
    }
  }

  /** A directory is converted when nothing is pending and nobody is about, by an owned installation of its lock. */
  lemma ConversionBeginsExactlyWhen(s: State, pid: Pid, e: EnableJournal)
    ensures CanHappen(s, BeginEnable(pid, e)) <==>
              && pid !in s.procs && NobodyPrepares(s) && NobodyReplaces(s) && NobodyReads(s)
              && s.disk.journal == None && s.disk.enabling == None && s.disk.pointer == Directory(e.original)
              && e.lock == s.disk.lock && e.candidate.lock == s.disk.lock && e.candidate.owned
              && e.candidate != e.original
  {
    var a := BeginEnable(pid, e);
    assert NobodyPrepares(s) && NobodyReplaces(s) && NobodyReads(s) <==> UpdateLockFree(s) && ExclusiveFree(s);
    var s' := s.(procs := s.procs[pid := Enabling(e, AtWriteEnable)]);
    if CanHappen(s, a) {
      var t :| Next(s, a, t);
    } else {
      assert !Next(s, a, s');
    }
  }

  /** Both forms of an update begin under the same conditions: the protocol's, with no other updater about, and those of
      `Worktree.Apply`, which does not begin either when there are too many receipts or the lock is not committed. */
  lemma ApplyAgreesWithWorktree(s: State, pid: Pid, task: Task, previous: Environment, candidate: Environment,
                                passes: bool)
    requires pid !in s.procs && NobodyReplaces(s) && NobodyPrepares(s)
    ensures ApplyReady(s.disk, ApplyRequest(task, true, Some(candidate), s.gone, passes))
              && s.disk.pointer == Link(previous) <==>
            CanHappen(s, BeginApply(pid, task, previous, candidate))
              && |s.disk.receipts| <= 4096 && s.disk.head.lock == s.disk.lock
  {
    ApplyBeginsExactlyWhen(s, pid, task, previous, candidate);
    var request := ApplyRequest(task, true, Some(candidate), s.gone, passes);
    assert Alone(s, task) <==> OthersGone(s.disk.receipts, task, s.gone);
    if ApplyReady(s.disk, request) && s.disk.pointer == Link(previous) {
      assert s.disk.receipts[task].answer == Available(candidate.lock);
    }
  }
}
