/** What the startup protocol promises over whole runs. */
module StartupTheorems {
  import opened Results
  import opened StartupState
  import opened StartupSteps
  import opened StartupTrails
  import opened StartupProtocol
  import opened StartupSafety

  /** Crash safety. With a crash possible between any two durable writes, repeatedly, every state is
      either settled or holds a journal from which the update can be finished or undone. */
  lemma CrashSafety(states: seq<State>, actions: seq<Action>, i: nat)
    requires Run(states, actions) && i < |states|
    ensures var d := states[i].disk;
            d.journal.None? && d.enabling.None? ==>
              Settled(d) && d.pointer != Missing && d.pointer.env.lock == d.lock == d.head.lock
    ensures states[i].disk.journal.Some? ==>
              var j, d := states[i].disk.journal.value, states[i].disk;
              && d.pointer in {Link(j.previous), Link(j.candidate)} && j.previous.owned && j.candidate.owned
              && d.lock in {j.oldLock, j.candidateLock}
              && j.before.head.lock == j.oldLock && j.candidate.lock == j.candidateLock
              && (d.head == j.before.head
                  || (d.head.Child? && d.head.parent == j.before.head && d.head.lock == j.candidateLock
                      && d.head.changed == ["config/governance/runtime.lock.yaml"]))
              && RestoreAccepts(j, d)
    ensures states[i].disk.enabling.Some? ==>
              var e, d := states[i].disk.enabling.value, states[i].disk;
              && d.pointer in {Directory(e.original), Missing, Link(e.candidate)}
              && d.lock == e.lock == e.candidate.lock && e.candidate.owned
  {
    InvHolds(states, actions, i);
  }

  lemma RetiringAction(j: Journal, point: Point, recovering: bool, d: Disk, d': Disk, j': Journal, next: Option<Point>)
    requires ReachedPoint(j, point, d) && UpdateStep(j, point, recovering, d, d', j', next)
    requires d.journal.Some? && d'.journal.None?
    ensures d'.head == d.head && d'.enabling.None? && SameTransaction(d.journal.value, j)
    ensures if CommittedChild(j, d.head) then AllNew(j, d') else AllOld(j, d')
  {
    assert CommittedHead(j, d.head).Ok?;
  }

  lemma RetiringStep(s: State, a: Action, s': State)
    requires Inv(s) && Next(s, a, s') && s.disk.journal.Some? && s'.disk.journal.None?
    ensures a.Advance? && s'.disk.head == s.disk.head && s'.disk.enabling.None?
    ensures var j := s.disk.journal.value;
            if CommittedChild(j, s.disk.head) then AllNew(j, s'.disk) else AllOld(j, s'.disk)
  {
    if IsUpdateAction(a) {
      IsUpdateStep(s, a, s');
      var p := s.procs[a.pid];
      var j, next := AdvanceStep(s, a, s');
      RetiringAction(p.journal, p.point, p.recovering, s.disk, s'.disk, j, next);
    } else if IsEnableAction(a) {
      IsEnableStep(s, a, s');
    } else {
      OutsidersKeep(s, a, s');
    }
  }

  /** A journal is retired only when everything is all new, which is when the update's commit
      exists, or all old, which is when it does not. */
  lemma JournalRetiredAsGitDecided(states: seq<State>, actions: seq<Action>, i: nat)
    requires Run(states, actions) && i < |actions|
    requires states[i].disk.journal.Some? && states[i + 1].disk.journal.None?
    ensures actions[i].Advance?
    ensures Settled(states[i + 1].disk) && states[i + 1].disk.head == states[i].disk.head
    ensures var j, d := states[i].disk.journal.value, states[i + 1].disk;
            if d.head == j.before.head then d.pointer == Link(j.previous) && d.lock == j.oldLock
            else
              && d.pointer == Link(j.candidate) && d.lock == j.candidateLock
              && d.head.Child? && d.head.parent == j.before.head && d.head.lock == j.candidateLock
              && d.head.changed == ["config/governance/runtime.lock.yaml"]
  {
    InvHolds(states, actions, i);
    InvHolds(states, actions, i + 1);
    RetiringStep(states[i], actions[i], states[i + 1]);
    RestIsSettled(states[i + 1]);
  }

  lemma RestIsSettled(s: State)
    requires Inv(s) && s.disk.journal.None? && s.disk.enabling.None?
    ensures Settled(s.disk)
  {
  }

  ghost predicate Ancestor(a: Commit, b: Commit)
    decreases b
  {
    a == b || (b.Child? && Ancestor(a, b.parent))
  }

  lemma {:induction false} AncestorTransitive(a: Commit, b: Commit, c: Commit)
    requires Ancestor(a, b) && Ancestor(b, c)
    ensures Ancestor(a, c)
    decreases c
  {
    if b != c { AncestorTransitive(a, b, c.parent); }
  }

  lemma HeadMovesOn(s: State, a: Action, s': State)
    requires Inv(s) && Next(s, a, s')
    ensures s'.disk.head == s.disk.head || (s'.disk.head.Child? && s'.disk.head.parent == s.disk.head)
  {
    if IsUpdateAction(a) {
      IsUpdateStep(s, a, s');
      if a.Advance? { var j, next := AdvanceStep(s, a, s'); }
    } else if IsEnableAction(a) {
      IsEnableStep(s, a, s');
    } else {
      OutsidersKeep(s, a, s');
    }
  }

  lemma HeadMovesOnInRun(states: seq<State>, actions: seq<Action>, k: nat)
    requires Run(states, actions) && k < |actions|
    ensures Ancestor(states[k].disk.head, states[k + 1].disk.head)
  {
    InvHolds(states, actions, k);
    HeadMovesOn(states[k], actions[k], states[k + 1]);
  }

  lemma {:induction false} AncestorsChain(states: seq<State>, i: nat, k: nat)
    requires i <= k < |states|
    requires forall n: nat :: n < |states| - 1 ==> Ancestor(states[n].disk.head, states[n + 1].disk.head)
    ensures Ancestor(states[i].disk.head, states[k].disk.head)
  {
    if i < k {
      AncestorsChain(states, i, k - 1);
      AncestorTransitive(states[i].disk.head, states[k - 1].disk.head, states[k - 1 + 1].disk.head);
    }
  }

  /** No updater, recoverer or enabler ever rewrites history: HEAD only moves to descendants. */
  lemma HistoryNeverRewritten(states: seq<State>, actions: seq<Action>, i: nat, k: nat)
    requires Run(states, actions) && i <= k < |states|
    ensures Ancestor(states[i].disk.head, states[k].disk.head)
  {
    forall n: nat | n < |states| - 1 ensures Ancestor(states[n].disk.head, states[n + 1].disk.head) {
      HeadMovesOnInRun(states, actions, n);
    }
    AncestorsChain(states, i, k);
  }

  /** An ordinary command or a task's event that `runtime_reader` has let in. */
  predicate ReaderInside(s: State, p: Pid) {
    p in s.procs && (s.procs[p].Reader? || s.procs[p].Registering? || s.procs[p].Discovering?)
  }

  /** Pointer and lock are only changed by an updater or a conversion, which keeps its locks or ends. */
  lemma ChangersHoldLocks(s: State, a: Action, s': State)
    requires Inv(s) && Next(s, a, s') && (s.disk.pointer != s'.disk.pointer || s.disk.lock != s'.disk.lock)
    ensures (a.Advance? || a.AdvanceEnable?) && a.pid in s.procs && HoldsExclusive(s.procs[a.pid])
    ensures forall q :: q in s'.procs && q != a.pid ==> q in s.procs && s'.procs[q] == s.procs[q]
    ensures a.pid in s'.procs ==> HoldsExclusive(s'.procs[a.pid])
  {
    if IsUpdateAction(a) { IsUpdateStep(s, a, s'); }
    else if IsEnableAction(a) { IsEnableStep(s, a, s'); }
    else { OutsidersKeep(s, a, s'); }
  }

  lemma ChangeExcludesReaders(s: State, a: Action, s': State, p: Pid)
    requires Inv(s) && Next(s, a, s') && (s.disk.pointer != s'.disk.pointer || s.disk.lock != s'.disk.lock)
    ensures !ReaderInside(s, p) && !ReaderInside(s', p)
  {
    ChangersHoldLocks(s, a, s');
    if p in s.procs && p != a.pid { OthersUnlocked(s.procs, a.pid, p); }
  }

  /** Readers and updaters exclude each other: whenever the pointer or the lock changes, nobody is
      inside `runtime_reader`, neither before nor after the write. */
  lemma NoReaderDuringChange(states: seq<State>, actions: seq<Action>, i: nat, p: Pid)
    requires Run(states, actions) && i < |actions|
    requires states[i].disk.pointer != states[i + 1].disk.pointer || states[i].disk.lock != states[i + 1].disk.lock
    ensures !ReaderInside(states[i], p) && !ReaderInside(states[i + 1], p)
  {
    InvHolds(states, actions, i);
    ChangeExcludesReaders(states[i], actions[i], states[i + 1], p);
  }

  /** What every reader inside sees: no update pending, and an active runtime installed from exactly the lock on disk,
      unless a stopped conversion has renamed the runtime away. A reader loaded from the path of a generation runs that
      active runtime; of one loaded through the pointer, `StartupReaders` says when it does. */
  lemma ReaderSeesMatchingRuntime(states: seq<State>, actions: seq<Action>, i: nat, p: Pid)
    requires Run(states, actions) && i < |states| && ReaderInside(states[i], p)
    ensures states[i].disk.journal.None? && states[i].disk.lock == states[i].disk.head.lock
    ensures states[i].disk.pointer.Missing? ==> states[i].disk.enabling.Some?
    ensures !states[i].disk.pointer.Missing? ==> states[i].disk.pointer.env.lock == states[i].disk.lock
    ensures states[i].procs[p].loaded.Generation? ==> states[i].disk.pointer == Link(states[i].procs[p].loaded.env)
  {
    InvHolds(states, actions, i);
    assert Local(states[i].disk, states[i].nullBorn, states[i].procs[p]);
  }

  /** After an interruption, nobody is inside until an updater has retired the journal. */
  lemma NoReaderBeforeRecovery(states: seq<State>, actions: seq<Action>, k: nat, m: nat, p: Pid) returns (i: nat)
    requires Run(states, actions) && k < m < |states|
    requires states[k].disk.journal.Some? && ReaderInside(states[m], p)
    ensures k <= i < m && states[i].disk.journal.Some? && states[i + 1].disk.journal.None?
    ensures Settled(states[i + 1].disk) && actions[i].Advance?
  {
    ReaderSeesMatchingRuntime(states, actions, m, p);
    i := JournalEnds(states, k, m);
    JournalRetiredAsGitDecided(states, actions, i);
  }

  lemma {:induction false} JournalEnds(states: seq<State>, k: nat, m: nat) returns (i: nat)
    requires k < m < |states| && states[k].disk.journal.Some? && states[m].disk.journal.None?
    ensures k <= i < m && states[i].disk.journal.Some? && states[i + 1].disk.journal.None?
    decreases m - k
  {
    if states[k + 1].disk.journal.None? { i := k; } else { i := JournalEnds(states, k + 1, m); }
  }

  /** Nobody is let in, as a reader or as a task, while either lock holder works or a journal waits. */
  lemma EntryNeedsSettledUpdates(states: seq<State>, actions: seq<Action>, i: nat, p: Pid)
    requires Run(states, actions) && i < |actions|
    requires p in states[i].procs && HoldsExclusive(states[i].procs[p])
    ensures !actions[i].AdmitReader? && !actions[i].BeginEvent? && !actions[i].Register?
    // Whatever runtime it was loaded from, no event is let in now: each is told to wait, whatever task it belongs to.
    ensures forall loaded :: !ReaderAdmitted(states[i], loaded)
  {
    InvHolds(states, actions, i);
    var s, a := states[i], actions[i];
    assert Next(s, a, states[i + 1]);
    if (a.AdmitReader? || a.Register?) {
      assert a.pid != p;
      OthersUnlocked(s.procs, p, a.pid);
    }
  }

  /** Task reservation. While an update that a task applied is running, every other task that is open
      has been told to wait; in particular no other task works on the runtime being replaced. */
  lemma UpdateReservesRuntime(states: seq<State>, actions: seq<Action>, i: nat, p: Pid, t: Task)
    requires Run(states, actions) && i < |states|
    requires p in states[i].procs && states[i].procs[p].Updating? && !states[i].procs[p].recovering
    requires t in states[i].disk.receipts && states[i].disk.receipts[t].open
    ensures t == states[i].procs[p].journal.task || states[i].disk.receipts[t].answer == Deferred(true)
  {
    InvHolds(states, actions, i);
    assert Local(states[i].disk, states[i].nullBorn, states[i].procs[p]);
  }

  lemma OnlyFinalCheckUpdates(s: State, a: Action, s': State, p: Pid)
    requires Next(s, a, s') && (p !in s.procs || !s.procs[p].Updating?)
    requires p in s'.procs && s'.procs[p].Updating? && !s'.procs[p].recovering
    ensures a.FinalCheck? && a.pid == p
  {
    if IsReaderAction(a) { IsReaderStep(s, a, s'); }
    else if IsEventAction(a) { IsEventStep(s, a, s'); }
    else if IsApplyAction(a) { IsApplyStep(s, a, s'); }
    else if IsUpdateAction(a) { IsUpdateStep(s, a, s'); }
    else if IsEnableAction(a) { IsEnableStep(s, a, s'); }
    else { IsOtherStep(s, a, s'); }
  }

  lemma OnlyFinalCheckBegins(s: State, a: Action, s': State, p: Pid)
    requires Inv(s) && Next(s, a, s') && (p !in s.procs || !s.procs[p].Updating?)
    requires p in s'.procs && s'.procs[p].Updating? && !s'.procs[p].recovering
    ensures a.FinalCheck? && ApplyAction(s, a, s') && a.pid == p && Settled(s.disk)
  {
    OnlyFinalCheckUpdates(s, a, s', p);
    IsApplyStep(s, a, s');
    assert Local(s.disk, s.nullBorn, s.procs[a.pid]);
  }

  /** An update begins only from the final check, and that check found every other receipt closed or
      its owner gone. */
  lemma UpdateBeginsAtFinalCheck(states: seq<State>, actions: seq<Action>, i: nat, p: Pid)
    requires Run(states, actions) && i < |actions|
    requires p !in states[i].procs || !states[i].procs[p].Updating?
    requires p in states[i + 1].procs && states[i + 1].procs[p].Updating? && !states[i + 1].procs[p].recovering
    ensures actions[i].FinalCheck? && Settled(states[i].disk)
    ensures var receipts := states[i].disk.receipts;
            forall t :: t in receipts && t != states[i + 1].procs[p].journal.task && receipts[t].open ==>
              receipts[t].owner.Host? && receipts[t].owner.id in states[i].gone
    ensures var j, d := states[i + 1].procs[p].journal, states[i].disk;
            && j.before == Snapshot(d.branch, d.head, d.work) && j.oldLock == d.lock && d.pointer == Link(j.previous)
            && j.previous.owned && j.previous.lock == d.lock && j.candidate.owned && j.candidate.lock == j.candidateLock
  {
    InvHolds(states, actions, i);
    OnlyFinalCheckBegins(states[i], actions[i], states[i + 1], p);
  }

  lemma WaitingTasksStay(s: State, a: Action, s': State)
    requires Next(s, a, s')
    ensures s.nullBorn <= s'.nullBorn
    ensures Inv(s) && a.BeginApply? ==> a.task !in s.nullBorn
  {
  }

  lemma {:induction false} WaitingTasksPersist(states: seq<State>, actions: seq<Action>, i: nat, k: nat, t: Task)
    requires Run(states, actions) && i <= k < |states| && t in states[i].nullBorn
    ensures t in states[k].nullBorn
  {
    if i < k {
      WaitingTasksPersist(states, actions, i, k - 1, t);
      WaitingTasksStay(states[k - 1], actions[k - 1], states[k]);
    }
  }

  /** A receipt first created while waiting never gets a lock, so its task never applies. */
  lemma WaitingTaskNeverApplies(states: seq<State>, actions: seq<Action>, i: nat, k: nat, t: Task)
    requires Run(states, actions) && i <= k < |states| && t in states[i].nullBorn
    ensures t in states[k].disk.receipts && states[k].disk.receipts[t].digest.None?
    ensures k < |actions| && actions[k].BeginApply? ==> actions[k].task != t
  {
    InvHolds(states, actions, k);
    WaitingTasksPersist(states, actions, i, k, t);
    if k < |actions| { WaitingTasksStay(states[k], actions[k], states[k + 1]); }
  }

  /** Each task starts release discovery at most once, however its events, crashes and updates mix. */
  lemma DiscoveryAtMostOnce(states: seq<State>, actions: seq<Action>, i: nat, t: Task)
    requires Run(states, actions) && i < |states|
    ensures states[i].discoveries[t] <= 1
  {
    InvHolds(states, actions, i);
  }

  // ---------------------------------------------------------------- stopped conversions

  /** A conversion stopped after renaming the runtime away. */
  predicate RuntimeLost(s: State) {
    s.disk.enabling.Some? && s.disk.pointer.Missing? && forall p :: p in s.procs ==> !s.procs[p].Enabling?
  }

  lemma RepairersNeedRuntime(s: State, a: Action, s': State)
    requires a.Advance? || a.BeginEnable? || a.AdvanceEnable? || a.SettleEnable?
    requires Inv(s) && Next(s, a, s')
    ensures !RuntimeLost(s)
  {
    assert a.pid in s.procs ==> Local(s.disk, s.nullBorn, s.procs[a.pid]);
  }

  lemma LostRuntimeStep(s: State, a: Action, s': State)
    requires Inv(s) && RuntimeLost(s) && Next(s, a, s')
    ensures RuntimeLost(s')
  {
    if a.Advance? || a.BeginEnable? || a.AdvanceEnable? || a.SettleEnable? {
      RepairersNeedRuntime(s, a, s');
    } else {
      assert s'.disk.enabling == s.disk.enabling && s'.disk.pointer == s.disk.pointer;
    }
  }

  lemma LostRuntimeStepInRun(states: seq<State>, actions: seq<Action>, k: nat)
    requires Run(states, actions) && k < |actions| && RuntimeLost(states[k])
    ensures RuntimeLost(states[k + 1])
  {
    InvHolds(states, actions, k);
    LostRuntimeStep(states[k], actions[k], states[k + 1]);
  }

  /** `recover` does not bring such a runtime back, and nothing else here can touch it. */
  lemma {:induction false} LostRuntimeStaysLost(states: seq<State>, actions: seq<Action>, i: nat, k: nat)
    requires Run(states, actions) && i <= k < |states| && RuntimeLost(states[i])
    ensures RuntimeLost(states[k])
  {
    if i < k {
      LostRuntimeStaysLost(states, actions, i, k - 1);
      LostRuntimeStepInRun(states, actions, k - 1);
    }
  }

  // ---------------------------------------------------------------- commit commands that outlive their updater

  /** A commit command runs in a session of its own, so it can still make the commit of a killed update `j` later. That
      leaves a worktree at rest exactly when a journal is still there that accepts the commit. */
  lemma LateCommitIsSafeExactlyWhen(j: Journal, d: Disk, head: Commit)
    requires AtRest(d) && WellFormed(j) && d.head == j.before.head && CommittedChild(j, head)
    ensures AtRest(d.(head := head)) <==> d.journal.Some? && CommittedChild(d.journal.value, head)
  {
    assert d.journal.Some? ==> CommittedHead(d.journal.value, d.head).Ok?;
  }

  // ---------------------------------------------------------------- one worktree's own history

  predicate MomentIsSafe(t: Trail, history: seq<Disk>, m: Moment) {
    && m.written < |history| && AtRest(history[m.written])
    && (m.next.Some? ==> ReachedPoint(m.journal, m.next.value, history[m.written]))
    && (m.next.Some? && t.recovering ==> !Protected(m.next.value) && !m.next.value.AtWriteJournal?)
  }

  lemma {:induction false} MomentsAreSafe(t: Trail, history: seq<Disk>, k: nat)
    requires Traces(t, history) && k <= |t.moments| && MomentIsSafe(t, history, t.start)
    ensures MomentIsSafe(t, history, t.At(k))
  {
    if k > 0 {
      MomentsAreSafe(t, history, k - 1);
      assert ActsAt(t, history, k - 1);
      var a, b := t.At(k - 1), t.At(k);
      var d, d' := history[a.written], history[b.written];
      UpdateStepIsSafe(a.journal, a.next.value, t.recovering, d, d', b.journal, b.next);
    }
  }

  /** No state of the history is passed over. */
  lemma {:induction false} MomentOf(t: Trail, history: seq<Disk>, i: nat, last: nat) returns (k: nat)
    requires Traces(t, history) && last <= |t.moments| && t.start.written <= i <= t.At(last).written
    ensures k <= last && t.At(k).written == i
    decreases last
  {
    if t.At(last).written == i {
      k := last;
    } else {
      assert ActsAt(t, history, last - 1);
      k := MomentOf(t, history, i, last - 1);
    }
  }

  /** What a worktree's own update or recovery writes, as `Worktree.ActivateAndCommit` and `Worktree.Recover` say it
      does, is as safe as the runs of the protocol: whichever state a crash leaves is settled or recoverable. */
  lemma FollowedHistoryIsSafe(history: seq<Disk>, n: nat, j: Journal, point: Point, recovering: bool,
                              next: Option<Point>, i: nat)
    requires Follows(history, n, j, point, recovering, next) && n <= i < |history|
    requires point == (if recovering then AtCheck else AtWriteJournal) && ReachedPoint(j, point, history[n])
    ensures AtRest(history[i])
  {
    var t: Trail :| t.start == Moment(j, Some(point), n) && t.recovering == recovering
                    && Traces(t, history) && t.Last().next == next;
    var k := MomentOf(t, history, i, |t.moments|);
    MomentsAreSafe(t, history, k);
  }
}
