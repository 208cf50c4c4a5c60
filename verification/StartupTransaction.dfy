/** `startup_transaction.py`: one update of a worktree's runtime, and the recovery of a stopped one.

    A worktree publishes one durable state at a time. `history` records every state that was
    ever on disk, so a claim about all of `history` is a claim about a crash at every point. */
module StartupTransaction {
  import opened Results
  import opened StartupState
  import opened StartupSteps
  import opened StartupTrails

  datatype UpdateOutcome = NotStarted | Completed(commit: Commit) | RestoredPrevious | NeedsRecovery

  datatype RecoverOutcome =
    | NothingToRecover
    | Recovered(answer: Answer)
    | EnableCancelled
    | EnableCompleted
    | StillInterrupted

  /** `Attempted` says that every check passed and the update began. */
  datatype ApplyOutcome = Answered(answer: Answer) | Refused | Attempted(journal: Journal, update: UpdateOutcome)

  /** The request of one parent: its assessment, and what preparing the candidate produced. */
  datatype ApplyRequest = ApplyRequest(
    task: Task, allowed: bool, prepared: Option<Environment>, gone: set<nat>, doctorPasses: bool)

  datatype ReservationOutcome = Reserved | OwnedByAnother | InventoryExceeded | WriteFailed

  predicate Writes(before: seq<Disk>, after: seq<Disk>) {
    before <= after
  }

  /** Every state a running or stopped update can leave on disk. */
  predicate TransactionState(j: Journal, d: Disk) {
    || InFlight(j, d)
    || (d.journal.None? && d.enabling.None? && WellFormed(j) && (AllOld(j, d) || AllNew(j, d)))
  }

  /** A stopped update beside which nobody else has changed branch or work. */
  predicate Undisturbed(d: Disk) {
    && d.journal.Some? && InFlight(d.journal.value, d)
    && d.branch == d.journal.value.before.branch && d.work == d.journal.value.before.work
  }

  /** No other task that may still be alive has the runtime reserved. */
  predicate OthersGone(receipts: map<Task, Receipt>, task: Task, gone: set<nat>) {
    forall t :: t in receipts && t != task && receipts[t].open ==>
      receipts[t].owner.Host? && receipts[t].owner.id in gone
  }

  /** Everything `apply` asks for before it begins: an open receipt for this lock with an available release, the
      reservation, a committed lock, an eligible candidate, and an owned generation of exactly that candidate. */
  predicate ApplyReady(d: Disk, request: ApplyRequest) {
    && request.allowed && d.journal.None? && d.enabling.None?
    && request.task in d.receipts && d.receipts[request.task].open
    && d.receipts[request.task].digest == Some(d.lock) && d.receipts[request.task].answer.Available?
    && |d.receipts| <= MAX_RECEIPTS && OthersGone(d.receipts, request.task, request.gone)
    && var offered := d.receipts[request.task].answer.candidate;
       && d.lock == d.head.lock && Eligible(d.lock, offered) && ActiveEnvironment(d.pointer).Some?
       && request.prepared.Some? && request.prepared.value.owned && request.prepared.value.lock == offered
  }

  /** The same in full: what a task must find before an update begins. */
  lemma ApplyReadyExactlyWhen(d: Disk, request: ApplyRequest)
    ensures ApplyReady(d, request) <==>
              && request.allowed && d.journal == None && d.enabling == None && |d.receipts| <= 4096
              && (exists offered, owner :: request.task in d.receipts
                    && d.receipts[request.task] == Receipt(true, owner, Some(d.lock), Available(offered))
                    && d.lock.version.major == offered.version.major
                    && (d.lock.version.minor < offered.version.minor
                        || (d.lock.version.minor == offered.version.minor
                            && d.lock.version.patch < offered.version.patch))
                    && exists name :: request.prepared == Some(Environment(name, true, offered)))
              && d.head.lock == d.lock
              && (exists name, lock :: d.pointer == Link(Environment(name, true, lock)))
              && forall t :: t in d.receipts && t != request.task && d.receipts[t].open ==>
                   exists id :: id in request.gone && d.receipts[t].owner == Host(id)
  {
    if ApplyReady(d, request) {
      var receipt, prepared, active := d.receipts[request.task], request.prepared.value, d.pointer.env;
      assert receipt == Receipt(true, receipt.owner, Some(d.lock), Available(receipt.answer.candidate));
      assert prepared == Environment(prepared.name, true, receipt.answer.candidate);
      assert d.pointer == Link(Environment(active.name, true, active.lock));
      forall t | t in d.receipts && t != request.task && d.receipts[t].open
        ensures exists id :: id in request.gone && d.receipts[t].owner == Host(id)
      {
        assert d.receipts[t].owner == Host(d.receipts[t].owner.id);
      }
    }
  }

  /** A Git hook has made another commit than the update's: HEAD is none that recovery accepts. */
  predicate Rewritten(j: Journal, d: Disk) {
    && WellFormed(j) && d.journal.Some? && SameTransaction(d.journal.value, j) && d.enabling.None?
    && d.pointer == Link(j.candidate) && d.lock == j.candidateLock && CommittedHead(j, d.head).Err?
  }

  /** What `_restore` may have on disk part way: the lock is written before the pointer. */
  predicate RestoreProgress(j: Journal, start: Disk, d: Disk) {
    || d == start
    || d == start.(lock := TargetLock(j, start.head))
    || d == start.(lock := TargetLock(j, start.head), pointer := Link(TargetEnvironment(j, start.head)))
  }

  /** What `recover` may have on disk part way: a restore part way, whatever the journal says of owner and phase, and
      whatever has become of receipts. */
  predicate RecoverProgress(j: Journal, start: Disk, d: Disk) {
    && d.journal.Some? && SameTransaction(d.journal.value, j)
    && RestoreProgress(j, start, d.(journal := start.journal, receipts := start.receipts))
  }

  /** Everything but the last state. */
  function Before(history: seq<Disk>): seq<Disk>
    requires history != []
  {
    history[..|history| - 1]
  }

  /** Nothing was written, or the journal was taken over and everything after it follows the protocol. */
  ghost predicate RecoveryFollows(before: seq<Disk>, after: seq<Disk>, j: Journal, pid: Pid)
    requires before != []
  {
    var d := before[|before| - 1];
    var taken := j.(owner := pid, phase := if d.head == j.before.head then Activated else Committed);
    || after == before
    || (before + [d.(journal := Some(taken))] <= after && Follows(after, |before|, taken, AtCheck, true, None))
  }

  /** Only receipts have changed since, and the journal is still there unless `retired`. */
  predicate RetiredUpTo(j: Journal, before: seq<Disk>, after: seq<Disk>, retired: bool) {
    && before != [] && before <= after
    && var d, d' := before[|before| - 1], after[|after| - 1];
       && d' == d.(journal := if retired then None else d.journal, receipts := d'.receipts)
       && forall i :: |before| <= i < |after| ==>
            after[i] == d.(journal := after[i].journal, receipts := after[i].receipts)
            && (after[i].journal.None? || after[i].journal == d.journal)
  }

  class Worktree {
    var disk: Disk
    ghost var history: seq<Disk>
    /** Writes that failed, and commits that were not reported as made. */
    ghost var faults: nat

    ghost predicate Valid()
      reads this
    {
      history != [] && history[|history| - 1] == disk
    }

    /** Replace one file, or one pointer, atomically. The write can fail without effect. */
    method Publish(next: Disk) returns (ok: bool)
      requires Valid()
      modifies this
      ensures Valid()
      ensures disk == if ok then next else old(disk)
      ensures history == if ok then old(history) + [next] else old(history)
      ensures faults == old(faults) + if ok then 0 else 1
    {
      ok := *;
      if ok {
        disk := next;
        history := history + [next];
      } else {
        faults := faults + 1;
      }
    }

    /** Switch the runtime pointer; only an owned generation may become active. */
    method Activate(destination: Environment) returns (ok: bool)
      requires Valid()
      modifies this
      ensures Valid()
      ensures !destination.owned || old(disk).pointer.Directory? ==> !ok
      ensures disk == if ok then old(disk).(pointer := Link(destination)) else old(disk)
      ensures history == if ok then old(history) + [disk] else old(history)
      ensures old(faults) <= faults
      ensures faults == old(faults) && destination.owned && !old(disk).pointer.Directory? ==> ok
    {
      if !destination.owned || disk.pointer.Directory? {
        return false;
      }
      ok := Publish(disk.(pointer := Link(destination)));
    }

    /** Publish the outcome in the task's receipt. */
    method CompleteReceipt(j: Journal, answer: Answer) returns (ok: bool)
      requires Valid()
      modifies this
      ensures Valid()
      ensures disk == old(disk).(receipts :=
                if ok then CompletedReceipts(j, old(disk).receipts, old(disk).lock, answer) else old(disk).receipts)
      ensures history == old(history) + if ok && j.task in old(disk).receipts then [disk] else []
      ensures faults == old(faults) + if ok then 0 else 1
    {
      if j.task !in disk.receipts {
        return true;
      }
      ok := Publish(disk.(receipts := CompletedReceipts(j, disk.receipts, disk.lock, answer)));
    }

    /** `git commit --only` of the lock, judged by Git afterwards rather than by its exit status: a killed or failing
        commit command may still have created the commit, and hooks may have made it another one. */
    method CommitLock(j: Journal) returns (r: Result<Commit, ()>)
      requires Valid()
      modifies this
      ensures Valid()
      ensures disk == old(disk).(head := disk.head)
      ensures if disk.head == old(disk).head then history == old(history) || history == old(history) + [disk]
              else history == old(history) + [disk]
      ensures r.Ok? ==> r.value == disk.head && CommittedChild(j, disk.head)
      ensures disk != old(disk) || r.Ok? ==>
                old(disk).head == j.before.head && old(disk).branch == j.before.branch
                && old(disk).work == j.before.work && old(disk).lock == j.candidateLock
      ensures old(faults) <= faults
      ensures (faults == old(faults) && old(disk).head == j.before.head && old(disk).branch == j.before.branch
               && old(disk).work == j.before.work && old(disk).lock == j.candidateLock) ==> r.Ok?
    {
      if disk.branch != j.before.branch || disk.head != j.before.head
         || disk.work != j.before.work || disk.lock != j.candidateLock {
        return Err(());
      }
      var id: nat, hooked: bool, other: Commit := *, *, *;
      var made := if hooked then other else Child(id, disk.head, disk.lock, [LOCK_PATH]);
      var created := Publish(disk.(head := made));
      var reported: bool := *;
      if created && !(reported && CommittedChild(j, made)) { faults := faults + 1; }
      r := if created && reported && CommittedChild(j, disk.head) then Ok(disk.head) else Err(());
    }

    /** Settle a stopped update against Git. All identity checks come before the first write;
        the comparison with the recorded work comes after the last one. */
    method Restore(j: Journal) returns (r: Result<Answer, ()>)
      requires Valid()
      modifies this
      ensures Valid() && Writes(old(history), history)
      ensures disk.head == old(disk).head
      ensures !RestoreAccepts(j, old(disk)) ==> r.Err? && history == old(history)
      ensures RestoreAccepts(j, old(disk)) ==> WroteFirst(old(history), history, RestoreWrites(j, old(disk)))
      ensures r == Restored(j, old(disk), |history| - |old(history)|)
      ensures RestoreAccepts(j, old(disk)) ==>
                forall i :: |old(history)| <= i < |history| ==> RestoreProgress(j, old(disk), history[i])
      // Nothing is written on another branch, or with another lock, pointer or HEAD than the update's two.
      ensures history != old(history) ==>
                && old(disk).branch == j.before.branch && old(disk).lock in {j.oldLock, j.candidateLock}
                && old(disk).pointer in {Link(j.previous), Link(j.candidate)}
                && (old(disk).head == j.before.head
                    || (old(disk).head.Child? && old(disk).head.parent == j.before.head
                        && old(disk).head.lock == j.candidateLock
                        && old(disk).head.changed == ["config/governance/runtime.lock.yaml"]))
      ensures r.Ok? ==> disk.lock == if disk.head == j.before.head then j.oldLock else j.candidateLock
      ensures r.Ok? ==> disk.pointer == Link(if disk.head == j.before.head then j.previous else j.candidate)
      ensures r.Ok? ==> r.value == if disk.head == j.before.head then Deferred(false) else Updated(disk.head)
      ensures r.Ok? ==> AtTarget(j, disk) && disk == old(disk).(lock := disk.lock, pointer := disk.pointer)
      ensures r.Ok? ==> r.value == if CommittedChild(j, disk.head) then Updated(disk.head) else Deferred(false)
      // With both writes done, only disturbed work is an error: that check comes too late to refuse.
      ensures r.Ok? <==> RestoreAccepts(j, old(disk)) && |history| == |old(history)| + 2 && disk.work == j.before.work
      ensures old(faults) <= faults
      ensures faults == old(faults) && RestoreAccepts(j, old(disk)) && old(disk).work == j.before.work ==> r.Ok?
    {
      if !j.previous.owned || !j.candidate.owned || j.before.head.lock != j.oldLock
         || disk.branch != j.before.branch || disk.lock !in {j.oldLock, j.candidateLock}
         || ActiveEnvironment(disk.pointer) !in {Some(j.previous), Some(j.candidate)} {
        return Err(());
      }
      var committed := CommittedHead(j, disk.head);
      if committed.Err? {
        return Err(());
      }
      var ok := Publish(disk.(lock := if committed.value then j.candidateLock else j.oldLock));
      if !ok {
        return Err(());
      }
      ok := Activate(if committed.value then j.candidate else j.previous);
      if !ok || disk.work != j.before.work {
        return Err(());
      }
      r := Ok(if committed.value then Updated(disk.head) else Deferred(false));
    }

    /** Nothing unrecoverable has been on disk since `history` had `n` states. */
    ghost predicate SafeSince(j: Journal, n: nat)
      reads this
    {
      && Valid()
      && n <= |history|
      && forall i :: n <= i < |history| ==> TransactionState(j, history[i])
    }

    /** The same, but for a commit that hooks have made another one: after it nothing more is written. */
    ghost predicate SafeUnlessRewritten(j: Journal, n: nat)
      reads this
    {
      && Valid()
      && n <= |history|
      && (forall i :: n <= i < |history| - 1 ==> TransactionState(j, history[i]))
      && (n < |history| && !Rewritten(j, disk) ==> TransactionState(j, disk))
    }

    /** Point the runtime and the lock file at the candidate, then say so in the journal. */
    method SwitchRuntime(j: Journal) returns (switched: bool)
      requires Valid() && WellFormed(j)
      requires disk.journal == Some(j) && disk.enabling.None? && AllOld(j, disk)
      modifies this
      ensures Writes(old(history), history) && SafeSince(j, |old(history)|)
      ensures WroteFirst(old(history), history, SwitchWrites(j, old(disk)))
      ensures switched <==> |history| == |old(history)| + 3
      ensures switched ==>
                disk == old(disk).(pointer := Link(j.candidate), lock := j.candidateLock,
                                   journal := Some(j.(phase := Activated)))
      ensures !switched ==>
                || disk == old(disk)
                || disk == old(disk).(pointer := Link(j.candidate))
                || disk == old(disk).(pointer := Link(j.candidate), lock := j.candidateLock)
      ensures old(faults) <= faults && (faults == old(faults) ==> switched)
    {
      switched := Activate(j.candidate);
      if !switched { return; }
      switched := Publish(disk.(lock := j.candidateLock));
      if !switched { return; }
      switched := Publish(disk.(journal := Some(j.(phase := Activated))));
    }

    /** Record the new commit in the journal, re-check the pointer, complete the task's receipt
        and retire the journal. */
    method RetireCommitted(j: Journal, ghost t: Trail) returns (done: bool, ghost t': Trail)
      requires Valid() && InFlight(j, disk) && AllNew(j, disk)
      requires ComesTo(t, history, j, Some(AtMarkCommitted)) && t.Last().journal.owner == j.owner
      modifies this
      ensures Writes(old(history), history) && SafeSince(j, |old(history)|)
      ensures Continues(t, t') && ComesTo(t', history, j, if done then None else Some(AtCheck))
      ensures disk == old(disk).(journal := disk.journal, receipts := disk.receipts)
      ensures done ==> disk.journal.None?
      ensures done ==> disk.receipts == CompletedReceipts(j, old(disk).receipts, disk.lock, Updated(disk.head))
      ensures !done ==> InFlight(j, disk)
      ensures old(faults) <= faults && (faults == old(faults) ==> done)
    {
      done := Publish(disk.(journal := Some(j.(phase := Committed))));
      if !done {
        t' := Checked(t, history, t.Last().journal, Some(AtCheck));
        return;
      }
      t' := MarkFollows(t, old(history), j);
      if ActiveEnvironment(disk.pointer) != Some(j.candidate) { done := false; return; }
      done, t' := Retire(j, Updated(disk.head), AtComplete, t');
    }

    /** The protected part of `_activate_and_commit`, after the journal exists. */
    method SwitchAndCommit(j: Journal, doctorPasses: bool, ghost t: Trail) returns (done: bool, ghost t': Trail)
      requires Valid() && WellFormed(j)
      requires ComesTo(t, history, j, Some(AtSwitchPointer)) && t.Last().journal == j
      requires disk.journal == Some(j) && disk.enabling.None? && AllOld(j, disk)
      modifies this
      ensures Writes(old(history), history) && SafeUnlessRewritten(j, |old(history)|)
      ensures disk.branch == old(disk).branch && disk.work == old(disk).work
      // Nothing is committed before the new runtime has validated the installation.
      ensures disk.head != old(disk).head ==> doctorPasses
      ensures done ==> disk.journal.None? && AllNew(j, disk)
      ensures done ==> disk.receipts == CompletedReceipts(j, old(disk).receipts, j.candidateLock, Updated(disk.head))
      ensures !done ==> InFlight(j, disk) || Rewritten(j, disk)
      ensures Continues(t, t')
      ensures if Rewritten(j, disk) then |history| > |old(history)| && ComesTo(t', Before(history), j, Some(AtCommit))
              else ComesTo(t', history, j, if done then None else Some(AtCheck))
      ensures old(faults) <= faults
      ensures (faults == old(faults) && doctorPasses && old(disk).branch == j.before.branch
               && old(disk).work == j.before.work) ==> done
    {
      done := SwitchRuntime(j);
      t' := SwitchFollows(t, old(history), history, j);
      if !done { return; }
      t' := Checked(t', history, t'.Last().journal, Some(if doctorPasses then AtCommit else AtCheck));
      if !doctorPasses { done := false; return; }
      done, t' := CommitAndRetire(j, t');
    }

    /** What is left once the new runtime is switched to and validated. */
    method CommitAndRetire(j: Journal, ghost t: Trail) returns (done: bool, ghost t': Trail)
      requires Valid() && InFlight(j, disk)
      requires disk.pointer == Link(j.candidate) && disk.lock == j.candidateLock && disk.head == j.before.head
      requires ComesTo(t, history, j, Some(AtCommit)) && t.Last().journal.owner == j.owner
      modifies this
      ensures Writes(old(history), history) && SafeUnlessRewritten(j, |old(history)|)
      ensures disk.branch == old(disk).branch && disk.work == old(disk).work
      ensures done ==> disk.journal.None? && AllNew(j, disk)
      ensures done ==> disk.receipts == CompletedReceipts(j, old(disk).receipts, j.candidateLock, Updated(disk.head))
      ensures !done ==> InFlight(j, disk) || Rewritten(j, disk)
      ensures Continues(t, t')
      ensures if Rewritten(j, disk) then |history| > |old(history)| && ComesTo(t', Before(history), j, Some(AtCommit))
              else ComesTo(t', history, j, if done then None else Some(AtCheck))
      ensures old(faults) <= faults
      ensures (faults == old(faults) && old(disk).branch == j.before.branch && old(disk).work == j.before.work) ==> done
    {
      var commit := CommitLock(j);
      t' := t;
      if Rewritten(j, disk) { assert Before(history) == old(history); }
      else { t' := CommitFollows(t, old(history), history, j, commit.Ok?); }
      if commit.Err? { done := false; return; }
      done, t' := RetireCommitted(j, t');
    }

    /** Run one update whose final checks passed, restoring the previous runtime on failure.
        Whichever state a crash leaves on disk is recoverable, unless hooks made another commit. */
    method ActivateAndCommit(j: Journal, doctorPasses: bool) returns (outcome: UpdateOutcome)
      requires Valid() && WellFormed(j)
      requires disk.journal.None? && disk.enabling.None? && AllOld(j, disk) && disk.branch == j.before.branch
      modifies this
      ensures Writes(old(history), history) && SafeUnlessRewritten(j, |old(history)|)
      ensures outcome.NotStarted? ==> disk == old(disk)
      ensures outcome.Completed? ==> disk.journal.None? && AllNew(j, disk) && outcome.commit == disk.head
      ensures outcome.Completed? ==>
                && disk.pointer == Link(j.candidate) && disk.lock == j.candidateLock
                && disk.head.Child? && disk.head.parent == old(disk).head && disk.head.lock == j.candidateLock
                && disk.head.changed == ["config/governance/runtime.lock.yaml"]
      ensures outcome.RestoredPrevious? ==>
                && disk.pointer == old(disk).pointer == Link(j.previous) && disk.lock == old(disk).lock == j.oldLock
                && disk.head == old(disk).head
      ensures outcome.Completed? ==>
                disk.receipts == CompletedReceipts(j, old(disk).receipts, j.candidateLock, Updated(disk.head))
      ensures disk.head != old(disk).head ==> doctorPasses
      ensures outcome.RestoredPrevious? ==> disk.journal.None? && AllOld(j, disk)
      ensures outcome.NeedsRecovery? ==> InFlight(j, disk) || Rewritten(j, disk)
      ensures disk.branch == old(disk).branch && disk.work == old(disk).work
      // What it wrote, to its end, is a path of the protocol's actions, up to a commit that hooks made another one.
      ensures if Rewritten(j, disk) then
                && |history| > |old(history)|
                && Follows(Before(history), |old(history)| - 1, j, AtWriteJournal, false, Some(AtCommit))
              else Follows(history, |old(history)| - 1, j, AtWriteJournal, false, None)
      // Unless a write fails, an undisturbed update ends as the new runtime's doctor says.
      ensures old(faults) <= faults
      ensures faults == old(faults) && old(disk).work == j.before.work ==>
                if doctorPasses then outcome.Completed? else outcome.RestoredPrevious?
    {
      ghost var t := Trail(Moment(j, Some(AtWriteJournal), |history| - 1), false, []);
      var begun := Publish(disk.(journal := Some(j)));
      if !begun {
        t := Checked(t, history, j, None);
        return NotStarted;
      }
      t := Wrote(t, old(history), disk, j, Some(AtSwitchPointer));
      outcome, t := ActivateJournaled(j, doctorPasses, t);
    }

    /** The update once its journal is written. */
    method ActivateJournaled(j: Journal, doctorPasses: bool, ghost t: Trail)
      returns (outcome: UpdateOutcome, ghost t': Trail)
      requires Valid() && WellFormed(j)
      requires disk.journal == Some(j) && disk.enabling.None? && AllOld(j, disk) && disk.branch == j.before.branch
      requires ComesTo(t, history, j, Some(AtSwitchPointer)) && t.Last().journal == j && !t.recovering
      modifies this
      ensures Writes(old(history), history) && SafeUnlessRewritten(j, |old(history)|)
      ensures !outcome.NotStarted?
      ensures outcome.Completed? ==> disk.journal.None? && AllNew(j, disk) && outcome.commit == disk.head
      ensures outcome.Completed? ==>
                disk.receipts == CompletedReceipts(j, old(disk).receipts, j.candidateLock, Updated(disk.head))
      ensures disk.head != old(disk).head ==> doctorPasses
      ensures outcome.RestoredPrevious? ==> disk.journal.None? && AllOld(j, disk)
      ensures outcome.NeedsRecovery? ==> InFlight(j, disk) || Rewritten(j, disk)
      ensures disk.branch == old(disk).branch && disk.work == old(disk).work
      ensures Continues(t, t')
      ensures if Rewritten(j, disk) then |history| > |old(history)| && ComesTo(t', Before(history), j, Some(AtCommit))
              else ComesTo(t', history, j, None)
      ensures old(faults) <= faults
      ensures faults == old(faults) && old(disk).work == j.before.work ==>
                if doctorPasses then outcome.Completed? else outcome.RestoredPrevious?
    {
      var done;
      done, t' := SwitchAndCommit(j, doctorPasses, t);
      if done { outcome := Completed(disk.head); return; }
      outcome, t' := RestorePrevious(j, t');
    }

    /** The update failed: restore the previous runtime, unless its commit exists. */
    method RestorePrevious(j: Journal, ghost t: Trail) returns (outcome: UpdateOutcome, ghost t': Trail)
      requires Valid() && (Rewritten(j, disk) || (InFlight(j, disk) && ComesTo(t, history, j, Some(AtCheck))))
      requires disk.branch == j.before.branch && !t.recovering
      modifies this
      ensures Valid() && Writes(old(history), history) && Continues(t, t')
      ensures disk == old(disk).(journal := disk.journal, receipts := disk.receipts, lock := disk.lock,
                                 pointer := disk.pointer)
      ensures Rewritten(j, old(disk)) ==> outcome.NeedsRecovery? && history == old(history) && t' == t
      ensures !Rewritten(j, old(disk)) ==> SafeSince(j, |old(history)|) && ComesTo(t', history, j, None)
      ensures !Rewritten(j, old(disk)) ==>
                if outcome.RestoredPrevious? then disk.journal.None? && AllOld(j, disk)
                else outcome.NeedsRecovery? && InFlight(j, disk)
      ensures old(faults) <= faults
      ensures (faults == old(faults) && old(disk).work == j.before.work && old(disk).head == j.before.head
               && !Rewritten(j, old(disk))) ==> outcome.RestoredPrevious?
    {
      if InFlight(j, disk) { RestoreFromInFlight(j, disk); }
      var restored := Restore(j);
      t' := t;
      if !Rewritten(j, old(disk)) { t' := RestoreFollows(t, old(history), history, j); }
      if restored.Err? || restored.value.Updated? { outcome := NeedsRecovery; return; }
      var retired;
      retired, t' := Retire(j, restored.value, AtCompleteRestored, t');
      outcome := if retired then RestoredPrevious else NeedsRecovery;
    }

    /** Complete the receipt of a settled update and remove its journal. */
    method Retire(j: Journal, answer: Answer, ghost point: Point, ghost t: Trail)
      returns (retired: bool, ghost t': Trail)
      requires Valid() && disk.journal.Some? && SameTransaction(disk.journal.value, j) && AtTarget(j, disk)
      requires Retiring(point) && answer == RetiringAnswer(j, point, disk) && ComesTo(t, history, j, Some(point))
      modifies this
      ensures Valid() && RetiredUpTo(j, old(history), history, retired)
      ensures Continues(t, t') && ComesTo(t', history, j, if retired then None else AfterFailure(point))
      ensures retired ==> disk.receipts == CompletedReceipts(j, old(disk).receipts, disk.lock, answer)
      ensures old(faults) <= faults && (faults == old(faults) ==> retired)
    {
      retired := WriteRetirement(j, answer);
      t' := RetireFollows(t, old(history), history, j, point);
    }

    method WriteRetirement(j: Journal, answer: Answer) returns (retired: bool)
      requires Valid() && disk.journal.Some?
      modifies this
      ensures Valid() && RetiredUpTo(j, old(history), history, retired)
      ensures WroteFirst(old(history), history, RetireWrites(j, old(disk), answer))
      ensures retired ==> disk.receipts == CompletedReceipts(j, old(disk).receipts, disk.lock, answer)
      ensures old(faults) <= faults && (faults == old(faults) ==> retired)
    {
      ghost var writes := RetireWrites(j, disk, answer);
      retired := CompleteReceipt(j, answer);
      if retired { retired := Publish(disk.(journal := None)); }
      assert history == old(history) + writes[..|history| - |old(history)|];
    }

    /** Take over an interrupted update. States that were recoverable stay recoverable at every
        write, so recovery may itself be interrupted and repeated. */
    method Recover(pid: Pid, doctorPasses: bool) returns (outcome: RecoverOutcome)
      requires Valid()
      modifies this
      ensures Valid() && Writes(old(history), history)
      ensures disk.head == old(disk).head
      ensures outcome.NothingToRecover? <==> old(disk).journal.None? && old(disk).enabling.None?
      ensures outcome.NothingToRecover? ==> history == old(history)
      ensures old(disk).enabling.Some? ==> disk == old(disk).(enabling := disk.enabling)
      ensures old(disk).enabling.Some? && EnableInFlight(old(disk).enabling.value, old(disk)) ==>
                if outcome.StillInterrupted? then disk == old(disk) else disk.enabling.None? && !disk.pointer.Missing?
      ensures old(disk).journal.Some? && InFlight(old(disk).journal.value, old(disk)) ==>
                SafeSince(old(disk).journal.value, |old(history)|)
      ensures outcome.StillInterrupted? && old(disk).journal.Some? && InFlight(old(disk).journal.value, old(disk)) ==>
                InFlight(old(disk).journal.value, disk)
      // A normal return settles the update the way Git decided it.
      ensures outcome.Recovered? ==>
                old(disk).journal.Some? &&
                var j := old(disk).journal.value;
                && disk.journal.None? && AtTarget(j, disk)
                && (disk.head == j.before.head ==> disk.pointer == Link(j.previous) && disk.lock == j.oldLock)
                && (disk.head != j.before.head ==> disk.pointer == Link(j.candidate) && disk.lock == j.candidateLock)
                && outcome.answer == (if CommittedChild(j, disk.head) then Updated(disk.head) else Deferred(false))
      // Somebody else's branch, HEAD, lock or pointer is left exactly as found.
      ensures old(disk).journal.Some? && old(disk).enabling.None?
              && !RestoreAccepts(old(disk).journal.value, old(disk)) ==>
                outcome.StillInterrupted? && disk == old(disk).(journal := disk.journal)
                && disk.journal.Some? && SameTransaction(disk.journal.value, old(disk).journal.value)
      ensures (old(disk).journal.Some? && old(disk).enabling.None?
               && CommittedHead(old(disk).journal.value, old(disk).head).Err?) ==> history == old(history)
      // What it wrote is the journal taken over, and then a path of the protocol's actions to its end.
      ensures old(disk).journal.Some? && old(disk).enabling.None? ==>
                RecoveryFollows(old(history), history, old(disk).journal.value, pid)
      // Until the journal is retired, every state is a step of the same restoration.
      ensures old(disk).journal.Some? && old(disk).enabling.None? && RestoreAccepts(old(disk).journal.value, old(disk))
              ==> forall i :: |old(history)| <= i < |history| && history[i].journal.Some? ==>
                    RecoverProgress(old(disk).journal.value, old(disk), history[i])
      // Unless a write fails, an undisturbed update can always be recovered, wherever it was stopped.
      ensures old(faults) <= faults
      ensures (faults == old(faults) && Undisturbed(old(disk))
               && (CommittedChild(old(disk).journal.value, old(disk).head) ==> doctorPasses)) ==>
                outcome.Recovered?
    {
      if disk.enabling.Some? {
        outcome := RecoverEnable(disk.enabling.value);
        return;
      }
      if disk.journal.None? { return NothingToRecover; }
      outcome := RecoverUpdate(disk.journal.value, pid, doctorPasses);
    }

    /** Take over the update that journal `j` describes. */
    method RecoverUpdate(j: Journal, pid: Pid, doctorPasses: bool) returns (outcome: RecoverOutcome)
      requires Valid() && disk.journal == Some(j) && disk.enabling.None?
      modifies this
      ensures Valid() && Writes(old(history), history)
      ensures disk.head == old(disk).head && (outcome.Recovered? || outcome.StillInterrupted?)
      ensures InFlight(j, old(disk)) ==> SafeSince(j, |old(history)|)
      ensures InFlight(j, old(disk)) && outcome.StillInterrupted? ==> InFlight(j, disk)
      ensures outcome.Recovered? ==>
                && disk.journal.None? && AtTarget(j, disk)
                && outcome.answer == (if CommittedChild(j, disk.head) then Updated(disk.head) else Deferred(false))
      ensures !RestoreAccepts(j, old(disk)) ==>
                && outcome.StillInterrupted? && disk == old(disk).(journal := disk.journal)
                && disk.journal.Some? && SameTransaction(disk.journal.value, j)
      // A HEAD that is not the update's stops recovery before it writes anything at all.
      ensures CommittedHead(j, old(disk).head).Err? ==> history == old(history)
      ensures RecoveryFollows(old(history), history, j, pid)
      ensures RestoreAccepts(j, old(disk)) ==>
                forall i :: |old(history)| <= i < |history| && history[i].journal.Some? ==>
                  RecoverProgress(j, old(disk), history[i])
      ensures old(faults) <= faults
      ensures (faults == old(faults) && Undisturbed(old(disk))
               && (CommittedChild(j, old(disk).head) ==> doctorPasses)) ==> outcome.Recovered?
    {
      var committed := CommittedHead(j, disk.head);
      if committed.Err? { return StillInterrupted; }
      var taken := TakenOver(j, pid, committed.value);
      var ok := Publish(disk.(journal := Some(taken)));
      if !ok { return StillInterrupted; }
      TakingOver(j, old(disk), disk);
      ghost var t := Trail(Moment(taken, Some(AtCheck), |history| - 1), true, []);
      outcome, t := Settle(j, doctorPasses, t);
    }

    /** Restore, let doctor judge a committed runtime, and retire the journal. */
    method Settle(j: Journal, doctorPasses: bool, ghost t: Trail) returns (outcome: RecoverOutcome, ghost t': Trail)
      requires Valid() && disk.journal.Some? && SameTransaction(disk.journal.value, j)
      requires ComesTo(t, history, j, Some(AtCheck)) && t.recovering
      modifies this
      ensures Valid() && Writes(old(history), history)
      ensures disk.head == old(disk).head && (outcome.Recovered? || outcome.StillInterrupted?)
      ensures InFlight(j, old(disk)) ==> SafeSince(j, |old(history)|)
      ensures InFlight(j, old(disk)) && outcome.StillInterrupted? ==> InFlight(j, disk)
      ensures outcome.Recovered? ==>
                && disk.journal.None? && AtTarget(j, disk)
                && outcome.answer == (if CommittedChild(j, disk.head) then Updated(disk.head) else Deferred(false))
      ensures !RestoreAccepts(j, old(disk)) ==> outcome.StillInterrupted? && history == old(history)
      ensures RestoreAccepts(j, old(disk)) ==>
                forall i :: |old(history)| <= i < |history| && history[i].journal.Some? ==>
                  RecoverProgress(j, old(disk), history[i])
      ensures Continues(t, t') && ComesTo(t', history, j, None)
      ensures old(faults) <= faults
      ensures (faults == old(faults) && RestoreAccepts(j, old(disk)) && old(disk).work == j.before.work
               && (CommittedChild(j, old(disk).head) ==> doctorPasses)) ==> outcome.Recovered?
    {
      if InFlight(j, disk) && disk.branch == j.before.branch { RestoreFromInFlight(j, disk); }
      var restored := Restore(j);
      t' := RestoreFollows(t, old(history), history, j);
      if restored.Err? { outcome := StillInterrupted; return; }
      outcome, t' := RetireRestored(j, restored.value, doctorPasses, t');
    }

    /** Doctor judges a committed runtime before the restored update's journal goes. */
    method RetireRestored(j: Journal, answer: Answer, doctorPasses: bool, ghost t: Trail)
      returns (outcome: RecoverOutcome, ghost t': Trail)
      requires Valid() && disk.journal.Some? && SameTransaction(disk.journal.value, j) && AtTarget(j, disk)
      requires answer == if CommittedChild(j, disk.head) then Updated(disk.head) else Deferred(false)
      requires ComesTo(t, history, j, AfterRestore(Ok(answer), true))
      modifies this
      ensures Valid() && Writes(old(history), history)
      ensures disk == old(disk).(journal := disk.journal, receipts := disk.receipts)
      ensures outcome == if disk.journal.None? then Recovered(answer) else StillInterrupted
      ensures InFlight(j, old(disk)) ==> SafeSince(j, |old(history)|)
      ensures InFlight(j, old(disk)) && outcome.StillInterrupted? ==> InFlight(j, disk)
      ensures forall i :: |old(history)| <= i < |history| && history[i].journal.Some? ==>
                history[i] == old(disk).(receipts := history[i].receipts)
      ensures Continues(t, t') && ComesTo(t', history, j, None)
      ensures old(faults) <= faults
      ensures faults == old(faults) && (answer.Updated? ==> doctorPasses) ==> outcome.Recovered?
    {
      t' := t;
      if answer.Updated? {
        t' := DoctorFollows(t, history, j, doctorPasses);
        if !doctorPasses { outcome := StillInterrupted; return; }
      }
      var retired;
      retired, t' := Retire(j, answer, AtCompleteRestored, t');
      outcome := if retired then Recovered(answer) else StillInterrupted;
    }

    /** Replace a real runtime directory by a pointer to a fresh installation of the same lock. */
    method ConvertDirectory(candidate: Environment) returns (converted: bool)
      requires Valid() && disk.journal.None? && disk.enabling.None?
      requires disk.pointer.Directory? && candidate.owned && candidate.lock == disk.lock
      modifies this
      ensures Valid() && Writes(old(history), history)
      ensures forall i :: |old(history)| <= i < |history| - 1 ==>
                EnableInFlight(EnableJournal(old(disk).pointer.env, candidate, old(disk).lock), history[i])
      // In between there is the journal, and beside it the old directory, nothing, or the new link.
      ensures forall i :: |old(history)| <= i < |history| && (i < |history| - 1 || !converted) ==>
                && history[i].pointer in {old(disk).pointer, Missing, Link(candidate)}
                && history[i] == old(disk).(
                     enabling := Some(EnableJournal(old(disk).pointer.env, candidate, old(disk).lock)),
                     pointer := history[i].pointer)
      ensures converted ==> disk == old(disk).(pointer := Link(candidate))
      ensures !converted ==>
                || disk == old(disk)
                || EnableInFlight(EnableJournal(old(disk).pointer.env, candidate, old(disk).lock), disk)
      ensures old(faults) <= faults && (faults == old(faults) ==> converted)
    {
      converted := Publish(disk.(enabling := Some(EnableJournal(disk.pointer.env, candidate, disk.lock))));
      if !converted { return; }
      converted := Publish(disk.(pointer := Missing));
      if !converted { return; }
      converted := Activate(candidate);
      if !converted { return; }
      converted := Publish(disk.(enabling := None));
    }

    /** Finish a stopped conversion, or drop its journal if nothing was switched yet.
        A runtime that is already renamed away is not brought back here. */
    method RecoverEnable(e: EnableJournal) returns (outcome: RecoverOutcome)
      requires Valid() && disk.enabling == Some(e)
      modifies this
      ensures Valid() && Writes(old(history), history)
      ensures disk == old(disk).(enabling := disk.enabling)
      ensures outcome in {EnableCancelled, EnableCompleted, StillInterrupted}
      ensures outcome.StillInterrupted? ==> disk == old(disk)
      ensures !outcome.StillInterrupted? ==> disk.enabling.None? && disk.lock == e.lock
      ensures outcome.EnableCancelled? ==> disk.pointer == Directory(e.original)
      ensures outcome.EnableCompleted? ==> disk.pointer == Link(e.candidate)
      ensures old(disk).pointer.Missing? ==> outcome.StillInterrupted?
      ensures old(faults) <= faults
      ensures (faults == old(faults) && e.candidate.owned && old(disk).lock == e.lock
               && old(disk).pointer in {Directory(e.original), Link(e.candidate)}) ==> !outcome.StillInterrupted?
    {
      if !e.candidate.owned || disk.lock != e.lock { return StillInterrupted; }
      outcome :=
        if disk.pointer == Directory(e.original) then EnableCancelled
        else if ActiveEnvironment(disk.pointer) == Some(e.candidate) then EnableCompleted
        else StillInterrupted;
      if !outcome.StillInterrupted? {
        var ok := Publish(disk.(enabling := None));
        if !ok { outcome := StillInterrupted; }
      }
    }

    /** The task's open receipt, bound to the lock on disk. */
    predicate HoldsReceipt(task: Task)
      reads this
    {
      task in disk.receipts && disk.receipts[task].open && disk.receipts[task].digest == Some(disk.lock)
    }

    /** Apply the release a task was offered, after checking the reservation twice: before the
        candidate is prepared and again once readers are excluded. */
    method Apply(request: ApplyRequest, pid: Pid, token: nat) returns (outcome: ApplyOutcome)
      requires Valid()
      modifies this
      ensures Valid() && Writes(old(history), history)
      ensures !outcome.Attempted? ==> disk == old(disk).(receipts := disk.receipts)
      ensures outcome.Attempted? ==> ApplyReady(old(disk), request)
      // Every other open task has an identified owner, and that owner's process is gone.
      ensures outcome.Attempted? ==>
                forall t :: t in old(disk).receipts && t != request.task && old(disk).receipts[t].open ==>
                  old(disk).receipts[t].owner.Host? && old(disk).receipts[t].owner.id in request.gone
      ensures old(faults) <= faults && (faults == old(faults) && ApplyReady(old(disk), request) ==> outcome.Attempted?)
      ensures outcome.Attempted? ==>
                var j := outcome.journal;
                && j.task == request.task && request.prepared == Some(j.candidate)
                && old(disk).receipts[request.task].answer == Available(j.candidateLock)
                && WellFormed(j) && AllOld(j, old(disk)) && j.before.branch == old(disk).branch
                && j.before.work == old(disk).work
      ensures outcome.Attempted? && outcome.update.Completed? ==> AllNew(outcome.journal, disk) && disk.journal.None?
      ensures outcome.Attempted? && outcome.update.RestoredPrevious? ==>
                AllOld(outcome.journal, disk) && disk.journal.None?
      ensures outcome.Attempted? && outcome.update.NeedsRecovery? ==>
                InFlight(outcome.journal, disk) || Rewritten(outcome.journal, disk)
    {
      var checked := CheckApply(request, pid, token);
      if checked.Err? { return checked.error; }
      var update := ActivateAndCommit(checked.value, request.doctorPasses);
      outcome := Attempted(checked.value, update);
    }

    /** Every check of `apply`, and the journal that it begins with when they all pass. */
    method CheckApply(request: ApplyRequest, pid: Pid, token: nat) returns (r: Result<Journal, ApplyOutcome>)
      requires Valid()
      modifies this
      ensures Valid() && Writes(old(history), history)
      ensures disk == old(disk).(receipts := disk.receipts)
      ensures r.Err? ==> !r.error.Attempted?
      ensures r.Ok? ==> ApplyReady(old(disk), request)
      ensures old(faults) <= faults && (faults == old(faults) && ApplyReady(old(disk), request) ==> r.Ok?)
      ensures r.Ok? ==>
                var j := r.value;
                && j.task == request.task && request.prepared == Some(j.candidate)
                && old(disk).receipts[request.task].answer == Available(j.candidateLock)
                && WellFormed(j) && AllOld(j, old(disk)) && j.before.branch == old(disk).branch
                && j.before.work == old(disk).work && disk.journal.None? && disk.enabling.None?
    {
      if !request.allowed { return Err(Answered(Deferred(false))); }
      if disk.journal.Some? || disk.enabling.Some? || !HoldsReceipt(request.task) { return Err(Refused); }
      var answer := disk.receipts[request.task].answer;
      if !answer.Available? { return Err(Answered(answer)); }
      var reserved := OtherTasks(request.task, request.gone);
      if !reserved.Reserved? || disk.lock != disk.head.lock || !Eligible(disk.lock, answer.candidate) {
        return Err(Refused);
      }
      var previous := ActiveEnvironment(disk.pointer);
      if previous.None? || request.prepared.None? { return Err(Refused); }
      var candidate := request.prepared.value;
      if !candidate.owned || candidate.lock != answer.candidate { return Err(Refused); }
      reserved := OtherTasks(request.task, request.gone);
      if !reserved.Reserved? || !HoldsReceipt(request.task) { return Err(Refused); }
      r := Ok(Journal(request.task, pid, token, Prepared, Snapshot(disk.branch, disk.head, disk.work),
                      disk.lock, answer.candidate, previous.value, candidate));
    }

    /** Refuse to update while another top-level task may still be using the runtime;
        receipts of owners that are positively gone are closed on the way. */
    method OtherTasks(task: Task, gone: set<nat>) returns (outcome: ReservationOutcome)
      requires Valid()
      modifies this
      ensures Valid() && Writes(old(history), history)
      ensures disk == old(disk).(receipts := disk.receipts) && disk.receipts.Keys == old(disk).receipts.Keys
      ensures forall t :: t in disk.receipts ==>
                || disk.receipts[t] == old(disk).receipts[t]
                || (t != task && old(disk).receipts[t].owner.Host? && old(disk).receipts[t].owner.id in gone
                    && disk.receipts[t] == old(disk).receipts[t].(open := false))
      ensures outcome.Reserved? ==>
                forall t :: t in disk.receipts && t != task ==> !disk.receipts[t].open
      ensures outcome.OwnedByAnother? ==>
                exists t :: t in old(disk).receipts && t != task && old(disk).receipts[t].open
                            && (old(disk).receipts[t].owner == Unknown || old(disk).receipts[t].owner.id !in gone)
      ensures outcome.InventoryExceeded? <==> |old(disk).receipts| > MAX_RECEIPTS
      ensures old(faults) <= faults
      ensures outcome.Reserved? ==>
                forall t :: t in old(disk).receipts && t != task && old(disk).receipts[t].open ==>
                  old(disk).receipts[t].owner.Host? && old(disk).receipts[t].owner.id in gone
      ensures (faults == old(faults) && |old(disk).receipts| <= MAX_RECEIPTS
               && OthersGone(old(disk).receipts, task, gone)) ==> outcome.Reserved?
    {
      if |disk.receipts| > MAX_RECEIPTS { return InventoryExceeded; }
      var pending := disk.receipts.Keys - {task};
      while pending != {}
        invariant Valid() && Writes(old(history), history) && old(faults) <= faults
        invariant pending <= old(disk).receipts.Keys - {task}
        invariant disk == old(disk).(receipts := disk.receipts) && disk.receipts.Keys == old(disk).receipts.Keys
        invariant forall t :: t in pending || t == task ==>
                    t in disk.receipts ==> disk.receipts[t] == old(disk).receipts[t]
        invariant forall t :: t in disk.receipts && t != task && t !in pending ==>
                    && !disk.receipts[t].open
                    && (old(disk).receipts[t].open ==> OwnerGone(old(disk).receipts[t].owner, gone))
                    && disk.receipts[t] == old(disk).receipts[t].(open := false)
        decreases |pending|
      {
        var t :| t in pending;
        var value := disk.receipts[t];
        if value.open {
          if !OwnerGone(value.owner, gone) { return OwnedByAnother; }
          var ok := Publish(disk.(receipts := disk.receipts[t := value.(open := false)]));
          if !ok { return WriteFailed; }
        }
        pending := pending - {t};
      }
      outcome := Reserved;
    }
  }

  /** Rewriting owner and phase in the journal changes nothing that recovery depends on. */
  lemma TakingOver(j: Journal, d: Disk, taken: Disk)
    requires d.journal == Some(j) && taken == d.(journal := taken.journal)
    requires taken.journal.Some? && SameTransaction(taken.journal.value, j)
    ensures RestoreAccepts(j, taken) <==> RestoreAccepts(j, d)
    ensures InFlight(j, taken) <==> InFlight(j, d)
    ensures RecoverProgress(j, d, taken)
    ensures forall e :: RecoverProgress(j, taken, e) ==> RecoverProgress(j, d, e)
  {
  }

  lemma RestoreFromInFlight(j: Journal, d: Disk)
    requires InFlight(j, d) && d.branch == j.before.branch
    ensures RestoreAccepts(j, d)
    ensures forall e :: RestoreProgress(j, d, e) ==> InFlight(j, e)
  {
  }

  /** A normal return of recovery leaves a settled worktree: all new when the update's commit
      exists, all old otherwise. */
  lemma RecoveredIsAllOldOrAllNew(j: Journal, before: Disk, after: Disk)
    requires InFlight(j, before) && after.head == before.head && AtTarget(j, after)
    ensures if CommittedChild(j, after.head) then AllNew(j, after) else AllOld(j, after)
    ensures AllNew(j, after) <==> CommittedChild(j, before.head)
    ensures !(AllNew(j, after) && AllOld(j, after))
    ensures after.journal.None? && after.enabling.None? && j.previous.lock == j.oldLock ==> Settled(after)
  {
  }

  /** States left by recoveries that each stopped somewhere, one after the other. */
  ghost predicate InterruptedRecoveries(j: Journal, states: seq<Disk>) {
    && states != [] && states[0].journal.Some? && SameTransaction(states[0].journal.value, j)
    && forall i, k :: 0 <= i < k < |states| && k == i + 1 ==> RecoverProgress(j, states[i], states[k])
  }

  lemma RecoverProgressComposes(j: Journal, a: Disk, b: Disk, c: Disk)
    requires RecoverProgress(j, a, b) && RecoverProgress(j, b, c)
    ensures RecoverProgress(j, a, c)
    ensures AtTarget(j, b) ==> c.lock == b.lock && c.pointer == b.pointer
  {
  }

  lemma ProgressIsAccepted(j: Journal, start: Disk, d: Disk)
    requires RestoreAccepts(j, start) && RecoverProgress(j, start, d)
    ensures RestoreAccepts(d.journal.value, d) && d.head == start.head
    ensures TargetLock(d.journal.value, d.head) == TargetLock(j, start.head)
    ensures TargetEnvironment(d.journal.value, d.head) == TargetEnvironment(j, start.head)
  {
  }

  /** Recovery converges: however often it was stopped, each time with a rewritten journal, it is accepted again, aims
      at the same lock and environment, has never moved HEAD, and once there changes lock and pointer no more. */
  lemma {:induction false} RestoreConverges(j: Journal, states: seq<Disk>, i: nat, k: nat)
    requires InterruptedRecoveries(j, states) && RestoreAccepts(j, states[0]) && i <= k < |states|
    ensures RecoverProgress(j, states[i], states[k])
    ensures RestoreAccepts(states[k].journal.value, states[k]) && states[k].head == states[0].head
    ensures TargetLock(states[k].journal.value, states[k].head) == TargetLock(j, states[0].head)
    ensures TargetEnvironment(states[k].journal.value, states[k].head) == TargetEnvironment(j, states[0].head)
    ensures AtTarget(j, states[i]) ==> states[k].lock == states[i].lock && states[k].pointer == states[i].pointer
    decreases k
  {
    RecoveriesCompose(j, states, 0, k);
    RecoveriesCompose(j, states, i, k);
    ProgressIsAccepted(j, states[0], states[k]);
  }

  lemma {:induction false} RecoveriesCompose(j: Journal, states: seq<Disk>, i: nat, k: nat)
    requires InterruptedRecoveries(j, states) && i <= k < |states|
    ensures states[i].journal.Some? && SameTransaction(states[i].journal.value, j)
    ensures RecoverProgress(j, states[i], states[k])
    ensures AtTarget(j, states[i]) ==> states[k].lock == states[i].lock && states[k].pointer == states[i].pointer
    decreases k
  {
    if i < k {
      RecoveriesCompose(j, states, i, k - 1);
      RecoverProgressComposes(j, states[i], states[k - 1], states[k]);
    } else if i > 0 {
      assert RecoverProgress(j, states[i - 1], states[i]);
    }
  }
}
