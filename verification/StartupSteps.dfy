/** The actions of one update or recovery, each a durable write or a check between two. */
module StartupSteps {
  import opened Results
  import opened StartupState

  /** The journal's task, if its receipt still exists, is bound to the lock now on disk. */
  function CompletedReceipts(j: Journal, receipts: map<Task, Receipt>, lock: Lock, answer: Answer)
    : (r: map<Task, Receipt>)
    ensures r.Keys == receipts.Keys && forall t :: t in receipts && t != j.task ==> r[t] == receipts[t]
    ensures j.task in r ==>
              r[j.task] == Receipt(receipts[j.task].open, receipts[j.task].owner, Some(lock), answer)
  {
    if j.task in receipts then
      receipts[j.task := receipts[j.task].(digest := Some(lock), answer := answer)]
    else
      receipts
  }

  /** The journal as `recover` rewrites it before it restores anything. */
  function TakenOver(j: Journal, pid: Pid, committed: bool): Journal {
    j.(owner := pid, phase := if committed then Committed else Activated)
  }

  /** The next action of an update or a recovery; everything from `AtCheck` on is `_restore`. */
  datatype Point =
    | AtWriteJournal | AtSwitchPointer | AtWriteLock | AtMarkActivated | AtDoctor | AtCommit
    | AtMarkCommitted | AtVerifyPointer | AtComplete | AtRemoveJournal
    | AtCheck | AtRestoreLock | AtRestorePointer | AtAssertUnchanged | AtRecoveryDoctor
    | AtCompleteRestored | AtRemoveRestored

  /** The protected part of `_activate_and_commit`: a failure there is restored. */
  predicate Protected(point: Point) {
    point in {AtSwitchPointer, AtWriteLock, AtMarkActivated, AtDoctor, AtCommit,
              AtMarkCommitted, AtVerifyPointer, AtComplete, AtRemoveJournal}
  }

  /** One successful action of an update or recovery, from disk `d` to disk `d'`;
      the process ends when `next` is `None`. */
  predicate Proceeds(j: Journal, point: Point, recovering: bool, d: Disk, d': Disk, j': Journal, next: Option<Point>) {
    match point
    case AtWriteJournal => d' == d.(journal := Some(j)) && j' == j && next == Some(AtSwitchPointer)
    case AtSwitchPointer =>
      j.candidate.owned && !d.pointer.Directory?
      && d' == d.(pointer := Link(j.candidate)) && j' == j && next == Some(AtWriteLock)
    case AtWriteLock => d' == d.(lock := j.candidateLock) && j' == j && next == Some(AtMarkActivated)
    case AtMarkActivated =>
      j' == j.(phase := Activated) && d' == d.(journal := Some(j')) && next == Some(AtDoctor)
    case AtDoctor => d' == d && j' == j && next == Some(AtCommit)
    case AtCommit =>
      d.branch == j.before.branch && d.head == j.before.head && d.work == j.before.work && d.lock == j.candidateLock
      && CommittedChild(j, d'.head) && d' == d.(head := d'.head) && j' == j
      && next in {Some(AtMarkCommitted), Some(AtCheck)}
    case AtMarkCommitted =>
      j' == j.(phase := Committed) && d' == d.(journal := Some(j')) && next == Some(AtVerifyPointer)
    case AtVerifyPointer =>
      ActiveEnvironment(d.pointer) == Some(j.candidate) && d' == d && j' == j && next == Some(AtComplete)
    case AtComplete =>
      d' == d.(receipts := CompletedReceipts(j, d.receipts, d.lock, Updated(d.head))) && j' == j
      && next == Some(AtRemoveJournal)
    case AtRemoveJournal => d' == d.(journal := None) && j' == j && next == None
    case AtCheck => RestoreAccepts(j, d) && d' == d && j' == j && next == Some(AtRestoreLock)
    case AtRestoreLock =>
      d' == d.(lock := TargetLock(j, d.head)) && j' == j && next == Some(AtRestorePointer)
    case AtRestorePointer =>
      !d.pointer.Directory?
      && d' == d.(pointer := Link(TargetEnvironment(j, d.head))) && j' == j && next == Some(AtAssertUnchanged)
    case AtAssertUnchanged =>
      d.work == j.before.work && d' == d && j' == j
      && next == (if !CommittedChild(j, d.head) then Some(AtCompleteRestored)
                  else if recovering then Some(AtRecoveryDoctor) else None)
    case AtRecoveryDoctor => d' == d && j' == j && next == Some(AtCompleteRestored)
    case AtCompleteRestored =>
      var answer := if CommittedChild(j, d.head) then Updated(d.head) else Deferred(false);
      d' == d.(receipts := CompletedReceipts(j, d.receipts, d.lock, answer)) && j' == j
      && next == Some(AtRemoveRestored)
    case AtRemoveRestored => d' == d.(journal := None) && j' == j && next == None
  }

  predicate UpdateStep(j: Journal, point: Point, recovering: bool, d: Disk, d': Disk, j': Journal,
                       next: Option<Point>) {
    || Proceeds(j, point, recovering, d, d', j', next)
    || (d' == d && j' == j && next == if Protected(point) then Some(AtCheck) else None)
  }
}
