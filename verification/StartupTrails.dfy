/** What one update or recovery writes, in order, and how its writes are a path of the actions of `StartupSteps`. */
module StartupTrails {
  import opened Results
  import opened StartupState
  import opened StartupSteps

  // ---------------------------------------------------------------- paths of actions

  /** Between two actions: the journal in hand, what comes next, and which state of the history is on disk. */
  datatype Moment = Moment(journal: Journal, next: Option<Point>, written: nat)

  /** What one update or recovery went through, from where it began. */
  datatype Trail = Trail(start: Moment, recovering: bool, moments: seq<Moment>) {
    function At(k: nat): Moment
      requires k <= |moments|
    {
      if k == 0 then start else moments[k - 1]
    }

    function Last(): Moment { At(|moments|) }

    function Then(journal: Journal, next: Option<Point>, written: nat): Trail {
      this.(moments := moments + [Moment(journal, next, written)])
    }
  }

  /** One action, which wrote the next state of `history` or nothing. */
  predicate Acts(history: seq<Disk>, recovering: bool, a: Moment, b: Moment) {
    && a.next.Some? && a.written < |history| && b.written < |history|
    && b.written in {a.written, a.written + 1}
    && UpdateStep(a.journal, a.next.value, recovering, history[a.written], history[b.written], b.journal, b.next)
  }

  predicate ActsAt(t: Trail, history: seq<Disk>, k: nat)
    requires k < |t.moments|
  {
    Acts(history, t.recovering, t.At(k), t.At(k + 1))
  }

  /** The trail is a path of actions, and wrote exactly the states of `history` from its start on. */
  predicate Traces(t: Trail, history: seq<Disk>) {
    && t.start.written < |history|
    && t.Last().written == |history| - 1
    && forall k: nat :: k < |t.moments| ==> ActsAt(t, history, k)
  }

  /** The same, and has come to `next`, with `j` in hand but for owner and phase. */
  predicate ComesTo(t: Trail, history: seq<Disk>, j: Journal, next: Option<Point>) {
    Traces(t, history) && t.Last().next == next && SameTransaction(t.Last().journal, j)
  }

  /** The history since its state `n` is what the actions from `point` wrote, and `next` is where they have come to. */
  ghost predicate Follows(history: seq<Disk>, n: nat, j: Journal, point: Point, recovering: bool, next: Option<Point>) {
    exists t: Trail :: t.start == Moment(j, Some(point), n) && t.recovering == recovering
                       && Traces(t, history) && t.Last().next == next
  }

  predicate Continues(t: Trail, t': Trail) { t' == t.(moments := t'.moments) }

  /** An action that writes extends the trail and the history. */
  lemma Wrote(t: Trail, history: seq<Disk>, d: Disk, j: Journal, next: Option<Point>) returns (t': Trail)
    requires Traces(t, history) && t.Last().next.Some?
    requires UpdateStep(t.Last().journal, t.Last().next.value, t.recovering, history[|history| - 1], d, j, next)
    ensures t' == t.Then(j, next, |history|) && Traces(t', history + [d])
  {
    t' := t.Then(j, next, |history|);
    forall k: nat | k < |t'.moments| ensures ActsAt(t', history + [d], k) {
      if k < |t.moments| { assert ActsAt(t, history, k); }
    }
  }

  /** An action that writes nothing, or fails, extends the trail alone. */
  lemma Checked(t: Trail, history: seq<Disk>, j: Journal, next: Option<Point>) returns (t': Trail)
    requires Traces(t, history) && t.Last().next.Some?
    requires var d := history[|history| - 1];
             UpdateStep(t.Last().journal, t.Last().next.value, t.recovering, d, d, j, next)
    ensures t' == t.Then(j, next, |history| - 1) && Traces(t', history)
  {
    t' := t.Then(j, next, |history| - 1);
    forall k: nat | k < |t'.moments| ensures ActsAt(t', history, k) {
      if k < |t.moments| { assert ActsAt(t, history, k); }
    }
  }

  // ---------------------------------------------------------------- what is written

  /** What was on disk after `before` is the beginning of `writes`: the rest was not reached. */
  predicate WroteFirst(before: seq<Disk>, after: seq<Disk>, writes: seq<Disk>) {
    before <= after && |after| - |before| <= |writes| && after == before + writes[..|after| - |before|]
  }

  function SwitchWrites(j: Journal, d: Disk): seq<Disk> {
    var switched := d.(pointer := Link(j.candidate));
    var locked := switched.(lock := j.candidateLock);
    [switched, locked, locked.(journal := Some(j.(phase := Activated)))]
  }

  function RestoreWrites(j: Journal, d: Disk): seq<Disk> {
    var locked := d.(lock := TargetLock(j, d.head));
    [locked, locked.(pointer := Link(TargetEnvironment(j, d.head)))]
  }

  /** The receipt, if there is one, and the removal of the journal. */
  function RetireWrites(j: Journal, d: Disk, answer: Answer): seq<Disk> {
    var completed := d.(receipts := CompletedReceipts(j, d.receipts, d.lock, answer));
    (if j.task in d.receipts then [completed] else []) + [completed.(journal := None)]
  }

  // ---------------------------------------------------------------- the writes follow the actions

  lemma SwitchFollows(t: Trail, history: seq<Disk>, longer: seq<Disk>, j: Journal) returns (t': Trail)
    requires Traces(t, history) && t.Last().next == Some(AtSwitchPointer) && t.Last().journal == j
    requires var d := history[|history| - 1];
             j.candidate.owned && !d.pointer.Directory? && WroteFirst(history, longer, SwitchWrites(j, d))
    ensures Continues(t, t') && Traces(t', longer)
    ensures t'.Last().next == Some(if |longer| == |history| + 3 then AtDoctor else AtCheck)
    ensures t'.Last().journal == if |longer| == |history| + 3 then j.(phase := Activated) else j
  {
    var writes, n, h := SwitchWrites(j, history[|history| - 1]), |longer| - |history|, history;
    t' := t;
    if n > 0 {
      t' := Wrote(t', h, writes[0], j, Some(AtWriteLock));
      h := h + [writes[0]];
    }
    if n > 1 {
      t' := Wrote(t', h, writes[1], j, Some(AtMarkActivated));
      h := h + [writes[1]];
    }
    if n > 2 {
      t' := Wrote(t', h, writes[2], j.(phase := Activated), Some(AtDoctor));
      h := h + [writes[2]];
    } else {
      t' := Checked(t', h, j, Some(AtCheck));
    }
    assert h == longer;
  }

  /** The commit command: it made the update's commit, reported or not, or none. */
  lemma CommitFollows(t: Trail, history: seq<Disk>, longer: seq<Disk>, j: Journal, made: bool) returns (t': Trail)
    requires ComesTo(t, history, j, Some(AtCommit))
    requires longer == history || (|longer| == |history| + 1 && history <= longer)
    requires var d, d' := history[|history| - 1], longer[|longer| - 1];
             && d' == d.(head := d'.head)
             && (d' != d || made ==>
                   d.head == j.before.head && d.branch == j.before.branch && d.work == j.before.work
                   && d.lock == j.candidateLock && CommittedChild(j, d'.head))
    ensures Continues(t, t') && ComesTo(t', longer, j, Some(if made then AtMarkCommitted else AtCheck))
    ensures t'.Last().journal == t.Last().journal
  {
    var w, d, d' := t.Last().journal, history[|history| - 1], longer[|longer| - 1];
    var next := Some(if made then AtMarkCommitted else AtCheck);
    assert UpdateStep(w, AtCommit, t.recovering, d, d', w, next);
    if longer == history {
      t' := Checked(t, history, w, next);
    } else {
      assert longer == history + [d'];
      t' := Wrote(t, history, d', w, next);
    }
  }

  /** The two points at which a journal is retired: after a commit, and after a restoration. */
  predicate Retiring(point: Point) { point in {AtComplete, AtCompleteRestored} }

  function RetiringAnswer(j: Journal, point: Point, d: Disk): Answer {
    if point.AtComplete? || CommittedChild(j, d.head) then Updated(d.head) else Deferred(false)
  }

  function AfterFailure(point: Point): Option<Point> { if Protected(point) then Some(AtCheck) else None }

  lemma CompleteFollows(t: Trail, history: seq<Disk>, j: Journal, point: Point) returns (t': Trail, h: seq<Disk>)
    requires ComesTo(t, history, j, Some(point)) && Retiring(point)
    ensures var d := history[|history| - 1];
            var completed := d.(receipts := CompletedReceipts(j, d.receipts, d.lock, RetiringAnswer(j, point, d)));
            && h == history + (if j.task in d.receipts then [completed] else []) && h[|h| - 1] == completed
    ensures Continues(t, t') && t'.Last().journal == t.Last().journal
    ensures ComesTo(t', h, j, Some(if point.AtComplete? then AtRemoveJournal else AtRemoveRestored))
  {
    var w, d := t.Last().journal, history[|history| - 1];
    var completed := d.(receipts := CompletedReceipts(j, d.receipts, d.lock, RetiringAnswer(j, point, d)));
    var next := Some(if point.AtComplete? then AtRemoveJournal else AtRemoveRestored);
    assert UpdateStep(w, point, t.recovering, d, completed, w, next);
    if j.task in d.receipts {
      t' := Wrote(t, history, completed, w, next);
      h := history + [completed];
    } else {
      t' := Checked(t, history, w, next);
      h := history;
    }
  }

  lemma RetireFollows(t: Trail, history: seq<Disk>, longer: seq<Disk>, j: Journal, point: Point) returns (t': Trail)
    requires ComesTo(t, history, j, Some(point)) && Retiring(point)
    requires var d := history[|history| - 1];
             d.journal.Some? && WroteFirst(history, longer, RetireWrites(j, d, RetiringAnswer(j, point, d)))
    ensures Continues(t, t')
    ensures ComesTo(t', longer, j, if longer[|longer| - 1].journal.None? then None else AfterFailure(point))
  {
    var d, w := history[|history| - 1], t.Last().journal;
    var writes := RetireWrites(j, d, RetiringAnswer(j, point, d));
    var n := |longer| - |history|;
    if n == 0 && j.task in d.receipts {
      assert longer == history;
      t' := Checked(t, history, w, AfterFailure(point));
    } else {
      var h;
      t', h := CompleteFollows(t, history, j, point);
      if n == |writes| {
        var retired := h[|h| - 1].(journal := None);
        t' := Wrote(t', h, retired, w, None);
        assert longer == h + [retired] && longer[|longer| - 1] == retired;
      } else {
        assert longer == h;
        t' := Checked(t', h, w, AfterFailure(point));
      }
    }
  }

  /** The journal says that the commit exists, and the pointer is looked at again. */
  lemma MarkFollows(t: Trail, history: seq<Disk>, j: Journal) returns (t': Trail)
    requires ComesTo(t, history, j, Some(AtMarkCommitted)) && t.Last().journal.owner == j.owner
    requires history[|history| - 1].pointer == Link(j.candidate) && j.candidate.owned
    ensures Continues(t, t')
    ensures var marked := history[|history| - 1].(journal := Some(j.(phase := Committed)));
            ComesTo(t', history + [marked], j, Some(AtComplete))
  {
    var d, w := history[|history| - 1], t.Last().journal;
    var committed := j.(phase := Committed);
    var marked := d.(journal := Some(committed));
    assert UpdateStep(w, AtMarkCommitted, t.recovering, d, marked, committed, Some(AtVerifyPointer));
    t' := Wrote(t, history, marked, committed, Some(AtVerifyPointer));
    assert UpdateStep(committed, AtVerifyPointer, t.recovering, marked, marked, committed, Some(AtComplete));
    t' := Checked(t', history + [marked], committed, Some(AtComplete));
  }

  /** Where an update or a recovery goes on after `_restore`. */
  function AfterRestore(r: Result<Answer, ()>, recovering: bool): Option<Point> {
    if r.Err? then None
    else if !r.value.Updated? then Some(AtCompleteRestored)
    else if recovering then Some(AtRecoveryDoctor) else None
  }

  /** What `_restore` returns after `n` writes. */
  function Restored(j: Journal, d: Disk, n: nat): Result<Answer, ()> {
    if n < 2 || d.work != j.before.work then Err(())
    else Ok(if CommittedChild(j, d.head) then Updated(d.head) else Deferred(false))
  }

  lemma RestoreFollows(t: Trail, history: seq<Disk>, longer: seq<Disk>, j: Journal) returns (t': Trail)
    requires ComesTo(t, history, j, Some(AtCheck))
    requires var d := history[|history| - 1];
             if RestoreAccepts(j, d) then WroteFirst(history, longer, RestoreWrites(j, d)) else longer == history
    ensures Continues(t, t')
    ensures var d := history[|history| - 1];
            ComesTo(t', longer, j, AfterRestore(Restored(j, d, |longer| - |history|), t.recovering))
  {
    var d, w := history[|history| - 1], t.Last().journal;
    if RestoreAccepts(j, d) {
      t' := RestoreWritesFollow(t, history, longer, j);
    } else {
      t' := Checked(t, history, w, None);
    }
  }

  /** Doctor's verdict on a committed runtime decides whether a recovery goes on. */
  lemma DoctorFollows(t: Trail, history: seq<Disk>, j: Journal, passes: bool) returns (t': Trail)
    requires ComesTo(t, history, j, Some(AtRecoveryDoctor))
    ensures Continues(t, t') && ComesTo(t', history, j, if passes then Some(AtCompleteRestored) else None)
  {
    t' := Checked(t, history, t.Last().journal, if passes then Some(AtCompleteRestored) else None);
  }

  lemma RestoreWritesFollow(t: Trail, history: seq<Disk>, longer: seq<Disk>, j: Journal) returns (t': Trail)
    requires ComesTo(t, history, j, Some(AtCheck)) && RestoreAccepts(j, history[|history| - 1])
    requires WroteFirst(history, longer, RestoreWrites(j, history[|history| - 1]))
    ensures Continues(t, t')
    ensures var d := history[|history| - 1];
            ComesTo(t', longer, j, AfterRestore(Restored(j, d, |longer| - |history|), t.recovering))
  {
    var d, w := history[|history| - 1], t.Last().journal;
    var locked := d.(lock := TargetLock(j, d.head));
    assert UpdateStep(w, AtCheck, t.recovering, d, d, w, Some(AtRestoreLock));
    t' := Checked(t, history, w, Some(AtRestoreLock));
    if longer == history {
      t' := Checked(t', history, w, None);
    } else {
      assert UpdateStep(w, AtRestoreLock, t.recovering, d, locked, w, Some(AtRestorePointer));
      t' := Wrote(t', history, locked, w, Some(AtRestorePointer));
      t' := PointerFollows(t', history + [locked], longer, j);
    }
  }

  /** The second half of restoring, with the lock written. */
  lemma PointerFollows(t: Trail, history: seq<Disk>, longer: seq<Disk>, j: Journal) returns (t': Trail)
    requires ComesTo(t, history, j, Some(AtRestorePointer)) && !history[|history| - 1].pointer.Directory?
    requires var d := history[|history| - 1];
             WroteFirst(history, longer, [d.(pointer := Link(TargetEnvironment(j, d.head)))])
    ensures Continues(t, t')
    ensures var d := history[|history| - 1];
            ComesTo(t', longer, j, AfterRestore(Restored(j, d, |longer| - |history| + 1), t.recovering))
  {
    var d, w := history[|history| - 1], t.Last().journal;
    var switched := d.(pointer := Link(TargetEnvironment(j, d.head)));
    if longer == history {
      t' := Checked(t, history, w, None);
    } else {
      assert UpdateStep(w, AtRestorePointer, t.recovering, d, switched, w, Some(AtAssertUnchanged));
      t' := Wrote(t, history, switched, w, Some(AtAssertUnchanged));
      t' := Checked(t', history + [switched], w, AfterRestore(Restored(j, d, 2), t.recovering));
      assert longer == history + [switched];
    }
  }
}
