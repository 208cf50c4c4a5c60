/** Every interleaving of readers, task events, updaters, recoverers and enablers of one
    worktree, one durable write or lock operation at a time, with crashes everywhere.

    A flock lives as long as its process, so who holds which lock is read off the running
    processes, and a crash, which removes a process, releases its locks. */
module StartupProtocol {
  import opened Results
  import opened StartupState
  import opened StartupSteps
  import opened StartupTransaction

  /** Where a process loaded the runtime from: not from this worktree, through the path `.governance/runtime`, or from
      the path of one environment generation. `env` is the environment that was loaded. */
  datatype Loaded = Elsewhere | RuntimePath(env: Environment) | Generation(env: Environment)

  datatype EnablePoint = AtWriteEnable | AtRename | AtLink | AtRemoveEnable

  datatype EventKind = Startup | Continuation | Prompt

  datatype Process =
    | Launched(loaded: Loaded)
    | EnteringReader(loaded: Loaded)
    | Reader(loaded: Loaded)
    | JoinedReader
    | Registering(loaded: Loaded, task: Task, kind: EventKind, prior: Option<Receipt>)
    | Discovering(loaded: Loaded, task: Task, receipt: Receipt)
    | MustWaiting(task: Task, prior: Option<Receipt>)
    | Preparing(task: Task, previous: Environment, candidate: Environment)
    | Checking(task: Task, previous: Environment, candidate: Environment)
    | Updating(journal: Journal, point: Point, recovering: bool)
    | Recovering
    | Enabling(enabled: EnableJournal, step: EnablePoint)
    | RecoveringEnable(enabled: EnableJournal)

  /** `gone` are hosts that have exited. `nullBorn` and `discoveries` only observe: the tasks whose
      receipt was created while waiting, and how often each task began release discovery. */
  datatype State = State(
    disk: Disk, procs: map<Pid, Process>, gone: set<nat>, nullBorn: set<Task>, discoveries: multiset<Task>)

  datatype Action =
    | Crash(pid: Pid)
    | Launch(pid: Pid, loaded: Loaded)
    | EnterReader(pid: Pid)
    | AdmitReader(pid: Pid)
    | JoinReader(pid: Pid, token: nat)
    | BeginEvent(pid: Pid, task: Task, kind: EventKind)
    | MustWait(pid: Pid, task: Task)
    | FailRegistration(pid: Pid)
    | Register(pid: Pid, owner: Owner)
    | FinishDiscovery(pid: Pid, answer: Answer)
    | WriteMustWait(pid: Pid, owner: Owner)
    | CloseTask(task: Task)
    | HostExits(id: nat)
    | BeginApply(pid: Pid, task: Task, previous: Environment, candidate: Environment)
    | LockReaders(pid: Pid)
    | FinalCheck(pid: Pid, token: nat)
    | BeginRecover(pid: Pid)
    | TakeOver(pid: Pid)
    | Advance(pid: Pid)
    | BeginEnable(pid: Pid, enabled: EnableJournal)
    | AdvanceEnable(pid: Pid)
    | SettleEnable(pid: Pid)
    | ProjectCommit(commit: Commit, work: nat)

  predicate IsReaderAction(a: Action) {
    a.EnterReader? || a.AdmitReader? || a.JoinReader?
  }

  predicate IsEventAction(a: Action) {
    a.BeginEvent? || a.MustWait? || a.FailRegistration? || a.Register? || a.FinishDiscovery? || a.WriteMustWait?
    || a.CloseTask?
  }

  predicate IsApplyAction(a: Action) {
    a.BeginApply? || a.LockReaders? || a.FinalCheck?
  }

  predicate IsUpdateAction(a: Action) {
    a.BeginRecover? || a.TakeOver? || a.Advance?
  }

  predicate IsEnableAction(a: Action) {
    a.BeginEnable? || a.AdvanceEnable? || a.SettleEnable?
  }

  predicate HoldsShared(p: Process) {
    p.EnteringReader? || p.Reader? || p.Registering? || p.Discovering?
  }

  predicate HoldsExclusive(p: Process) {
    p.Checking? || p.Updating? || p.Recovering? || p.Enabling? || p.RecoveringEnable?
  }

  predicate HoldsUpdateLock(p: Process) {
    p.Preparing? || HoldsExclusive(p)
  }

  predicate IsEvent(p: Process) {
    p.Registering? || p.Discovering? || p.MustWaiting?
  }

  predicate ReadersFree(s: State) {
    forall p :: p in s.procs ==> !HoldsExclusive(s.procs[p])
  }

  /** `runtime-use.lock` can be taken exclusively by `pid`, which holds no part of it. */
  predicate ExclusiveFree(s: State) {
    forall p :: p in s.procs ==> !HoldsShared(s.procs[p]) && !HoldsExclusive(s.procs[p])
  }

  predicate UpdateLockFree(s: State) {
    forall p :: p in s.procs ==> !HoldsUpdateLock(s.procs[p])
  }

  /** The host delivers the events of one session one after the other. */
  predicate NoEventOf(s: State, task: Task) {
    forall p :: p in s.procs && IsEvent(s.procs[p]) ==> s.procs[p].task != task
  }

  /** What a starting process finds: the pointer's path leads to the environment it loads. */
  predicate Loadable(loaded: Loaded, pointer: Pointer) {
    loaded.RuntimePath? ==> !pointer.Missing? && pointer.env == loaded.env
  }

  /** `sys.prefix` must resolve to what `.governance/runtime` resolves to. The path of the pointer always does, whatever
      was loaded through it; only the path of a generation says which environment it was. */
  predicate LoadedIsActive(loaded: Loaded, pointer: Pointer) {
    loaded.Generation? ==> pointer == Link(loaded.env)
  }

  /** `runtime_reader` lets the process in. */
  predicate ReaderAdmitted(s: State, loaded: Loaded) {
    ReadersFree(s) && LoadedIsActive(loaded, s.disk.pointer) && s.disk.journal.None?
  }

  function CloseOthers(receipts: map<Task, Receipt>, task: Task): map<Task, Receipt> {
    map t | t in receipts :: if t == task then receipts[t] else receipts[t].(open := false)
  }

  predicate MayApply(d: Disk, task: Task) {
    task in d.receipts && d.receipts[task].open && d.receipts[task].digest == Some(d.lock)
    && d.receipts[task].answer.Available?
  }

  /** The receipt `_register_and_discover` writes first. */
  function RegisteredReceipt(prior: Option<Receipt>, kind: EventKind, lock: Lock, owner: Owner): Receipt {
    var answer :=
      if prior.Some? && prior.value.digest != Some(lock) then ApprovalRequired
      else if prior.Some? && prior.value.open && !kind.Continuation? then prior.value.answer
      else Deferred(false);
    Receipt(true, owner, if prior.Some? then prior.value.digest else Some(lock), answer)
  }

  /** The receipt written by an event that arrives while the runtime is being replaced. */
  function WaitingReceipt(prior: Option<Receipt>, owner: Owner): Receipt {
    Receipt(true, owner, if prior.Some? then prior.value.digest else None, Deferred(true))
  }

  function Lookup(receipts: map<Task, Receipt>, task: Task): Option<Receipt> {
    if task in receipts then Some(receipts[task]) else None
  }

  predicate EnableStep(e: EnableJournal, step: EnablePoint, d: Disk, d': Disk, next: Option<EnablePoint>) {
    match step
    case AtWriteEnable => d' == d.(enabling := Some(e)) && next == Some(AtRename)
    case AtRename => d' == d.(pointer := Missing) && next == Some(AtLink)
    case AtLink => e.candidate.owned && d' == d.(pointer := Link(e.candidate)) && next == Some(AtRemoveEnable)
    case AtRemoveEnable => d' == d.(enabling := None) && next == None
  }

  predicate Becomes(s: State, s': State, pid: Pid, p: Process) {
    pid in s.procs && s'.procs == s.procs[pid := p]
  }

  predicate Starts(s: State, s': State, pid: Pid, p: Process) {
    pid !in s.procs && s'.procs == s.procs[pid := p]
  }

  predicate Ends(s: State, s': State, pid: Pid) {
    pid in s.procs && s'.procs == s.procs - {pid}
  }

  predicate OnlyProcesses(s: State, s': State) {
    s' == s.(procs := s'.procs)
  }

  predicate OnlyDisk(s: State, s': State) {
    s' == s.(procs := s'.procs, disk := s'.disk)
  }

  predicate ReaderAction(s: State, a: Action, s': State)
    requires IsReaderAction(a)
  {
    OnlyProcesses(s, s') &&
    match a
    case EnterReader(pid) =>
      ReadersFree(s) && pid in s.procs && s.procs[pid].Launched?
      && Becomes(s, s', pid, EnteringReader(s.procs[pid].loaded))
    case AdmitReader(pid) =>
      pid in s.procs && s.procs[pid].EnteringReader?
      && LoadedIsActive(s.procs[pid].loaded, s.disk.pointer) && s.disk.journal.None?
      && Becomes(s, s', pid, Reader(s.procs[pid].loaded))
    case JoinReader(pid, token) =>
      s.disk.journal.Some? && s.disk.journal.value.token == token
      && s.disk.journal.value.phase in {Activated, Committed} && s.disk.journal.value.owner in s.procs
      && Starts(s, s', pid, JoinedReader)
  }

  predicate EventAction(s: State, a: Action, s': State)
    requires IsEventAction(a)
  {
    match a
    case BeginEvent(pid, task, kind) =>
      OnlyProcesses(s, s') && pid in s.procs && s.procs[pid].Launched? && NoEventOf(s, task) &&
      var loaded := s.procs[pid].loaded;
      && ReaderAdmitted(s, loaded)
      && Becomes(s, s', pid, Registering(loaded, task, kind, Lookup(s.disk.receipts, task)))
    case MustWait(pid, task) =>
      OnlyProcesses(s, s') && pid in s.procs && s.procs[pid].Launched? && NoEventOf(s, task)
      && !ReaderAdmitted(s, s.procs[pid].loaded)
      && Becomes(s, s', pid, MustWaiting(task, Lookup(s.disk.receipts, task)))
    case FailRegistration(pid) =>
      OnlyProcesses(s, s') && pid in s.procs && s.procs[pid].Registering?
      && Becomes(s, s', pid, MustWaiting(s.procs[pid].task, Lookup(s.disk.receipts, s.procs[pid].task)))
    case Register(pid, owner) =>
      pid in s.procs && s.procs[pid].Registering? &&
      var Registering(loaded, task, kind, prior) := s.procs[pid];
      var receipt := RegisteredReceipt(prior, kind, s.disk.lock, owner);
      var discovers := prior.None? && kind.Startup?;
      && s'.disk == s.disk.(receipts := s.disk.receipts[task := receipt])
      && s'.gone == s.gone && s'.nullBorn == s.nullBorn
      && s'.discoveries == (if discovers then s.discoveries + multiset{task} else s.discoveries)
      && (if discovers then Becomes(s, s', pid, Discovering(loaded, task, receipt)) else Ends(s, s', pid))
    case FinishDiscovery(pid, answer) =>
      OnlyDisk(s, s') && pid in s.procs && s.procs[pid].Discovering? && answer != Deferred(true)
      && s'.disk == s.disk.(receipts := s.disk.receipts[s.procs[pid].task := s.procs[pid].receipt.(answer := answer)])
      && Ends(s, s', pid)
    case WriteMustWait(pid, owner) =>
      pid in s.procs && s.procs[pid].MustWaiting? &&
      var MustWaiting(task, prior) := s.procs[pid];
      && s'.disk == s.disk.(receipts := s.disk.receipts[task := WaitingReceipt(prior, owner)])
      && s'.gone == s.gone && s'.discoveries == s.discoveries
      && s'.nullBorn == (if prior.None? then s.nullBorn + {task} else s.nullBorn)
      && Ends(s, s', pid)
    case CloseTask(task) =>
      OnlyDisk(s, s') && s'.procs == s.procs && NoEventOf(s, task) && task in s.disk.receipts
      && s'.disk == s.disk.(receipts := s.disk.receipts[task := s.disk.receipts[task].(open := false)])
  }

  predicate ApplyAction(s: State, a: Action, s': State)
    requires IsApplyAction(a)
  {
    OnlyDisk(s, s') &&
    match a
    case BeginApply(pid, task, previous, candidate) =>
      UpdateLockFree(s) && s.disk.journal.None? && s.disk.enabling.None?
      && MayApply(s.disk, task) && OthersGone(s.disk.receipts, task, s.gone)
      && Eligible(s.disk.lock, s.disk.receipts[task].answer.candidate)
      && ActiveEnvironment(s.disk.pointer) == Some(previous)
      && candidate.owned && candidate.lock == s.disk.receipts[task].answer.candidate
      && s'.disk == s.disk.(receipts := CloseOthers(s.disk.receipts, task))
      && Starts(s, s', pid, Preparing(task, previous, candidate))
    case LockReaders(pid) =>
      pid in s.procs && s.procs[pid].Preparing? && ExclusiveFree(s) && s'.disk == s.disk
      && Becomes(s, s', pid, Checking(s.procs[pid].task, s.procs[pid].previous, s.procs[pid].candidate))
    case FinalCheck(pid, token) =>
      pid in s.procs && s.procs[pid].Checking? &&
      var Checking(task, previous, candidate) := s.procs[pid];
      var d := s.disk;
      && task in d.receipts && d.receipts[task].open && d.receipts[task].digest == Some(d.lock)
      && OthersGone(d.receipts, task, s.gone) && d.lock == d.head.lock && Eligible(d.lock, candidate.lock)
      && ActiveEnvironment(d.pointer) == Some(previous)
      && s'.disk == d.(receipts := CloseOthers(d.receipts, task))
      && Becomes(s, s', pid, Updating(
           Journal(task, pid, token, Prepared, Snapshot(d.branch, d.head, d.work), d.lock, candidate.lock,
                   previous, candidate),
           AtWriteJournal, false))
  }

  ghost predicate UpdateAction(s: State, a: Action, s': State)
    requires IsUpdateAction(a)
  {
    OnlyDisk(s, s') &&
    match a
    case BeginRecover(pid) =>
      UpdateLockFree(s) && ExclusiveFree(s) && s'.disk == s.disk && Starts(s, s', pid, Recovering)
    case TakeOver(pid) =>
      pid in s.procs && s.procs[pid].Recovering? &&
      if s.disk.enabling.Some? then
        s'.disk == s.disk && Becomes(s, s', pid, RecoveringEnable(s.disk.enabling.value))
      else if s.disk.journal.None? then
        s'.disk == s.disk && Ends(s, s', pid)
      else
        var j := s.disk.journal.value;
        var committed := CommittedHead(j, s.disk.head);
        committed.Ok? &&
        var taken := TakenOver(j, pid, committed.value);
        s'.disk == s.disk.(journal := Some(taken)) && Becomes(s, s', pid, Updating(taken, AtCheck, true))
    case Advance(pid) =>
      pid in s.procs && s.procs[pid].Updating? &&
      var Updating(j, point, recovering) := s.procs[pid];
      exists j', next :: UpdateStep(j, point, recovering, s.disk, s'.disk, j', next)
        && if next.Some? then Becomes(s, s', pid, Updating(j', next.value, recovering)) else Ends(s, s', pid)
  }

  ghost predicate EnableAction(s: State, a: Action, s': State)
    requires IsEnableAction(a)
  {
    OnlyDisk(s, s') &&
    match a
    case BeginEnable(pid, e) =>
      UpdateLockFree(s) && ExclusiveFree(s) && s.disk.journal.None? && s.disk.enabling.None?
      && s.disk.pointer == Directory(e.original) && e.candidate.owned
      && e.candidate.lock == s.disk.lock == e.lock && e.candidate != e.original
      && s'.disk == s.disk && Starts(s, s', pid, Enabling(e, AtWriteEnable))
    case AdvanceEnable(pid) =>
      pid in s.procs && s.procs[pid].Enabling? &&
      exists next :: EnableStep(s.procs[pid].enabled, s.procs[pid].step, s.disk, s'.disk, next)
        && if next.Some? then Becomes(s, s', pid, Enabling(s.procs[pid].enabled, next.value)) else Ends(s, s', pid)
    case SettleEnable(pid) =>
      pid in s.procs && s.procs[pid].RecoveringEnable? &&
      var e := s.procs[pid].enabled;
      && e.candidate.owned && s.disk.lock == e.lock
      && s.disk.pointer in {Directory(e.original), Link(e.candidate)}
      && s'.disk == s.disk.(enabling := None) && Ends(s, s', pid)
  }

  /** What needs no lock of the updater: starting, dying, a host's exit, and other people's commits. */
  predicate OtherAction(s: State, a: Action, s': State) {
    match a
    case Launch(pid, loaded) =>
      OnlyProcesses(s, s') && Loadable(loaded, s.disk.pointer) && Starts(s, s', pid, Launched(loaded))
    case Crash(pid) => OnlyProcesses(s, s') && Ends(s, s', pid)
    case HostExits(id) => s' == s.(gone := s.gone + {id})
    case ProjectCommit(commit, work) =>
      // Other people work between updates, never during one, and never touch the lock.
      && ReadersFree(s) && s.disk.journal.None?
      && commit.Child? && commit.parent == s.disk.head && commit.lock == s.disk.head.lock
      && s' == s.(disk := s.disk.(head := commit, work := work))
    case _ => false
  }

  ghost predicate Next(s: State, a: Action, s': State) {
    if IsReaderAction(a) then ReaderAction(s, a, s')
    else if IsEventAction(a) then EventAction(s, a, s')
    else if IsApplyAction(a) then ApplyAction(s, a, s')
    else if IsUpdateAction(a) then UpdateAction(s, a, s')
    else if IsEnableAction(a) then EnableAction(s, a, s')
    else OtherAction(s, a, s')
  }

  /** A bootstrapped worktree with nothing running. */
  predicate Init(s: State) {
    s.procs == map[] && Settled(s.disk) && s.disk.receipts == map[] && s.nullBorn == {} && s.discoveries == multiset{}
  }

  /** A run: its states, and the action between each two of them. */
  ghost predicate Run(states: seq<State>, actions: seq<Action>) {
    && |states| == |actions| + 1
    && Init(states[0])
    && forall i :: 0 <= i < |actions| ==> Next(states[i], actions[i], states[i + 1])
  }
}
