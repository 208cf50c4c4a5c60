/** The durable state of one worktree that a startup update touches, and the journal that
    makes the update recoverable. File digests are injective, so a digest is the value itself. */
module StartupState {
  import opened Results

  type Task = nat
  type Pid = nat

  const LOCK_PATH := "config/governance/runtime.lock.yaml"
  const MAX_RECEIPTS: nat := 4096

  datatype Version = Version(major: nat, minor: nat, patch: nat)

  datatype Lock = Lock(version: Version, body: string)

  /** An installed environment generation, with the lock it was installed from.
      `owned` says that it is an ordinary directory directly under `.governance/runtimes`. */
  datatype Environment = Environment(name: string, owned: bool, lock: Lock)

  /** `.governance/runtime`: absent, a real directory, or a symbolic link. */
  datatype Pointer = Missing | Directory(env: Environment) | Link(env: Environment)

  datatype Commit =
    | Root(id: nat, lock: Lock)
    | Child(id: nat, parent: Commit, lock: Lock, changed: seq<string>)

  /** `work` fingerprints everything else an update must not disturb:
      changed files, the rest of the index, and governance authority. */
  datatype Snapshot = Snapshot(branch: string, head: Commit, work: nat)

  datatype Phase = Prepared | Activated | Committed

  datatype Journal = Journal(
    task: Task, owner: Pid, token: nat, phase: Phase, before: Snapshot,
    oldLock: Lock, candidateLock: Lock, previous: Environment, candidate: Environment)

  /** The journal of the one-time conversion of a runtime directory into a pointer. */
  datatype EnableJournal = EnableJournal(original: Environment, candidate: Environment, lock: Lock)

  datatype Owner = Unknown | Host(id: nat)

  datatype Answer =
    | Current
    | Available(candidate: Lock)
    | Deferred(mustWait: bool)
    | ApprovalRequired
    | Updated(commit: Commit)

  datatype Receipt = Receipt(open: bool, owner: Owner, digest: Option<Lock>, answer: Answer)

  datatype Disk = Disk(
    journal: Option<Journal>, enabling: Option<EnableJournal>, pointer: Pointer, lock: Lock,
    branch: string, head: Commit, work: nat, receipts: map<Task, Receipt>)

  /** Releases are eligible only upwards and inside one major version. */
  predicate Eligible(current: Lock, candidate: Lock) {
    && current.version.major == candidate.version.major
    && (current.version.minor < candidate.version.minor
        || (current.version.minor == candidate.version.minor
            && current.version.patch < candidate.version.patch))
  }

  function ActiveEnvironment(pointer: Pointer): Option<Environment> {
    if pointer.Link? && pointer.env.owned then Some(pointer.env) else None
  }

  /** An owner is gone only when it was identified and its process is absent or replaced. */
  predicate OwnerGone(owner: Owner, gone: set<nat>) {
    owner.Host? && owner.id in gone
  }

  /** `head` is the one commit an update makes: a child of the original commit that
      changes the lock, and only the lock, to the candidate. */
  predicate CommittedChild(j: Journal, head: Commit) {
    && head.Child?
    && head.parent == j.before.head
    && head.lock == j.candidateLock
    && head.changed == [LOCK_PATH]
  }

  /** Whether the update's commit exists; any other HEAD is somebody else's. */
  function CommittedHead(j: Journal, head: Commit): (r: Result<bool, ()>)
    ensures r.Ok? <==>
              || head == j.before.head
              || (head.Child? && head.parent == j.before.head && head.lock == j.candidateLock
                  && head.changed == ["config/governance/runtime.lock.yaml"])
    ensures r.Ok? ==> (r.value <==> head != j.before.head)
  {
    if head == j.before.head then Ok(false)
    else if !CommittedChild(j, head) then Err(())
    else Ok(true)
  }

  /** Git decides the outcome of a stopped update. */
  function TargetLock(j: Journal, head: Commit): Lock {
    if head == j.before.head then j.oldLock else j.candidateLock
  }

  function TargetEnvironment(j: Journal, head: Commit): Environment {
    if head == j.before.head then j.previous else j.candidate
  }

  predicate AtTarget(j: Journal, d: Disk) {
    d.lock == TargetLock(j, d.head) && d.pointer == Link(TargetEnvironment(j, d.head))
  }

  /** The identity checks that `_restore` makes before its first write. */
  predicate RestoreAccepts(j: Journal, d: Disk) {
    && j.previous.owned && j.candidate.owned
    && j.before.head.lock == j.oldLock
    && d.branch == j.before.branch
    && d.lock in {j.oldLock, j.candidateLock}
    && ActiveEnvironment(d.pointer) in {Some(j.previous), Some(j.candidate)}
    && CommittedHead(j, d.head).Ok?
  }

  /** What every journal written by `apply` records. */
  predicate WellFormed(j: Journal) {
    && j.previous.owned && j.candidate.owned
    && j.before.head.lock == j.oldLock
    && j.candidate.lock == j.candidateLock
    && Eligible(j.oldLock, j.candidateLock)
  }

  predicate SameTransaction(a: Journal, b: Journal) {
    a.(phase := b.phase, owner := b.owner) == b
  }

  predicate AllOld(j: Journal, d: Disk) {
    d.pointer == Link(j.previous) && d.lock == j.oldLock && d.head == j.before.head
  }

  predicate AllNew(j: Journal, d: Disk) {
    d.pointer == Link(j.candidate) && d.lock == j.candidateLock && CommittedChild(j, d.head)
  }

  /** An interrupted update: each of the three parts is old or new, in any combination. */
  predicate InFlight(j: Journal, d: Disk) {
    && WellFormed(j)
    && d.journal.Some? && SameTransaction(d.journal.value, j)
    && d.enabling.None?
    && d.pointer in {Link(j.previous), Link(j.candidate)}
    && d.lock in {j.oldLock, j.candidateLock}
    && CommittedHead(j, d.head).Ok?
  }

  /** An interrupted conversion of the runtime directory; the lock does not change. */
  predicate EnableInFlight(e: EnableJournal, d: Disk) {
    && d.enabling == Some(e) && d.journal.None?
    && e.candidate.owned
    && d.lock == e.lock
    && d.pointer in {Directory(e.original), Missing, Link(e.candidate)}
  }

  /** No update is pending: pointer, lock file and committed lock agree. */
  predicate Settled(d: Disk) {
    && d.journal.None? && d.enabling.None?
    && !d.pointer.Missing?
    && d.pointer.env.lock == d.lock == d.head.lock
  }
}
