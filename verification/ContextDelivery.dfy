/** `context_delivery.py` and `semantic_context.py`: one session's allowances for events, bytes and provider requests,
    kept in a state file that every event reads, and rewrites before and after anything leaves the machine. */
module ContextDelivery {
  import opened Results

  const MAX_ENVELOPE_BYTES: nat := 262144
  const MAX_BATCH: nat := 32

  datatype Config = Config(maxEvents: nat, maxBytes: nat, maxRequests: nat, scoring: bool, maxCandidates: nat)

  /** A selected packet: the digest of every source it embeds, and whether selection was complete. */
  datatype Packet = Packet(sources: map<string, nat>, passed: bool)

  /** The state file. An absent file reads as the empty state. */
  datatype State = State(events: nat, bytes: nat, requests: nat, packet: Option<Packet>, refresh: bool, revision: nat,
                         identity: Option<nat>)

  const EMPTY: State := State(0, 0, 0, None, false, 0, None)

  datatype Delivery = Delivery(revision: nat, packet: Packet, size: nat)

  /** What really happened: requests that may have reached the provider, and texts given to the agent. */
  datatype Ledger = Ledger(sent: nat, delivered: seq<Delivery>)

  /** How far one event has come. A crash forgets it. */
  datatype Phase =
    | Idle
    | Reserved(previous: nat, allowance: nat)
    | Egressed(previous: nat, recorded: nat)
    | Settled
    | Submitted(size: nat)

  datatype Moment = Moment(stored: State, ledger: Ledger, phase: Phase)

  function Min(a: nat, b: nat): nat { if a < b then a else b }

  function Allowance(c: Config, s: State): nat {
    Min(c.maxCandidates, if c.maxRequests > s.requests then c.maxRequests - s.requests else 0)
  }

  function Reservation(c: Config, s: State): nat { if c.scoring then Allowance(c, s) else 0 }

  function TotalBytes(deliveries: seq<Delivery>): nat {
    if deliveries == [] then 0 else TotalBytes(deliveries[..|deliveries| - 1]) + deliveries[|deliveries| - 1].size
  }

  /** The stored packet may be given again. */
  predicate Current(s: State) { s.packet.Some? && !s.refresh }

  // ---------------------------------------------------------------- the steps of a session

  /** Count the whole allowance as spent, before anything is sent. */
  ghost predicate Reserve(c: Config, a: Moment, b: Moment) {
    && a.phase == Idle && a.stored.events < c.maxEvents
    && b == a.(stored := a.stored.(requests := a.stored.requests + Reservation(c, a.stored)),
               phase := Reserved(a.stored.requests, Reservation(c, a.stored)))
  }

  /** At most what will be recorded is sent, and at most the allowance is recorded. */
  ghost predicate EgressOf(a: Moment, b: Moment, sent: nat, recorded: nat) {
    && a.phase.Reserved? && sent <= recorded <= a.phase.allowance
    && b == a.(ledger := a.ledger.(sent := a.ledger.sent + sent), phase := Egressed(a.phase.previous, recorded))
  }

  ghost predicate Egress(a: Moment, b: Moment) { exists sent, recorded :: EgressOf(a, b, sent, recorded) }

  ghost predicate Settle(a: Moment, b: Moment) {
    && a.phase.Egressed?
    && b == a.(stored := a.stored.(requests := a.phase.previous + a.phase.recorded), phase := Settled)
  }

  function After(s: State, packet: Packet, identity: nat, revision: nat, size: nat): State {
    s.(packet := Some(packet), identity := Some(identity), revision := revision, refresh := false,
       events := s.events + 1, bytes := s.bytes + size)
  }

  /** Charge one text: a new packet under the next revision, or the stored packet under its own. */
  ghost predicate ChargeOf(c: Config, a: Moment, b: Moment, packet: Packet, identity: nat, size: nat) {
    && a.stored.events < c.maxEvents && size <= MAX_ENVELOPE_BYTES && a.stored.bytes + size <= c.maxBytes
    && (a.phase == Settled || (a.phase == Idle && Current(a.stored) && a.stored.packet == Some(packet)
                                && a.stored.identity == Some(identity)))
    && var revision := a.stored.revision + (if a.phase == Settled then 1 else 0);
       b == Moment(After(a.stored, packet, identity, revision, size), a.ledger, Submitted(size))
  }

  ghost predicate Charge(c: Config, a: Moment, b: Moment) {
    exists packet, identity, size :: ChargeOf(c, a, b, packet, identity, size)
  }

  ghost predicate Deliver(a: Moment, b: Moment) {
    && a.phase.Submitted? && a.stored.packet.Some?
    && b == a.(phase := Idle, ledger := a.ledger.(delivered := a.ledger.delivered
         + [Delivery(a.stored.revision, a.stored.packet.value, a.phase.size)]))
  }

  /** A crash or an error between any two writes keeps the file and forgets the rest. */
  ghost predicate Abort(a: Moment, b: Moment) { b == a.(phase := Idle) }

  ghost predicate AskRefresh(a: Moment, b: Moment) {
    a.phase == Idle && b == a.(stored := a.stored.(refresh := true))
  }

  /** The end of a session removes its file. */
  ghost predicate Forget(a: Moment, b: Moment) { a.phase == Idle && b == Start() }

  ghost function Start(): Moment { Moment(EMPTY, Ledger(0, []), Idle) }

  ghost predicate Step(c: Config, a: Moment, b: Moment) {
    || Reserve(c, a, b) || Egress(a, b) || Settle(a, b) || Charge(c, a, b) || Deliver(a, b)
    || Abort(a, b) || AskRefresh(a, b) || Forget(a, b)
  }

  ghost predicate Run(c: Config, moments: seq<Moment>) {
    && moments != [] && moments[0] == Start()
    && forall k :: 0 <= k < |moments| - 1 ==> Step(c, moments[k], moments[k + 1])
  }

  // ---------------------------------------------------------------- safety

  /** Every allowance, at every moment of every run. */
  ghost predicate WithinAllowances(c: Config, m: Moment) {
    && m.ledger.sent <= m.stored.requests <= c.maxRequests
    && |m.ledger.delivered| <= m.stored.events <= c.maxEvents
    && TotalBytes(m.ledger.delivered) <= m.stored.bytes <= c.maxBytes
  }

  /** A revision names one packet. */
  ghost predicate OnePacketPerRevision(deliveries: seq<Delivery>) {
    forall a, b :: a in deliveries && b in deliveries && a.revision == b.revision ==> a.packet == b.packet
  }

  ghost predicate Consistent(m: Moment) {
    && (forall d :: d in m.ledger.delivered ==> d.revision <= m.stored.revision)
    && (forall d :: d in m.ledger.delivered && d.revision == m.stored.revision ==> m.stored.packet == Some(d.packet))
    && OnePacketPerRevision(m.ledger.delivered)
  }

  ghost predicate PhaseAccounted(c: Config, m: Moment) {
    match m.phase
    case Idle => true
    case Settled => true
    case Reserved(previous, allowance) =>
      m.ledger.sent <= previous && m.stored.requests == previous + allowance
    case Egressed(previous, recorded) =>
      m.ledger.sent <= previous + recorded && previous + recorded <= m.stored.requests
    case Submitted(size) =>
      |m.ledger.delivered| < m.stored.events && TotalBytes(m.ledger.delivered) + size <= m.stored.bytes
      && m.stored.packet.Some?
  }

  ghost predicate Inv(c: Config, m: Moment) {
    WithinAllowances(c, m) && Consistent(m) && PhaseAccounted(c, m)
  }

  lemma ChargeKeepsInv(c: Config, a: Moment, b: Moment)
    requires Inv(c, a) && Charge(c, a, b)
    ensures Inv(c, b)
  {
  }

  lemma DeliverKeepsInv(c: Config, a: Moment, b: Moment)
    requires Inv(c, a) && Deliver(a, b)
    ensures Inv(c, b)
  {
    var d := Delivery(a.stored.revision, a.stored.packet.value, a.phase.size);
    var after := a.ledger.delivered + [d];
    assert after[..|after| - 1] == a.ledger.delivered;
    assert forall x :: x in after ==> x in a.ledger.delivered || x == d;
  }

  lemma StepKeepsInv(c: Config, a: Moment, b: Moment)
    requires Inv(c, a) && Step(c, a, b)
    ensures Inv(c, b)
  {
    if Deliver(a, b) {
      DeliverKeepsInv(c, a, b);
    } else if Charge(c, a, b) {
      ChargeKeepsInv(c, a, b);
    } else if !Forget(a, b) {
      assert b.ledger.delivered == a.ledger.delivered;
      assert Consistent(b);
    }
  }

  /** No allowance is overspent, whatever fails and wherever the process dies: the file never records less than what
      was sent or delivered, and never more than the configuration allows. */
  lemma {:induction false} AllowancesNeverOverspent(c: Config, moments: seq<Moment>, k: nat)
    requires Run(c, moments) && k < |moments|
    ensures WithinAllowances(c, moments[k]) && OnePacketPerRevision(moments[k].ledger.delivered)
  {
    InvHolds(c, moments, k);
  }

  lemma {:induction false} InvHolds(c: Config, moments: seq<Moment>, k: nat)
    requires Run(c, moments) && k < |moments|
    ensures Inv(c, moments[k])
  {
    if k > 0 {
      InvHolds(c, moments, k - 1);
      StepKeepsInv(c, moments[k - 1], moments[k - 1 + 1]);
    }
  }

  // ---------------------------------------------------------------- one resolution

  /** How the worker process ends: with its own answer, stopped at the deadline, or broken in any other way. */
  datatype WorkerEnd = Answered | Deadline | Broken

  /** What a batch meets: a credential, the bound on its body, payloads free of secrets, how many requests its worker
      begins before it ends, and how it ends. */
  datatype Attempt = Attempt(token: bool, bodyFits: bool, clean: seq<bool>, begun: nat, end: WorkerEnd)

  /** What selection meets: the candidate sources, whether readiness and authorization hold, whether the whole pool can
      be read within its bounds, and what becomes of the batch. */
  datatype Scoring = Scoring(candidates: nat, permitted: bool, readable: bool, attempt: Attempt)

  function IsClean(a: Attempt, payload: nat): bool { payload < |a.clean| && a.clean[payload] }

  /** The first `n` payloads are all known to hold no secret. */
  predicate AllClean(n: nat, a: Attempt) { n <= |a.clean| && forall q :: 0 <= q < n ==> a.clean[q] }

  /** The worker scans every payload, and then takes them off one queue, so that each is sent at most once; it can be
      stopped before any of them. `sent` are the payloads that may have reached the provider. */
  method Work(n: nat, a: Attempt) returns (ghost sent: set<nat>)
    ensures forall p: nat :: p in sent <==> p < n && p < a.begun && AllClean(n, a)
    ensures |sent| <= n
  {
    sent := {};
    for payload := 0 to n
      invariant AllClean(payload, a)
    {
      if !IsClean(a, payload) { return; }
    }
    for payload := 0 to n
      invariant forall p: nat :: p in sent <==> p < payload && p < a.begun
      invariant |sent| <= payload
    {
      if payload >= a.begun { break; }
      sent := sent + {payload};
    }
  }

  predicate Handed(n: nat, a: Attempt) { a.token && 0 < n <= MAX_BATCH && a.bodyFits }

  /** Hand a batch to a worker. A batch that was handed over is recorded in full, whatever becomes of it. */
  method Evaluate(n: nat, a: Attempt) returns (requests: nat, ghost sent: set<nat>)
    ensures requests == if Handed(n, a) then n else 0
    ensures |sent| <= requests
    // One payload that is not known to be free of secrets keeps the whole batch inside.
    ensures forall p: nat :: p in sent <==> requests > 0 && p < n && p < a.begun && AllClean(n, a)
  {
    requests, sent := 0, {};
    if !a.token { return; }
    if n == 0 || n > MAX_BATCH { return; }
    if !a.bodyFits { return; }
    sent := Work(n, a);
    match a.end
    case Answered => requests := n; // what the worker itself reports, scored or not
    case Deadline => requests := n;
    case Broken => requests := n;
  }

  /** `_preflight`: the whole pool must fit the bound and the allowance. */
  predicate Preflight(c: Config, allowance: nat, s: Scoring) {
    s.permitted && s.candidates > 0 && s.candidates <= c.maxCandidates && s.candidates <= allowance
  }

  /** What one resolution records. */
  function RecordedBy(c: Config, allowance: nat, s: Scoring): nat {
    if c.scoring && Preflight(c, allowance, s) && s.readable && Handed(s.candidates, s.attempt) then s.candidates else 0
  }

  /** One resolution records no fewer requests than can have been sent, and no more than its allowance. */
  method Select(c: Config, allowance: nat, s: Scoring) returns (recorded: nat, ghost sent: nat)
    ensures recorded == RecordedBy(c, allowance, s)
    ensures sent <= recorded <= allowance
  {
    recorded, sent := 0, 0;
    if !c.scoring || !Preflight(c, allowance, s) { return; }
    if !s.readable { return; }
    ghost var payloads;
    recorded, payloads := Evaluate(s.candidates, s.attempt);
    sent := |payloads|;
  }

  // ---------------------------------------------------------------- events

  datatype Kind = Prompt | SessionStart(compactOrResume: bool)

  /** What one event reads from its surroundings. */
  datatype Input = Input(kind: Kind, identity: Option<nat>, digests: map<string, nat>, promptUsable: bool,
                         resolved: Option<Packet>, scoring: Scoring, size: nat)

  datatype Reply = Unchanged | Text(delivery: Delivery) | Incomplete

  predicate Replays(i: Input) { i.kind.SessionStart? && i.kind.compactOrResume }

  predicate SourcesCurrent(p: Packet, digests: map<string, nat>) {
    forall path :: path in p.sources ==> path in digests && digests[path] == p.sources[path]
  }

  /** The event needs no text: a plain start, or a prompt whose packet is current. */
  predicate NeedsNothing(s: State, i: Input) {
    (i.kind.SessionStart? && !i.kind.compactOrResume) || (i.kind == Prompt && Current(s))
  }

  /** The routing configuration is readable and, for a current packet, the one it was selected under. */
  predicate Admitted(s: State, i: Input) {
    i.identity.Some? && (Current(s) ==> s.identity == i.identity)
  }

  predicate Replayable(s: State, i: Input) { Current(s) && SourcesCurrent(s.packet.value, i.digests) }

  predicate OnlyRequestsGrew(s: State, t: State) { s.requests <= t.requests && t == s.(requests := t.requests) }

  /** The text that event `i` gives out after state `s`: a verified packet whose sources are as they were selected, the
      stored one for a replay and the newly resolved one otherwise. */
  predicate Given(s: State, i: Input, t: State, d: Delivery) {
    && Admitted(s, i) && !NeedsNothing(s, i)
    && d.packet.passed && SourcesCurrent(d.packet, i.digests) && d.size == i.size <= MAX_ENVELOPE_BYTES
    && (if Replays(i)
        then Current(s) && s.packet == Some(d.packet) && d.revision == s.revision && t.requests == s.requests
        else i.promptUsable && i.resolved == Some(d.packet) && d.revision == s.revision + 1)
    && s.requests <= t.requests && t.events == s.events + 1 && t.bytes == s.bytes + d.size
    && t.packet == Some(d.packet) && t.identity == i.identity && t.revision == d.revision && !t.refresh
  }

  /** The packet that event `i` is about: the stored one for a replay, else the newly resolved one. */
  function Candidate(s: State, i: Input): Option<Packet> {
    if Replays(i) then (if Replayable(s, i) then s.packet else None)
    else if i.promptUsable then i.resolved else None
  }

  /** Exactly these events give out a text. */
  predicate Deliverable(c: Config, s: State, i: Input) {
    && Admitted(s, i) && !NeedsNothing(s, i) && s.events < c.maxEvents
    && Candidate(s, i).Some? && Candidate(s, i).value.passed && SourcesCurrent(Candidate(s, i).value, i.digests)
    && i.size <= MAX_ENVELOPE_BYTES && s.bytes + i.size <= c.maxBytes
  }

  /** What one event adds to the recorded requests: the whole reservation when its resolution fails, otherwise what the
      resolution records. */
  function Spent(c: Config, s: State, i: Input): nat {
    if !Admitted(s, i) || NeedsNothing(s, i) || s.events >= c.maxEvents || Replays(i) || !i.promptUsable then 0
    else if i.resolved.None? then Reservation(c, s)
    else RecordedBy(c, Allowance(c, s), i.scoring)
  }

  // ---------------------------------------------------------------- the decisions of an event, in full

  /** A packet is stored and no new routing was asked for. */
  ghost predicate Retained(s: State) { exists packet :: s.packet == Some(packet) && s.refresh == false }

  /** The routing configuration can be read and is the one a retained packet was selected under. */
  ghost predicate RoutingKnown(s: State, i: Input) {
    exists id :: i.identity == Some(id) && (Retained(s) ==> s.identity == Some(id))
  }

  /** Every source that the packet embeds has the digest it had when it was selected. */
  predicate Unaltered(packet: Packet, i: Input) {
    forall path :: path in packet.sources ==> path in i.digests && i.digests[path] == packet.sources[path]
  }

  /** A prompt with a retained packet, and a start that neither compacts nor resumes, get nothing. */
  lemma UnchangedExactlyWhen(s: State, i: Input)
    ensures Admitted(s, i) && NeedsNothing(s, i) <==>
              && RoutingKnown(s, i)
              && (i.kind == SessionStart(false) || (i.kind == Prompt && Retained(s)))
  {
    assert Retained(s) <==> Current(s) by { if Current(s) { assert s.packet == Some(s.packet.value); } }
    if i.identity.Some? { assert i.identity == Some(i.identity.value); }
  }

  /** A prompt after a request for new routing is never passed over. */
  lemma RefreshIsHeard(s: State, i: Input)
    requires s.refresh && i.kind == Prompt
    ensures !(Admitted(s, i) && NeedsNothing(s, i))
  {
    UnchangedExactlyWhen(s, i);
  }

  /** The packet that a text is made of: for a compacting or resuming start the retained one, for a prompt without a
      retained packet the one it resolves to. */
  ghost predicate Source(s: State, i: Input, packet: Packet) {
    match i.kind
    case Prompt => !Retained(s) && i.promptUsable && i.resolved == Some(packet)
    case SessionStart(compactOrResume) => compactOrResume && Retained(s) && s.packet == Some(packet)
  }

  /** Exactly when a text is given out. */
  lemma DeliverableExactlyWhen(c: Config, s: State, i: Input)
    ensures Deliverable(c, s, i) <==>
              && RoutingKnown(s, i) && s.events < c.maxEvents
              && i.size <= 262144 && s.bytes + i.size <= c.maxBytes
              && exists packet :: Source(s, i, packet) && packet.passed && Unaltered(packet, i)
  {
    assert Retained(s) <==> Current(s) by { if Current(s) { assert s.packet == Some(s.packet.value); } }
    if i.identity.Some? { assert i.identity == Some(i.identity.value); }
    if Candidate(s, i).Some? && !NeedsNothing(s, i) { assert Source(s, i, Candidate(s, i).value); }
  }

  /** No text is given out when a source of the packet has another digest than it had, or cannot be read. */
  lemma AlteredIsWithheld(c: Config, s: State, i: Input, packet: Packet, path: string)
    requires Source(s, i, packet) && path in packet.sources
    requires path !in i.digests || i.digests[path] != packet.sources[path]
    ensures !Deliverable(c, s, i)
  {
    DeliverableExactlyWhen(c, s, i);
  }

  /** The allowance is the greatest number of requests that the pool's bound and what is left permit. */
  lemma AllowanceIsGreatest(c: Config, s: State, n: nat)
    ensures n <= Allowance(c, s) <==> n == 0 || (n <= c.maxCandidates && s.requests + n <= c.maxRequests)
  {
  }

  /** A resolution records its whole pool exactly when it is allowed, readable and handed over, nothing otherwise. */
  lemma RecordedExactlyWhen(c: Config, allowance: nat, s: Scoring)
    ensures RecordedBy(c, allowance, s) == s.candidates || RecordedBy(c, allowance, s) == 0
    ensures RecordedBy(c, allowance, s) > 0 <==>
              && c.scoring && s.permitted && s.readable
              && 0 < s.candidates && s.candidates <= c.maxCandidates && s.candidates <= allowance
              && s.attempt.token && s.attempt.bodyFits && s.candidates <= 32
  {
  }

  /** Only a prompt that must be resolved spends requests: the allowance when scoring fails it, else what it records. */
  lemma SpentExactlyWhen(c: Config, s: State, i: Input)
    ensures Spent(c, s, i) ==
              if RoutingKnown(s, i) && i.kind == Prompt && !Retained(s) && s.events < c.maxEvents && i.promptUsable then
                match i.resolved
                case Some(_) => RecordedBy(c, Allowance(c, s), i.scoring)
                case None => if c.scoring then Allowance(c, s) else 0
              else 0
  {
    assert Retained(s) <==> Current(s) by { if Current(s) { assert s.packet == Some(s.packet.value); } }
    if i.identity.Some? { assert i.identity == Some(i.identity.value); }
  }

  class Session {
    const config: Config
    var file: Option<State>
    ghost var ledger: Ledger
    ghost var history: seq<Moment>

    function Read(): State reads this { if file.Some? then file.value else EMPTY }

    ghost predicate Tracks(phase: Phase) reads this {
      Run(config, history) && history[|history| - 1] == Moment(Read(), ledger, phase)
    }

    /** Between events. */
    ghost predicate Valid() reads this { Tracks(Idle) }

    constructor (c: Config)
      ensures Valid() && config == c && Read() == EMPTY
    {
      config, file, ledger, history := c, None, Ledger(0, []), [Start()];
    }

    ghost method Note(phase: Phase)
      requires Run(config, history) && Step(config, history[|history| - 1], Moment(Read(), ledger, phase))
      modifies this`history
      ensures Tracks(phase) && history == old(history) + [Moment(Read(), ledger, phase)]
    {
      history := history + [Moment(Read(), ledger, phase)];
    }

    /** Ask for new routing at the next prompt. */
    method Refresh()
      requires Valid()
      modifies this
      ensures Valid() && file == Some(old(Read()).(refresh := true)) && ledger == old(ledger)
    {
      file := Some(Read().(refresh := true));
      Note(Idle);
    }

    method End()
      requires Valid()
      modifies this
      ensures Valid() && file == None && ledger == Ledger(0, [])
    {
      file := None;
      ledger := Ledger(0, []);
      Note(Idle);
    }

    /** The packet of one event. A replay takes the stored one and writes nothing; otherwise requests are reserved in
        the file, then spent, then settled. */
    method PacketFor(state: State, i: Input) returns (r: Option<Packet>)
      requires Valid() && state == Read() && state.events < config.maxEvents
      modifies this
      ensures Tracks(if Replays(i) || r.None? then Idle else Settled)
      ensures ledger.delivered == old(ledger.delivered) && OnlyRequestsGrew(state, Read())
      ensures Replays(i) || !i.promptUsable ==> file == old(file) && ledger == old(ledger)
      ensures Replays(i) ==> r == if Replayable(state, i) then state.packet else None
      ensures !Replays(i) ==> r == if i.promptUsable then i.resolved else None
      // A resolution that fails keeps the whole reservation; one that ends records what it may have sent.
      ensures !Replays(i) && i.promptUsable ==>
                Read().requests == state.requests + if r.None? then Reservation(config, state)
                                                    else RecordedBy(config, Allowance(config, state), i.scoring)
    {
      if Replays(i) { return if Replayable(state, i) then state.packet else None; }
      if !i.promptUsable { return None; }
      var previous := state.requests;
      var allowance := Allowance(config, state);
      file := Some(state.(requests := previous + (if config.scoring then allowance else 0)));
      Note(Reserved(previous, Reservation(config, state)));
      ghost var sent;
      var recorded;
      recorded, sent := Select(config, allowance, i.scoring);
      ghost var before := history[|history| - 1];
      ledger := ledger.(sent := ledger.sent + sent);
      assert EgressOf(before, Moment(Read(), ledger, Egressed(previous, recorded)), sent, recorded);
      Note(Egressed(previous, recorded));
      if i.resolved.None? {
        Note(Idle);
        return None;
      }
      file := Some(state.(requests := previous + recorded));
      Note(Settled);
      r := i.resolved;
    }

    /** One event under the session lock. A text is charged to the file before it is given out; an event that ends
        without a text costs at most requests. */
    method Submit(i: Input) returns (reply: Reply)
      requires Valid()
      modifies this
      ensures Valid()
      ensures reply == Unchanged <==> Admitted(old(Read()), i) && NeedsNothing(old(Read()), i)
      ensures reply == Unchanged ==> file == old(file) && ledger == old(ledger)
      ensures reply == Incomplete ==> OnlyRequestsGrew(old(Read()), Read()) && ledger.delivered == old(ledger.delivered)
      ensures reply == Incomplete && !(Admitted(old(Read()), i) && !Replays(i) && old(Read()).events < config.maxEvents)
              ==> file == old(file) && ledger == old(ledger)
      ensures reply.Text? <==> Deliverable(config, old(Read()), i)
      ensures Read().requests == old(Read()).requests + Spent(config, old(Read()), i)
      ensures reply.Text? ==> Given(old(Read()), i, Read(), reply.delivery)
                              && ledger.delivered == old(ledger.delivered) + [reply.delivery]
    {
      var state := Read();
      reply := Incomplete;
      if i.identity.None? || (Current(state) && state.identity != i.identity) { return; }
      if i.kind.SessionStart? && !Replays(i) { return Unchanged; }
      if i.kind == Prompt && Current(state) { return Unchanged; }
      if state.events >= config.maxEvents { return; }
      var packet := PacketFor(state, i);
      if packet.None? { return; }
      reply := GiveOut(packet.value, i);
    }

    /** Charge one text to the file and give it out, unless it is not fit or does not fit. */
    method GiveOut(packet: Packet, i: Input) returns (reply: Reply)
      requires Tracks(if Replays(i) then Idle else Settled) && i.identity.Some? && Read().events < config.maxEvents
      requires Replays(i) ==> Current(Read()) && Read().packet == Some(packet) && Read().identity == i.identity
      modifies this
      ensures Valid()
      ensures reply == Incomplete || reply.Text?
      ensures reply.Text? <==> packet.passed && SourcesCurrent(packet, i.digests) && i.size <= MAX_ENVELOPE_BYTES
                               && old(Read()).bytes + i.size <= config.maxBytes
      ensures reply == Incomplete ==> file == old(file) && ledger == old(ledger)
      ensures reply.Text? ==>
                var revision := old(Read()).revision + (if Replays(i) then 0 else 1);
                && reply == Text(Delivery(revision, packet, i.size))
                && Read() == After(old(Read()), packet, i.identity.value, revision, i.size)
                && ledger == old(ledger).(delivered := old(ledger.delivered) + [reply.delivery])
    {
      var state := Read();
      var revision := state.revision + (if Replays(i) then 0 else 1);
      reply := Incomplete;
      if !packet.passed || !SourcesCurrent(packet, i.digests)
         || i.size > MAX_ENVELOPE_BYTES || state.bytes + i.size > config.maxBytes {
        Note(Idle);
        return;
      }
      file := Some(After(state, packet, i.identity.value, revision, i.size));
      assert ChargeOf(config, history[|history| - 1], Moment(Read(), ledger, Submitted(i.size)), packet,
                      i.identity.value, i.size);
      Note(Submitted(i.size));
      reply := Text(Delivery(revision, packet, i.size));
      ledger := ledger.(delivered := ledger.delivered + [reply.delivery]);
      Note(Idle);
    }
  }

  /** So a session object is within its allowances after every event, and so is all it went through. */
  lemma SessionIsSafe(s: Session)
    requires s.Valid()
    ensures WithinAllowances(s.config, Moment(s.Read(), s.ledger, Idle))
    ensures forall m :: m in s.history ==> WithinAllowances(s.config, m)
  {
    forall m | m in s.history ensures WithinAllowances(s.config, m) {
      var k: nat :| k < |s.history| && s.history[k] == m;
      AllowancesNeverOverspent(s.config, s.history, k);
    }
    assert s.history[|s.history| - 1] in s.history;
  }
}
