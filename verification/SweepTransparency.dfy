/**
 Lapsed leases are honoured twice: lazily, by comparing with the clock at every read, and eagerly, by
 the sweep. This module proves that the sweep is redundant: inserting or deleting sweeps anywhere in a
 run changes nothing that a target or a registering process sees, and nothing that a client sees except
 the connection states shown beside the targets of a list. All that is asked of the clock is that the
 steps which compare it with lease ends do not read it earlier than a sweep that came before them;
 registrations and renewals, whose clock is read before they wait for the lock, may be late.
 */
module SweepTransparency {
  import opened Basics
  import opened Commands
  import opened Policies
  import opened RegistryModel
  import opened IpcClient
  import opened SessionModel
  import opened SystemModel
  import opened SystemInvariants
  import opened RunHistory

  // ---------- schedules ----------

  predicate IsSweep(step: Step) {
    step.OnRegistry? && step.registryStep.ExpireLeases?
  }

  /** The schedule without its sweeps. */
  function Unswept(steps: seq<Step>): seq<Step> {
    if steps == [] then []
    else
      var rest := Unswept(steps[..|steps| - 1]);
      if IsSweep(steps[|steps| - 1]) then rest else rest + [steps[|steps| - 1]]
  }

  /** The clock value a step reads, if it reads one. */
  function TimeOf(step: Step): Option<Instant> {
    match step
    case OnRegistry(Register(_, _, _, now)) => Some(now)
    case OnRegistry(Renew(_, now)) => Some(now)
    case OnRegistry(ExpireLeases(now)) => Some(now)
    case OnRegistry(MarkReconnecting(_, _, now)) => Some(now)
    case Connect(_, _, _, now) => Some(now)
    case OnSession(_, Hello(_, now)) => Some(now)
    case OnSession(_, PublishTargets(_, now)) => Some(now)
    case OnSession(_, Bind(_, _, now)) => Some(now)
    case OnSession(_, Command(_, _, now)) => Some(now)
    case OnSession(_, ReconnectTimeout(_, now)) => Some(now)
    case OnSession(_, _) => None
  }

  /** The last clock value a schedule reads. */
  function Latest(steps: seq<Step>): Instant {
    if steps == [] then MIN_INSTANT
    else GetOr(TimeOf(steps[|steps| - 1]), Latest(steps[..|steps| - 1]))
  }

  predicate NonDecreasing(steps: seq<Step>) {
    steps == [] ||
    (NonDecreasing(steps[..|steps| - 1]) && Latest(steps[..|steps| - 1]) <= Latest(steps))
  }

  /** The greatest clock value that a sweep of the schedule reads. */
  function LatestSweep(steps: seq<Step>): Instant {
    if steps == [] then MIN_INSTANT
    else Later(LatestSweep(steps[..|steps| - 1]), steps[|steps| - 1])
  }

  function Later(time: Instant, step: Step): Instant {
    if IsSweep(step) && step.registryStep.now > time then step.registryStep.now else time
  }

  /** The step compares the clock with lease ends. */
  predicate ReadsLeases(step: Step) {
    step.OnSession? && (step.sessionStep.Bind? || step.sessionStep.Command? || step.sessionStep.PublishTargets?)
  }

  /** Every step that compares the clock with lease ends reads it no earlier than the sweeps before it. */
  predicate ReadsFollowSweeps(steps: seq<Step>) {
    steps == [] ||
    (var before, last := steps[..|steps| - 1], steps[|steps| - 1];
     && ReadsFollowSweeps(before)
     && (ReadsLeases(last) ==> LatestSweep(before) <= last.sessionStep.now))
  }

  /** A clock that never runs back is more than enough. */
  lemma {:induction false} SteadyClockSuffices(steps: seq<Step>)
    requires NonDecreasing(steps)
    ensures ReadsFollowSweeps(steps) && LatestSweep(steps) <= Latest(steps)
  {
    if steps != [] {
      SteadyClockSuffices(steps[..|steps| - 1]);
    }
  }

  /** What the callers of all steps but the sweeps learn, in order. */
  function Outcomes(policy: RegistrationPolicy, steps: seq<Step>): seq<Outcome> {
    if steps == [] then []
    else
      var before, last := steps[..|steps| - 1], steps[|steps| - 1];
      if IsSweep(last) then Outcomes(policy, before)
      else Outcomes(policy, before) + [Next(Run(policy, before), last).1]
  }

  /** What a registering process, a client's handler and a fan-out learn is what their operation answered. */
  lemma OutcomesAreAnswers(sys: System, sid: nat, request: RegistrationRequest, owner: string,
                           keyed: RelayResult<string>, id: string, hello: ClientHello, bindAnswers: BindAnswers,
                           command: ClientCommand, answers: CommandAnswers, event: EventRecord, now: Instant)
    requires sid in sys.endpoints
    ensures var s := sys.endpoints[sid].session;
            && Next(sys, OnRegistry(Register(request, owner, keyed, now))).1 ==
                 Outcome.Registration(RegistryModel.Register(sys.registry, request, owner, keyed, now).1)
            && Next(sys, OnRegistry(Renew(id, now))).1 == Renewal(RegistryModel.Renew(sys.registry, id, now).1)
            && Next(sys, OnSession(sid, Hello(hello, now))).1 == Answered(AcceptClientHello(s, hello, now).1)
            && Next(sys, OnSession(sid, Bind(id, bindAnswers, now))).1 ==
                 Answered(BindTarget(s, id, sys.registry, bindAnswers, now).result)
            && Next(sys, OnSession(sid, Command(command, answers, now))).1 ==
                 Commanded(HandleCommand(s, command, sys.registry, answers, now).result)
            && Next(sys, OnSession(sid, FanOutEvent(event))).1 == Relayed(AcceptEvent(s, event).1)
  {
  }

  // ---------- what sweeps may change ----------

  /** Registrations that agree, except that a lease lapsed by `time` may be marked expired in only one. */
  ghost predicate SameRegistration(a: Registration, b: Registration, time: Instant) {
    && a == b.(registrationState := a.registrationState)
    && (a.registrationState == b.registrationState || a.expiresAt <= time)
  }

  /** Connections that agree on all but their state and the time of its change. */
  ghost predicate SameConnection(a: Connection, b: Connection) {
    a == b.(state := a.state, updatedAt := a.updatedAt)
  }

  ghost predicate SameRegistry(a: RegistryState, b: RegistryState, time: Instant) {
    && a.policy == b.policy
    && a.registrations.Keys == b.registrations.Keys
    && a.connections.Keys == b.connections.Keys
    && (forall id :: id in a.registrations ==> SameRegistration(a.registrations[id], b.registrations[id], time))
    && (forall id :: id in a.connections ==> SameConnection(a.connections[id], b.connections[id]))
  }

  ghost predicate SameTarget(a: VisibleTarget, b: VisibleTarget) {
    a == b.(connectionState := a.connectionState)
  }

  /** Messages that agree, except for the connection states shown in a target list. */
  ghost predicate SameMessage(a: ServerMessage, b: ServerMessage) {
    || a == b
    || (&& a.TargetList? && b.TargetList? && |a.targets| == |b.targets|
        && forall i :: 0 <= i < |a.targets| ==> SameTarget(a.targets[i], b.targets[i]))
  }

  ghost predicate SameMessages(a: seq<ServerMessage>, b: seq<ServerMessage>) {
    |a| == |b| && forall i :: 0 <= i < |a| ==> SameMessage(a[i], b[i])
  }

  ghost predicate SameSession(a: SessionState, b: SessionState) {
    a == b.(outbox := a.outbox) && SameMessages(a.outbox, b.outbox)
  }

  ghost predicate SameEndpoint(a: Endpoint, b: Endpoint) {
    && SameSession(a.session, b.session)
    && a.audit == b.audit
    && a.exchanges == b.exchanges
    && SameMessages(a.sent, b.sent)
  }

  ghost predicate SameSystem(a: System, b: System, time: Instant) {
    && SameRegistry(a.registry, b.registry, time)
    && a.endpoints.Keys == b.endpoints.Keys
    && forall sid :: sid in a.endpoints ==> SameEndpoint(a.endpoints[sid], b.endpoints[sid])
  }

  // ---------- reads agree ----------

  lemma SameActivity(a: RegistryState, b: RegistryState, time: Instant, id: string, now: Instant)
    requires SameRegistry(a, b, time) && time <= now
    ensures EnsureTargetActive(a, id, now) == EnsureTargetActive(b, id, now)
    ensures EnsureTargetActive(a, id, now).Ok? ==> a.registrations[id] == b.registrations[id]
  {
    if id in a.registrations {
      assert SameRegistration(a.registrations[id], b.registrations[id], time);
    }
  }

  lemma SameActiveIds(a: RegistryState, b: RegistryState, time: Instant, now: Instant)
    requires SameRegistry(a, b, time) && time <= now
    ensures ActiveIds(a, now) == ActiveIds(b, now)
  {
    forall id ensures id in ActiveIds(a, now) <==> id in ActiveIds(b, now) {
      SameActivity(a, b, time, id, now);
    }
  }

  // ---------- registry operations agree ----------

  lemma SameAfterSweep(a: RegistryState, b: RegistryState, time: Instant, now: Instant)
    requires SameRegistry(a, b, time)
    ensures SameRegistry(RegistryModel.ExpireLeases(a, now), b, if now > time then now else time)
  {
    var after := RegistryModel.ExpireLeases(a, now);
    assert after.registrations.Keys == a.registrations.Keys && after.connections.Keys == a.connections.Keys;
    forall id | id in after.registrations
      ensures SameRegistration(after.registrations[id], b.registrations[id], if now > time then now else time)
    {
      assert SameRegistration(a.registrations[id], b.registrations[id], time);
    }
    forall id | id in after.connections ensures SameConnection(after.connections[id], b.connections[id]) {
      assert SameConnection(a.connections[id], b.connections[id]);
    }
  }

  /** Writing related records under one key keeps registries related. */
  lemma SameAfterWrite(a: RegistryState, b: RegistryState, time: Instant, id: string,
                       r: Registration, q: Registration, c: Connection, d: Connection)
    requires SameRegistry(a, b, time)
    requires SameRegistration(r, q, time) && SameConnection(c, d)
    ensures SameRegistry(a.(registrations := a.registrations[id := r], connections := a.connections[id := c]),
                         b.(registrations := b.registrations[id := q], connections := b.connections[id := d]), time)
  {
  }

  lemma SameKeyHolders(a: RegistryState, b: RegistryState, time: Instant, id: string, key: string)
    requires SameRegistry(a, b, time)
    ensures KeyHeldByOther(a, id, key) == KeyHeldByOther(b, id, key)
  {
    forall other | other in a.registrations
      ensures a.registrations[other].ipcPathKey == b.registrations[other].ipcPathKey
    {
      assert SameRegistration(a.registrations[other], b.registrations[other], time);
    }
  }

  lemma SameUpsert(a: RegistryState, b: RegistryState, time: Instant, request: RegistrationRequest, owner: string,
                   key: string, now: Instant)
    requires SameRegistry(a, b, time) && InStep(a) && InStep(b)
    requires request.targetId in a.registrations
    ensures var x, y := UpsertExistingRegistration(a, request, owner, key, now),
                        UpsertExistingRegistration(b, request, owner, key, now);
            SameRegistry(x.0, y.0, time) && x.1 == y.1
  {
    var id := request.targetId;
    assert SameRegistration(a.registrations[id], b.registrations[id], time);
    assert SameConnection(a.connections[id], b.connections[id]);
    var end := LeaseEnd(now, request.leaseSeconds);
    if end.Some? {
      var moved := a.registrations[id].ipcPathKey != key;
      var c, d := Upserted(a.connections[id], request.ipcPath, moved, now),
                  Upserted(b.connections[id], request.ipcPath, moved, now);
      var r := NewRegistration(request, owner, key, a.registrations[id].registeredAt, now, end.value);
      SameAfterWrite(a, b, time, id, r, r, c, d);
    }
  }

  lemma SameNewRegistration(a: RegistryState, b: RegistryState, time: Instant, request: RegistrationRequest,
                            owner: string, keyed: RelayResult<string>, now: Instant)
    requires SameRegistry(a, b, time)
    requires request.targetId !in a.registrations && keyed.Ok?
    requires KeyHeldByOther(a, request.targetId, keyed.value) == KeyHeldByOther(b, request.targetId, keyed.value)
    ensures var x, y := RegistryModel.Register(a, request, owner, keyed, now),
                        RegistryModel.Register(b, request, owner, keyed, now);
            SameRegistry(x.0, y.0, time) && x.1 == y.1
  {
    var end := LeaseEnd(now, request.leaseSeconds);
    if end.Some? {
      var r := NewRegistration(request, owner, keyed.value, now, now, end.value);
      var c := Connection(request.targetId, request.ipcPath, Registered, None, None, None, None, now);
      SameAfterWrite(a, b, time, request.targetId, r, r, c, c);
    }
  }

  lemma SameRegister(a: RegistryState, b: RegistryState, time: Instant, request: RegistrationRequest, owner: string,
                     keyed: RelayResult<string>, now: Instant)
    requires SameRegistry(a, b, time) && InStep(a) && InStep(b)
    ensures var x, y := RegistryModel.Register(a, request, owner, keyed, now),
                        RegistryModel.Register(b, request, owner, keyed, now);
            SameRegistry(x.0, y.0, time) && x.1 == y.1
  {
    if keyed.Ok? {
      var id := request.targetId;
      SameKeyHolders(a, b, time, id, keyed.value);
      if id in a.registrations {
        assert SameRegistration(a.registrations[id], b.registrations[id], time);
        SameUpsert(a, b, time, request, owner, keyed.value, now);
      } else {
        SameNewRegistration(a, b, time, request, owner, keyed, now);
      }
    }
  }

  lemma SameRenew(a: RegistryState, b: RegistryState, time: Instant, id: string, now: Instant)
    requires SameRegistry(a, b, time)
    ensures var x, y := RegistryModel.Renew(a, id, now), RegistryModel.Renew(b, id, now);
            SameRegistry(x.0, y.0, time) && x.1 == y.1
  {
    if id in a.registrations {
      assert SameRegistration(a.registrations[id], b.registrations[id], time);
      var x, y := RegistryModel.Renew(a, id, now).0, RegistryModel.Renew(b, id, now).0;
      assert SameRegistration(x.registrations[id], y.registrations[id], time);
    }
  }

  lemma SameBegin(a: RegistryState, b: RegistryState, time: Instant, id: string, now: Instant)
    requires SameRegistry(a, b, time)
    ensures var x, y := BeginBinding(a, id, now), BeginBinding(b, id, now);
            SameRegistry(x.0, y.0, time) && x.1 == y.1
  {
  }

  lemma SameConnected(a: RegistryState, b: RegistryState, time: Instant, id: string, generation: u64, now: Instant)
    requires SameRegistry(a, b, time)
    ensures var x, y := MarkConnected(a, id, generation, now), MarkConnected(b, id, generation, now);
            SameRegistry(x.0, y.0, time) && x.1 == y.1
  {
  }

  lemma SameFailed(a: RegistryState, b: RegistryState, time: Instant, id: string, state: ConnectionState,
                   reason: string, now: Instant)
    requires SameRegistry(a, b, time)
    ensures SameRegistry(MarkFailed(a, id, state, reason, now), MarkFailed(b, id, state, reason, now), time)
  {
  }

  // ---------- session operations agree ----------

  lemma SameBind(s: SessionState, t: SessionState, a: RegistryState, b: RegistryState, time: Instant, id: string,
                 answers: BindAnswers, now: Instant)
    requires SameSession(s, t) && SameRegistry(a, b, time) && time <= now
    ensures var x, y := BindTarget(s, id, a, answers, now), BindTarget(t, id, b, answers, now);
            && SameSession(x.session, y.session) && SameRegistry(x.registry, y.registry, time)
            && x.exchanges == y.exchanges && x.result == y.result
  {
    SameActivity(a, b, time, id, now);
    if ControlEstablished(s) && EnsureTargetActive(a, id, now).Ok? && id !in s.boundTargets {
      SameFreshBind(s, t, a, b, time, id, answers, now);
    }
  }

  lemma SameFreshBind(s: SessionState, t: SessionState, a: RegistryState, b: RegistryState, time: Instant, id: string,
                      answers: BindAnswers, now: Instant)
    requires SameSession(s, t) && SameRegistry(a, b, time)
    requires ControlEstablished(s) && id !in s.boundTargets && EnsureTargetActive(a, id, now).Ok?
    requires EnsureTargetActive(b, id, now).Ok? && a.registrations[id] == b.registrations[id]
    ensures var x, y := BindTarget(s, id, a, answers, now), BindTarget(t, id, b, answers, now);
            && SameSession(x.session, y.session) && SameRegistry(x.registry, y.registry, time)
            && x.exchanges == y.exchanges && x.result == y.result
  {
    var r := a.registrations[id];
    SameBegin(a, b, time, id, now);
    var begunA, begunB := BeginBinding(a, id, now).0, BeginBinding(b, id, now).0;
    var state := ReadState(r.targetId, answers.state, now);
    if state.Err? {
      SameFailed(begunA, begunB, time, id, Unavailable, state.error.message, now);
    } else {
      SameFinish(s, t, begunA, begunB, time, id, r,
                 [IpcExchange(StateRequest(r.ipcPath, r.targetId), answers.state)], state.value, answers, now);
    }
  }

  lemma SameFinish(s: SessionState, t: SessionState, a: RegistryState, b: RegistryState, time: Instant, id: string,
                   r: Registration, asked: seq<IpcExchange>, state: DashboardState, answers: BindAnswers, now: Instant)
    requires SameSession(s, t) && SameRegistry(a, b, time)
    ensures var x, y := FinishBinding(s, id, r, a, asked, state, answers, now),
                        FinishBinding(t, id, r, b, asked, state, answers, now);
            && SameSession(x.session, y.session) && SameRegistry(x.registry, y.registry, time)
            && x.exchanges == y.exchanges && x.result == y.result
  {
    SameConnected(a, b, time, id, state.stateGeneration, now);
    var result := SubscriptionResult(answers);
    if result.Err? {
      SameFailed(MarkConnected(a, id, state.stateGeneration, now).0, MarkConnected(b, id, state.stateGeneration, now).0,
                 time, id, Unavailable, result.error.message, now);
    }
  }

  lemma SamePush(s: SessionState, t: SessionState, messages: seq<ServerMessage>)
    requires SameSession(s, t)
    ensures SameSession(Push(s, messages), Push(t, messages))
  {
  }

  lemma SameRefresh(s: SessionState, t: SessionState, a: RegistryState, b: RegistryState, time: Instant, id: string,
                    answer: IpcAnswer, now: Instant)
    requires SameSession(s, t) && SameRegistry(a, b, time) && InStep(a)
    ensures var x, y := RefreshTargetState(s, id, a, answer, now), RefreshTargetState(t, id, b, answer, now);
            && SameSession(x.session, y.session) && SameRegistry(x.registry, y.registry, time)
            && x.exchanges == y.exchanges && x.result == y.result
  {
    if id in a.registrations {
      assert SameRegistration(a.registrations[id], b.registrations[id], time);
      var state := ReadState(id, answer, now);
      if state.Err? {
        SameFailed(a, b, time, id, Unavailable, state.error.message, now);
      } else {
        SameConnected(a, b, time, id, state.value.stateGeneration, now);
      }
    }
  }

  lemma SameForward(s: SessionState, t: SessionState, a: RegistryState, b: RegistryState, time: Instant,
                    prepared: PreparedCommand, path: Path, identity: RemoteIdentity, answers: CommandAnswers,
                    now: Instant)
    requires SameSession(s, t) && SameRegistry(a, b, time) && InStep(a)
    ensures var x, y := ForwardCommand(s, prepared, path, identity, a, answers, now),
                        ForwardCommand(t, prepared, path, identity, b, answers, now);
            && SameSession(x.session, y.session) && SameRegistry(x.registry, y.registry, time)
            && x.exchanges == y.exchanges && x.audited == y.audited && x.result == y.result
  {
    var result := ReadCommandResult(prepared, answers.forward, now);
    if result.Ok? {
      var replies := [CommandResult(result.value.targetId, result.value)];
      SamePush(s, t, replies);
      SameRefresh(Push(s, replies), Push(t, replies), a, b, time, result.value.targetId, answers.refresh, now);
    }
  }

  lemma SameAdmission(s: SessionState, t: SessionState, a: RegistryState, b: RegistryState, time: Instant,
                      command: ClientCommand, now: Instant)
    requires SameSession(s, t) && SameRegistry(a, b, time) && time <= now
    ensures AdmitCommand(s, command, a, now) == AdmitCommand(t, command, b, now)
    ensures AdmitCommand(s, command, a, now).Ok? ==>
              && command.targetId in a.registrations
              && a.registrations[command.targetId] == b.registrations[command.targetId]
  {
    SameActivity(a, b, time, command.targetId, now);
  }

  lemma SameCommand(s: SessionState, t: SessionState, a: RegistryState, b: RegistryState, time: Instant,
                    command: ClientCommand, answers: CommandAnswers, now: Instant)
    requires SameSession(s, t) && SameRegistry(a, b, time) && time <= now && InStep(a)
    ensures var x, y := HandleCommand(s, command, a, answers, now), HandleCommand(t, command, b, answers, now);
            && SameSession(x.session, y.session) && SameRegistry(x.registry, y.registry, time)
            && x.exchanges == y.exchanges && x.audited == y.audited && x.result == y.result
  {
    SameAdmission(s, t, a, b, time, command, now);
    var admitted := AdmitCommand(s, command, a, now);
    if admitted.Ok? {
      SameForward(s, t, a, b, time, admitted.value, a.registrations[command.targetId].ipcPath, s.remoteIdentity.value,
                  answers, now);
    }
  }

  lemma SamePublish(d: Endpoint, e: Endpoint, a: RegistryState, b: RegistryState, time: Instant, order: seq<string>,
                    now: Instant)
    requires SameEndpoint(d, e) && SameRegistry(a, b, time) && time <= now
    ensures SameEndpoint(PublishIn(a, d, order, now).endpoint, PublishIn(b, e, order, now).endpoint)
  {
    SameActiveIds(a, b, time, now);
    if Enumerates(order, ActiveIds(a, now)) {
      var x, y := VisibleTargets(a, order), VisibleTargets(b, order);
      forall i | 0 <= i < |order| ensures SameTarget(x[i], y[i]) {
        assert order[i] in ActiveIds(a, now);
        SameActivity(a, b, time, order[i], now);
      }
      assert SameMessage(TargetList(x), TargetList(y));
    }
  }

  ghost predicate SameAction(x: Action, y: Action, time: Instant) {
    SameRegistry(x.registry, y.registry, time) && SameEndpoint(x.endpoint, y.endpoint) && x.outcome == y.outcome
  }

  lemma SameBindStep(a: RegistryState, b: RegistryState, d: Endpoint, e: Endpoint, step: SessionStep, time: Instant)
    requires SameEndpoint(d, e) && SameRegistry(a, b, time) && step.Bind? && time <= step.now
    ensures SameAction(ActOnSession(a, d, step), ActOnSession(b, e, step), time)
  {
    SameBind(d.session, e.session, a, b, time, step.targetId, step.bindAnswers, step.now);
  }

  lemma SameCommandStep(a: RegistryState, b: RegistryState, d: Endpoint, e: Endpoint, step: SessionStep, time: Instant)
    requires SameEndpoint(d, e) && SameRegistry(a, b, time) && InStep(a) && step.Command? && time <= step.now
    ensures SameAction(ActOnSession(a, d, step), ActOnSession(b, e, step), time)
  {
    SameCommand(d.session, e.session, a, b, time, step.command, step.commandAnswers, step.now);
  }

  lemma SamePublishStep(a: RegistryState, b: RegistryState, d: Endpoint, e: Endpoint, step: SessionStep, time: Instant)
    requires SameEndpoint(d, e) && SameRegistry(a, b, time) && step.PublishTargets? && time <= step.now
    ensures SameAction(ActOnSession(a, d, step), ActOnSession(b, e, step), time)
  {
    SamePublish(d, e, a, b, time, step.order, step.now);
  }

  lemma SameAccept(d: Endpoint, e: Endpoint, a: RegistryState, b: RegistryState, id: string, message: ServerMessage,
                   time: Instant)
    requires SameEndpoint(d, e) && SameRegistry(a, b, time)
    ensures SameAction(Relay(a, d, AcceptFor(d.session, id, message)),
                       Relay(b, e, AcceptFor(e.session, id, message)), time)
  {
  }

  lemma SameEvent(d: Endpoint, e: Endpoint, a: RegistryState, b: RegistryState, event: EventRecord, time: Instant)
    requires SameEndpoint(d, e) && SameRegistry(a, b, time)
    ensures SameAction(Relay(a, d, AcceptEvent(d.session, event)), Relay(b, e, AcceptEvent(e.session, event)), time)
  {
  }

  lemma SameQuietStep(a: RegistryState, b: RegistryState, d: Endpoint, e: Endpoint, step: SessionStep, time: Instant)
    requires SameEndpoint(d, e) && SameRegistry(a, b, time)
    requires !step.Bind? && !step.Command? && !step.PublishTargets?
    ensures SameAction(ActOnSession(a, d, step), ActOnSession(b, e, step), time)
  {
    match step {
      case FanOutEvent(event) => SameEvent(d, e, a, b, event, time);
      case FanOutLog(log) => SameAccept(d, e, a, b, log.targetId, Log(log.targetId, log), time);
      case FanOutStateDelta(id, delta) => SameAccept(d, e, a, b, id, StateDelta(id, delta), time);
      case FanOutDroppedCount(id, count) => SameAccept(d, e, a, b, id, DroppedCount(id, count), time);
      case ReconnectTimeout(id, t) =>
        SameFailed(a, b, time, id, Unavailable, RECONNECT_TIMEOUT_REASON, t);
        SameAccept(d, e, MarkUnavailable(a, id, RECONNECT_TIMEOUT_REASON, t),
                   MarkUnavailable(b, id, RECONNECT_TIMEOUT_REASON, t), id, ConnectionChange(id, Unavailable), time);
      case Hello(_, _) =>
      case Drain =>
    }
  }

  lemma SameSessionStep(a: RegistryState, b: RegistryState, d: Endpoint, e: Endpoint, step: SessionStep, time: Instant)
    requires SameEndpoint(d, e) && SameRegistry(a, b, time) && InStep(a)
    requires step.Bind? || step.Command? || step.PublishTargets? ==> time <= step.now
    ensures SameAction(ActOnSession(a, d, step), ActOnSession(b, e, step), time)
  {
    if step.Bind? {
      SameBindStep(a, b, d, e, step, time);
    } else if step.Command? {
      SameCommandStep(a, b, d, e, step, time);
    } else if step.PublishTargets? {
      SamePublishStep(a, b, d, e, step, time);
    } else {
      SameQuietStep(a, b, d, e, step, time);
    }
  }

  // ---------- steps and runs agree ----------

  lemma SameRegistryStep(a: RegistryState, b: RegistryState, step: RegistryStep, time: Instant)
    requires SameRegistry(a, b, time) && InStep(a) && InStep(b) && !step.ExpireLeases?
    ensures var x, y := ActOnRegistry(a, step), ActOnRegistry(b, step);
            SameRegistry(x.0, y.0, time) && x.1 == y.1
  {
    match step {
      case Register(request, owner, keyed, now) => SameRegister(a, b, time, request, owner, keyed, now);
      case Renew(id, now) => SameRenew(a, b, time, id, now);
      case MarkReconnecting(id, reason, now) => SameFailed(a, b, time, id, Reconnecting, reason, now);
    }
  }

  lemma SameEndpointStep(a: System, b: System, sid: nat, step: SessionStep, time: Instant)
    requires SameSystem(a, b, time) && InStep(a.registry)
    requires step.Bind? || step.Command? || step.PublishTargets? ==> time <= step.now
    ensures var x, y := Next(a, OnSession(sid, step)), Next(b, OnSession(sid, step));
            SameSystem(x.0, y.0, time) && x.1 == y.1
  {
    if sid in a.endpoints {
      assert SameEndpoint(a.endpoints[sid], b.endpoints[sid]);
      SameSessionStep(a.registry, b.registry, a.endpoints[sid], b.endpoints[sid], step, time);
      SameUpdate(a, b, sid, ActOnSession(a.registry, a.endpoints[sid], step),
                 ActOnSession(b.registry, b.endpoints[sid], step), time);
    }
  }

  lemma SameUpdate(a: System, b: System, sid: nat, x: Action, y: Action, time: Instant)
    requires SameSystem(a, b, time) && SameAction(x, y, time)
    ensures SameSystem(System(x.registry, a.endpoints[sid := x.endpoint]),
                       System(y.registry, b.endpoints[sid := y.endpoint]), time)
  {
  }

  /** A step that is no sweep keeps systems related and tells both callers the same. */
  lemma SameStep(a: System, b: System, step: Step, time: Instant)
    requires SameSystem(a, b, time) && InStep(a.registry) && InStep(b.registry)
    requires !IsSweep(step) && (ReadsLeases(step) ==> time <= step.sessionStep.now)
    ensures SameSystem(Next(a, step).0, Next(b, step).0, time)
    ensures Next(a, step).1 == Next(b, step).1
  {
    match step {
      case OnRegistry(registryStep) => SameRegistryStep(a.registry, b.registry, registryStep, time);
      case Connect(_, _, _, _) =>
      case OnSession(sid, sessionStep) => SameEndpointStep(a, b, sid, sessionStep, time);
    }
  }

  /** Every run agrees with the same run without its sweeps, in what callers learn and in where it ends. */
  lemma {:induction false} SweepsCanBeDeleted(policy: RegistrationPolicy, steps: seq<Step>)
    requires ReadsFollowSweeps(steps)
    ensures SameSystem(Run(policy, steps), Run(policy, Unswept(steps)), LatestSweep(steps))
    ensures Outcomes(policy, steps) == Outcomes(policy, Unswept(steps))
  {
    if steps != [] {
      var shorter, last := steps[..|steps| - 1], steps[|steps| - 1];
      SweepsCanBeDeleted(policy, shorter);
      var a, b := Run(policy, shorter), Run(policy, Unswept(shorter));
      if IsSweep(last) {
        SameAfterSweep(a.registry, b.registry, LatestSweep(shorter), last.registryStep.now);
      } else {
        RunIsSafe(policy, shorter);
        RunIsSafe(policy, Unswept(shorter));
        SameStep(a, b, last, LatestSweep(shorter));
        assert Unswept(steps)[..|Unswept(steps)| - 1] == Unswept(shorter);
      }
    }
  }

  // ---------- inserting and deleting ----------

  lemma SameMessagesCompose(a: seq<ServerMessage>, b: seq<ServerMessage>, c: seq<ServerMessage>)
    requires SameMessages(a, b) && SameMessages(c, b)
    ensures SameMessages(a, c)
  {
    forall i | 0 <= i < |a| ensures SameMessage(a[i], c[i]) {
      assert SameMessage(a[i], b[i]) && SameMessage(c[i], b[i]);
    }
  }

  lemma SameRegistryCompose(a: RegistryState, b: RegistryState, c: RegistryState, s: Instant, t: Instant, time: Instant)
    requires SameRegistry(a, b, s) && SameRegistry(c, b, t) && s <= time && t <= time
    ensures SameRegistry(a, c, time)
  {
    forall id | id in a.registrations ensures SameRegistration(a.registrations[id], c.registrations[id], time) {
      assert SameRegistration(a.registrations[id], b.registrations[id], s);
      assert SameRegistration(c.registrations[id], b.registrations[id], t);
    }
    forall id | id in a.connections ensures SameConnection(a.connections[id], c.connections[id]) {
      assert SameConnection(a.connections[id], b.connections[id]);
      assert SameConnection(c.connections[id], b.connections[id]);
    }
  }

  lemma SameSystemCompose(a: System, b: System, c: System, s: Instant, t: Instant, time: Instant)
    requires SameSystem(a, b, s) && SameSystem(c, b, t) && s <= time && t <= time
    ensures SameSystem(a, c, time)
  {
    SameRegistryCompose(a.registry, b.registry, c.registry, s, t, time);
    forall sid | sid in a.endpoints ensures SameEndpoint(a.endpoints[sid], c.endpoints[sid]) {
      var d, e, f := a.endpoints[sid], b.endpoints[sid], c.endpoints[sid];
      assert SameEndpoint(d, e) && SameEndpoint(f, e);
      SameMessagesCompose(d.session.outbox, e.session.outbox, f.session.outbox);
      SameMessagesCompose(d.sent, e.sent, f.sent);
    }
  }

  /**
   Sweep transparency. Two runs that differ only in where, when and how often they sweep tell every other
   caller the same, keep equal audit logs, target exchanges and bound sets, deliver messages that
   differ at most in the connection states shown by target lists, agree at every later time on which
   targets are active, and end with registries that differ only in marks of leases already lapsed and
   in connection states.
   */
  lemma SweepsAreInvisible(policy: RegistrationPolicy, some: seq<Step>, other: seq<Step>, now: Instant)
    requires ReadsFollowSweeps(some) && ReadsFollowSweeps(other) && Unswept(some) == Unswept(other)
    requires LatestSweep(some) <= now && LatestSweep(other) <= now
    ensures Outcomes(policy, some) == Outcomes(policy, other)
    ensures SameSystem(Run(policy, some), Run(policy, other), now)
    ensures ActiveIds(Run(policy, some).registry, now) == ActiveIds(Run(policy, other).registry, now)
    ensures forall id :: EnsureTargetActive(Run(policy, some).registry, id, now)
                      == EnsureTargetActive(Run(policy, other).registry, id, now)
  {
    var a, b := Run(policy, some), Run(policy, other);
    SweepsCanBeDeleted(policy, some);
    SweepsCanBeDeleted(policy, other);
    SameSystemCompose(a, Run(policy, Unswept(some)), b, LatestSweep(some), LatestSweep(other), now);
    SameActiveIds(a.registry, b.registry, now, now);
    forall id ensures EnsureTargetActive(a.registry, id, now) == EnsureTargetActive(b.registry, id, now) {
      SameActivity(a.registry, b.registry, now, id, now);
    }
  }

  /**
   Why a read must not precede a sweep in time: a sweep changes whether a target counts as active at `now` exactly
   when the sweep's own clock had passed the end of the lease and `now` has not.
   */
  lemma SweepChangesReadIff(s: RegistryState, id: string, swept: Instant, now: Instant)
    ensures EnsureTargetActive(RegistryModel.ExpireLeases(s, swept), id, now) != EnsureTargetActive(s, id, now) <==>
            && id in s.registrations && s.registrations[id].registrationState == Active
            && now < s.registrations[id].expiresAt <= swept
  {
  }
}
