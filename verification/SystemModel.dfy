/**
 The running relay: one registry shared by any number of sessions. Every operation below holds the
 registry's lock for its whole duration, so a run is a sequence of atomic steps in any order. What the
 file system, the clients and the targets answer is part of each step.
 */
module SystemModel {
  import opened Basics
  import opened Commands
  import opened Policies
  import opened RegistryModel
  import opened IpcClient
  import opened Audit
  import opened SessionModel

  /** A session with its audit log, the exchanges it has had with targets, and what it has delivered. */
  datatype Endpoint = Endpoint(
    session: SessionState, audit: seq<AuditEvent>, exchanges: seq<IpcExchange>, sent: seq<ServerMessage>)

  datatype System = System(registry: RegistryState, endpoints: map<nat, Endpoint>)

  /** What happens to the shared registry alone. */
  datatype RegistryStep =
    | Register(request: RegistrationRequest, owner: string, keyed: RelayResult<string>, now: Instant)
    | Renew(targetId: string, now: Instant)
    | ExpireLeases(now: Instant)
    | MarkReconnecting(targetId: string, reason: string, now: Instant)

  /** What happens to one session. */
  datatype SessionStep =
    | Hello(hello: ClientHello, now: Instant)
    | PublishTargets(order: seq<string>, now: Instant)
    | Bind(targetId: string, bindAnswers: BindAnswers, now: Instant)
    | Command(command: ClientCommand, commandAnswers: CommandAnswers, now: Instant)
    | FanOutEvent(event: EventRecord)
    | FanOutLog(log: LogRecord)
    | FanOutStateDelta(targetId: string, delta: string)
    | FanOutDroppedCount(targetId: string, count: u64)
    | ReconnectTimeout(targetId: string, now: Instant)
    | Drain

  datatype Step =
    | OnRegistry(registryStep: RegistryStep)
    | Connect(sid: nat, identity: Option<RemoteIdentity>, sessionId: string, now: Instant)
    | OnSession(sid: nat, sessionStep: SessionStep)

  /** What the caller of a step learns. */
  datatype Outcome =
    | Registration(attempt: Attempt<RegistryModel.Registration>)
    | Renewal(renewal: Attempt<()>)
    | Swept(count: nat)
    | Answered(answer: RelayResult<()>)
    | Commanded(result: RelayResult<ControlCommandResult>)
    | Relayed(messages: seq<ServerMessage>)
    | Silent

  function ActOnRegistry(s: RegistryState, step: RegistryStep): (RegistryState, Outcome) {
    match step
    case Register(request, owner, keyed, now) =>
      var (after, attempt) := RegistryModel.Register(s, request, owner, keyed, now);
      (after, Outcome.Registration(attempt))
    case Renew(targetId, now) =>
      var (after, attempt) := RegistryModel.Renew(s, targetId, now);
      (after, Renewal(attempt))
    case ExpireLeases(now) =>
      (RegistryModel.ExpireLeases(s, now), Swept(|LapsedIds(s, now)|))
    case MarkReconnecting(targetId, reason, now) =>
      (RegistryModel.MarkReconnecting(s, targetId, reason, now), Silent)
  }

  /** The effect of a session step on the registry and on that session's endpoint. */
  datatype Action = Action(registry: RegistryState, endpoint: Endpoint, outcome: Outcome)

  function Relay(registry: RegistryState, e: Endpoint, accepted: (SessionState, seq<ServerMessage>)): Action {
    Action(registry, e.(session := accepted.0), Relayed(accepted.1))
  }

  /** A hash map's iteration order is arbitrary, so a listing step names one; no other order can happen. */
  function PublishIn(registry: RegistryState, e: Endpoint, order: seq<string>, now: Instant): Action {
    if Enumerates(order, ActiveIds(registry, now)) then
      Action(registry, e.(session := Push(e.session, [TargetList(VisibleTargets(registry, order))])), Silent)
    else
      Action(registry, e, Silent)
  }

  function ActOnSession(registry: RegistryState, e: Endpoint, step: SessionStep): Action {
    match step
    case Hello(hello, now) =>
      var (session, result) := AcceptClientHello(e.session, hello, now);
      Action(registry, e.(session := session), Answered(result))
    case PublishTargets(order, now) => PublishIn(registry, e, order, now)
    case Bind(targetId, answers, now) =>
      var effect := BindTarget(e.session, targetId, registry, answers, now);
      Action(effect.registry, e.(session := effect.session, exchanges := e.exchanges + effect.exchanges),
             Answered(effect.result))
    case Command(command, answers, now) =>
      var effect := HandleCommand(e.session, command, registry, answers, now);
      Action(effect.registry,
             e.(session := effect.session, exchanges := e.exchanges + effect.exchanges,
                audit := e.audit + effect.audited),
             Commanded(effect.result))
    case FanOutEvent(event) => Relay(registry, e, AcceptEvent(e.session, event))
    case FanOutLog(log) => Relay(registry, e, AcceptLog(e.session, log))
    case FanOutStateDelta(targetId, delta) => Relay(registry, e, AcceptStateDelta(e.session, targetId, delta))
    case FanOutDroppedCount(targetId, count) => Relay(registry, e, AcceptDroppedCount(e.session, targetId, count))
    case ReconnectTimeout(targetId, now) =>
      Relay(MarkUnavailable(registry, targetId, RECONNECT_TIMEOUT_REASON, now), e,
            AcceptConnectionState(e.session, targetId, Unavailable))
    case Drain =>
      Action(registry, e.(session := e.session.(outbox := []), sent := e.sent + e.session.outbox), Silent)
  }

  function NewEndpoint(identity: Option<RemoteIdentity>, sessionId: string, now: Instant): Endpoint {
    var session :=
      match identity
      case Some(who) => NewSession(sessionId, who, now)
      case None => Unauthenticated(sessionId, now);
    Endpoint(session, [], [], [])
  }

  /** One step. A step of an unknown session, or the opening of a known one, leaves everything as it is. */
  function Next(sys: System, step: Step): (System, Outcome) {
    match step
    case OnRegistry(registryStep) =>
      var (registry, outcome) := ActOnRegistry(sys.registry, registryStep);
      (sys.(registry := registry), outcome)
    case Connect(sid, identity, sessionId, now) =>
      if sid in sys.endpoints then (sys, Silent)
      else (sys.(endpoints := sys.endpoints[sid := NewEndpoint(identity, sessionId, now)]), Silent)
    case OnSession(sid, sessionStep) =>
      if sid !in sys.endpoints then (sys, Silent)
      else
        var action := ActOnSession(sys.registry, sys.endpoints[sid], sessionStep);
        (System(action.registry, sys.endpoints[sid := action.endpoint]), action.outcome)
  }

  /** The relay before anything has happened. */
  function Start(policy: RegistrationPolicy): System {
    System(EmptyRegistry(policy), map[])
  }

  function Run(policy: RegistrationPolicy, steps: seq<Step>): System {
    if steps == [] then Start(policy)
    else Next(Run(policy, steps[..|steps| - 1]), steps[|steps| - 1]).0
  }

  /** Everything a session has produced for its client, in order. */
  function Transcript(e: Endpoint): seq<ServerMessage> {
    e.sent + e.session.outbox
  }
}
