/**
 A dashboard session's state as a value, and what each operation of src/session.rs makes of it. The
 class in Session.dfy updates its fields in place and is proved against these functions.
 */
module SessionModel {
  import opened Basics
  import opened Commands
  import Policies
  import opened RegistryModel
  import opened IpcClient
  import opened Audit

  datatype SessionPhase = Handshaking | Established | Closing | Closed

  datatype ControlState = NotEstablished | Granted | Revoked

  datatype EventRecord = EventRecord(
    targetId: string, sequence: u64, eventType: string, severity: string, occurredAt: Instant)

  datatype LogRecord = LogRecord(
    targetId: string, sequence: Option<u64>, severity: string, message: string, occurredAt: Instant)

  datatype ClientHello = ClientHello(clientStoreId: string)

  datatype ClientMessage =
    | HelloMessage(hello: ClientHello)
    | CommandMessage(command: ClientCommand)
    | LogEventFilterConditions

  datatype ServerMessage =
    | ServerHello(sessionId: string, clientIdentity: string)
    | TargetList(targets: seq<VisibleTarget>)
    | State(targetId: string, state: StatePayload)
    | Event(targetId: string, event: EventRecord)
    | Log(targetId: string, log: LogRecord)
    | StateDelta(targetId: string, delta: string)
    | DroppedCount(targetId: string, droppedEventCount: u64)
    | CommandResult(targetId: string, result: ControlCommandResult)
    | ConnectionChange(targetId: string, connection: ConnectionState)
    | ErrorReport(error: RelayError)

  datatype SessionState = SessionState(
    sessionId: string,
    remoteIdentity: Option<RemoteIdentity>,
    clientStoreId: Option<string>,
    phase: SessionPhase,
    control: ControlState,
    boundTargets: set<string>,
    lastSequences: map<string, u64>,
    outbox: seq<ServerMessage>,
    createdAt: Instant,
    lastSeenAt: Instant)

  // ---------- handshake ----------

  function Unauthenticated(sessionId: string, now: Instant): SessionState {
    SessionState(sessionId, None, None, Handshaking, NotEstablished, {}, map[], [], now, now)
  }

  function NewSession(sessionId: string, identity: RemoteIdentity, now: Instant): SessionState {
    SessionState(sessionId, Some(identity), None, Handshaking, NotEstablished, {}, map[],
                 [ServerHello(sessionId, identity.clientIdentity)], now, now)
  }

  function AcceptClientHello(s: SessionState, hello: ClientHello, now: Instant): (SessionState, RelayResult<()>) {
    if IsBlank(hello.clientStoreId) then
      (s, Err(NewError("invalid_message_schema", "session", "client_store_id must not be empty", false)))
    else if s.phase != Handshaking then
      (s, Err(NewError("protocol_error", "session", "client_hello is only valid during handshaking", false)))
    else
      (s.(clientStoreId := Some(hello.clientStoreId), phase := Established, control := Granted, lastSeenAt := now),
       Ok(()))
  }

  function Push(s: SessionState, messages: seq<ServerMessage>): SessionState {
    s.(outbox := s.outbox + messages)
  }

  predicate ControlEstablished(s: SessionState) {
    s.phase == Established && s.control == Granted && s.remoteIdentity.Some?
  }

  function ControlNotEstablished(): RelayError {
    NewError("session_not_established", "session",
             "control session must be established before IPC binding or command forwarding", false)
  }

  // ---------- binding ----------

  /** What one call made of the session, the shared registry and the target port. */
  datatype BindEffect = BindEffect(
    session: SessionState, registry: RegistryState, exchanges: seq<IpcExchange>, result: RelayResult<()>)

  function BindTarget(s: SessionState, targetId: string, registry: RegistryState, answers: BindAnswers, now: Instant)
    : BindEffect
  {
    if !ControlEstablished(s) then BindEffect(s, registry, [], Err(ControlNotEstablished()))
    else
      match EnsureTargetActive(registry, targetId, now)
      case Err(error) => BindEffect(s, registry, [], Err(error))
      case Ok(_) =>
        var registration := registry.registrations[targetId];
        if targetId in s.boundTargets then BindEffect(s, registry, [], Ok(()))
        else
          var (begun, started) := BeginBinding(registry, targetId, now);
          if started.Err? then BindEffect(s, begun, [], started)
          else
            var asked := [IpcExchange(StateRequest(registration.ipcPath, registration.targetId), answers.state)];
            match ReadState(registration.targetId, answers.state, now)
            case Err(error) => BindEffect(s, MarkUnavailable(begun, targetId, error.message, now), asked, Err(error))
            case Ok(state) => FinishBinding(s, targetId, registration, begun, asked, state, answers, now)
  }

  /** The second half of binding, once the target's state has been read. */
  function FinishBinding(s: SessionState, targetId: string, registration: Registration, begun: RegistryState,
                         asked: seq<IpcExchange>, state: DashboardState, answers: BindAnswers, now: Instant): BindEffect
  {
    var (connected, marked) := MarkConnected(begun, targetId, state.stateGeneration, now);
    if marked.Err? then BindEffect(s, connected, asked, marked)
    else
      var subscribed := asked + SubscriptionExchanges(registration, answers);
      match SubscriptionResult(answers)
      case Err(error) =>
        BindEffect(s, MarkUnavailable(connected, targetId, error.message, now), subscribed, Err(error))
      case Ok(_) =>
        BindEffect(s.(boundTargets := s.boundTargets + {targetId},
                      outbox := s.outbox + [State(targetId, state.payload)],
                      lastSeenAt := now),
                   connected, subscribed, Ok(()))
  }

  // ---------- commands ----------

  datatype RefreshEffect = RefreshEffect(
    session: SessionState, registry: RegistryState, exchanges: seq<IpcExchange>, result: RelayResult<()>)

  function RefreshTargetState(s: SessionState, targetId: string, registry: RegistryState, answer: IpcAnswer,
                              now: Instant): RefreshEffect
  {
    match LookUp(registry, targetId)
    case Err(error) => RefreshEffect(s, registry, [], Err(error))
    case Ok(registration) =>
      var asked := [IpcExchange(StateRequest(registration.ipcPath, registration.targetId), answer)];
      match ReadState(registration.targetId, answer, now)
      case Err(error) => RefreshEffect(s, MarkUnavailable(registry, targetId, error.message, now), asked, Err(error))
      case Ok(state) =>
        var (connected, marked) := MarkConnected(registry, targetId, state.stateGeneration, now);
        if marked.Err? then RefreshEffect(s, connected, asked, marked)
        else RefreshEffect(Push(s, [State(targetId, state.payload)]), connected, asked, Ok(()))
  }

  datatype CommandEffect = CommandEffect(
    session: SessionState, registry: RegistryState, exchanges: seq<IpcExchange>, audited: seq<AuditEvent>,
    result: RelayResult<ControlCommandResult>)

  /** Every check that precedes forwarding, in order; success yields the command to forward. */
  function AdmitCommand(s: SessionState, command: ClientCommand, registry: RegistryState, now: Instant)
    : RelayResult<PreparedCommand>
  {
    if !ControlEstablished(s) then Err(ControlNotEstablished())
    else
      match s.remoteIdentity
      case None =>
        Err(NewError("session_not_established", "session", "control session is not established", false))
      case Some(identity) =>
        if command.targetId !in s.boundTargets then
          Err(TargetError("target_not_bound", "session", command.targetId,
                          "target must be bound before command forwarding", false))
        else
          match EnsureTargetActive(registry, command.targetId, now)
          case Err(error) => Err(error)
          case Ok(_) =>
            match EnsureCommandSupported(registry, command.targetId, command.command)
            case Err(error) => Err(error)
            case Ok(_) => PrepareClientCommand(command, identity, now)
  }

  function HandleCommand(s: SessionState, command: ClientCommand, registry: RegistryState, answers: CommandAnswers,
                         now: Instant): CommandEffect
  {
    match AdmitCommand(s, command, registry, now)
    case Err(error) => CommandEffect(s, registry, [], [], Err(error))
    case Ok(prepared) =>
      ForwardCommand(s, prepared, registry.registrations[command.targetId].ipcPath, s.remoteIdentity.value,
                     registry, answers, now)
  }

  predicate NeedsRefresh(result: ControlCommandResult) {
    result.accepted && result.status == "completed"
  }

  function ForwardCommand(s: SessionState, prepared: PreparedCommand, path: Policies.Path, identity: RemoteIdentity,
                          registry: RegistryState, answers: CommandAnswers, now: Instant): CommandEffect
  {
    var accepted := [Entry(identity, prepared, Accepted, "accepted", now)];
    var sent := [IpcExchange(CommandRequest(path, prepared), answers.forward)];
    match ReadCommandResult(prepared, answers.forward, now)
    case Err(error) =>
      CommandEffect(s, registry, sent, accepted + [Entry(identity, prepared, AuditResult.Rejected, error.message, now)],
                    Err(error))
    case Ok(result) =>
      var audited := accepted + [Entry(identity, prepared, Completed, result.status, now)];
      var replied := Push(s, [CommandResult(result.targetId, result)]);
      if !NeedsRefresh(result) then CommandEffect(replied, registry, sent, audited, Ok(result))
      else
        var refreshed := RefreshTargetState(replied, result.targetId, registry, answers.refresh, now);
        var session :=
          if refreshed.result.Err?
          then AcceptConnectionState(refreshed.session, result.targetId, Unavailable).0
          else refreshed.session;
        CommandEffect(session, refreshed.registry, sent + refreshed.exchanges, audited, Ok(result))
  }

  // ---------- streams ----------

  function NotMonotonic(targetId: string): RelayError {
    TargetError("sequence_not_monotonic", "stream", targetId, "event sequence must be monotonic for each target", false)
  }

  /** Forwards an event, reporting the gap before it; an event that is not newer only yields an error. */
  function AcceptEvent(s: SessionState, event: EventRecord): (SessionState, seq<ServerMessage>) {
    if event.targetId !in s.boundTargets then (s, [])
    else if event.targetId in s.lastSequences && event.sequence <= s.lastSequences[event.targetId] then
      (s, [ErrorReport(NotMonotonic(event.targetId))])
    else
      var gap :=
        if event.targetId in s.lastSequences && event.sequence > s.lastSequences[event.targetId] + 1
        then [DroppedCount(event.targetId, event.sequence - s.lastSequences[event.targetId] - 1)]
        else [];
      var messages := gap + [Event(event.targetId, event)];
      (Push(s.(lastSequences := s.lastSequences[event.targetId := event.sequence]), messages), messages)
  }

  /** Sends a message about a bound target; an unbound target's message is dropped. */
  function AcceptFor(s: SessionState, targetId: string, message: ServerMessage): (SessionState, seq<ServerMessage>) {
    if targetId !in s.boundTargets then (s, []) else (Push(s, [message]), [message])
  }

  function AcceptLog(s: SessionState, log: LogRecord): (SessionState, seq<ServerMessage>) {
    AcceptFor(s, log.targetId, Log(log.targetId, log))
  }

  function AcceptStateDelta(s: SessionState, targetId: string, delta: string): (SessionState, seq<ServerMessage>) {
    AcceptFor(s, targetId, StateDelta(targetId, delta))
  }

  function AcceptDroppedCount(s: SessionState, targetId: string, count: u64): (SessionState, seq<ServerMessage>) {
    AcceptFor(s, targetId, DroppedCount(targetId, count))
  }

  function AcceptConnectionState(s: SessionState, targetId: string, state: ConnectionState)
    : (SessionState, seq<ServerMessage>)
  {
    AcceptFor(s, targetId, ConnectionChange(targetId, state))
  }

  const RECONNECT_TIMEOUT_REASON := "reconnect timeout after 10 seconds"
}
