/** The dashboard session of src/session.rs, updating its fields in place, and the fan-out of src/relay.rs. */
module Session {
  import opened Basics
  import opened Commands
  import opened RegistryModel
  import opened IpcClient
  import opened Audit
  import opened SessionModel
  import opened Registry

  class DashboardSession {
    const sessionId: string
    const remoteIdentity: Option<RemoteIdentity>
    const createdAt: Instant
    var clientStoreId: Option<string>
    var phase: SessionPhase
    var control: ControlState
    var boundTargets: set<string>
    var lastSequences: map<string, u64>
    var outbox: seq<ServerMessage>
    var lastSeenAt: Instant

    function Value(): SessionState
      reads this
    {
      SessionState(sessionId, remoteIdentity, clientStoreId, phase, control, boundTargets, lastSequences, outbox,
                   createdAt, lastSeenAt)
    }

    constructor Unauthenticated(sessionId: string, now: Instant)
      ensures Value() == SessionModel.Unauthenticated(sessionId, now)
    {
      this.sessionId, remoteIdentity, createdAt := sessionId, None, now;
      clientStoreId, phase, control := None, Handshaking, NotEstablished;
      boundTargets, lastSequences, outbox, lastSeenAt := {}, map[], [], now;
    }

    constructor ServerHello(sessionId: string, identity: RemoteIdentity, now: Instant)
      ensures Value() == NewSession(sessionId, identity, now)
    {
      this.sessionId, remoteIdentity, createdAt := sessionId, Some(identity), now;
      clientStoreId, phase, control := None, Handshaking, NotEstablished;
      boundTargets, lastSequences, lastSeenAt := {}, map[], now;
      outbox := [ServerMessage.ServerHello(sessionId, identity.clientIdentity)];
    }

    method AcceptClientHello(hello: ClientHello, now: Instant) returns (result: RelayResult<()>)
      modifies this
      ensures (Value(), result) == SessionModel.AcceptClientHello(old(Value()), hello, now)
    {
      if IsBlank(hello.clientStoreId) {
        return Err(NewError("invalid_message_schema", "session", "client_store_id must not be empty", false));
      }
      if phase != Handshaking {
        return Err(NewError("protocol_error", "session", "client_hello is only valid during handshaking", false));
      }
      clientStoreId := Some(hello.clientStoreId);
      phase := Established;
      control := Granted;
      lastSeenAt := now;
      return Ok(());
    }

    method PublishTargetList(targets: seq<VisibleTarget>)
      modifies this`outbox
      ensures Value() == Push(old(Value()), [TargetList(targets)])
    {
      outbox := outbox + [TargetList(targets)];
    }

    /** Binds one target; holds the registry for the whole call. */
    method BindTarget(targetId: string, registry: TargetProcessRegistry, ipc: TargetIpcPort, answers: BindAnswers,
                      now: Instant)
      returns (result: RelayResult<()>)
      modifies this, registry`connections, ipc
      ensures var effect := SessionModel.BindTarget(old(Value()), targetId, old(registry.State()), answers, now);
              && Value() == effect.session
              && registry.State() == effect.registry
              && ipc.exchanges == old(ipc.exchanges) + effect.exchanges
              && result == effect.result
    {
      if !ControlEstablished(Value()) {
        return Err(ControlNotEstablished());
      }
      var active := EnsureTargetActive(registry.State(), targetId, now);
      if active.Err? {
        return active;
      }
      var registration := registry.registrations[targetId];
      if targetId in boundTargets {
        return Ok(());
      }
      var started := registry.BeginBinding(targetId, now);
      if started.Err? {
        return started;
      }
      var state := ipc.ConnectState(registration, answers.state, now);
      if state.Err? {
        registry.MarkUnavailable(targetId, state.error.message, now);
        return Err(state.error);
      }
      result := FinishBinding(targetId, registration, state.value, registry, ipc, answers, now);
    }

    /** Binding after the target's state has been read. */
    method FinishBinding(targetId: string, registration: Registration, state: DashboardState,
                         registry: TargetProcessRegistry, ipc: TargetIpcPort, answers: BindAnswers, now: Instant)
      returns (result: RelayResult<()>)
      modifies this, registry`connections, ipc
      ensures var effect := SessionModel.FinishBinding(old(Value()), targetId, registration, old(registry.State()),
                                                       old(ipc.exchanges), state, answers, now);
              && Value() == effect.session
              && registry.State() == effect.registry
              && ipc.exchanges == effect.exchanges
              && result == effect.result
    {
      var marked := registry.MarkConnected(targetId, state.stateGeneration, now);
      if marked.Err? {
        return marked;
      }
      var subscribed := ipc.SubscribeEventLog(registration, answers);
      if subscribed.Err? {
        registry.MarkUnavailable(targetId, subscribed.error.message, now);
        return subscribed;
      }
      boundTargets := boundTargets + {targetId};
      outbox := outbox + [State(targetId, state.payload)];
      lastSeenAt := now;
      return Ok(());
    }

    /** Handles one command; holds the registry for the whole call. */
    method HandleCommand(command: ClientCommand, registry: TargetProcessRegistry, ipc: TargetIpcPort,
                         audit: AuditRecorder, answers: CommandAnswers, now: Instant)
      returns (result: RelayResult<ControlCommandResult>)
      modifies this, registry`connections, ipc, audit
      ensures var effect := SessionModel.HandleCommand(old(Value()), command, old(registry.State()), answers, now);
              && Value() == effect.session
              && registry.State() == effect.registry
              && ipc.exchanges == old(ipc.exchanges) + effect.exchanges
              && audit.events == old(audit.events) + effect.audited
              && result == effect.result
    {
      if !ControlEstablished(Value()) {
        return Err(ControlNotEstablished());
      }
      var identity := remoteIdentity.value;
      if command.targetId !in boundTargets {
        return Err(TargetError("target_not_bound", "session", command.targetId,
                               "target must be bound before command forwarding", false));
      }
      var active := EnsureTargetActive(registry.State(), command.targetId, now);
      if active.Err? {
        return Err(active.error);
      }
      var supported := EnsureCommandSupported(registry.State(), command.targetId, command.command);
      if supported.Err? {
        return Err(supported.error);
      }
      var registration := registry.registrations[command.targetId];
      var prepared := PrepareClientCommand(command, identity, now);
      if prepared.Err? {
        return Err(prepared.error);
      }
      result := ForwardCommand(prepared.value, registration, identity, registry, ipc, audit, answers, now);
    }

    /** The audited part of handling a command. */
    method ForwardCommand(prepared: PreparedCommand, registration: Registration, identity: RemoteIdentity,
                          registry: TargetProcessRegistry, ipc: TargetIpcPort, audit: AuditRecorder,
                          answers: CommandAnswers, now: Instant)
      returns (result: RelayResult<ControlCommandResult>)
      modifies this`outbox, registry`connections, ipc, audit
      ensures var effect := SessionModel.ForwardCommand(old(Value()), prepared, registration.ipcPath, identity,
                                                        old(registry.State()), answers, now);
              && Value() == effect.session
              && registry.State() == effect.registry
              && ipc.exchanges == old(ipc.exchanges) + effect.exchanges
              && audit.events == old(audit.events) + effect.audited
              && result == effect.result
    {
      audit.RecordAccepted(identity, prepared, now);
      result := ipc.ForwardCommand(registration, prepared, answers.forward, now);
      if result.Err? {
        audit.RecordRejected(identity, prepared, result.error.message, now);
        return;
      }
      audit.RecordCompleted(identity, prepared, result.value.status, now);
      outbox := outbox + [CommandResult(result.value.targetId, result.value)];
      if result.value.accepted && result.value.status == "completed" {
        var refreshed := RefreshTargetState(result.value.targetId, registry, ipc, answers.refresh, now);
        if refreshed.Err? {
          var _ := AcceptConnectionState(result.value.targetId, Unavailable);
        }
      }
    }

    method RefreshTargetState(targetId: string, registry: TargetProcessRegistry, ipc: TargetIpcPort, answer: IpcAnswer,
                              now: Instant)
      returns (result: RelayResult<()>)
      modifies this`outbox, registry`connections, ipc
      ensures var effect := SessionModel.RefreshTargetState(old(Value()), targetId, old(registry.State()), answer, now);
              && Value() == effect.session
              && registry.State() == effect.registry
              && ipc.exchanges == old(ipc.exchanges) + effect.exchanges
              && result == effect.result
    {
      var registered := registry.Lookup(targetId);
      if registered.Err? {
        return Err(registered.error);
      }
      var state := ipc.ConnectState(registered.value, answer, now);
      if state.Err? {
        registry.MarkUnavailable(targetId, state.error.message, now);
        return Err(state.error);
      }
      var marked := registry.MarkConnected(targetId, state.value.stateGeneration, now);
      if marked.Err? {
        return marked;
      }
      outbox := outbox + [State(targetId, state.value.payload)];
      return Ok(());
    }

    method DrainOutbox() returns (messages: seq<ServerMessage>)
      modifies this`outbox
      ensures messages == old(outbox) && Value() == old(Value()).(outbox := [])
    {
      messages, outbox := outbox, [];
    }

    method AcceptEvent(event: EventRecord) returns (messages: seq<ServerMessage>)
      modifies this`lastSequences, this`outbox
      ensures (Value(), messages) == SessionModel.AcceptEvent(old(Value()), event)
    {
      if event.targetId !in boundTargets {
        return [];
      }
      messages := [];
      if event.targetId in lastSequences {
        var previous := lastSequences[event.targetId];
        if event.sequence <= previous {
          return [ErrorReport(NotMonotonic(event.targetId))];
        }
        if event.sequence > previous + 1 {
          messages := [DroppedCount(event.targetId, event.sequence - previous - 1)];
        }
      }
      lastSequences := lastSequences[event.targetId := event.sequence];
      messages := messages + [Event(event.targetId, event)];
      outbox := outbox + messages;
    }

    method AcceptFor(targetId: string, message: ServerMessage) returns (messages: seq<ServerMessage>)
      modifies this`outbox
      ensures (Value(), messages) == SessionModel.AcceptFor(old(Value()), targetId, message)
    {
      if targetId !in boundTargets {
        return [];
      }
      outbox := outbox + [message];
      return [message];
    }

    method AcceptLog(log: LogRecord) returns (messages: seq<ServerMessage>)
      modifies this`outbox
      ensures (Value(), messages) == SessionModel.AcceptLog(old(Value()), log)
      ensures messages == (if log.targetId in boundTargets then [Log(log.targetId, log)] else [])
      ensures outbox == old(outbox) + messages
    {
      messages := AcceptFor(log.targetId, Log(log.targetId, log));
    }

    method AcceptStateDelta(targetId: string, delta: string) returns (messages: seq<ServerMessage>)
      modifies this`outbox
      ensures (Value(), messages) == SessionModel.AcceptStateDelta(old(Value()), targetId, delta)
      ensures messages == (if targetId in boundTargets then [StateDelta(targetId, delta)] else [])
      ensures outbox == old(outbox) + messages
    {
      messages := AcceptFor(targetId, StateDelta(targetId, delta));
    }

    method AcceptDroppedCount(targetId: string, count: u64) returns (messages: seq<ServerMessage>)
      modifies this`outbox
      ensures (Value(), messages) == SessionModel.AcceptDroppedCount(old(Value()), targetId, count)
      ensures messages == (if targetId in boundTargets then [DroppedCount(targetId, count)] else [])
      ensures outbox == old(outbox) + messages
    {
      messages := AcceptFor(targetId, DroppedCount(targetId, count));
    }

    method AcceptConnectionState(targetId: string, state: ConnectionState) returns (messages: seq<ServerMessage>)
      modifies this`outbox
      ensures (Value(), messages) == SessionModel.AcceptConnectionState(old(Value()), targetId, state)
      ensures messages == (if targetId in boundTargets then [ConnectionChange(targetId, state)] else [])
      ensures outbox == old(outbox) + messages
    {
      messages := AcceptFor(targetId, ConnectionChange(targetId, state));
    }
  }

  /** Gives up on a target that did not reconnect, and tells the session. */
  method ReconnectTimeout(session: DashboardSession, registry: TargetProcessRegistry, targetId: string, now: Instant)
    returns (messages: seq<ServerMessage>)
    modifies session`outbox, registry`connections
    ensures registry.State() == MarkUnavailable(old(registry.State()), targetId, RECONNECT_TIMEOUT_REASON, now)
    ensures (session.Value(), messages)
         == SessionModel.AcceptConnectionState(old(session.Value()), targetId, Unavailable)
  {
    registry.MarkUnavailable(targetId, RECONNECT_TIMEOUT_REASON, now);
    messages := session.AcceptConnectionState(targetId, Unavailable);
  }
}
