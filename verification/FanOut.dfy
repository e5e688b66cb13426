/** What fanning out delivers: to a bound client exactly what the target sent, and to others nothing. */
module FanOut {
  import opened Basics
  import opened Commands
  import opened Policies
  import opened RegistryModel
  import opened IpcClient
  import opened SessionModel
  import opened SystemModel
  import opened SystemInvariants
  import opened RunHistory

  /** The session with one message queued, and that message; or neither, if the target is not bound. */
  function Delivering(s: SessionState, id: string, message: ServerMessage): (SessionState, seq<ServerMessage>) {
    if id in s.boundTargets then (s.(outbox := s.outbox + [message]), [message]) else (s, [])
  }

  /** Logs, deltas, drop counts and connection changes of a bound target are queued and returned as they came. */
  lemma BoundTargetsAreHeard(s: SessionState, log: LogRecord, id: string, delta: string, count: u64,
                             state: ConnectionState)
    ensures AcceptLog(s, log) == Delivering(s, log.targetId, Log(log.targetId, log))
    ensures AcceptStateDelta(s, id, delta) == Delivering(s, id, StateDelta(id, delta))
    ensures AcceptDroppedCount(s, id, count) == Delivering(s, id, DroppedCount(id, count))
    ensures AcceptConnectionState(s, id, state) == Delivering(s, id, ConnectionChange(id, state))
  {
  }

  /** An event that is not newer than one accepted before changes nothing and is answered with this error. */
  lemma StaleEventIsReported(s: SessionState, event: EventRecord)
    requires event.targetId in s.boundTargets && event.targetId in s.lastSequences
    requires event.sequence <= s.lastSequences[event.targetId]
    ensures AcceptEvent(s, event) ==
              (s, [ErrorReport(RelayError("sequence_not_monotonic", "stream", Some(event.targetId),
                                          "event sequence must be monotonic for each target", false))])
  {
  }

  /** A reconnect timeout marks a registered target unavailable for this reason, and tells a bound client. */
  lemma TimeoutCharacterised(registry: RegistryState, e: Endpoint, id: string, now: Instant)
    requires InStep(registry) && id in registry.registrations
    ensures var action := ActOnSession(registry, e, ReconnectTimeout(id, now));
            && action.registry == registry.(connections := registry.connections[id :=
                 registry.connections[id].(state := Unavailable, updatedAt := now,
                                           lastError := Some("reconnect timeout after 10 seconds"))])
            && action.endpoint ==
                 e.(session := Delivering(e.session, id, ConnectionChange(id, Unavailable)).0)
  {
  }

  // ---------- over whole runs ----------

  predicate IsLogOrDelta(m: ServerMessage, id: string) {
    (m.Log? || m.StateDelta?) && m.targetId == id
  }

  /** The logs and deltas about one target among some messages, in order. */
  function LogsAndDeltasIn(messages: seq<ServerMessage>, id: string): seq<ServerMessage> {
    if messages == [] then []
    else
      var last := messages[|messages| - 1];
      LogsAndDeltasIn(messages[..|messages| - 1], id) + if IsLogOrDelta(last, id) then [last] else []
  }

  /** What one step fans out about target `id` to session `sid`, if the target is bound there. */
  function FannedOut(sys: System, step: Step, sid: nat, id: string): seq<ServerMessage> {
    if step.OnSession? && step.sid == sid && sid in sys.endpoints && id in sys.endpoints[sid].session.boundTargets then
      match step.sessionStep
      case FanOutLog(log) => if log.targetId == id then [Log(id, log)] else []
      case FanOutStateDelta(targetId, delta) => if targetId == id then [StateDelta(id, delta)] else []
      case _ => []
    else
      []
  }

  /** Every log and delta about target `id` that a run fans out to session `sid` while it is bound. */
  function FanOutHistory(policy: RegistrationPolicy, steps: seq<Step>, sid: nat, id: string): seq<ServerMessage> {
    if steps == [] then []
    else
      var before := steps[..|steps| - 1];
      FanOutHistory(policy, before, sid, id) + FannedOut(Run(policy, before), steps[|steps| - 1], sid, id)
  }

  lemma {:induction false} LogsAndDeltasAppend(xs: seq<ServerMessage>, ys: seq<ServerMessage>, id: string)
    ensures LogsAndDeltasIn(xs + ys, id) == LogsAndDeltasIn(xs, id) + LogsAndDeltasIn(ys, id)
  {
    if ys == [] {
      assert xs + ys == xs;
    } else {
      assert (xs + ys)[..|xs + ys| - 1] == xs + ys[..|ys| - 1];
      LogsAndDeltasAppend(xs, ys[..|ys| - 1], id);
    }
  }

  lemma {:induction false} NoLogsOrDeltas(messages: seq<ServerMessage>, id: string)
    requires forall i :: 0 <= i < |messages| ==> !IsLogOrDelta(messages[i], id)
    ensures LogsAndDeltasIn(messages, id) == []
  {
    if messages != [] {
      NoLogsOrDeltas(messages[..|messages| - 1], id);
    }
  }

  lemma FanOutAdds(registry: RegistryState, e: Endpoint, own: string, message: ServerMessage, id: string)
    requires message.Log? || message.StateDelta?
    requires message.targetId == own
    ensures var after := Relay(registry, e, AcceptFor(e.session, own, message)).endpoint;
            LogsAndDeltasIn(Transcript(after), id) == LogsAndDeltasIn(Transcript(e), id) +
              if own in e.session.boundTargets && own == id then [message] else []
  {
    var after := Relay(registry, e, AcceptFor(e.session, own, message)).endpoint;
    if own in e.session.boundTargets {
      assert Transcript(after) == Transcript(e) + [message];
      assert (Transcript(e) + [message])[..|Transcript(e)|] == Transcript(e);
    }
  }

  /** Steps other than the fan-out of logs and deltas add neither. */
  lemma OtherStepsAddNone(registry: RegistryState, e: Endpoint, step: SessionStep, id: string)
    requires !step.FanOutLog? && !step.FanOutStateDelta?
    ensures LogsAndDeltasIn(Transcript(ActOnSession(registry, e, step).endpoint), id)
         == LogsAndDeltasIn(Transcript(e), id)
  {
    var after := ActOnSession(registry, e, step).endpoint;
    if step.Drain? {
      assert Transcript(after) == Transcript(e);
    } else {
      var pushed: seq<ServerMessage>;
      if step.Command? {
        pushed := CommandAddsNone(e.session, step.command, registry, step.commandAnswers, step.now, id);
      } else {
        pushed := OtherStepPushes(registry, e, step);
        assert forall i :: 0 <= i < |pushed| ==> PushKind(step, pushed[i]);
      }
      assert Transcript(after) == Transcript(e) + pushed;
      NoLogsOrDeltas(pushed, id);
      LogsAndDeltasAppend(Transcript(e), pushed, id);
    }
  }

  lemma CommandAddsNone(s: SessionState, command: ClientCommand, registry: RegistryState, answers: CommandAnswers,
                        now: Instant, id: string)
    returns (pushed: seq<ServerMessage>)
    ensures HandleCommand(s, command, registry, answers, now).session.outbox == s.outbox + pushed
    ensures forall i :: 0 <= i < |pushed| ==> !IsLogOrDelta(pushed[i], id)
  {
    var after := HandleCommand(s, command, registry, answers, now).session;
    CommandOnlyPushes(s, command, registry, answers, now);
    pushed := after.outbox[|s.outbox|..];
    var admitted := AdmitCommand(s, command, registry, now);
    if admitted.Ok? {
      ForwardAddsNone(s, admitted.value, registry.registrations[command.targetId].ipcPath, s.remoteIdentity.value,
                      registry, answers, now, id);
    }
  }

  lemma ForwardAddsNone(s: SessionState, prepared: PreparedCommand, path: Path, identity: RemoteIdentity,
                        registry: RegistryState, answers: CommandAnswers, now: Instant, id: string)
    ensures var after := ForwardCommand(s, prepared, path, identity, registry, answers, now).session;
            forall i :: |s.outbox| <= i < |after.outbox| ==> !IsLogOrDelta(after.outbox[i], id)
  {
  }

  lemma StepFansOut(sys: System, sid: nat, step: SessionStep, id: string)
    requires sid in sys.endpoints
    ensures var e := sys.endpoints[sid];
            LogsAndDeltasIn(Transcript(ActOnSession(sys.registry, e, step).endpoint), id)
              == LogsAndDeltasIn(Transcript(e), id) + FannedOut(sys, OnSession(sid, step), sid, id)
  {
    var e := sys.endpoints[sid];
    if step.FanOutLog? {
      FanOutAdds(sys.registry, e, step.log.targetId, Log(step.log.targetId, step.log), id);
    } else if step.FanOutStateDelta? {
      FanOutAdds(sys.registry, e, step.targetId, StateDelta(step.targetId, step.delta), id);
    } else {
      OtherStepsAddNone(sys.registry, e, step, id);
    }
  }

  lemma StepDelivers(sys: System, step: Step, sid: nat, id: string)
    ensures var before, after := sys.endpoints, Next(sys, step).0.endpoints;
            (if sid in after then LogsAndDeltasIn(Transcript(after[sid]), id) else [])
              == (if sid in before then LogsAndDeltasIn(Transcript(before[sid]), id) else [])
                 + FannedOut(sys, step, sid, id)
  {
    if sid in sys.endpoints {
      EndpointsAfter(sys, step, sid);
      if step.OnSession? && step.sid == sid {
        StepFansOut(sys, sid, step.sessionStep, id);
      }
    } else if step.Connect? && step.sid == sid {
      NoLogsOrDeltas(Transcript(NewEndpoint(step.identity, step.sessionId, step.now)), id);
    }
  }

  /**
   In every run, the logs and deltas about a target that a client was sent are exactly those that were
   fanned out while the target was bound in its session, each once and in order.
   */
  lemma {:induction false} LogsAndDeltasAreDelivered(policy: RegistrationPolicy, steps: seq<Step>, sid: nat, id: string)
    ensures var endpoints := Run(policy, steps).endpoints;
            FanOutHistory(policy, steps, sid, id) ==
              if sid in endpoints then LogsAndDeltasIn(Transcript(endpoints[sid]), id) else []
  {
    if steps != [] {
      var before := steps[..|steps| - 1];
      LogsAndDeltasAreDelivered(policy, before, sid, id);
      StepDelivers(Run(policy, before), steps[|steps| - 1], sid, id);
    }
  }
}
