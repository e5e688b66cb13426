/** What every run of the relay keeps, whatever clients, targets and the file system do. */
module SystemInvariants {
  import opened Basics
  import opened Commands
  import opened Policies
  import opened RegistryModel
  import opened IpcClient
  import opened SessionModel
  import opened SystemModel
  import RegistryLaws

  // ---------- the effect of session operations on the registry ----------

  /** A connection record that an exchange with the target has just settled. */
  ghost predicate Settled(before: Connection, after: Connection) {
    && after.targetId == before.targetId && after.ipcPath == before.ipcPath
    && (after.state == Connected || after.state == Unavailable)
    && Evidenced(after)
  }

  /** Only connections of targets in `touched` differ, and those are settled. */
  ghost predicate SettlesOnly(before: RegistryState, after: RegistryState, touched: set<string>) {
    && after.policy == before.policy
    && after.registrations == before.registrations
    && after.connections.Keys == before.connections.Keys
    && forall id :: id in before.connections ==>
         || after.connections[id] == before.connections[id]
         || (id in touched && Settled(before.connections[id], after.connections[id]))
  }

  lemma FinishBindingSettles(s: SessionState, targetId: string, registry: RegistryState, asked: seq<IpcExchange>,
                             state: DashboardState, answers: BindAnswers, now: Instant)
    requires InStep(registry) && targetId in registry.registrations
    ensures var begun := BeginBinding(registry, targetId, now).0;
            var effect := FinishBinding(s, targetId, registry.registrations[targetId], begun, asked, state, answers,
                                        now);
            && SettlesOnly(registry, effect.registry, {targetId})
            && effect.registry.connections[targetId].state == (if effect.result.Ok? then Connected else Unavailable)
  {
  }

  /** Binding touches only an active target, and whatever the target answers never leaves it connecting. */
  lemma BindSettles(s: SessionState, targetId: string, registry: RegistryState, answers: BindAnswers, now: Instant)
    requires InStep(registry)
    ensures var effect := BindTarget(s, targetId, registry, answers, now);
            && SettlesOnly(registry, effect.registry, {targetId})
            && (effect.registry != registry ==> EnsureTargetActive(registry, targetId, now).Ok?)
            && (effect.exchanges != [] ==>
                  && targetId in effect.registry.connections
                  && effect.registry.connections[targetId].state ==
                       if effect.result.Ok? then Connected else Unavailable)
  {
    if ControlEstablished(s) && EnsureTargetActive(registry, targetId, now).Ok? && targetId !in s.boundTargets {
      var registration := registry.registrations[targetId];
      var asked := [IpcExchange(StateRequest(registration.ipcPath, registration.targetId), answers.state)];
      var state := ReadState(registration.targetId, answers.state, now);
      if state.Ok? {
        FinishBindingSettles(s, targetId, registry, asked, state.value, answers, now);
      }
    }
  }

  lemma RefreshSettles(s: SessionState, targetId: string, registry: RegistryState, answer: IpcAnswer, now: Instant)
    requires InStep(registry)
    ensures var effect := RefreshTargetState(s, targetId, registry, answer, now);
            && SettlesOnly(registry, effect.registry, {targetId})
            && (effect.result.Err? && targetId in registry.registrations ==>
                  effect.registry.connections[targetId].state == Unavailable)
  {
  }

  /** The target whose state a handled command reads again, if any. */
  ghost function RefreshedBy(s: SessionState, command: ClientCommand, registry: RegistryState,
                             answers: CommandAnswers, now: Instant): set<string>
  {
    var admitted := AdmitCommand(s, command, registry, now);
    if admitted.Err? then {}
    else
      var result := ReadCommandResult(admitted.value, answers.forward, now);
      if result.Ok? && NeedsRefresh(result.value) then {result.value.targetId} else {}
  }

  lemma CommandSettles(s: SessionState, command: ClientCommand, registry: RegistryState, answers: CommandAnswers,
                       now: Instant)
    requires InStep(registry)
    ensures var effect := HandleCommand(s, command, registry, answers, now);
            SettlesOnly(registry, effect.registry, RefreshedBy(s, command, registry, answers, now))
  {
    var admitted := AdmitCommand(s, command, registry, now);
    if admitted.Ok? {
      var result := ReadCommandResult(admitted.value, answers.forward, now);
      if result.Ok? && NeedsRefresh(result.value) {
        RefreshSettles(Push(s, [CommandResult(result.value.targetId, result.value)]), result.value.targetId, registry,
                       answers.refresh, now);
      }
    }
  }

  /** The targets whose connection a session step may settle. */
  ghost function TouchedBy(registry: RegistryState, e: Endpoint, step: SessionStep): set<string> {
    match step
    case Bind(targetId, _, _) => {targetId}
    case Command(command, answers, now) => RefreshedBy(e.session, command, registry, answers, now)
    case ReconnectTimeout(targetId, _) => {targetId}
    case _ => {}
  }

  /** A session step never changes a registration, and settles the few connections it touches. */
  lemma SessionStepSettles(registry: RegistryState, e: Endpoint, step: SessionStep)
    requires InStep(registry)
    ensures SettlesOnly(registry, ActOnSession(registry, e, step).registry, TouchedBy(registry, e, step))
  {
    match step {
      case Bind(targetId, answers, now) => BindSettles(e.session, targetId, registry, answers, now);
      case Command(command, answers, now) => CommandSettles(e.session, command, registry, answers, now);
      case _ =>
    }
  }

  // ---------- the registry ----------

  /** The registry invariant of every run, apart from lease exactness, which a panicking renewal breaks. */
  ghost predicate RegistrySafe(s: RegistryState) {
    InStep(s) && UniqueKeys(s) && Governed(s) && Evidence(s)
  }

  /** Writing one record under a key that no other record holds keeps the keys unique. */
  lemma FreeKeyKeepsKeysUnique(before: RegistryState, after: RegistryState, id: string, key: string)
    requires UniqueKeys(before)
    requires after.registrations.Keys == before.registrations.Keys + {id}
    requires after.registrations[id].ipcPathKey == key
    requires forall other :: other in before.registrations && other != id ==>
               before.registrations[other].ipcPathKey != key &&
               after.registrations[other] == before.registrations[other]
    ensures UniqueKeys(after)
  {
  }

  lemma AdmittingKeepsKeysUnique(s: RegistryState, request: RegistrationRequest, owner: string, key: string,
                                 now: Instant, after: RegistryState)
    requires InStep(s) && UniqueKeys(s) && RegistryLaws.Admits(s, request, owner, key, now, after)
    requires RegistryLaws.Admissible(s, request, owner, Ok(key))
    ensures UniqueKeys(after)
  {
    FreeKeyKeepsKeysUnique(s, after, request.targetId, key);
  }

  lemma AdmittingKeepsGoverned(s: RegistryState, request: RegistrationRequest, owner: string, key: string,
                               now: Instant, after: RegistryState)
    requires InStep(s) && Governed(s) && RegistryLaws.Admits(s, request, owner, key, now, after)
    requires RegistryLaws.Admissible(s, request, owner, Ok(key))
    ensures Governed(after)
  {
    assert RecordGoverned(s.policy, request.targetId, after.registrations[request.targetId]);
    forall id | id in after.registrations && id != request.targetId
      ensures RecordGoverned(s.policy, id, after.registrations[id])
    {
      assert after.registrations[id] == s.registrations[id];
    }
  }

  lemma AdmittingKeepsMapsInStep(s: RegistryState, request: RegistrationRequest, owner: string, key: string,
                                 now: Instant, after: RegistryState)
    requires InStep(s) && RegistryLaws.Admits(s, request, owner, key, now, after)
    ensures InStep(after)
  {
  }

  lemma AdmittingKeepsEvidence(s: RegistryState, request: RegistrationRequest, owner: string, key: string,
                               now: Instant, after: RegistryState)
    requires InStep(s) && Evidence(s) && RegistryLaws.Admits(s, request, owner, key, now, after)
    ensures Evidence(after)
  {
    assert Evidenced(after.connections[request.targetId]);
  }

  lemma RegisterKeepsSafe(s: RegistryState, request: RegistrationRequest, owner: string, keyed: RelayResult<string>,
                          now: Instant)
    requires RegistrySafe(s)
    ensures RegistrySafe(RegistryModel.Register(s, request, owner, keyed, now).0)
  {
    var (after, outcome) := RegistryModel.Register(s, request, owner, keyed, now);
    RegistryLaws.RegisterCharacterised(s, request, owner, keyed, now);
    if outcome.Returned? && outcome.result.Ok? {
      RegistryLaws.RegisterWrites(s, request, owner, keyed, now);
      AdmittingKeepsMapsInStep(s, request, owner, keyed.value, now, after);
      AdmittingKeepsEvidence(s, request, owner, keyed.value, now, after);
      AdmittingKeepsKeysUnique(s, request, owner, keyed.value, now, after);
      AdmittingKeepsGoverned(s, request, owner, keyed.value, now, after);
    }
  }

  /** Registrations differ only in their lease fields, connections only in their state. */
  ghost predicate LeaseEdit(before: RegistryState, after: RegistryState) {
    && after.policy == before.policy
    && after.registrations.Keys == before.registrations.Keys
    && after.connections.Keys == before.connections.Keys
    && (forall id :: id in before.registrations ==> SameButLease(before.registrations[id], after.registrations[id]))
    && (forall id :: id in before.connections ==> SameButState(before.connections[id], after.connections[id]))
  }

  ghost predicate SameButLease(before: Registration, after: Registration) {
    && after == before.(renewedAt := after.renewedAt, expiresAt := after.expiresAt,
                        registrationState := after.registrationState)
    && (before.registrationState != RegistrationState.Rejected ==>
          after.registrationState != RegistrationState.Rejected)
  }

  ghost predicate SameButState(before: Connection, after: Connection) {
    && after.targetId == before.targetId && after.ipcPath == before.ipcPath
    && (Evidenced(before) ==> Evidenced(after))
  }

  lemma LeaseEditKeepsMapsInStep(before: RegistryState, after: RegistryState)
    requires InStep(before) && Evidence(before) && LeaseEdit(before, after)
    ensures InStep(after) && Evidence(after)
  {
  }

  lemma LeaseEditKeepsPolicy(before: RegistryState, after: RegistryState)
    requires Governed(before) && UniqueKeys(before) && LeaseEdit(before, after)
    ensures Governed(after) && UniqueKeys(after)
  {
    forall id | id in after.registrations ensures RecordGoverned(after.policy, id, after.registrations[id]) {
      assert SameButLease(before.registrations[id], after.registrations[id]);
      assert RecordGoverned(before.policy, id, before.registrations[id]);
    }
    forall a, b | a in after.registrations && b in after.registrations && a != b
      ensures after.registrations[a].ipcPathKey != after.registrations[b].ipcPathKey
    {
      assert SameButLease(before.registrations[a], after.registrations[a]);
      assert SameButLease(before.registrations[b], after.registrations[b]);
    }
  }

  lemma LeaseEditKeepsSafe(before: RegistryState, after: RegistryState)
    requires RegistrySafe(before) && LeaseEdit(before, after)
    ensures RegistrySafe(after)
  {
    LeaseEditKeepsMapsInStep(before, after);
    LeaseEditKeepsPolicy(before, after);
  }

  lemma SweepIsLeaseEdit(s: RegistryState, now: Instant)
    ensures LeaseEdit(s, RegistryModel.ExpireLeases(s, now))
  {
    var after := RegistryModel.ExpireLeases(s, now);
    forall id | id in s.connections ensures SameButState(s.connections[id], after.connections[id]) {}
    forall id | id in s.registrations ensures SameButLease(s.registrations[id], after.registrations[id]) {}
  }

  lemma RenewIsLeaseEdit(s: RegistryState, targetId: string, now: Instant)
    ensures LeaseEdit(s, RegistryModel.Renew(s, targetId, now).0)
  {
    var after := RegistryModel.Renew(s, targetId, now).0;
    forall id | id in s.registrations ensures SameButLease(s.registrations[id], after.registrations[id]) {}
  }

  lemma ReconnectingIsLeaseEdit(s: RegistryState, targetId: string, reason: string, now: Instant)
    ensures LeaseEdit(s, RegistryModel.MarkReconnecting(s, targetId, reason, now))
  {
  }

  lemma RegistryStepKeepsSafe(s: RegistryState, step: RegistryStep)
    requires RegistrySafe(s)
    ensures RegistrySafe(ActOnRegistry(s, step).0)
  {
    match step {
      case Register(request, owner, keyed, now) =>
        RegisterKeepsSafe(s, request, owner, keyed, now);
      case Renew(targetId, now) => RenewIsLeaseEdit(s, targetId, now);
      case ExpireLeases(now) => SweepIsLeaseEdit(s, now);
      case MarkReconnecting(targetId, reason, now) => ReconnectingIsLeaseEdit(s, targetId, reason, now);
    }
    if !step.Register? {
      LeaseEditKeepsSafe(s, ActOnRegistry(s, step).0);
    }
  }

  lemma SettlingKeepsSafe(before: RegistryState, after: RegistryState, touched: set<string>)
    requires RegistrySafe(before) && SettlesOnly(before, after, touched)
    ensures RegistrySafe(after)
  {
  }

  // ---------- sessions ----------

  /** What holds of one endpoint beside the registry it shares. */
  ghost predicate BoundAreRegistered(registry: RegistryState, e: Endpoint) {
    e.session.boundTargets <= registry.registrations.Keys
  }

  ghost predicate Safe(sys: System) {
    && RegistrySafe(sys.registry)
    && forall sid :: sid in sys.endpoints ==> BoundAreRegistered(sys.registry, sys.endpoints[sid])
  }

  lemma RefreshOnlyPushes(s: SessionState, targetId: string, registry: RegistryState, answer: IpcAnswer, now: Instant)
    ensures var after := RefreshTargetState(s, targetId, registry, answer, now).session;
            s.outbox <= after.outbox && after == s.(outbox := after.outbox)
  {
  }

  lemma CommandOnlyPushes(s: SessionState, command: ClientCommand, registry: RegistryState, answers: CommandAnswers,
                          now: Instant)
    ensures var after := HandleCommand(s, command, registry, answers, now).session;
            s.outbox <= after.outbox && after == s.(outbox := after.outbox)
  {
    var admitted := AdmitCommand(s, command, registry, now);
    if admitted.Ok? {
      var result := ReadCommandResult(admitted.value, answers.forward, now);
      if result.Ok? {
        RefreshOnlyPushes(Push(s, [CommandResult(result.value.targetId, result.value)]), result.value.targetId,
                          registry, answers.refresh, now);
      }
    }
  }

  /** Only binding adds to a session's bound set, and only an active target. */
  lemma BoundGrowsByBinding(registry: RegistryState, e: Endpoint, step: SessionStep)
    ensures var after := ActOnSession(registry, e, step).endpoint.session.boundTargets;
            && e.session.boundTargets <= after
            && after <= e.session.boundTargets + registry.registrations.Keys
            && (step.Bind? ==> after <= e.session.boundTargets + {step.targetId} * ActiveIds(registry, step.now))
            && (!step.Bind? ==> after == e.session.boundTargets)
  {
    match step {
      case Bind(_, _, _) =>
      case Command(command, answers, now) => CommandOnlyPushes(e.session, command, registry, answers, now);
      case _ =>
    }
  }

  /** Settling connections and binding registered targets keeps the system safe. */
  lemma SettlingKeepsSystemSafe(sys: System, sid: nat, after: RegistryState, e: Endpoint, touched: set<string>)
    requires Safe(sys) && SettlesOnly(sys.registry, after, touched)
    requires e.session.boundTargets <= sys.registry.registrations.Keys
    ensures Safe(System(after, sys.endpoints[sid := e]))
  {
    SettlingKeepsSafe(sys.registry, after, touched);
    forall other | other in sys.endpoints && other != sid ensures BoundAreRegistered(after, sys.endpoints[other]) {
      assert BoundAreRegistered(sys.registry, sys.endpoints[other]);
    }
  }

  lemma RegistryStepKeepsTargets(s: RegistryState, step: RegistryStep)
    ensures s.registrations.Keys <= ActOnRegistry(s, step).0.registrations.Keys
  {
  }

  lemma RegistryStepKeepsSystemSafe(sys: System, step: RegistryStep)
    requires Safe(sys)
    ensures Safe(System(ActOnRegistry(sys.registry, step).0, sys.endpoints))
  {
    var after := ActOnRegistry(sys.registry, step).0;
    RegistryStepKeepsSafe(sys.registry, step);
    RegistryStepKeepsTargets(sys.registry, step);
    forall sid | sid in sys.endpoints ensures BoundAreRegistered(after, sys.endpoints[sid]) {
      assert BoundAreRegistered(sys.registry, sys.endpoints[sid]);
    }
  }

  lemma SessionStepKeepsSystemSafe(sys: System, sid: nat, step: SessionStep)
    requires Safe(sys) && sid in sys.endpoints
    ensures var action := ActOnSession(sys.registry, sys.endpoints[sid], step);
            Safe(System(action.registry, sys.endpoints[sid := action.endpoint]))
  {
    var e := sys.endpoints[sid];
    var action := ActOnSession(sys.registry, e, step);
    assert BoundAreRegistered(sys.registry, e);
    SessionStepSettles(sys.registry, e, step);
    BoundGrowsByBinding(sys.registry, e, step);
    SettlingKeepsSystemSafe(sys, sid, action.registry, action.endpoint, TouchedBy(sys.registry, e, step));
  }

  lemma StepKeepsSafe(sys: System, step: Step)
    requires Safe(sys)
    ensures Safe(Next(sys, step).0)
  {
    match step {
      case OnRegistry(registryStep) => RegistryStepKeepsSystemSafe(sys, registryStep);
      case Connect(_, _, _, _) =>
      case OnSession(sid, sessionStep) =>
        if sid in sys.endpoints {
          SessionStepKeepsSystemSafe(sys, sid, sessionStep);
        }
    }
  }

  /**
   In every reachable state the two maps are in step, no two targets share a path key, every record
   obeys the policy, every connection state is backed by its evidence, and sessions are bound only to
   registered targets.
   */
  lemma {:induction false} RunIsSafe(policy: RegistrationPolicy, steps: seq<Step>)
    ensures Safe(Run(policy, steps))
  {
    if steps != [] {
      RunIsSafe(policy, steps[..|steps| - 1]);
      StepKeepsSafe(Run(policy, steps[..|steps| - 1]), steps[|steps| - 1]);
    }
  }

  // ---------- what session steps push ----------

  lemma BindPushesState(s: SessionState, id: string, registry: RegistryState, answers: BindAnswers, now: Instant)
    ensures var after := BindTarget(s, id, registry, answers, now).session;
            && after.remoteIdentity == s.remoteIdentity && after.lastSequences == s.lastSequences
            && s.outbox <= after.outbox
            && forall i :: |s.outbox| <= i < |after.outbox| ==> after.outbox[i].State?
  {
  }

  /** The kinds of message that a step other than a command may push. */
  ghost predicate PushKind(step: SessionStep, m: ServerMessage) {
    && !m.CommandResult?
    && (m.ConnectionChange? ==> step.ReconnectTimeout?)
    && (m.Event? ==> step.FanOutEvent?)
    && (m.Log? ==> step.FanOutLog?)
    && (m.StateDelta? ==> step.FanOutStateDelta?)
    && (m.DroppedCount? ==> step.FanOutEvent? || step.FanOutDroppedCount?)
  }

  lemma EventPushes(s: SessionState, event: EventRecord)
    ensures var after := AcceptEvent(s, event).0;
            && after.remoteIdentity == s.remoteIdentity
            && s.outbox <= after.outbox
            && forall i :: |s.outbox| <= i < |after.outbox| ==> after.outbox[i].Event? || after.outbox[i].DroppedCount?
  {
  }

  /** The endpoint after a step other than a command: `pushed`, of the kinds the step allows, was appended. */
  ghost predicate Pushes(e: Endpoint, after: Endpoint, step: SessionStep, pushed: seq<ServerMessage>) {
    && after.session.outbox == e.session.outbox + pushed
    && after.sent == e.sent && after.audit == e.audit
    && after.session.remoteIdentity == e.session.remoteIdentity
    && (!step.FanOutEvent? ==> after.session.lastSequences == e.session.lastSequences)
    && forall i :: 0 <= i < |pushed| ==> PushKind(step, pushed[i])
  }

  lemma AcceptPushes(e: Endpoint, registry: RegistryState, id: string, message: ServerMessage, step: SessionStep)
    returns (pushed: seq<ServerMessage>)
    requires PushKind(step, message)
    ensures Pushes(e, Relay(registry, e, AcceptFor(e.session, id, message)).endpoint, step, pushed)
  {
    pushed := if id in e.session.boundTargets then [message] else [];
  }

  lemma BindStepPushes(registry: RegistryState, e: Endpoint, step: SessionStep) returns (pushed: seq<ServerMessage>)
    requires step.Bind?
    ensures Pushes(e, ActOnSession(registry, e, step).endpoint, step, pushed)
  {
    BindPushesState(e.session, step.targetId, registry, step.bindAnswers, step.now);
    pushed := ActOnSession(registry, e, step).endpoint.session.outbox[|e.session.outbox|..];
  }

  lemma EventStepPushes(registry: RegistryState, e: Endpoint, step: SessionStep) returns (pushed: seq<ServerMessage>)
    requires step.FanOutEvent?
    ensures Pushes(e, ActOnSession(registry, e, step).endpoint, step, pushed)
  {
    EventPushes(e.session, step.event);
    pushed := ActOnSession(registry, e, step).endpoint.session.outbox[|e.session.outbox|..];
  }

  lemma PublishStepPushes(registry: RegistryState, e: Endpoint, step: SessionStep) returns (pushed: seq<ServerMessage>)
    requires step.PublishTargets?
    ensures Pushes(e, PublishIn(registry, e, step.order, step.now).endpoint, step, pushed)
  {
    pushed := PublishIn(registry, e, step.order, step.now).endpoint.session.outbox[|e.session.outbox|..];
  }

  lemma HelloStepPushes(registry: RegistryState, e: Endpoint, step: SessionStep)
    requires step.Hello?
    ensures Pushes(e, e.(session := AcceptClientHello(e.session, step.hello, step.now).0), step, [])
  {
  }

  /** A step other than a command or a delivery appends to the outbox, and says what kinds of message. */
  lemma OtherStepPushes(registry: RegistryState, e: Endpoint, step: SessionStep)
    returns (pushed: seq<ServerMessage>)
    requires !step.Command? && !step.Drain?
    ensures Pushes(e, ActOnSession(registry, e, step).endpoint, step, pushed)
  {
    match step {
      case Bind(_, _, _) => pushed := BindStepPushes(registry, e, step);
      case FanOutEvent(_) => pushed := EventStepPushes(registry, e, step);
      case PublishTargets(_, _) => pushed := PublishStepPushes(registry, e, step);
      case Hello(_, _) =>
        HelloStepPushes(registry, e, step);
        pushed := [];
      case FanOutLog(log) => pushed := AcceptPushes(e, registry, log.targetId, Log(log.targetId, log), step);
      case FanOutStateDelta(id, delta) => pushed := AcceptPushes(e, registry, id, StateDelta(id, delta), step);
      case FanOutDroppedCount(id, count) => pushed := AcceptPushes(e, registry, id, DroppedCount(id, count), step);
      case ReconnectTimeout(id, now) =>
        var timedOut := MarkUnavailable(registry, id, RECONNECT_TIMEOUT_REASON, now);
        pushed := AcceptPushes(e, timedOut, id, ConnectionChange(id, Unavailable), step);
    }
  }
}
