/**
 A target can be expired in two places: its registration and its connection. This module says exactly
 which steps of the relay let the two part.
 */
module ExpiryMatch {
  import opened Basics
  import opened Commands
  import opened Policies
  import opened RegistryModel
  import opened IpcClient
  import opened Answers
  import opened SessionModel
  import opened SystemModel
  import opened SystemInvariants
  import opened RunHistory
  import RegistryLaws

  ghost predicate MarkedExpired(s: RegistryState, id: string) {
    id in s.registrations && s.registrations[id].registrationState == RegistrationState.Expired
  }

  /** A connection is expired if and only if the registration of the same target is. */
  ghost predicate Matched(s: RegistryState) {
    forall id :: id in s.registrations && id in s.connections ==>
      (s.registrations[id].registrationState == RegistrationState.Expired <==>
       s.connections[id].state == ConnectionState.Expired)
  }

  // ---------- the registry ----------

  /** The step revives an expired registration without its connection, or the other way round. */
  ghost predicate RegistryStepParts(s: RegistryState, step: RegistryStep) {
    match step
    case Register(request, owner, keyed, now) =>
      && MarkedExpired(s, request.targetId)
      && RegistryLaws.Admissible(s, request, owner, keyed)
      && LeaseEnd(now, request.leaseSeconds).Some?
      && s.registrations[request.targetId].ipcPathKey == keyed.value
    case Renew(id, now) => MarkedExpired(s, id) && LeaseEnd(now, s.registrations[id].leaseSeconds).Some?
    case ExpireLeases(_) => false
    case MarkReconnecting(id, _, _) => MarkedExpired(s, id)
  }

  /** Admitting a target parts the two exactly when it was expired and has not moved. */
  lemma AdmittingMatchesIff(s: RegistryState, request: RegistrationRequest, owner: string, key: string, now: Instant,
                            after: RegistryState)
    requires InStep(s) && Matched(s) && RegistryLaws.Admits(s, request, owner, key, now, after)
    ensures Matched(after) <==>
              !(MarkedExpired(s, request.targetId) && s.registrations[request.targetId].ipcPathKey == key)
  {
    var id := request.targetId;
    assert after.registrations[id].registrationState == Active;
    if MarkedExpired(s, id) && s.registrations[id].ipcPathKey == key {
      assert after.connections[id].state == ConnectionState.Expired;
    }
  }

  lemma RegisterMatchesIff(s: RegistryState, request: RegistrationRequest, owner: string, keyed: RelayResult<string>,
                           now: Instant)
    requires InStep(s) && Matched(s)
    ensures Matched(RegistryModel.Register(s, request, owner, keyed, now).0) <==>
              !RegistryStepParts(s, Register(request, owner, keyed, now))
  {
    var (after, outcome) := RegistryModel.Register(s, request, owner, keyed, now);
    RegistryLaws.RegisterCharacterised(s, request, owner, keyed, now);
    if outcome.Returned? && outcome.result.Ok? {
      RegistryLaws.RegisterWrites(s, request, owner, keyed, now);
      AdmittingMatchesIff(s, request, owner, keyed.value, now, after);
    }
  }

  lemma RenewMatchesIff(s: RegistryState, id: string, now: Instant)
    requires InStep(s) && Matched(s)
    ensures Matched(RegistryModel.Renew(s, id, now).0) <==> !RegistryStepParts(s, Renew(id, now))
  {
    var after := RegistryModel.Renew(s, id, now).0;
    if RegistryStepParts(s, Renew(id, now)) {
      assert after.registrations[id].registrationState == Active;
      assert after.connections[id].state == ConnectionState.Expired;
    }
  }

  /** Marking a connection as failed parts the two exactly when its target is expired. */
  lemma FailingMatchesIff(s: RegistryState, id: string, state: ConnectionState, reason: string, now: Instant)
    requires InStep(s) && Matched(s) && state != ConnectionState.Expired
    ensures Matched(MarkFailed(s, id, state, reason, now)) <==> !MarkedExpired(s, id)
  {
    var after := MarkFailed(s, id, state, reason, now);
    if MarkedExpired(s, id) {
      assert after.connections[id].state == state;
      assert after.registrations == s.registrations;
    }
  }

  lemma RegistryStepMatchesIff(s: RegistryState, step: RegistryStep)
    requires InStep(s) && Matched(s)
    ensures Matched(ActOnRegistry(s, step).0) <==> !RegistryStepParts(s, step)
  {
    match step {
      case Register(request, owner, keyed, now) => RegisterMatchesIff(s, request, owner, keyed, now);
      case Renew(id, now) => RenewMatchesIff(s, id, now);
      case ExpireLeases(now) =>
      case MarkReconnecting(id, reason, now) => FailingMatchesIff(s, id, Reconnecting, reason, now);
    }
  }

  // ---------- sessions ----------

  /**
   The step gives up on an expired target, or handles an admitted command whose target reports it
   completed in the name of an expired one, whether or not the state of that one can be read.
   */
  ghost predicate SessionStepParts(s: RegistryState, session: SessionState, step: SessionStep) {
    match step
    case ReconnectTimeout(id, _) => MarkedExpired(s, id)
    case Command(command, answers, now) =>
      var admitted := AdmitCommand(session, command, s, now);
      admitted.Ok? && CompletedForExpired(s, admitted.value, answers, now)
    case _ => false
  }

  ghost predicate CompletedForExpired(s: RegistryState, prepared: PreparedCommand, answers: CommandAnswers,
                                      now: Instant)
  {
    var result := ReadCommandResult(prepared, answers.forward, now);
    result.Ok? && NeedsRefresh(result.value) && MarkedExpired(s, result.value.targetId)
  }

  /** Settling one connection parts the two exactly when it changes the one of an expired target. */
  lemma SettlingMatchesIff(before: RegistryState, after: RegistryState, id: string)
    requires InStep(before) && Matched(before) && SettlesOnly(before, after, {id})
    requires MarkedExpired(before, id) ==> after.connections[id].state != ConnectionState.Expired
    ensures Matched(after) <==> !MarkedExpired(before, id)
  {
  }

  lemma BindKeepsMatched(registry: RegistryState, e: Endpoint, step: SessionStep)
    requires InStep(registry) && Matched(registry) && step.Bind?
    ensures Matched(ActOnSession(registry, e, step).registry)
  {
    var after := ActOnSession(registry, e, step).registry;
    BindSettles(e.session, step.targetId, registry, step.bindAnswers, step.now);
    if after != registry {
      SettlingMatchesIff(registry, after, step.targetId);
    }
  }

  lemma RefreshMatchesIff(s: SessionState, id: string, registry: RegistryState, answer: IpcAnswer, now: Instant)
    requires InStep(registry) && Matched(registry)
    ensures Matched(RefreshTargetState(s, id, registry, answer, now).registry) <==> !MarkedExpired(registry, id)
  {
    RefreshSettles(s, id, registry, answer, now);
    SettlingMatchesIff(registry, RefreshTargetState(s, id, registry, answer, now).registry, id);
  }

  lemma ForwardMatchesIff(s: SessionState, prepared: PreparedCommand, path: Path, identity: RemoteIdentity,
                          registry: RegistryState, answers: CommandAnswers, now: Instant)
    requires InStep(registry) && Matched(registry)
    ensures Matched(ForwardCommand(s, prepared, path, identity, registry, answers, now).registry) <==>
              !CompletedForExpired(registry, prepared, answers, now)
  {
    var result := ReadCommandResult(prepared, answers.forward, now);
    if result.Ok? && NeedsRefresh(result.value) {
      RefreshMatchesIff(Push(s, [CommandResult(result.value.targetId, result.value)]), result.value.targetId, registry,
                        answers.refresh, now);
    }
  }

  lemma CommandMatchesIff(s: SessionState, registry: RegistryState, command: ClientCommand, answers: CommandAnswers,
                          now: Instant)
    requires InStep(registry) && Matched(registry)
    ensures var admitted := AdmitCommand(s, command, registry, now);
            Matched(HandleCommand(s, command, registry, answers, now).registry) <==>
              !(admitted.Ok? && CompletedForExpired(registry, admitted.value, answers, now))
  {
    var admitted := AdmitCommand(s, command, registry, now);
    if admitted.Ok? {
      ForwardMatchesIff(s, admitted.value, registry.registrations[command.targetId].ipcPath, s.remoteIdentity.value,
                        registry, answers, now);
    }
  }

  lemma SessionStepMatchesIff(registry: RegistryState, e: Endpoint, step: SessionStep)
    requires InStep(registry) && Matched(registry)
    ensures Matched(ActOnSession(registry, e, step).registry) <==> !SessionStepParts(registry, e.session, step)
  {
    if step.Bind? {
      BindKeepsMatched(registry, e, step);
    } else if step.Command? {
      CommandMatchesIff(e.session, registry, step.command, step.commandAnswers, step.now);
    } else if step.ReconnectTimeout? {
      FailingMatchesIff(registry, step.targetId, Unavailable, RECONNECT_TIMEOUT_REASON, step.now);
    } else {
      assert ActOnSession(registry, e, step).registry == registry;
    }
  }

  // ---------- the system ----------

  /** What a step must do, given the state it starts in, to part a registration from its connection. */
  ghost predicate Parts(sys: System, step: Step) {
    match step
    case OnRegistry(registryStep) => RegistryStepParts(sys.registry, registryStep)
    case Connect(_, _, _, _) => false
    case OnSession(sid, sessionStep) =>
      sid in sys.endpoints && SessionStepParts(sys.registry, sys.endpoints[sid].session, sessionStep)
  }

  /** A step keeps connection and registration expiry together exactly when it does not part them. */
  lemma StepKeepsMatchedIff(sys: System, step: Step)
    requires Safe(sys) && Matched(sys.registry)
    ensures Matched(Next(sys, step).0.registry) <==> !Parts(sys, step)
  {
    match step {
      case OnRegistry(registryStep) => RegistryStepMatchesIff(sys.registry, registryStep);
      case Connect(_, _, _, _) =>
      case OnSession(sid, sessionStep) =>
        if sid in sys.endpoints {
          SessionStepMatchesIff(sys.registry, sys.endpoints[sid], sessionStep);
        }
    }
  }

  /** In every run none of whose steps parts them, a connection is expired exactly when its registration is. */
  lemma {:induction false} RunStaysMatched(policy: RegistrationPolicy, steps: seq<Step>)
    requires forall k :: 0 <= k < |steps| ==> !Parts(At(policy, steps, k), steps[k])
    ensures Matched(Run(policy, steps).registry)
  {
    if steps != [] {
      var last := |steps| - 1;
      var shorter := steps[..last];
      forall k | 0 <= k < |shorter| ensures !Parts(At(policy, shorter, k), shorter[k]) {
        assert shorter[..k] == steps[..k];
      }
      RunStaysMatched(policy, shorter);
      RunUnrolls(policy, steps, last);
      StepKeepsMatchedIff(Run(policy, shorter), steps[last]);
    }
  }

  /** Connection and registration expiry agree throughout a run exactly when none of its steps parts them. */
  lemma AlwaysMatchedIff(policy: RegistrationPolicy, steps: seq<Step>)
    ensures (forall k :: 0 <= k <= |steps| ==> Matched(At(policy, steps, k).registry)) <==>
              (forall k :: 0 <= k < |steps| ==> !Parts(At(policy, steps, k), steps[k]))
  {
    if forall k :: 0 <= k <= |steps| ==> Matched(At(policy, steps, k).registry) {
      forall k | 0 <= k < |steps| ensures !Parts(At(policy, steps, k), steps[k]) {
        RunUnrolls(policy, steps, k);
        assert Matched(At(policy, steps, k).registry) && Matched(At(policy, steps, k + 1).registry);
        StepKeepsMatchedIff(At(policy, steps, k), steps[k]);
      }
    }
    if forall k :: 0 <= k < |steps| ==> !Parts(At(policy, steps, k), steps[k]) {
      forall k | 0 <= k <= |steps| ensures Matched(At(policy, steps, k).registry) {
        forall j | 0 <= j < k ensures !Parts(At(policy, steps[..k], j), steps[..k][j]) {
          assert steps[..k][..j] == steps[..j];
        }
        RunStaysMatched(policy, steps[..k]);
      }
    }
  }
}
