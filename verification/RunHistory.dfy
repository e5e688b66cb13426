/** How the registry evolves along a run: ownership, leases and expiry. */
module RunHistory {
  import opened Basics
  import opened Commands
  import opened Policies
  import opened RegistryModel
  import opened IpcClient
  import opened Answers
  import opened SessionModel
  import opened SystemModel
  import opened SystemInvariants
  import RegistryLaws

  /** The system just before step `k` of a run. */
  function At(policy: RegistrationPolicy, steps: seq<Step>, k: nat): System
    requires k <= |steps|
  {
    Run(policy, steps[..k])
  }

  lemma RunUnrolls(policy: RegistrationPolicy, steps: seq<Step>, k: nat)
    requires k < |steps|
    ensures At(policy, steps, k + 1) == Next(At(policy, steps, k), steps[k]).0
    ensures At(policy, steps, |steps|) == Run(policy, steps)
    ensures Safe(At(policy, steps, k))
  {
    assert steps[..k + 1][..k] == steps[..k];
    assert steps[..|steps|] == steps;
    RunIsSafe(policy, steps[..k]);
  }

  // ---------- ownership ----------

  ghost predicate KeepsOwners(before: RegistryState, after: RegistryState) {
    forall id :: id in before.registrations ==>
      && id in after.registrations
      && after.registrations[id].ownerIdentity == before.registrations[id].ownerIdentity
      && after.registrations[id].registeredAt == before.registrations[id].registeredAt
  }

  lemma AdmittingKeepsOwners(s: RegistryState, request: RegistrationRequest, owner: string, key: string, now: Instant,
                             after: RegistryState)
    requires InStep(s) && RegistryLaws.Admits(s, request, owner, key, now, after)
    requires RegistryLaws.Admissible(s, request, owner, Ok(key))
    ensures KeepsOwners(s, after)
  {
  }

  lemma RegistryStepKeepsOwners(s: RegistryState, step: RegistryStep)
    requires InStep(s)
    ensures KeepsOwners(s, ActOnRegistry(s, step).0)
  {
    match step {
      case Register(request, owner, keyed, now) =>
        RegistryLaws.RegisterCharacterised(s, request, owner, keyed, now);
        var outcome := RegistryModel.Register(s, request, owner, keyed, now).1;
        if outcome.Returned? && outcome.result.Ok? {
          RegistryLaws.RegisterWrites(s, request, owner, keyed, now);
          AdmittingKeepsOwners(s, request, owner, keyed.value, now, ActOnRegistry(s, step).0);
        }
      case _ =>
    }
  }

  lemma StepKeepsOwners(sys: System, step: Step)
    requires InStep(sys.registry)
    ensures KeepsOwners(sys.registry, Next(sys, step).0.registry)
  {
    match step {
      case OnRegistry(registryStep) => RegistryStepKeepsOwners(sys.registry, registryStep);
      case Connect(_, _, _, _) =>
      case OnSession(sid, sessionStep) =>
        if sid in sys.endpoints {
          SessionStepSettles(sys.registry, sys.endpoints[sid], sessionStep);
        }
    }
  }

  /** Once registered, a target stays registered, to the same owner and with the same first registration time. */
  lemma {:induction false} OwnersNeverChange(policy: RegistrationPolicy, steps: seq<Step>, k: nat)
    requires k <= |steps|
    ensures KeepsOwners(At(policy, steps, k).registry, Run(policy, steps).registry)
  {
    if k == |steps| {
      assert steps[..k] == steps;
    } else {
      var shorter := steps[..|steps| - 1];
      assert shorter[..k] == steps[..k];
      OwnersNeverChange(policy, shorter, k);
      RunIsSafe(policy, shorter);
      StepKeepsOwners(Run(policy, shorter), steps[|steps| - 1]);
    }
  }

  // ---------- sessions ----------

  /** A session keeps its identity, its bindings and, once made, its handshake. */
  ghost predicate KeepsHandshake(before: SessionState, after: SessionState) {
    && after.sessionId == before.sessionId && after.createdAt == before.createdAt
    && after.remoteIdentity == before.remoteIdentity
    && before.boundTargets <= after.boundTargets
    && (before.phase == Established ==>
          after.phase == Established && after.control == before.control && after.clientStoreId == before.clientStoreId)
  }

  lemma FinishKeepsHandshake(s: SessionState, id: string, r: RegistryModel.Registration, begun: RegistryState,
                             asked: seq<IpcExchange>, state: DashboardState, answers: BindAnswers, now: Instant)
    ensures KeepsHandshake(s, FinishBinding(s, id, r, begun, asked, state, answers, now).session)
  {
  }

  lemma BindKeepsHandshake(s: SessionState, id: string, registry: RegistryState, answers: BindAnswers, now: Instant)
    ensures KeepsHandshake(s, BindTarget(s, id, registry, answers, now).session)
  {
    if EnsureTargetActive(registry, id, now).Ok? {
      var r := registry.registrations[id];
      var state := ReadState(r.targetId, answers.state, now);
      if state.Ok? {
        FinishKeepsHandshake(s, id, r, BeginBinding(registry, id, now).0,
                             [IpcExchange(StateRequest(r.ipcPath, r.targetId), answers.state)], state.value, answers,
                             now);
      }
    }
  }

  lemma SessionStepKeepsHandshake(registry: RegistryState, e: Endpoint, step: SessionStep)
    ensures KeepsHandshake(e.session, ActOnSession(registry, e, step).endpoint.session)
  {
    if step.Bind? {
      BindKeepsHandshake(e.session, step.targetId, registry, step.bindAnswers, step.now);
    } else if step.Command? {
      CommandOnlyPushes(e.session, step.command, registry, step.commandAnswers, step.now);
    }
  }

  /** Only a session's own steps change its endpoint. */
  lemma EndpointsAfter(sys: System, step: Step, sid: nat)
    requires sid in sys.endpoints
    ensures var after := Next(sys, step).0;
            && sid in after.endpoints
            && if step.OnSession? && step.sid == sid then
                 var action := ActOnSession(sys.registry, sys.endpoints[sid], step.sessionStep);
                 after.endpoints[sid] == action.endpoint && after.registry == action.registry
               else
                 after.endpoints[sid] == sys.endpoints[sid]
  {
  }

  lemma StepKeepsHandshake(sys: System, step: Step, sid: nat)
    requires sid in sys.endpoints
    ensures var after := Next(sys, step).0;
            sid in after.endpoints && KeepsHandshake(sys.endpoints[sid].session, after.endpoints[sid].session)
  {
    EndpointsAfter(sys, step, sid);
    if step.OnSession? && step.sid == sid {
      SessionStepKeepsHandshake(sys.registry, sys.endpoints[sid], step.sessionStep);
    }
  }

  /**
   A session never changes its identity and never loses a binding, and its handshake is made once: from
   then on it stays established under the same store id, and every further hello fails.
   */
  lemma {:induction false} HandshakeIsMadeOnce(policy: RegistrationPolicy, steps: seq<Step>, k: nat, sid: nat,
                                               hello: ClientHello, now: Instant)
    requires k <= |steps| && sid in At(policy, steps, k).endpoints
    ensures sid in Run(policy, steps).endpoints
    ensures var before, after := At(policy, steps, k).endpoints[sid].session, Run(policy, steps).endpoints[sid].session;
            && KeepsHandshake(before, after)
            && (before.phase == Established ==> AcceptClientHello(after, hello, now).1.Err?)
  {
    if k == |steps| {
      assert steps[..k] == steps;
    } else {
      var shorter := steps[..|steps| - 1];
      assert shorter[..k] == steps[..k];
      HandshakeIsMadeOnce(policy, shorter, k, sid, hello, now);
      StepKeepsHandshake(Run(policy, shorter), steps[|steps| - 1], sid);
    }
  }

  // ---------- exact leases ----------

  /** The step renews a registered target at a time from which its lease leaves the clock range. */
  predicate RenewsPastClock(s: RegistryState, step: RegistryStep) {
    && step.Renew? && step.targetId in s.registrations
    && LeaseEnd(step.now, s.registrations[step.targetId].leaseSeconds).None?
  }

  predicate BreaksLease(sys: System, step: Step) {
    step.OnRegistry? && RenewsPastClock(sys.registry, step.registryStep)
  }

  /** A step keeps every lease exact unless it renews a target past the end of the clock. */
  lemma StepKeepsLeasesExactIff(sys: System, step: Step)
    requires Safe(sys) && LeasesExact(sys.registry)
    ensures LeasesExact(Next(sys, step).0.registry) <==> !BreaksLease(sys, step)
  {
    match step {
      case OnRegistry(registryStep) => RegistryStepKeepsLeasesExactIff(sys.registry, registryStep);
      case Connect(_, _, _, _) =>
      case OnSession(sid, sessionStep) =>
        if sid in sys.endpoints {
          SessionStepSettles(sys.registry, sys.endpoints[sid], sessionStep);
        }
    }
  }

  lemma RegisterKeepsLeasesExact(s: RegistryState, request: RegistrationRequest, owner: string,
                                 keyed: RelayResult<string>, now: Instant)
    requires InStep(s) && LeasesExact(s)
    ensures LeasesExact(RegistryModel.Register(s, request, owner, keyed, now).0)
  {
    RegistryLaws.RegisterCharacterised(s, request, owner, keyed, now);
    var (after, outcome) := RegistryModel.Register(s, request, owner, keyed, now);
    if outcome.Returned? && outcome.result.Ok? {
      RegistryLaws.RegisterWrites(s, request, owner, keyed, now);
      AdmittingKeepsLeasesExact(s, request, owner, keyed.value, now, after);
    }
  }

  lemma AdmittingKeepsLeasesExact(s: RegistryState, request: RegistrationRequest, owner: string, key: string,
                                  now: Instant, after: RegistryState)
    requires InStep(s) && LeasesExact(s) && RegistryLaws.Admits(s, request, owner, key, now, after)
    ensures LeasesExact(after)
  {
  }

  lemma RegistryStepKeepsLeasesExactIff(s: RegistryState, step: RegistryStep)
    requires InStep(s) && LeasesExact(s)
    ensures LeasesExact(ActOnRegistry(s, step).0) <==> !RenewsPastClock(s, step)
  {
    match step {
      case Register(request, owner, keyed, now) => RegisterKeepsLeasesExact(s, request, owner, keyed, now);
      case Renew(targetId, now) => RegistryLaws.RenewKeepsLeaseExactIffNoPanic(s, targetId, now);
      case _ =>
    }
  }

  /** Along a run that renews nothing past the end of the clock, every lease ends one lease after its last renewal. */
  lemma {:induction false} LeasesStayExact(policy: RegistrationPolicy, steps: seq<Step>)
    requires forall k :: 0 <= k < |steps| ==> !BreaksLease(At(policy, steps, k), steps[k])
    ensures LeasesExact(Run(policy, steps).registry)
  {
    if steps != [] {
      var last := |steps| - 1;
      var shorter := steps[..last];
      forall k | 0 <= k < |shorter| ensures !BreaksLease(At(policy, shorter, k), shorter[k]) {
        assert shorter[..k] == steps[..k];
      }
      LeasesStayExact(policy, shorter);
      RunUnrolls(policy, steps, last);
      StepKeepsLeasesExactIff(Run(policy, shorter), steps[last]);
    }
  }

  // ---------- lease windows ----------

  /** The step gives `id` a new lease: a successful registration of it, or a renewal. */
  ghost predicate OpensLease(sys: System, step: Step, id: string) {
    && step.OnRegistry?
    && match step.registryStep
       case Register(request, _, _, _) =>
         request.targetId == id && ActOnRegistry(sys.registry, step.registryStep).0 != sys.registry
       case Renew(targetId, _) => targetId == id
       case _ => false
  }

  /** The step is a sweep at or after `end`. */
  predicate SweepsPast(step: Step, end: Instant) {
    step.OnRegistry? && step.registryStep.ExpireLeases? && step.registryStep.now >= end
  }

  /** The record of `id` after a step that opens no lease for it: only a sweep past its end marks it. */
  ghost predicate LeaseSurvives(before: RegistryState, after: RegistryState, step: Step, id: string)
    requires id in before.registrations
  {
    && id in after.registrations
    && after.registrations[id] ==
         before.registrations[id].(registrationState := after.registrations[id].registrationState)
    && (after.registrations[id].registrationState == Active <==>
          && before.registrations[id].registrationState == Active
          && !SweepsPast(step, before.registrations[id].expiresAt))
  }

  lemma RegisterStepKeepsLease(sys: System, step: Step, id: string)
    requires InStep(sys.registry) && id in sys.registry.registrations && !OpensLease(sys, step, id)
    requires step.OnRegistry? && step.registryStep.Register?
    ensures LeaseSurvives(sys.registry, ActOnRegistry(sys.registry, step.registryStep).0, step, id)
  {
    var s, r := sys.registry, step.registryStep;
    RegistryLaws.RegisterCharacterised(s, r.request, r.owner, r.keyed, r.now);
    var outcome := RegistryModel.Register(s, r.request, r.owner, r.keyed, r.now).1;
    if outcome.Returned? && outcome.result.Ok? && r.request.targetId != id {
      RegistryLaws.RegisterWrites(s, r.request, r.owner, r.keyed, r.now);
    }
  }

  lemma StepKeepsLease(sys: System, step: Step, id: string)
    requires InStep(sys.registry) && id in sys.registry.registrations && !OpensLease(sys, step, id)
    ensures LeaseSurvives(sys.registry, Next(sys, step).0.registry, step, id)
  {
    match step {
      case OnRegistry(registryStep) =>
        if registryStep.Register? {
          RegisterStepKeepsLease(sys, step, id);
        } else {
          LeaseStepKeepsLease(sys, step, id);
        }
      case Connect(_, _, _, _) =>
      case OnSession(sid, sessionStep) =>
        if sid in sys.endpoints {
          SessionStepSettles(sys.registry, sys.endpoints[sid], sessionStep);
        }
    }
  }

  lemma LeaseStepKeepsLease(sys: System, step: Step, id: string)
    requires id in sys.registry.registrations && !OpensLease(sys, step, id)
    requires step.OnRegistry? && !step.registryStep.Register?
    ensures LeaseSurvives(sys.registry, ActOnRegistry(sys.registry, step.registryStep).0, step, id)
  {
  }

  /**
   From a moment at which a target is marked active with its lease ending at `end`, and as long as no
   step opens a new lease for it, the target is active at `t` exactly when `t < end` and no sweep has
   run at or after `end`. Nothing else, in any order, shortens or extends the window.
   */
  lemma ActiveExactlyInWindow(policy: RegistrationPolicy, steps: seq<Step>, k: nat, id: string, t: Instant)
    requires k <= |steps|
    requires var s := At(policy, steps, k).registry;
             id in s.registrations && s.registrations[id].registrationState == Active
    requires NoNewLease(policy, steps, k, id)
    ensures var end := At(policy, steps, k).registry.registrations[id].expiresAt;
            EnsureTargetActive(Run(policy, steps).registry, id, t).Ok? <==>
              t < end && forall j :: k <= j < |steps| ==> !SweepsPast(steps[j], end)
  {
    LeaseAlong(policy, steps, k, id);
  }

  /** The step registers or renews `id`, and succeeds. */
  ghost predicate GrantsLease(s: RegistryState, step: RegistryStep, id: string) {
    match step
    case Register(request, _, _, _) =>
      var outcome := ActOnRegistry(s, step).1.attempt;
      request.targetId == id && outcome.Returned? && outcome.result.Ok?
    case Renew(targetId, _) => targetId == id && ActOnRegistry(s, step).1 == Renewal(Returned(Ok(())))
    case _ => false
  }

  lemma GrantOpensLease(s: RegistryState, step: RegistryStep, id: string)
    requires InStep(s) && GrantsLease(s, step, id)
    ensures var after := ActOnRegistry(s, step).0;
            && id in after.registrations
            && after.registrations[id].registrationState == Active
            && after.registrations[id].expiresAt ==
                 step.now + AsI64(after.registrations[id].leaseSeconds) * NANOS_PER_SECOND
  {
  }

  /**
   The lease window over whole runs: after a successful registration, update or renewal at `now`, and
   until the next one, the target is active at `t` exactly when `t` is before `now` plus its lease and
   no sweep has run at or after that time.
   */
  lemma LeaseWindow(policy: RegistrationPolicy, steps: seq<Step>, k: nat, id: string, t: Instant)
    requires k < |steps| && steps[k].OnRegistry?
    requires GrantsLease(At(policy, steps, k).registry, steps[k].registryStep, id)
    requires NoNewLease(policy, steps, k + 1, id)
    ensures id in At(policy, steps, k + 1).registry.registrations
    ensures var granted := At(policy, steps, k + 1).registry.registrations[id];
            && granted.expiresAt == steps[k].registryStep.now + AsI64(granted.leaseSeconds) * NANOS_PER_SECOND
            && (EnsureTargetActive(Run(policy, steps).registry, id, t).Ok? <==>
                  t < granted.expiresAt
                  && forall j :: k < j < |steps| ==> !SweepsPast(steps[j], granted.expiresAt))
  {
    RunUnrolls(policy, steps, k);
    GrantOpensLease(At(policy, steps, k).registry, steps[k].registryStep, id);
    ActiveExactlyInWindow(policy, steps, k + 1, id, t);
  }

  /** `r` is the lease `start`, still marked active exactly when no step from `k` on swept past its end. */
  ghost predicate LeaseKept(start: Registration, r: Registration, steps: seq<Step>, k: nat) {
    && r == start.(registrationState := r.registrationState)
    && (r.registrationState == Active <==> forall j :: k <= j < |steps| ==> !SweepsPast(steps[j], start.expiresAt))
  }

  /** No step from `k` on gives `id` a new lease. */
  ghost predicate NoNewLease(policy: RegistrationPolicy, steps: seq<Step>, k: nat, id: string) {
    forall j :: k <= j < |steps| ==> !OpensLease(At(policy, steps, j), steps[j], id)
  }

  lemma NoNewLeaseBefore(policy: RegistrationPolicy, steps: seq<Step>, k: nat, id: string)
    requires k < |steps| && NoNewLease(policy, steps, k, id)
    ensures NoNewLease(policy, steps[..|steps| - 1], k, id)
    ensures !OpensLease(Run(policy, steps[..|steps| - 1]), steps[|steps| - 1], id)
  {
    var shorter := steps[..|steps| - 1];
    forall j | k <= j < |shorter| ensures !OpensLease(At(policy, shorter, j), shorter[j], id) {
      assert shorter[..j] == steps[..j];
    }
    assert At(policy, steps, |steps| - 1) == Run(policy, shorter);
  }

  lemma {:induction false} LeaseAlong(policy: RegistrationPolicy, steps: seq<Step>, k: nat, id: string)
    requires k <= |steps| && NoNewLease(policy, steps, k, id)
    requires id in Run(policy, steps[..k]).registry.registrations
    requires Run(policy, steps[..k]).registry.registrations[id].registrationState == Active
    ensures id in Run(policy, steps).registry.registrations
    ensures LeaseKept(Run(policy, steps[..k]).registry.registrations[id],
                      Run(policy, steps).registry.registrations[id], steps, k)
  {
    if k == |steps| {
      assert steps[..k] == steps;
    } else {
      var shorter := steps[..|steps| - 1];
      assert shorter[..k] == steps[..k];
      NoNewLeaseBefore(policy, steps, k, id);
      LeaseAlong(policy, shorter, k, id);
      RunIsSafe(policy, shorter);
      StepKeepsLeaseKept(Run(policy, shorter), steps, k, id, Run(policy, steps[..k]).registry.registrations[id]);
    }
  }

  lemma StepKeepsLeaseKept(sys: System, steps: seq<Step>, k: nat, id: string, start: Registration)
    requires k < |steps| && start.registrationState == Active
    requires InStep(sys.registry) && id in sys.registry.registrations
    requires LeaseKept(start, sys.registry.registrations[id], steps[..|steps| - 1], k)
    requires !OpensLease(sys, steps[|steps| - 1], id)
    ensures var after := Next(sys, steps[|steps| - 1]).0.registry;
            id in after.registrations && LeaseKept(start, after.registrations[id], steps, k)
  {
    StepKeepsLease(sys, steps[|steps| - 1], id);
    SweepsAlong(steps, k, start.expiresAt);
  }

  lemma SweepsAlong(steps: seq<Step>, k: nat, end: Instant)
    requires k < |steps|
    ensures var last := |steps| - 1;
            (forall j :: k <= j < |steps| ==> !SweepsPast(steps[j], end)) <==>
              (forall j :: k <= j < last ==> !SweepsPast(steps[..last][j], end)) && !SweepsPast(steps[last], end)
  {
    var last := |steps| - 1;
    assert forall j :: k <= j < last ==> steps[..last][j] == steps[j];
  }

  // ---------- expired targets ----------

  /**
   The target reports the command completed in the name of a registered target that is marked expired,
   and the state of that target can then be read.
   */
  ghost predicate AnsweredForExpired(registry: RegistryState, prepared: PreparedCommand, answers: CommandAnswers,
                                     now: Instant)
  {
    var result := ReadCommandResult(prepared, answers.forward, now);
    && result.Ok? && NeedsRefresh(result.value)
    && result.value.targetId in registry.registrations
    && registry.registrations[result.value.targetId].registrationState == RegistrationState.Expired
    && ReadState(result.value.targetId, answers.refresh, now).Ok?
  }

  /** The step handles an admitted command that is answered in the name of an expired target. */
  ghost predicate RevivesExpired(sys: System, step: Step) {
    && step.OnSession? && step.sid in sys.endpoints && step.sessionStep.Command?
    && var command, answers, now := step.sessionStep.command, step.sessionStep.commandAnswers, step.sessionStep.now;
       var admitted := AdmitCommand(sys.endpoints[step.sid].session, command, sys.registry, now);
       admitted.Ok? && AnsweredForExpired(sys.registry, admitted.value, answers, now)
  }

  lemma AdmittingKeepsExpiredNotLive(s: RegistryState, request: RegistrationRequest, owner: string, key: string,
                                     now: Instant, after: RegistryState)
    requires InStep(s) && ExpiredNotLive(s) && RegistryLaws.Admits(s, request, owner, key, now, after)
    ensures ExpiredNotLive(after)
  {
  }

  lemma LeaseStepKeepsExpiredNotLive(s: RegistryState, step: RegistryStep)
    requires InStep(s) && ExpiredNotLive(s) && !step.Register?
    ensures ExpiredNotLive(ActOnRegistry(s, step).0)
  {
  }

  lemma RegistryStepKeepsExpiredNotLive(s: RegistryState, step: RegistryStep)
    requires InStep(s) && ExpiredNotLive(s)
    ensures ExpiredNotLive(ActOnRegistry(s, step).0)
  {
    match step {
      case Register(request, owner, keyed, now) =>
        RegistryLaws.RegisterCharacterised(s, request, owner, keyed, now);
        var outcome := RegistryModel.Register(s, request, owner, keyed, now).1;
        if outcome.Returned? && outcome.result.Ok? {
          RegistryLaws.RegisterWrites(s, request, owner, keyed, now);
          AdmittingKeepsExpiredNotLive(s, request, owner, keyed.value, now, ActOnRegistry(s, step).0);
        }
      case _ => LeaseStepKeepsExpiredNotLive(s, step);
    }
  }

  lemma CommandKeepsExpiredNotLiveIff(s: SessionState, registry: RegistryState, command: ClientCommand,
                                      answers: CommandAnswers, now: Instant)
    requires InStep(registry) && ExpiredNotLive(registry)
    ensures var admitted := AdmitCommand(s, command, registry, now);
            ExpiredNotLive(HandleCommand(s, command, registry, answers, now).registry) <==>
              !(admitted.Ok? && AnsweredForExpired(registry, admitted.value, answers, now))
  {
    var admitted := AdmitCommand(s, command, registry, now);
    if admitted.Ok? {
      ForwardLiveness(s, admitted.value, registry.registrations[command.targetId].ipcPath, s.remoteIdentity.value,
                      registry, answers, now);
    }
  }

  lemma ForwardLiveness(s: SessionState, prepared: PreparedCommand, path: Path, identity: RemoteIdentity,
                        registry: RegistryState, answers: CommandAnswers, now: Instant)
    requires InStep(registry) && ExpiredNotLive(registry)
    ensures ExpiredNotLive(ForwardCommand(s, prepared, path, identity, registry, answers, now).registry) <==>
              !AnsweredForExpired(registry, prepared, answers, now)
  {
    var result := ReadCommandResult(prepared, answers.forward, now);
    if result.Ok? && NeedsRefresh(result.value) {
      RefreshLiveness(Push(s, [CommandResult(result.value.targetId, result.value)]), result.value.targetId,
                      registry, answers.refresh, now);
    }
  }

  lemma RefreshLiveness(s: SessionState, id: string, registry: RegistryState, answer: IpcAnswer, now: Instant)
    requires InStep(registry) && ExpiredNotLive(registry)
    ensures ExpiredNotLive(RefreshTargetState(s, id, registry, answer, now).registry) <==>
            !(&& id in registry.registrations
              && registry.registrations[id].registrationState == RegistrationState.Expired
              && ReadState(id, answer, now).Ok?)
  {
    var after := RefreshTargetState(s, id, registry, answer, now).registry;
    if id in registry.registrations && ReadState(id, answer, now).Ok? {
      assert after.connections[id].state == Connected;
      assert after.registrations == registry.registrations;
    }
  }

  /** Settling the connection of an active target cannot enliven an expired one. */
  lemma SettlingActiveKeepsExpiredNotLive(before: RegistryState, after: RegistryState, id: string)
    requires ExpiredNotLive(before) && SettlesOnly(before, after, {id})
    requires after != before ==>
               id in before.registrations && before.registrations[id].registrationState != RegistrationState.Expired
    ensures ExpiredNotLive(after)
  {
  }

  lemma BindKeepsExpiredNotLive(s: SessionState, id: string, registry: RegistryState, answers: BindAnswers,
                                now: Instant)
    requires InStep(registry) && ExpiredNotLive(registry)
    ensures ExpiredNotLive(BindTarget(s, id, registry, answers, now).registry)
  {
    BindSettles(s, id, registry, answers, now);
    SettlingActiveKeepsExpiredNotLive(registry, BindTarget(s, id, registry, answers, now).registry, id);
  }

  lemma OtherStepKeepsExpiredNotLive(registry: RegistryState, e: Endpoint, step: SessionStep)
    requires InStep(registry) && ExpiredNotLive(registry) && !step.Command?
    ensures ExpiredNotLive(ActOnSession(registry, e, step).registry)
  {
    if step.Bind? {
      BindKeepsExpiredNotLive(e.session, step.targetId, registry, step.bindAnswers, step.now);
    } else if step.ReconnectTimeout? {
      assert ExpiredNotLive(MarkUnavailable(registry, step.targetId, RECONNECT_TIMEOUT_REASON, step.now));
    } else {
      assert ActOnSession(registry, e, step).registry == registry;
    }
  }

  /** A step makes an expired target's connection live exactly when a target answers in that target's name. */
  lemma StepKeepsExpiredNotLiveIff(sys: System, step: Step)
    requires Safe(sys) && ExpiredNotLive(sys.registry)
    ensures ExpiredNotLive(Next(sys, step).0.registry) <==> !RevivesExpired(sys, step)
  {
    match step {
      case OnRegistry(registryStep) => RegistryStepKeepsExpiredNotLive(sys.registry, registryStep);
      case Connect(_, _, _, _) =>
      case OnSession(sid, sessionStep) =>
        if sid in sys.endpoints {
          if sessionStep.Command? {
            CommandKeepsExpiredNotLiveIff(sys.endpoints[sid].session, sys.registry, sessionStep.command,
                                          sessionStep.commandAnswers, sessionStep.now);
          } else {
            OtherStepKeepsExpiredNotLive(sys.registry, sys.endpoints[sid], sessionStep);
          }
        }
    }
  }

  ghost predicate EchoingTargets(steps: seq<Step>) {
    forall k :: 0 <= k < |steps| && steps[k].OnSession? && steps[k].sessionStep.Command? ==>
      EchoesTarget(steps[k].sessionStep.command.targetId, steps[k].sessionStep.commandAnswers.forward)
  }

  /** An admitted command that is answered in its target's own name has a result about a bound and active target. */
  lemma EchoedResultIsOwn(s: SessionState, registry: RegistryState, command: ClientCommand, answer: IpcAnswer,
                          now: Instant)
    requires AdmitCommand(s, command, registry, now).Ok? && EchoesTarget(command.targetId, answer)
    ensures var result := ReadCommandResult(AdmitCommand(s, command, registry, now).value, answer, now);
            && command.targetId in s.boundTargets
            && EnsureTargetActive(registry, command.targetId, now).Ok?
            && (result.Ok? ==> result.value.targetId == command.targetId)
  {
  }

  lemma EchoingStepRevivesNothing(sys: System, step: Step)
    requires step.OnSession? && step.sessionStep.Command? ==>
               EchoesTarget(step.sessionStep.command.targetId, step.sessionStep.commandAnswers.forward)
    ensures !RevivesExpired(sys, step)
  {
    if step.OnSession? && step.sid in sys.endpoints && step.sessionStep.Command? {
      var s, own := sys.endpoints[step.sid].session, step.sessionStep;
      if AdmitCommand(s, own.command, sys.registry, own.now).Ok? {
        EchoedResultIsOwn(s, sys.registry, own.command, own.commandAnswers.forward, own.now);
      }
    }
  }

  /** While targets answer only in their own name, a target marked expired is never connected or connecting. */
  lemma {:induction false} ExpiredTargetsStayDown(policy: RegistrationPolicy, steps: seq<Step>)
    requires EchoingTargets(steps)
    ensures ExpiredNotLive(Run(policy, steps).registry)
  {
    if steps != [] {
      var last := |steps| - 1;
      var shorter := steps[..last];
      assert EchoingTargets(shorter) by {
        forall k | 0 <= k < |shorter| ensures shorter[k] == steps[k] {}
      }
      ExpiredTargetsStayDown(policy, shorter);
      RunIsSafe(policy, shorter);
      EchoingStepRevivesNothing(Run(policy, shorter), steps[last]);
      StepKeepsExpiredNotLiveIff(Run(policy, shorter), steps[last]);
    }
  }
}
