/** Where requests go and who may send them, over every run. */
module Requests {
  import opened Basics
  import opened Commands
  import opened PathLaws
  import opened Policies
  import opened RegistryModel
  import opened RegistryLaws
  import opened IpcClient
  import opened Answers
  import opened SessionModel
  import opened SystemModel
  import opened SystemInvariants
  import opened RunHistory
  import opened Correspondence
  import opened Text

  // ---------- where they go ----------

  function TargetOf(request: IpcRequest): string {
    match request
    case StateRequest(_, id) => id
    case EventsSubscribe(_, id) => id
    case LogsTail(_, id) => id
    case CommandRequest(_, command) => command.targetId
  }

  /** The request goes to the path under which its own target is registered. */
  predicate GoesHome(registry: RegistryState, request: IpcRequest) {
    && TargetOf(request) in registry.registrations
    && request.path == registry.registrations[TargetOf(request)].ipcPath
  }

  lemma BindGoesHome(registry: RegistryState, e: Endpoint, step: SessionStep, i: nat)
    requires InStep(registry) && step.Bind?
    requires |e.exchanges| <= i < |ActOnSession(registry, e, step).endpoint.exchanges|
    ensures GoesHome(registry, ActOnSession(registry, e, step).endpoint.exchanges[i].request) && LetIn(e.session)
  {
    BindAsks(e.session, step.targetId, registry, step.bindAnswers, step.now);
  }

  lemma CommandGoesHome(registry: RegistryState, e: Endpoint, step: SessionStep, i: nat)
    requires InStep(registry) && step.Command?
    requires |e.exchanges| <= i < |ActOnSession(registry, e, step).endpoint.exchanges|
    ensures GoesHome(registry, ActOnSession(registry, e, step).endpoint.exchanges[i].request) && LetIn(e.session)
  {
    CommandAsks(e.session, step.command, registry, step.commandAnswers, step.now);
    if AdmitCommand(e.session, step.command, registry, step.now).Ok? {
      AdmittedIsGated(e.session, step.command, registry, step.now);
    }
  }

  lemma StepGoesHome(registry: RegistryState, e: Endpoint, step: SessionStep, i: nat)
    requires InStep(registry)
    requires |e.exchanges| <= i < |ActOnSession(registry, e, step).endpoint.exchanges|
    ensures GoesHome(registry, ActOnSession(registry, e, step).endpoint.exchanges[i].request) && LetIn(e.session)
  {
    if step.Bind? {
      BindGoesHome(registry, e, step, i);
    } else if step.Command? {
      CommandGoesHome(registry, e, step, i);
    } else {
      QuietStepKeepsGates(registry, e, step);
    }
  }

  lemma {:induction false} PolicyIsKept(policy: RegistrationPolicy, steps: seq<Step>)
    ensures Run(policy, steps).registry.policy == policy
  {
    if steps != [] {
      var before := steps[..|steps| - 1];
      PolicyIsKept(policy, before);
      RunIsSafe(policy, before);
      StepKeepsPolicy(Run(policy, before), steps[|steps| - 1]);
    }
  }

  lemma StepKeepsPolicy(sys: System, step: Step)
    requires InStep(sys.registry)
    ensures Next(sys, step).0.registry.policy == sys.registry.policy
  {
    if step.OnRegistry? {
      RegistryStepKeepsPolicy(sys.registry, step.registryStep);
    } else if step.OnSession? && step.sid in sys.endpoints {
      SessionStepSettles(sys.registry, sys.endpoints[step.sid], step.sessionStep);
    }
  }

  lemma RegistryStepKeepsPolicy(s: RegistryState, step: RegistryStep)
    ensures ActOnRegistry(s, step).0.policy == s.policy
  {
  }

  /** In every run each registered target has a path that agrees with one of the policy's prefixes. */
  lemma RegisteredPathsArePermitted(policy: RegistrationPolicy, steps: seq<Step>, id: string)
    requires id in Run(policy, steps).registry.registrations
    ensures Permits(policy.allowedIpcPathPrefixes, Run(policy, steps).registry.registrations[id].ipcPath)
  {
    RunIsSafe(policy, steps);
    PolicyIsKept(policy, steps);
    var s := Run(policy, steps).registry;
    assert RecordGoverned(s.policy, id, s.registrations[id]);
  }

  /**
   Every request that a step of any run sends is sent by a session that is let in, to the path under
   which its target is registered at that moment, and that path is one that the policy permits.
   */
  lemma RequestsGoHome(policy: RegistrationPolicy, steps: seq<Step>, k: nat, sid: nat, i: nat)
    requires k < |steps| && sid in At(policy, steps, k).endpoints && sid in At(policy, steps, k + 1).endpoints
    requires |At(policy, steps, k).endpoints[sid].exchanges| <= i
    requires i < |At(policy, steps, k + 1).endpoints[sid].exchanges|
    ensures var sys, request := At(policy, steps, k), At(policy, steps, k + 1).endpoints[sid].exchanges[i].request;
            && LetIn(sys.endpoints[sid].session)
            && GoesHome(sys.registry, request)
            && Permits(policy.allowedIpcPathPrefixes, request.path)
  {
    var sys := At(policy, steps, k);
    RunUnrolls(policy, steps, k);
    EndpointsAfter(sys, steps[k], sid);
    StepGoesHome(sys.registry, sys.endpoints[sid], steps[k].sessionStep, i);
    var request := At(policy, steps, k + 1).endpoints[sid].exchanges[i].request;
    RegisteredPathsArePermitted(policy, steps[..k], TargetOf(request));
  }

  // ---------- who sends them ----------

  /** Before step `k` the session had been opened for an identity, and at step `k` its client said who it is. */
  ghost predicate HelloAt(policy: RegistrationPolicy, steps: seq<Step>, sid: nat, k: nat)
    requires k < |steps|
  {
    && steps[k].OnSession? && steps[k].sid == sid && steps[k].sessionStep.Hello?
    && Trim(steps[k].sessionStep.hello.clientStoreId) != ""
    && sid in At(policy, steps, k).endpoints
    && At(policy, steps, k).endpoints[sid].session.phase == Handshaking
  }

  ghost predicate SaidHello(policy: RegistrationPolicy, steps: seq<Step>, sid: nat) {
    exists k :: 0 <= k < |steps| && HelloAt(policy, steps, sid, k)
  }

  lemma SaidHelloStays(policy: RegistrationPolicy, steps: seq<Step>, sid: nat)
    requires steps != [] && SaidHello(policy, steps[..|steps| - 1], sid)
    ensures SaidHello(policy, steps, sid)
  {
    var before := steps[..|steps| - 1];
    var k :| 0 <= k < |before| && HelloAt(policy, before, sid, k);
    assert before[..k] == steps[..k];
    assert HelloAt(policy, steps, sid, k);
  }

  lemma OnlyHelloEstablishes(registry: RegistryState, e: Endpoint, step: SessionStep)
    requires e.session.phase != Established
    requires ActOnSession(registry, e, step).endpoint.session.phase == Established
    ensures step.Hello? && Trim(step.hello.clientStoreId) != "" && e.session.phase == Handshaking
  {
    BlankMeaning();
    if step.Command? {
      CommandOnlyPushes(e.session, step.command, registry, step.commandAnswers, step.now);
    } else if step.Bind? {
      BindKeepsPhase(e.session, step.targetId, registry, step.bindAnswers, step.now);
    }
  }

  lemma BindKeepsPhase(s: SessionState, id: string, registry: RegistryState, answers: BindAnswers, now: Instant)
    ensures BindTarget(s, id, registry, answers, now).session.phase == s.phase
  {
  }

  lemma {:induction false} EstablishedByHello(policy: RegistrationPolicy, steps: seq<Step>, sid: nat)
    requires sid in Run(policy, steps).endpoints && Run(policy, steps).endpoints[sid].session.phase == Established
    ensures SaidHello(policy, steps, sid)
  {
    var last := |steps| - 1;
    var before := steps[..last];
    var sys := Run(policy, before);
    if sid in sys.endpoints {
      EndpointsAfter(sys, steps[last], sid);
      if sys.endpoints[sid].session.phase == Established {
        EstablishedByHello(policy, before, sid);
        SaidHelloStays(policy, steps, sid);
      } else {
        OnlyHelloEstablishes(sys.registry, sys.endpoints[sid], steps[last].sessionStep);
        assert HelloAt(policy, steps, sid, last);
      }
    }
  }

  /** The run opened the session for this identity. */
  ghost predicate OpenedFor(steps: seq<Step>, sid: nat, identity: Option<RemoteIdentity>) {
    exists k :: 0 <= k < |steps| && steps[k].Connect? && steps[k].sid == sid && steps[k].identity == identity
  }

  /** A new session has the identity it was opened for and nothing else yet: no handshake, no binding, no control. */
  lemma OpeningCharacterised(identity: Option<RemoteIdentity>, sessionId: string, now: Instant)
    ensures NewEndpoint(identity, sessionId, now) ==
              Endpoint(SessionState(sessionId, identity, None, Handshaking, NotEstablished, {}, map[],
                                    if identity.Some? then [ServerHello(sessionId, identity.value.clientIdentity)]
                                    else [], now, now),
                       [], [], [])
  {
  }

  lemma {:induction false} SessionsKeepTheirIdentity(policy: RegistrationPolicy, steps: seq<Step>, sid: nat)
    requires sid in Run(policy, steps).endpoints
    ensures OpenedFor(steps, sid, Run(policy, steps).endpoints[sid].session.remoteIdentity)
  {
    var last := |steps| - 1;
    var before := steps[..last];
    var sys := Run(policy, before);
    if sid in sys.endpoints {
      SessionsKeepTheirIdentity(policy, before, sid);
      StepKeepsHandshake(sys, steps[last], sid);
      var identity := sys.endpoints[sid].session.remoteIdentity;
      var k :| 0 <= k < |before| && before[k].Connect? && before[k].sid == sid && before[k].identity == identity;
      assert steps[k] == before[k];
    } else {
      OpeningCharacterised(steps[last].identity, steps[last].sessionId, steps[last].now);
    }
  }

  /**
   In every run, a session that has sent any request or is bound to any target was opened for an
   authenticated identity, which it still has, and its client had made a valid handshake.
   */
  lemma RequestsFollowHello(policy: RegistrationPolicy, steps: seq<Step>, sid: nat)
    requires sid in Run(policy, steps).endpoints
    requires var e := Run(policy, steps).endpoints[sid]; e.exchanges != [] || e.session.boundTargets != {}
    ensures var identity := Run(policy, steps).endpoints[sid].session.remoteIdentity;
            identity.Some? && OpenedFor(steps, sid, identity) && SaidHello(policy, steps, sid)
  {
    RunIsSound(policy, steps);
    assert Gated(Run(policy, steps).endpoints[sid]);
    SessionsKeepTheirIdentity(policy, steps, sid);
    EstablishedByHello(policy, steps, sid);
  }
}
