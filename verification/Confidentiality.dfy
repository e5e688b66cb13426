/** Which targets a client hears about: those bound in its own session, as long as targets speak for themselves. */
module Confidentiality {
  import opened Basics
  import opened Commands
  import opened Policies
  import opened RegistryModel
  import opened IpcClient
  import opened Answers
  import opened SessionModel
  import opened SystemModel
  import opened SystemInvariants
  import opened RunHistory

  /** The message reports on one target; greetings, target lists and errors do not. */
  predicate ReportsOnTarget(m: ServerMessage) {
    m.State? || m.Event? || m.Log? || m.StateDelta? || m.DroppedCount? || m.CommandResult? || m.ConnectionChange?
  }

  ghost predicate OnlyAbout(messages: seq<ServerMessage>, ids: set<string>) {
    forall i :: 0 <= i < |messages| && ReportsOnTarget(messages[i]) ==> messages[i].targetId in ids
  }

  /** Everything produced for a client reports on targets bound in its session. */
  ghost predicate Confidential(e: Endpoint) {
    OnlyAbout(Transcript(e), e.session.boundTargets)
  }

  lemma OnlyAboutAppend(xs: seq<ServerMessage>, ys: seq<ServerMessage>, ids: set<string>)
    ensures OnlyAbout(xs + ys, ids) <==> OnlyAbout(xs, ids) && OnlyAbout(ys, ids)
  {
    if OnlyAbout(xs + ys, ids) {
      forall i | 0 <= i < |xs| && ReportsOnTarget(xs[i]) ensures xs[i].targetId in ids {
        assert xs[i] == (xs + ys)[i];
      }
      forall i | 0 <= i < |ys| && ReportsOnTarget(ys[i]) ensures ys[i].targetId in ids {
        assert ys[i] == (xs + ys)[|xs| + i];
      }
    }
  }

  /** An endpoint that keeps its bindings and gains messages is confidential exactly when the new messages are. */
  lemma ConfidentialGrows(e: Endpoint, after: Endpoint, pushed: seq<ServerMessage>)
    requires Confidential(e) && Transcript(after) == Transcript(e) + pushed
    requires e.session.boundTargets <= after.session.boundTargets
    ensures Confidential(after) <==> OnlyAbout(pushed, after.session.boundTargets)
  {
    OnlyAboutAppend(Transcript(e), pushed, after.session.boundTargets);
  }

  lemma BindIsConfidential(registry: RegistryState, e: Endpoint, step: SessionStep)
    requires Confidential(e) && step.Bind?
    ensures Confidential(ActOnSession(registry, e, step).endpoint)
  {
    var s := BindTarget(e.session, step.targetId, registry, step.bindAnswers, step.now).session;
    BindReportsItself(e.session, step.targetId, registry, step.bindAnswers, step.now);
    var pushed := s.outbox[|e.session.outbox|..];
    var after := ActOnSession(registry, e, step).endpoint;
    assert Transcript(after) == Transcript(e) + pushed;
    ConfidentialGrows(e, after, pushed);
  }

  lemma BindReportsItself(s: SessionState, id: string, registry: RegistryState, answers: BindAnswers, now: Instant)
    ensures var after := BindTarget(s, id, registry, answers, now).session;
            && s.outbox <= after.outbox && s.boundTargets <= after.boundTargets
            && OnlyAbout(after.outbox[|s.outbox|..], after.boundTargets)
  {
  }

  /** A fanned-out message is about a bound target, since messages about others are dropped. */
  lemma AcceptIsConfidential(registry: RegistryState, e: Endpoint, id: string, message: ServerMessage)
    requires Confidential(e) && (ReportsOnTarget(message) ==> message.targetId == id)
    ensures Confidential(Relay(registry, e, AcceptFor(e.session, id, message)).endpoint)
  {
    var pushed := if id in e.session.boundTargets then [message] else [];
    var after := Relay(registry, e, AcceptFor(e.session, id, message)).endpoint;
    assert Transcript(after) == Transcript(e) + pushed;
    ConfidentialGrows(e, after, pushed);
  }

  lemma EventIsConfidential(registry: RegistryState, e: Endpoint, event: EventRecord)
    requires Confidential(e)
    ensures Confidential(Relay(registry, e, AcceptEvent(e.session, event)).endpoint)
  {
    var after := Relay(registry, e, AcceptEvent(e.session, event)).endpoint;
    EventPushes(e.session, event);
    var pushed := after.session.outbox[|e.session.outbox|..];
    assert Transcript(after) == Transcript(e) + pushed;
    ConfidentialGrows(e, after, pushed);
  }

  lemma PublishIsConfidential(registry: RegistryState, e: Endpoint, order: seq<string>, now: Instant)
    requires Confidential(e)
    ensures Confidential(PublishIn(registry, e, order, now).endpoint)
  {
    var after := PublishIn(registry, e, order, now).endpoint;
    var pushed := after.session.outbox[|e.session.outbox|..];
    assert Transcript(after) == Transcript(e) + pushed;
    assert forall i :: 0 <= i < |pushed| ==> pushed[i].TargetList?;
    ConfidentialGrows(e, after, pushed);
  }

  lemma QuietStepIsConfidential(registry: RegistryState, e: Endpoint, step: SessionStep)
    requires Confidential(e) && (step.Hello? || step.Drain?)
    ensures Confidential(ActOnSession(registry, e, step).endpoint)
  {
    var after := ActOnSession(registry, e, step).endpoint;
    assert Transcript(after) == Transcript(e);
    assert after.session.boundTargets == e.session.boundTargets;
  }

  lemma OtherStepIsConfidential(registry: RegistryState, e: Endpoint, step: SessionStep)
    requires Confidential(e) && !step.Command?
    ensures Confidential(ActOnSession(registry, e, step).endpoint)
  {
    match step {
      case Bind(_, _, _) => BindIsConfidential(registry, e, step);
      case FanOutEvent(event) => EventIsConfidential(registry, e, event);
      case FanOutLog(log) => AcceptIsConfidential(registry, e, log.targetId, Log(log.targetId, log));
      case FanOutStateDelta(id, delta) => AcceptIsConfidential(registry, e, id, StateDelta(id, delta));
      case FanOutDroppedCount(id, count) => AcceptIsConfidential(registry, e, id, DroppedCount(id, count));
      case ReconnectTimeout(id, now) =>
        var timedOut := MarkUnavailable(registry, id, RECONNECT_TIMEOUT_REASON, now);
        AcceptIsConfidential(timedOut, e, id, ConnectionChange(id, Unavailable));
      case PublishTargets(order, now) => PublishIsConfidential(registry, e, order, now);
      case _ => QuietStepIsConfidential(registry, e, step);
    }
  }

  /** The command is admitted and its target answers with a result that names a target the session is not bound to. */
  ghost predicate AnsweredForUnbound(registry: RegistryState, s: SessionState, step: SessionStep) {
    && step.Command?
    && var admitted := AdmitCommand(s, step.command, registry, step.now);
       && admitted.Ok?
       && var result := ReadCommandResult(admitted.value, step.commandAnswers.forward, step.now);
          result.Ok? && result.value.targetId !in s.boundTargets
  }

  /** The messages are all about one target. */
  ghost predicate AllAbout(messages: seq<ServerMessage>, id: string) {
    forall i :: 0 <= i < |messages| ==> ReportsOnTarget(messages[i]) && messages[i].targetId == id
  }

  /** Reading a target again, or telling that it is unavailable, adds messages about that target only. */
  lemma RefreshPushesAbout(s: SessionState, from: nat, id: string, registry: RegistryState, answer: IpcAnswer,
                           now: Instant)
    requires from <= |s.outbox| && AllAbout(s.outbox[from..], id)
    ensures var read := RefreshTargetState(s, id, registry, answer, now);
            && s.outbox <= read.session.outbox && AllAbout(read.session.outbox[from..], id)
            && (read.result.Err? ==> read.session == s)
    ensures var told := AcceptConnectionState(s, id, Unavailable).0;
            s.outbox <= told.outbox && AllAbout(told.outbox[from..], id)
  {
    var read := RefreshTargetState(s, id, registry, answer, now).session;
    if read != s {
      assert read.outbox[from..] == s.outbox[from..] + [read.outbox[|s.outbox|]];
    }
    if id in s.boundTargets {
      assert (s.outbox + [ConnectionChange(id, Unavailable)])[from..]
          == s.outbox[from..] + [ConnectionChange(id, Unavailable)];
    }
  }

  /** What forwarding a command pushes is about the target that the result names, and nothing else. */
  lemma ForwardReportsNamedTarget(s: SessionState, prepared: PreparedCommand, path: Path, identity: RemoteIdentity,
                                  registry: RegistryState, answers: CommandAnswers, now: Instant)
    ensures var after := ForwardCommand(s, prepared, path, identity, registry, answers, now).session;
            var result := ReadCommandResult(prepared, answers.forward, now);
            && s.outbox <= after.outbox
            && var pushed := after.outbox[|s.outbox|..];
               if result.Ok? then pushed != [] && AllAbout(pushed, result.value.targetId) else pushed == []
  {
    var result := ReadCommandResult(prepared, answers.forward, now);
    if result.Ok? {
      var id := result.value.targetId;
      var replied := Push(s, [CommandResult(id, result.value)]);
      RefreshPushesAbout(replied, |s.outbox|, id, registry, answers.refresh, now);
    }
  }

  lemma OneTargetIsOnlyAboutIff(messages: seq<ServerMessage>, id: string, ids: set<string>)
    requires messages != [] && AllAbout(messages, id)
    ensures OnlyAbout(messages, ids) <==> id in ids
  {
    assert ReportsOnTarget(messages[0]) && messages[0].targetId == id;
  }

  lemma CommandIsConfidentialIff(registry: RegistryState, e: Endpoint, step: SessionStep)
    requires Confidential(e) && step.Command?
    ensures Confidential(ActOnSession(registry, e, step).endpoint) <==> !AnsweredForUnbound(registry, e.session, step)
  {
    var s, after := e.session, ActOnSession(registry, e, step).endpoint;
    var admitted := AdmitCommand(s, step.command, registry, step.now);
    CommandOnlyPushes(s, step.command, registry, step.commandAnswers, step.now);
    if admitted.Ok? {
      ForwardReportsNamedTarget(s, admitted.value, registry.registrations[step.command.targetId].ipcPath,
                                s.remoteIdentity.value, registry, step.commandAnswers, step.now);
      var result := ReadCommandResult(admitted.value, step.commandAnswers.forward, step.now);
      if result.Ok? {
        OneTargetIsOnlyAboutIff(after.session.outbox[|s.outbox|..], result.value.targetId, s.boundTargets);
      }
    }
    var pushed := after.session.outbox[|s.outbox|..];
    assert Transcript(after) == Transcript(e) + pushed;
    ConfidentialGrows(e, after, pushed);
  }

  ghost predicate AllConfidential(sys: System) {
    forall sid :: sid in sys.endpoints ==> Confidential(sys.endpoints[sid])
  }

  ghost predicate Discloses(sys: System, step: Step) {
    step.OnSession? && step.sid in sys.endpoints &&
    AnsweredForUnbound(sys.registry, sys.endpoints[step.sid].session, step.sessionStep)
  }

  /** A step reports on a target to a session not bound to it exactly when a target answers in that target's name. */
  lemma StepKeepsConfidentialIff(sys: System, step: Step)
    requires AllConfidential(sys)
    ensures AllConfidential(Next(sys, step).0) <==> !Discloses(sys, step)
  {
    match step {
      case OnRegistry(_) =>
      case Connect(sid, identity, sessionId, now) =>
        assert Confidential(NewEndpoint(identity, sessionId, now));
      case OnSession(sid, sessionStep) =>
        if sid in sys.endpoints {
          var e := sys.endpoints[sid];
          assert Confidential(e);
          if sessionStep.Command? {
            CommandIsConfidentialIff(sys.registry, e, sessionStep);
          } else {
            OtherStepIsConfidential(sys.registry, e, sessionStep);
          }
          UpdateConfidential(sys, sid, ActOnSession(sys.registry, e, sessionStep));
        }
    }
  }

  lemma UpdateConfidential(sys: System, sid: nat, action: Action)
    requires AllConfidential(sys)
    ensures AllConfidential(System(action.registry, sys.endpoints[sid := action.endpoint])) <==>
              Confidential(action.endpoint)
  {
    var after := System(action.registry, sys.endpoints[sid := action.endpoint]);
    assert sid in after.endpoints && after.endpoints[sid] == action.endpoint;
  }

  /** A target that answers in its own name discloses nothing: it is bound, or the command would not be forwarded. */
  lemma EchoingStepDisclosesNothing(sys: System, step: Step)
    requires step.OnSession? && step.sessionStep.Command? ==>
               EchoesTarget(step.sessionStep.command.targetId, step.sessionStep.commandAnswers.forward)
    ensures !Discloses(sys, step)
  {
    if step.OnSession? && step.sid in sys.endpoints && step.sessionStep.Command? {
      var s, own := sys.endpoints[step.sid].session, step.sessionStep;
      if AdmitCommand(s, own.command, sys.registry, own.now).Ok? {
        EchoedResultIsOwn(s, sys.registry, own.command, own.commandAnswers.forward, own.now);
      }
    }
  }

  /**
   While targets answer in their own name, every state, event, log, delta, drop count, result and
   connection change that a client is sent, in any run, is about a target bound in that client's session.
   */
  lemma {:induction false} ClientsHearOfBoundTargetsOnly(policy: RegistrationPolicy, steps: seq<Step>)
    requires EchoingTargets(steps)
    ensures AllConfidential(Run(policy, steps))
  {
    if steps != [] {
      var last := |steps| - 1;
      var shorter := steps[..last];
      assert EchoingTargets(shorter) by {
        forall k | 0 <= k < |shorter| ensures shorter[k] == steps[k] {}
      }
      ClientsHearOfBoundTargetsOnly(policy, shorter);
      EchoingStepDisclosesNothing(Run(policy, shorter), steps[last]);
      StepKeepsConfidentialIff(Run(policy, shorter), steps[last]);
    }
  }
}
