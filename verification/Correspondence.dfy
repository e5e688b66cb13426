/**
 What a session asks of targets, what it audits and what it replies, over every interleaving of any
 number of sessions with the registration loop: the exchange log determines the audit log and the
 replies, and no exchange escapes the gates.
 */
module Correspondence {
  import opened Basics
  import opened Commands
  import opened Policies
  import opened RegistryModel
  import opened IpcClient
  import opened Answers
  import opened Audit
  import opened SessionModel
  import opened SystemModel
  import opened SystemInvariants
  import opened RunHistory
  import opened RegistryLaws
  import opened Text

  // ---------- what the exchange log says happened ----------

  /** The audit entries that one forwarded command must leave. */
  function AuditPair(identity: RemoteIdentity, command: PreparedCommand, answer: IpcAnswer): seq<AuditEvent> {
    var now := command.requestedAt;
    [Entry(identity, command, Accepted, "accepted", now)] +
    match ReadCommandResult(command, answer, now)
    case Ok(result) => [Entry(identity, command, Completed, result.status, now)]
    case Err(error) => [Entry(identity, command, AuditResult.Rejected, error.message, now)]
  }

  /** The whole audit log, computed from the exchanges alone. */
  function AuditOf(identity: RemoteIdentity, exchanges: seq<IpcExchange>): seq<AuditEvent> {
    if exchanges == [] then []
    else
      var x := exchanges[|exchanges| - 1];
      AuditOf(identity, exchanges[..|exchanges| - 1]) +
      if x.request.CommandRequest? then AuditPair(identity, x.request.command, x.answer) else []
  }

  /** The results that targets returned, in order, computed from the exchanges alone. */
  function ResultsOf(exchanges: seq<IpcExchange>): seq<ControlCommandResult> {
    if exchanges == [] then []
    else
      var x := exchanges[|exchanges| - 1];
      ResultsOf(exchanges[..|exchanges| - 1]) +
      if x.request.CommandRequest? then
        match ReadCommandResult(x.request.command, x.answer, x.request.command.requestedAt)
        case Ok(result) => [result]
        case Err(_) => []
      else []
  }

  /** The results that a client was sent, in order. */
  function ResultsIn(messages: seq<ServerMessage>): seq<ControlCommandResult> {
    if messages == [] then []
    else
      var m := messages[|messages| - 1];
      ResultsIn(messages[..|messages| - 1]) + if m.CommandResult? then [m.result] else []
  }

  lemma {:induction false} AuditOfAppend(identity: RemoteIdentity, xs: seq<IpcExchange>, ys: seq<IpcExchange>)
    ensures AuditOf(identity, xs + ys) == AuditOf(identity, xs) + AuditOf(identity, ys)
  {
    if ys == [] {
      assert xs + ys == xs;
    } else {
      assert (xs + ys)[..|xs + ys| - 1] == xs + ys[..|ys| - 1];
      AuditOfAppend(identity, xs, ys[..|ys| - 1]);
    }
  }

  lemma {:induction false} ResultsOfAppend(xs: seq<IpcExchange>, ys: seq<IpcExchange>)
    ensures ResultsOf(xs + ys) == ResultsOf(xs) + ResultsOf(ys)
  {
    if ys == [] {
      assert xs + ys == xs;
    } else {
      assert (xs + ys)[..|xs + ys| - 1] == xs + ys[..|ys| - 1];
      ResultsOfAppend(xs, ys[..|ys| - 1]);
    }
  }

  lemma {:induction false} ResultsInAppend(xs: seq<ServerMessage>, ys: seq<ServerMessage>)
    ensures ResultsIn(xs + ys) == ResultsIn(xs) + ResultsIn(ys)
  {
    if ys == [] {
      assert xs + ys == xs;
    } else {
      assert (xs + ys)[..|xs + ys| - 1] == xs + ys[..|ys| - 1];
      ResultsInAppend(xs, ys[..|ys| - 1]);
    }
  }

  // ---------- gates ----------

  /** The session has an identity, made its handshake, and was granted control. */
  predicate LetIn(s: SessionState) {
    s.phase == Established && s.control == ControlState.Granted && s.remoteIdentity.Some?
  }

  /** A successful state read at `j`, then both subscriptions granted, all for `id` under one path. */
  ghost predicate SubscribedAt(xs: seq<IpcExchange>, id: string, j: nat) {
    && j + 2 < |xs|
    && xs[j].request.StateRequest? && xs[j].request.targetId == id && YieldsState(xs[j].answer)
    && xs[j + 1].request == EventsSubscribe(xs[j].request.path, id) && Grants(xs[j + 1].answer)
    && xs[j + 2].request == LogsTail(xs[j].request.path, id) && Grants(xs[j + 2].answer)
  }

  ghost predicate Subscribed(xs: seq<IpcExchange>, id: string) {
    exists j: nat :: SubscribedAt(xs, id, j)
  }

  lemma SubscribedStays(xs: seq<IpcExchange>, ys: seq<IpcExchange>, id: string)
    requires Subscribed(xs, id)
    ensures Subscribed(xs + ys, id)
  {
    var j: nat :| SubscribedAt(xs, id, j);
    assert SubscribedAt(xs + ys, id, j);
  }

  ghost predicate ForwardGated(xs: seq<IpcExchange>, principal: string, i: nat)
    requires i < |xs|
  {
    xs[i].request.CommandRequest? ==>
      && Subscribed(xs[..i], xs[i].request.command.targetId)
      && Forwardable(xs[i].request.command, principal)
  }

  /** Every forwarded command came after a subscription to its target and was vetted for `principal`. */
  ghost predicate ForwardsGated(xs: seq<IpcExchange>, principal: string) {
    forall i: nat :: i < |xs| ==> ForwardGated(xs, principal, i)
  }

  lemma ForwardsGatedExtend(xs: seq<IpcExchange>, ys: seq<IpcExchange>, principal: string)
    requires ForwardsGated(xs, principal)
    requires forall i: nat :: i < |ys| ==> !ys[i].request.CommandRequest?
    ensures ForwardsGated(xs + ys, principal)
  {
    forall i: nat | i < |xs + ys| ensures ForwardGated(xs + ys, principal, i) {
      if i < |xs| {
        assert ForwardGated(xs, principal, i);
        assert (xs + ys)[..i] == xs[..i];
      }
    }
  }

  lemma ForwardsGatedForward(xs: seq<IpcExchange>, x: IpcExchange, principal: string)
    requires ForwardsGated(xs, principal) && x.request.CommandRequest?
    requires Subscribed(xs, x.request.command.targetId) && Forwardable(x.request.command, principal)
    ensures ForwardsGated(xs + [x], principal)
  {
    forall i: nat | i < |xs + [x]| ensures ForwardGated(xs + [x], principal, i) {
      if i < |xs| {
        assert ForwardGated(xs, principal, i);
        assert (xs + [x])[..i] == xs[..i];
      } else {
        assert (xs + [x])[..i] == xs;
      }
    }
  }

  // ---------- the invariant of one endpoint ----------

  function Who(s: SessionState): RemoteIdentity {
    match s.remoteIdentity case Some(identity) => identity case None => RemoteIdentity("", "")
  }

  function Principal(e: Endpoint): string {
    Who(e.session).principal
  }

  ghost predicate Gated(e: Endpoint) {
    && (e.exchanges != [] || e.session.boundTargets != {} ==> LetIn(e.session))
    && (forall id :: id in e.session.boundTargets ==> Subscribed(e.exchanges, id))
    && ForwardsGated(e.exchanges, Principal(e))
  }

  ghost predicate Accounted(e: Endpoint) {
    && e.audit == AuditOf(Who(e.session), e.exchanges)
    && ResultsIn(Transcript(e)) == ResultsOf(e.exchanges)
  }

  // ---------- what one session operation adds ----------

  lemma BindExchanges(s: SessionState, id: string, registry: RegistryState, answers: BindAnswers, now: Instant)
    requires InStep(registry)
    ensures var effect := BindTarget(s, id, registry, answers, now);
            && (effect.exchanges != [] || effect.session != s ==> LetIn(s))
            && (forall i :: 0 <= i < |effect.exchanges| ==> !effect.exchanges[i].request.CommandRequest?)
            && (id in effect.session.boundTargets - s.boundTargets ==> SubscribedAt(effect.exchanges, id, 0))
            && effect.session.boundTargets <= s.boundTargets + {id}
            && effect.session.remoteIdentity == s.remoteIdentity
            && (LetIn(s) ==> LetIn(effect.session))
  {
  }

  /** A handled command forwards at most once, and only what it admitted. */
  lemma CommandExchanges(s: SessionState, command: ClientCommand, registry: RegistryState, answers: CommandAnswers,
                         now: Instant)
    ensures var effect := HandleCommand(s, command, registry, answers, now);
            var admitted := AdmitCommand(s, command, registry, now);
            && (admitted.Err? ==> effect == CommandEffect(s, registry, [], [], Err(admitted.error)))
            && (admitted.Ok? ==>
                  && effect.exchanges != []
                  && effect.exchanges[0] == IpcExchange(CommandRequest(
                       registry.registrations[command.targetId].ipcPath, admitted.value), answers.forward)
                  && (forall i :: 1 <= i < |effect.exchanges| ==> !effect.exchanges[i].request.CommandRequest?))
  {
  }

  /**
   Admission in full: a command is forwarded exactly when the session is established and bound to its
   target, the target's lease is active and declares the command, and the command itself is complete,
   claims no requester and is confirmed if it is dangerous.
   */
  lemma AdmissionCharacterised(s: SessionState, command: ClientCommand, registry: RegistryState, now: Instant)
    ensures AdmitCommand(s, command, registry, now).Ok? <==>
            && LetIn(s)
            && command.targetId in s.boundTargets
            && HasActiveLease(registry, command.targetId, now)
            && DeclaredByName(registry, command.targetId, command.command)
            && Trim(command.commandId) != "" && Trim(command.reason) != ""
            && command.requestedBy.None?
            && (command.command in {ShutdownTree, RemoveChild, AddChild} ==> command.confirmed)
  {
    ActiveMeaning(registry, command.targetId, now);
    if LetIn(s) && HasActiveLease(registry, command.targetId, now) {
      SupportMeaning(registry, command.targetId, command.command);
      PreparationCharacterised(command, s.remoteIdentity.value, now);
    }
  }

  /** A command can be forwarded, as far as itself goes, when it is complete, claims no requester and is confirmed. */
  lemma PreparationCharacterised(command: ClientCommand, identity: RemoteIdentity, now: Instant)
    ensures PrepareClientCommand(command, identity, now).Ok? <==>
            && Trim(command.commandId) != "" && Trim(command.reason) != ""
            && command.requestedBy.None?
            && (command.command in {ShutdownTree, RemoveChild, AddChild} ==> command.confirmed)
  {
    BlankMeaning();
  }

  /** The command that is forwarded is the client's own, in every field, with the requester filled in. */
  ghost predicate IsOwnCommand(prepared: PreparedCommand, command: ClientCommand, now: Instant) {
    && prepared.targetId == command.targetId && prepared.requestedAt == now
    && prepared.commandId == command.commandId && prepared.correlationId == command.correlationId
    && prepared.command == command.command && prepared.childPath == command.childPath
    && prepared.reason == command.reason && prepared.confirmed == command.confirmed
  }

  lemma PreparedIsForwardable(command: ClientCommand, identity: RemoteIdentity, now: Instant)
    requires PrepareClientCommand(command, identity, now).Ok?
    ensures var prepared := PrepareClientCommand(command, identity, now).value;
            IsOwnCommand(prepared, command, now) && Forwardable(prepared, identity.principal)
  {
    BlankMeaning();
  }

  /** What admission establishes about the command that is forwarded. */
  lemma AdmittedIsGated(s: SessionState, command: ClientCommand, registry: RegistryState, now: Instant)
    requires AdmitCommand(s, command, registry, now).Ok?
    ensures var prepared := AdmitCommand(s, command, registry, now).value;
            && LetIn(s)
            && IsOwnCommand(prepared, command, now)
            && command.targetId in s.boundTargets
            && HasActiveLease(registry, command.targetId, now)
            && DeclaredByName(registry, command.targetId, prepared.command)
            && Forwardable(prepared, s.remoteIdentity.value.principal)
  {
    AdmissionCharacterised(s, command, registry, now);
    PreparedIsForwardable(command, s.remoteIdentity.value, now);
  }

  /**
   Binding in full: it succeeds exactly when the session is established, the lease is active, and the
   target is bound already or yields its state and grants both subscriptions. A fresh success delivers
   the state that was yielded and records its generation; a failure leaves the session as it was and
   reports why.
   */
  lemma BindCharacterised(s: SessionState, id: string, registry: RegistryState, answers: BindAnswers, now: Instant)
    requires InStep(registry)
    ensures var effect := BindTarget(s, id, registry, answers, now);
            && (effect.result.Ok? <==>
                  && LetIn(s) && HasActiveLease(registry, id, now)
                  && (id in s.boundTargets ||
                      (YieldsState(answers.state) && Grants(answers.events) && Grants(answers.logs))))
            && (effect.result.Err? ==> effect.session == s)
            && (effect.result.Ok? && id in s.boundTargets ==>
                  effect.session == s && effect.registry == registry && effect.exchanges == [])
            && (effect.result.Ok? && id !in s.boundTargets ==>
                  && effect.session == s.(boundTargets := s.boundTargets + {id},
                                          outbox := s.outbox + [State(id, YieldedState(answers.state))],
                                          lastSeenAt := now)
                  && effect.registry == registry.(connections := registry.connections[id :=
                       registry.connections[id].(
                         state := Connected, lastStateGeneration := Some(YieldedGeneration(answers.state)),
                         connectedAt := Some(now), updatedAt := now, lastError := None)]))
  {
    StateMeaning(id, answers.state, now);
    AnswerMeaning(answers.events);
    AnswerMeaning(answers.logs);
  }

  /** What a fresh binding asks, of whom, and when it stops asking. */
  lemma BindAsks(s: SessionState, id: string, registry: RegistryState, answers: BindAnswers, now: Instant)
    requires InStep(registry)
    ensures var effect := BindTarget(s, id, registry, answers, now);
            if !LetIn(s) || !HasActiveLease(registry, id, now) || id in s.boundTargets then
              effect.exchanges == []
            else
              var path := registry.registrations[id].ipcPath;
              effect.exchanges ==
                [IpcExchange(StateRequest(path, id), answers.state)]
                + (if !YieldsState(answers.state) then []
                   else [IpcExchange(EventsSubscribe(path, id), answers.events)]
                        + (if !Grants(answers.events) then []
                           else [IpcExchange(LogsTail(path, id), answers.logs)]))
  {
    StateMeaning(id, answers.state, now);
    AnswerMeaning(answers.events);
  }

  /** A binding that fails after it began leaves its target unavailable, with the reason of the failure. */
  lemma FailedBindSaysWhy(s: SessionState, id: string, registry: RegistryState, answers: BindAnswers, now: Instant)
    requires InStep(registry) && LetIn(s)
    requires HasActiveLease(registry, id, now) && id !in s.boundTargets
    requires !(YieldsState(answers.state) && Grants(answers.events) && Grants(answers.logs))
    ensures var effect := BindTarget(s, id, registry, answers, now);
            var why := if !YieldsState(answers.state) then StateRefusal(id, answers.state)
                       else if !Grants(answers.events) then Refusal(answers.events)
                       else Refusal(answers.logs);
            && effect.result == Err(why)
            && effect.registry.connections[id].state == Unavailable
            && effect.registry.connections[id].lastError == Some(why.message)
  {
    StateMeaning(id, answers.state, now);
    AnswerMeaning(answers.events);
    AnswerMeaning(answers.logs);
  }

  /**
   Handling in full: a command succeeds exactly when it is admitted and its target answers with a
   result; the client gets that result and, only if the target said that it accepted and completed the
   command, the state read again, or word that the target is unavailable if it is bound and cannot be read.
   */
  lemma CommandCharacterised(s: SessionState, command: ClientCommand, registry: RegistryState,
                             answers: CommandAnswers, now: Instant)
    requires InStep(registry)
    ensures var effect := HandleCommand(s, command, registry, answers, now);
            && (effect.result.Ok? <==>
                  AdmitCommand(s, command, registry, now).Ok? && YieldsResult(answers.forward))
            && (effect.result.Ok? ==>
                  && s.remoteIdentity.Some?
                  && effect.result.value ==
                       ReportedResult(command.commandId, command.correlationId, command.targetId,
                                      s.remoteIdentity.value.principal, answers.forward, now)
                  && var result := effect.result.value;
                     && effect.session == Push(s, [CommandResult(result.targetId, result)] +
                                                  FollowUp(s, result.targetId, registry, answers))
                     && effect.registry == Refreshed(registry, result.targetId, answers, now))
  {
    var admitted := AdmitCommand(s, command, registry, now);
    if admitted.Ok? {
      PreparedIsForwardable(command, s.remoteIdentity.value, now);
      ForwardCharacterised(s, admitted.value, registry.registrations[command.targetId].ipcPath, s.remoteIdentity.value,
                           registry, answers, now);
    }
  }

  /** What a command asks, of whom: its target to carry it out, and the one its result names for its state. */
  lemma CommandAsks(s: SessionState, command: ClientCommand, registry: RegistryState, answers: CommandAnswers,
                    now: Instant)
    requires InStep(registry)
    ensures var effect, admitted := HandleCommand(s, command, registry, answers, now),
                                    AdmitCommand(s, command, registry, now);
            if admitted.Err? then effect.exchanges == []
            else
              && command.targetId in registry.registrations
              && effect.exchanges ==
                   [IpcExchange(CommandRequest(registry.registrations[command.targetId].ipcPath, admitted.value),
                                answers.forward)]
                   + Rereads(command.targetId, registry, answers)
  {
    AdmissionCharacterised(s, command, registry, now);
    var admitted := AdmitCommand(s, command, registry, now);
    if admitted.Ok? {
      PreparedIsForwardable(command, s.remoteIdentity.value, now);
      ForwardAsks(s, admitted.value, registry.registrations[command.targetId].ipcPath, s.remoteIdentity.value, registry,
                  answers, now);
    }
  }

  /** The state request that follows a command sent to `id`, if any. */
  function Rereads(id: string, registry: RegistryState, answers: CommandAnswers): seq<IpcExchange> {
    if !SaysCompleted(answers.forward) then []
    else
      var named := if YieldedReply(answers.forward).targetId.Some? then YieldedReply(answers.forward).targetId.value
                   else id;
      if named !in registry.registrations then []
      else [IpcExchange(StateRequest(registry.registrations[named].ipcPath, named), answers.refresh)]
  }

  lemma ForwardAsks(s: SessionState, prepared: PreparedCommand, path: Path, identity: RemoteIdentity,
                    registry: RegistryState, answers: CommandAnswers, now: Instant)
    requires InStep(registry)
    ensures ForwardCommand(s, prepared, path, identity, registry, answers, now).exchanges
         == [IpcExchange(CommandRequest(path, prepared), answers.forward)]
              + Rereads(prepared.targetId, registry, answers)
  {
    ResultMeaning(prepared, answers.forward, now);
  }

  /** What follows a command result that names target `id`. */
  function FollowUp(s: SessionState, id: string, registry: RegistryState, answers: CommandAnswers): seq<ServerMessage> {
    if !SaysCompleted(answers.forward) then []
    else if id in registry.registrations && YieldsState(answers.refresh) then [State(id, YieldedState(answers.refresh))]
    else if id in s.boundTargets then [ConnectionChange(id, Unavailable)]
    else []
  }

  /** The registry after a command result that names target `id`. */
  function Refreshed(registry: RegistryState, id: string, answers: CommandAnswers, now: Instant): RegistryState
    requires InStep(registry)
  {
    if !SaysCompleted(answers.forward) || id !in registry.registrations then registry
    else
      var c := registry.connections[id];
      registry.(connections := registry.connections[id :=
        if YieldsState(answers.refresh) then
          c.(state := Connected, lastStateGeneration := Some(YieldedGeneration(answers.refresh)),
             connectedAt := Some(now), updatedAt := now, lastError := None)
        else
          c.(state := Unavailable, lastError := Some(StateRefusal(id, answers.refresh).message), updatedAt := now)])
  }

  lemma RefreshCharacterised(s: SessionState, id: string, registry: RegistryState, answer: IpcAnswer, now: Instant)
    requires InStep(registry) && id in registry.registrations
    ensures var effect := RefreshTargetState(s, id, registry, answer, now);
            var c := registry.connections[id];
            if YieldsState(answer) then
              && effect.result.Ok? && effect.session == Push(s, [State(id, YieldedState(answer))])
              && effect.registry == registry.(connections := registry.connections[id :=
                   c.(state := Connected, lastStateGeneration := Some(YieldedGeneration(answer)),
                      connectedAt := Some(now), updatedAt := now, lastError := None)])
            else
              && effect.result == Err(StateRefusal(id, answer)) && effect.session == s
              && effect.registry == registry.(connections := registry.connections[id :=
                   c.(state := Unavailable, lastError := Some(StateRefusal(id, answer).message), updatedAt := now)])
  {
    StateMeaning(id, answer, now);
  }

  lemma ForwardCharacterised(s: SessionState, prepared: PreparedCommand, path: Path, identity: RemoteIdentity,
                             registry: RegistryState, answers: CommandAnswers, now: Instant)
    requires InStep(registry)
    ensures var effect := ForwardCommand(s, prepared, path, identity, registry, answers, now);
            && (effect.result.Ok? <==> YieldsResult(answers.forward))
            && (effect.result.Ok? ==>
                  && effect.result.value ==
                       ReportedResult(prepared.commandId, prepared.correlationId, prepared.targetId,
                                      prepared.requestedBy, answers.forward, now)
                  && var result := effect.result.value;
                     && effect.session == Push(s, [CommandResult(result.targetId, result)] +
                                                  FollowUp(s, result.targetId, registry, answers))
                     && effect.registry == Refreshed(registry, result.targetId, answers, now))
  {
    ResultMeaning(prepared, answers.forward, now);
    if YieldsResult(answers.forward) {
      var result := ReadCommandResult(prepared, answers.forward, now).value;
      assert NeedsRefresh(result) <==> SaysCompleted(answers.forward);
      assert s.outbox + ([CommandResult(result.targetId, result)] + FollowUp(s, result.targetId, registry, answers))
          == s.outbox + [CommandResult(result.targetId, result)] + FollowUp(s, result.targetId, registry, answers);
      if result.targetId in registry.registrations {
        RefreshCharacterised(Push(s, [CommandResult(result.targetId, result)]), result.targetId, registry,
                             answers.refresh, now);
      }
    }
  }

  lemma HeadAndTail(xs: seq<IpcExchange>)
    requires xs != []
    requires forall i :: 1 <= i < |xs| ==> !xs[i].request.CommandRequest?
    ensures ResultsOf(xs) == ResultsOf(xs[..1])
    ensures forall identity :: AuditOf(identity, xs) == AuditOf(identity, xs[..1])
  {
    assert xs == xs[..1] + xs[1..];
    QuietExchanges(xs[1..]);
    ResultsOfAppend(xs[..1], xs[1..]);
    forall identity ensures AuditOf(identity, xs) == AuditOf(identity, xs[..1]) {
      AuditOfAppend(identity, xs[..1], xs[1..]);
    }
  }

  lemma {:induction false} QuietExchanges(xs: seq<IpcExchange>)
    requires forall i :: 0 <= i < |xs| ==> !xs[i].request.CommandRequest?
    ensures ResultsOf(xs) == []
    ensures forall identity :: AuditOf(identity, xs) == []
  {
    if xs != [] {
      QuietExchanges(xs[..|xs| - 1]);
    }
  }

  /** The audit entries a handled command leaves are those its exchanges call for. */
  lemma CommandAudits(s: SessionState, command: ClientCommand, registry: RegistryState, answers: CommandAnswers,
                      now: Instant)
    ensures var effect := HandleCommand(s, command, registry, answers, now);
            effect.audited == AuditOf(Who(s), effect.exchanges)
  {
    var effect := HandleCommand(s, command, registry, answers, now);
    var admitted := AdmitCommand(s, command, registry, now);
    CommandExchanges(s, command, registry, answers, now);
    if admitted.Ok? {
      AdmittedIsGated(s, command, registry, now);
      HeadAndTail(effect.exchanges);
      var first := effect.exchanges[..1];
      assert first[..0] == [] && first[0] == effect.exchanges[0];
      assert AuditOf(s.remoteIdentity.value, first)
          == AuditPair(s.remoteIdentity.value, admitted.value, answers.forward);
    }
  }

  lemma ForwardReplies(s: SessionState, prepared: PreparedCommand, path: Path, identity: RemoteIdentity,
                       registry: RegistryState, answers: CommandAnswers, now: Instant)
    ensures var effect := ForwardCommand(s, prepared, path, identity, registry, answers, now);
            ResultsIn(effect.session.outbox) == ResultsIn(s.outbox) +
              match ReadCommandResult(prepared, answers.forward, now)
              case Ok(result) => [result]
              case Err(_) => []
  {
    var result := ReadCommandResult(prepared, answers.forward, now);
    if result.Ok? {
      var replied := Push(s, [CommandResult(result.value.targetId, result.value)]);
      assert replied.outbox[..|replied.outbox| - 1] == s.outbox;
      RefreshReplies(replied, result.value.targetId, registry, answers.refresh, now);
    }
  }

  /** The replies a handled command pushes carry exactly the results its exchanges returned. */
  lemma CommandReplies(s: SessionState, command: ClientCommand, registry: RegistryState, answers: CommandAnswers,
                       now: Instant)
    ensures var effect := HandleCommand(s, command, registry, answers, now);
            ResultsIn(effect.session.outbox) == ResultsIn(s.outbox) + ResultsOf(effect.exchanges)
  {
    var effect := HandleCommand(s, command, registry, answers, now);
    var admitted := AdmitCommand(s, command, registry, now);
    CommandExchanges(s, command, registry, answers, now);
    if admitted.Ok? {
      AdmittedIsGated(s, command, registry, now);
      HeadAndTail(effect.exchanges);
      var first := effect.exchanges[..1];
      assert first[..0] == [] && first[0] == effect.exchanges[0];
      ForwardReplies(s, admitted.value, registry.registrations[command.targetId].ipcPath, s.remoteIdentity.value,
                     registry, answers, now);
    }
  }

  lemma RefreshReplies(s: SessionState, id: string, registry: RegistryState, answer: IpcAnswer, now: Instant)
    ensures var effect := RefreshTargetState(s, id, registry, answer, now);
            && ResultsIn(effect.session.outbox) == ResultsIn(s.outbox)
            && ResultsIn(AcceptConnectionState(s, id, Unavailable).0.outbox) == ResultsIn(s.outbox)
            && (effect.result.Err? ==> effect.session == s)
  {
    var effect := RefreshTargetState(s, id, registry, answer, now);
    if effect.session != s {
      assert effect.session.outbox[..|effect.session.outbox| - 1] == s.outbox;
    }
    if id in s.boundTargets {
      assert (s.outbox + [ConnectionChange(id, Unavailable)])[..|s.outbox|] == s.outbox;
    }
  }

  // ---------- preservation ----------

  /** Adding one gated forward and then requests that forward nothing. */
  lemma GatedForwardExtends(xs: seq<IpcExchange>, ys: seq<IpcExchange>, principal: string, ids: set<string>)
    requires ForwardsGated(xs, principal) && ys != []
    requires forall id :: id in ids ==> Subscribed(xs, id)
    requires ys[0].request.CommandRequest? && ys[0].request.command.targetId in ids
    requires Forwardable(ys[0].request.command, principal)
    requires forall i :: 1 <= i < |ys| ==> !ys[i].request.CommandRequest?
    ensures ForwardsGated(xs + ys, principal)
    ensures forall id :: id in ids ==> Subscribed(xs + ys, id)
  {
    ForwardsGatedForward(xs, ys[0], principal);
    ForwardsGatedExtend(xs + [ys[0]], ys[1..], principal);
    assert xs + ys == xs + [ys[0]] + ys[1..];
    forall id | id in ids ensures Subscribed(xs + ys, id) {
      SubscribedStays(xs, ys, id);
    }
  }

  lemma GatedTransfers(e: Endpoint, after: Endpoint)
    requires Gated(e) && after.exchanges == e.exchanges
    requires after.session.boundTargets == e.session.boundTargets
    requires after.session.remoteIdentity == e.session.remoteIdentity
    requires LetIn(e.session) ==> LetIn(after.session)
    ensures Gated(after)
  {
  }

  /** The endpoint after its session sent `ys`, one gated forward and then requests that forward nothing. */
  lemma GatedAfterForward(e: Endpoint, after: Endpoint, ys: seq<IpcExchange>)
    requires Gated(e) && LetIn(e.session) && after.exchanges == e.exchanges + ys && ys != []
    requires after.session == e.session.(outbox := after.session.outbox)
    requires ys[0].request.CommandRequest? && ys[0].request.command.targetId in e.session.boundTargets
    requires Forwardable(ys[0].request.command, Principal(e))
    requires forall i :: 1 <= i < |ys| ==> !ys[i].request.CommandRequest?
    ensures Gated(after)
  {
    GatedForwardExtends(e.exchanges, ys, Principal(e), e.session.boundTargets);
  }

  lemma CommandKeepsGated(registry: RegistryState, e: Endpoint, step: SessionStep)
    requires Gated(e) && step.Command?
    ensures Gated(ActOnSession(registry, e, step).endpoint)
  {
    var command, answers, now := step.command, step.commandAnswers, step.now;
    var effect := HandleCommand(e.session, command, registry, answers, now);
    var after := ActOnSession(registry, e, step).endpoint;
    CommandExchanges(e.session, command, registry, answers, now);
    CommandOnlyPushes(e.session, command, registry, answers, now);
    if AdmitCommand(e.session, command, registry, now).Ok? {
      AdmittedIsGated(e.session, command, registry, now);
      GatedAfterForward(e, after, effect.exchanges);
    } else {
      GatedTransfers(e, after);
    }
  }

  /** Adding the requests of a binding, which forward nothing, and perhaps the target they subscribe to. */
  lemma GatedBindExtends(xs: seq<IpcExchange>, ys: seq<IpcExchange>, principal: string, ids: set<string>,
                         more: set<string>, id: string)
    requires ForwardsGated(xs, principal)
    requires forall bound :: bound in ids ==> Subscribed(xs, bound)
    requires forall i :: 0 <= i < |ys| ==> !ys[i].request.CommandRequest?
    requires more <= ids + {id} && (id in more - ids ==> SubscribedAt(ys, id, 0))
    ensures ForwardsGated(xs + ys, principal)
    ensures forall bound :: bound in more ==> Subscribed(xs + ys, bound)
  {
    ForwardsGatedExtend(xs, ys, principal);
    forall bound | bound in more ensures Subscribed(xs + ys, bound) {
      if bound in ids {
        SubscribedStays(xs, ys, bound);
      } else {
        assert SubscribedAt(xs + ys, bound, |xs|);
      }
    }
  }

  /** The endpoint after a binding whose requests are `ys`. */
  lemma GatedAfterBind(e: Endpoint, after: Endpoint, ys: seq<IpcExchange>, id: string)
    requires Gated(e) && after.exchanges == e.exchanges + ys
    requires ys != [] || after.session != e.session ==> LetIn(e.session)
    requires after.session.remoteIdentity == e.session.remoteIdentity
    requires LetIn(e.session) ==> LetIn(after.session)
    requires forall i :: 0 <= i < |ys| ==> !ys[i].request.CommandRequest?
    requires after.session.boundTargets <= e.session.boundTargets + {id}
    requires id in after.session.boundTargets - e.session.boundTargets ==> SubscribedAt(ys, id, 0)
    ensures Gated(after)
  {
    GatedBindExtends(e.exchanges, ys, Principal(e), e.session.boundTargets, after.session.boundTargets, id);
  }

  lemma BindKeepsGated(registry: RegistryState, e: Endpoint, step: SessionStep)
    requires InStep(registry) && Gated(e) && step.Bind?
    ensures Gated(ActOnSession(registry, e, step).endpoint)
  {
    var effect := BindTarget(e.session, step.targetId, registry, step.bindAnswers, step.now);
    BindExchanges(e.session, step.targetId, registry, step.bindAnswers, step.now);
    GatedAfterBind(e, ActOnSession(registry, e, step).endpoint, effect.exchanges, step.targetId);
  }

  /** Steps other than commands and bindings send no request and change neither the bound set nor the identity. */
  lemma QuietStepKeepsGates(registry: RegistryState, e: Endpoint, step: SessionStep)
    requires !step.Command? && !step.Bind?
    ensures var after := ActOnSession(registry, e, step).endpoint;
            && after.exchanges == e.exchanges
            && after.session.boundTargets == e.session.boundTargets
            && after.session.remoteIdentity == e.session.remoteIdentity
            && (LetIn(e.session) ==> LetIn(after.session))
  {
  }

  lemma StepKeepsGated(registry: RegistryState, e: Endpoint, step: SessionStep)
    requires InStep(registry) && Gated(e)
    ensures Gated(ActOnSession(registry, e, step).endpoint)
  {
    if step.Command? {
      CommandKeepsGated(registry, e, step);
    } else if step.Bind? {
      BindKeepsGated(registry, e, step);
    } else {
      QuietStepKeepsGates(registry, e, step);
      GatedTransfers(e, ActOnSession(registry, e, step).endpoint);
    }
  }

  /** Messages other than command results leave the results a client was sent as they are. */
  lemma PushKeepsResults(before: seq<ServerMessage>, pushed: seq<ServerMessage>)
    requires forall i :: 0 <= i < |pushed| ==> !pushed[i].CommandResult?
    ensures ResultsIn(before + pushed) == ResultsIn(before)
  {
    if pushed == [] {
      assert before + pushed == before;
    } else {
      var shorter := pushed[..|pushed| - 1];
      assert (before + pushed)[..|before + pushed| - 1] == before + shorter;
      PushKeepsResults(before, shorter);
    }
  }

  lemma OtherStepKeepsResults(registry: RegistryState, e: Endpoint, step: SessionStep)
    requires !step.Command?
    ensures var after := ActOnSession(registry, e, step).endpoint;
            && ResultsIn(Transcript(after)) == ResultsIn(Transcript(e))
            && after.audit == e.audit
            && after.session.remoteIdentity == e.session.remoteIdentity
  {
    var after := ActOnSession(registry, e, step).endpoint;
    if step.Drain? {
      assert Transcript(after) == Transcript(e);
    } else {
      var pushed := OtherStepPushes(registry, e, step);
      assert Transcript(after) == Transcript(e) + pushed;
      assert forall i :: 0 <= i < |pushed| ==> PushKind(step, pushed[i]);
      PushKeepsResults(Transcript(e), pushed);
    }
  }

  lemma ResultsExtend(sent: seq<ServerMessage>, before: seq<ServerMessage>, after: seq<ServerMessage>,
                      xs: seq<IpcExchange>, ys: seq<IpcExchange>)
    requires ResultsIn(sent + before) == ResultsOf(xs)
    requires ResultsIn(after) == ResultsIn(before) + ResultsOf(ys)
    ensures ResultsIn(sent + after) == ResultsOf(xs + ys)
  {
    ResultsInAppend(sent, before);
    ResultsInAppend(sent, after);
    ResultsOfAppend(xs, ys);
    Associate(ResultsIn(sent), ResultsIn(before), ResultsOf(ys));
  }

  lemma Associate<T>(a: seq<T>, b: seq<T>, c: seq<T>)
    ensures (a + b) + c == a + (b + c)
  {
  }

  /** Adding exchanges together with the audit entries and replies they call for. */
  lemma AccountedExtends(e: Endpoint, session: SessionState, exchanges: seq<IpcExchange>, audited: seq<AuditEvent>)
    requires Accounted(e) && session.remoteIdentity == e.session.remoteIdentity
    requires audited == AuditOf(Who(e.session), exchanges)
    requires ResultsIn(session.outbox) == ResultsIn(e.session.outbox) + ResultsOf(exchanges)
    ensures Accounted(Endpoint(session, e.audit + audited, e.exchanges + exchanges, e.sent))
  {
    AuditOfAppend(Who(e.session), e.exchanges, exchanges);
    ResultsExtend(e.sent, e.session.outbox, session.outbox, e.exchanges, exchanges);
  }

  lemma CommandKeepsAccounted(registry: RegistryState, e: Endpoint, step: SessionStep)
    requires Accounted(e) && step.Command?
    ensures Accounted(ActOnSession(registry, e, step).endpoint)
  {
    var command, answers, now := step.command, step.commandAnswers, step.now;
    var effect := HandleCommand(e.session, command, registry, answers, now);
    CommandOnlyPushes(e.session, command, registry, answers, now);
    CommandAudits(e.session, command, registry, answers, now);
    CommandReplies(e.session, command, registry, answers, now);
    AccountedExtends(e, effect.session, effect.exchanges, effect.audited);
  }

  /** Adding exchanges that forward nothing, with no entries and no replies. */
  lemma AccountedByQuiet(e: Endpoint, after: Endpoint, exchanges: seq<IpcExchange>)
    requires Accounted(e) && after.exchanges == e.exchanges + exchanges && after.audit == e.audit
    requires after.session.remoteIdentity == e.session.remoteIdentity
    requires ResultsIn(Transcript(after)) == ResultsIn(Transcript(e))
    requires forall i :: 0 <= i < |exchanges| ==> !exchanges[i].request.CommandRequest?
    ensures Accounted(after)
  {
    QuietExchanges(exchanges);
    AuditOfAppend(Who(e.session), e.exchanges, exchanges);
    ResultsOfAppend(e.exchanges, exchanges);
  }

  lemma BindKeepsAccounted(registry: RegistryState, e: Endpoint, step: SessionStep)
    requires InStep(registry) && Accounted(e) && step.Bind?
    ensures Accounted(ActOnSession(registry, e, step).endpoint)
  {
    OtherStepKeepsResults(registry, e, step);
    BindExchanges(e.session, step.targetId, registry, step.bindAnswers, step.now);
    AccountedByQuiet(e, ActOnSession(registry, e, step).endpoint,
                     BindTarget(e.session, step.targetId, registry, step.bindAnswers, step.now).exchanges);
  }

  lemma OtherStepKeepsAccounted(registry: RegistryState, e: Endpoint, step: SessionStep)
    requires Accounted(e) && !step.Command? && !step.Bind?
    ensures Accounted(ActOnSession(registry, e, step).endpoint)
  {
    OtherStepKeepsResults(registry, e, step);
    assert ActOnSession(registry, e, step).endpoint.exchanges == e.exchanges;
  }

  lemma StepKeepsAccounted(registry: RegistryState, e: Endpoint, step: SessionStep)
    requires InStep(registry) && Accounted(e)
    ensures Accounted(ActOnSession(registry, e, step).endpoint)
  {
    if step.Command? {
      CommandKeepsAccounted(registry, e, step);
    } else if step.Bind? {
      BindKeepsAccounted(registry, e, step);
    } else {
      OtherStepKeepsAccounted(registry, e, step);
    }
  }

  ghost predicate Sound(sys: System) {
    forall sid :: sid in sys.endpoints ==> Gated(sys.endpoints[sid]) && Accounted(sys.endpoints[sid])
  }

  lemma SoundUpdate(sys: System, sid: nat, registry: RegistryState, e: Endpoint)
    requires Sound(sys) && Gated(e) && Accounted(e)
    ensures Sound(System(registry, sys.endpoints[sid := e]))
  {
  }

  lemma StepKeepsSound(sys: System, step: Step)
    requires InStep(sys.registry) && Sound(sys)
    ensures Sound(Next(sys, step).0)
  {
    match step {
      case OnRegistry(_) =>
      case Connect(sid, identity, sessionId, now) =>
        var e := NewEndpoint(identity, sessionId, now);
        assert Gated(e) && Accounted(e);
        SoundUpdate(sys, sid, sys.registry, e);
      case OnSession(sid, sessionStep) =>
        if sid in sys.endpoints {
          var e := sys.endpoints[sid];
          var action := ActOnSession(sys.registry, e, sessionStep);
          StepKeepsGated(sys.registry, e, sessionStep);
          StepKeepsAccounted(sys.registry, e, sessionStep);
          SoundUpdate(sys, sid, action.registry, action.endpoint);
        }
    }
  }

  /**
   In every reachable state, for every session: it has exchanged nothing before its handshake; each
   forwarded command follows a state read and both subscriptions for its target in that session, and
   was vetted for the session's principal; the audit log is exactly the one its exchanges call for;
   and the results its client was sent are exactly those its targets returned, in order.
   */
  lemma {:induction false} RunIsSound(policy: RegistrationPolicy, steps: seq<Step>)
    ensures Sound(Run(policy, steps))
  {
    if steps != [] {
      var shorter := steps[..|steps| - 1];
      RunIsSound(policy, shorter);
      RunIsSafe(policy, shorter);
      StepKeepsSound(Run(policy, shorter), steps[|steps| - 1]);
    }
  }

  // ---------- reading the correspondence ----------

  /** Whatever targets answer, every result a client is sent names the session's own principal as requester. */
  lemma ResultsBearPrincipal(policy: RegistrationPolicy, steps: seq<Step>, sid: nat)
    requires sid in Run(policy, steps).endpoints
    ensures var e := Run(policy, steps).endpoints[sid];
            forall i :: 0 <= i < |ResultsIn(Transcript(e))| ==> ResultsIn(Transcript(e))[i].requestedBy == Principal(e)
  {
    RunIsSound(policy, steps);
    var e := Run(policy, steps).endpoints[sid];
    assert Gated(e) && Accounted(e);
    GatedResultsBearPrincipal(e.exchanges, Principal(e));
  }

  lemma {:induction false} GatedResultsBearPrincipal(xs: seq<IpcExchange>, principal: string)
    requires ForwardsGated(xs, principal)
    ensures forall i :: 0 <= i < |ResultsOf(xs)| ==> ResultsOf(xs)[i].requestedBy == principal
  {
    if xs != [] {
      var last := |xs| - 1;
      var shorter := xs[..last];
      forall i: nat | i < last ensures ForwardGated(shorter, principal, i) {
        assert ForwardGated(xs, principal, i);
        assert shorter[..i] == xs[..i];
      }
      GatedResultsBearPrincipal(shorter, principal);
      assert ForwardGated(xs, principal, last);
    }
  }

  /** A command that fails leaves the session as it was; one that fails before forwarding touches nothing at all. */
  lemma FailedCommandChangesNothing(s: SessionState, command: ClientCommand, registry: RegistryState,
                                    answers: CommandAnswers, now: Instant)
    requires HandleCommand(s, command, registry, answers, now).result.Err?
    ensures var effect := HandleCommand(s, command, registry, answers, now);
            && effect.session == s
            && effect.registry == registry
            && (effect.exchanges == [] <==> AdmitCommand(s, command, registry, now).Err?)
            && (effect.audited == [] <==> AdmitCommand(s, command, registry, now).Err?)
  {
  }

  // ---------- at the moment of forwarding ----------

  /**
   What a step forwards is the command that the client sent at that step; its target's lease is active
   then, the target declares the command, the session is bound to it, and the request goes to the path
   registered at that moment.
   */
  lemma ForwardedAtTheRightMoment(policy: RegistrationPolicy, steps: seq<Step>, k: nat, sid: nat, i: nat)
    requires k < |steps| && sid in At(policy, steps, k).endpoints
    requires var before := At(policy, steps, k).endpoints[sid].exchanges;
             var after := At(policy, steps, k + 1).endpoints;
             && sid in after
             && |before| <= i < |after[sid].exchanges|
             && after[sid].exchanges[i].request.CommandRequest?
    ensures var registry := At(policy, steps, k).registry;
            var request := At(policy, steps, k + 1).endpoints[sid].exchanges[i].request;
            var id := request.command.targetId;
            && steps[k].OnSession? && steps[k].sid == sid && steps[k].sessionStep.Command?
            && IsOwnCommand(request.command, steps[k].sessionStep.command, steps[k].sessionStep.now)
            && HasActiveLease(registry, id, steps[k].sessionStep.now)
            && id in At(policy, steps, k).endpoints[sid].session.boundTargets
            && DeclaredByName(registry, id, request.command.command)
            && request.path == registry.registrations[id].ipcPath
  {
    RunUnrolls(policy, steps, k);
    EndpointsAfter(At(policy, steps, k), steps[k], sid);
    if steps[k].OnSession? && steps[k].sid == sid {
      OneStepForwards(At(policy, steps, k).registry, At(policy, steps, k).endpoints[sid], steps[k].sessionStep, i);
    }
  }

  lemma BindForwardsNothing(registry: RegistryState, e: Endpoint, step: SessionStep, i: nat)
    requires InStep(registry) && step.Bind?
    requires |e.exchanges| <= i < |ActOnSession(registry, e, step).endpoint.exchanges|
    ensures !ActOnSession(registry, e, step).endpoint.exchanges[i].request.CommandRequest?
  {
    BindExchanges(e.session, step.targetId, registry, step.bindAnswers, step.now);
  }

  lemma CommandForwards(registry: RegistryState, e: Endpoint, step: SessionStep, i: nat)
    requires step.Command?
    requires var after := ActOnSession(registry, e, step).endpoint.exchanges;
             |e.exchanges| <= i < |after| && after[i].request.CommandRequest?
    ensures var request := ActOnSession(registry, e, step).endpoint.exchanges[i].request;
            var id := request.command.targetId;
            && IsOwnCommand(request.command, step.command, step.now)
            && HasActiveLease(registry, id, step.now)
            && id in e.session.boundTargets
            && DeclaredByName(registry, id, request.command.command)
            && request.path == registry.registrations[id].ipcPath
  {
    CommandExchanges(e.session, step.command, registry, step.commandAnswers, step.now);
    if AdmitCommand(e.session, step.command, registry, step.now).Ok? {
      AdmittedIsGated(e.session, step.command, registry, step.now);
    }
  }

  lemma OneStepForwards(registry: RegistryState, e: Endpoint, step: SessionStep, i: nat)
    requires InStep(registry)
    requires var after := ActOnSession(registry, e, step).endpoint.exchanges;
             |e.exchanges| <= i < |after| && after[i].request.CommandRequest?
    ensures var request := ActOnSession(registry, e, step).endpoint.exchanges[i].request;
            var id := request.command.targetId;
            && step.Command?
            && IsOwnCommand(request.command, step.command, step.now)
            && HasActiveLease(registry, id, step.now)
            && id in e.session.boundTargets
            && DeclaredByName(registry, id, request.command.command)
            && request.path == registry.registrations[id].ipcPath
  {
    if step.Command? {
      CommandForwards(registry, e, step, i);
    } else if step.Bind? {
      BindForwardsNothing(registry, e, step, i);
    } else {
      QuietStepKeepsGates(registry, e, step);
    }
  }

  // ---------- connection messages ----------

  /** Every connection message a session step adds to the transcript agrees with the registry it leaves. */
  lemma StepConnectionMessagesAgree(registry: RegistryState, e: Endpoint, step: SessionStep)
    requires InStep(registry) && BoundAreRegistered(registry, e)
    ensures var action := ActOnSession(registry, e, step);
            && Transcript(e) <= Transcript(action.endpoint)
            && forall i :: |Transcript(e)| <= i < |Transcript(action.endpoint)| ==>
                 MessageAgrees(action.registry, Transcript(action.endpoint)[i])
  {
    var action := ActOnSession(registry, e, step);
    if step.Drain? {
      assert Transcript(action.endpoint) == Transcript(e);
    } else if step.Command? {
      CommandMessagesAgree(registry, e.session, step.command, step.commandAnswers, step.now);
    } else if step.ReconnectTimeout? {
      TimeoutMessagesAgree(registry, e, step);
    } else {
      OtherMessagesAgree(registry, e, step);
    }
  }

  lemma TimeoutMessagesAgree(registry: RegistryState, e: Endpoint, step: SessionStep)
    requires InStep(registry) && BoundAreRegistered(registry, e) && step.ReconnectTimeout?
    ensures var action := ActOnSession(registry, e, step);
            && Transcript(e) <= Transcript(action.endpoint)
            && forall i :: |Transcript(e)| <= i < |Transcript(action.endpoint)| ==>
                 MessageAgrees(action.registry, Transcript(action.endpoint)[i])
  {
  }

  lemma OtherMessagesAgree(registry: RegistryState, e: Endpoint, step: SessionStep)
    requires !step.Command? && !step.Drain? && !step.ReconnectTimeout?
    ensures var action := ActOnSession(registry, e, step);
            && Transcript(e) <= Transcript(action.endpoint)
            && forall i :: |Transcript(e)| <= i < |Transcript(action.endpoint)| ==>
                 !Transcript(action.endpoint)[i].ConnectionChange?
  {
    var pushed := OtherStepPushes(registry, e, step);
    PushedMessagesAgree(e, ActOnSession(registry, e, step).endpoint, step, pushed);
  }

  lemma PushedMessagesAgree(e: Endpoint, after: Endpoint, step: SessionStep, pushed: seq<ServerMessage>)
    requires Pushes(e, after, step, pushed) && !step.ReconnectTimeout?
    ensures Transcript(e) <= Transcript(after)
    ensures forall i :: |Transcript(e)| <= i < |Transcript(after)| ==> !Transcript(after)[i].ConnectionChange?
  {
    assert Transcript(after) == Transcript(e) + pushed;
    forall i | |Transcript(e)| <= i < |Transcript(after)| ensures !Transcript(after)[i].ConnectionChange? {
      assert PushKind(step, pushed[i - |Transcript(e)|]);
    }
  }

  ghost predicate MessageAgrees(registry: RegistryState, m: ServerMessage) {
    m.ConnectionChange? ==>
      m.targetId in registry.connections && registry.connections[m.targetId].state == m.connection
  }

  lemma ForwardMessagesAgree(registry: RegistryState, s: SessionState, prepared: PreparedCommand, path: Path,
                             identity: RemoteIdentity, answers: CommandAnswers, now: Instant)
    requires InStep(registry) && s.boundTargets <= registry.registrations.Keys
    ensures var effect := ForwardCommand(s, prepared, path, identity, registry, answers, now);
            && s.outbox <= effect.session.outbox
            && forall i :: |s.outbox| <= i < |effect.session.outbox| ==>
                 MessageAgrees(effect.registry, effect.session.outbox[i])
  {
    var result := ReadCommandResult(prepared, answers.forward, now);
    if result.Ok? && NeedsRefresh(result.value) {
      RefreshSettles(Push(s, [CommandResult(result.value.targetId, result.value)]), result.value.targetId, registry,
                     answers.refresh, now);
    }
  }

  lemma CommandMessagesAgree(registry: RegistryState, s: SessionState, command: ClientCommand, answers: CommandAnswers,
                             now: Instant)
    requires InStep(registry) && s.boundTargets <= registry.registrations.Keys
    ensures var effect := HandleCommand(s, command, registry, answers, now);
            && s.outbox <= effect.session.outbox
            && forall i :: |s.outbox| <= i < |effect.session.outbox| ==>
                 MessageAgrees(effect.registry, effect.session.outbox[i])
  {
    var admitted := AdmitCommand(s, command, registry, now);
    if admitted.Ok? {
      ForwardMessagesAgree(registry, s, admitted.value, registry.registrations[command.targetId].ipcPath,
                           s.remoteIdentity.value, answers, now);
    }
  }

  /** Along every run, each connection message agrees with the registry at the step that produced it. */
  lemma ConnectionMessagesAgree(policy: RegistrationPolicy, steps: seq<Step>, k: nat, sid: nat)
    requires k < |steps| && sid in At(policy, steps, k).endpoints
    ensures var before, after := At(policy, steps, k).endpoints[sid], At(policy, steps, k + 1);
            && sid in after.endpoints
            && Transcript(before) <= Transcript(after.endpoints[sid])
            && forall i :: |Transcript(before)| <= i < |Transcript(after.endpoints[sid])| ==>
                 MessageAgrees(after.registry, Transcript(after.endpoints[sid])[i])
  {
    RunUnrolls(policy, steps, k);
    var sys := At(policy, steps, k);
    EndpointsAfter(sys, steps[k], sid);
    if steps[k].OnSession? && steps[k].sid == sid {
      assert BoundAreRegistered(sys.registry, sys.endpoints[sid]);
      StepConnectionMessagesAgree(sys.registry, sys.endpoints[sid], steps[k].sessionStep);
    }
  }
}
