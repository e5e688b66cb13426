/**
 Which error every refusal is reported as: the one of the first rule that is broken, in the order in
 which the relay looks at them.
 */
module Refusals {
  import opened Basics
  import opened Commands
  import opened PathLaws
  import opened Policies
  import opened RegistryModel
  import opened RegistryLaws
  import opened IpcClient
  import opened Answers
  import opened SessionModel
  import opened SystemInvariants
  import opened Correspondence
  import opened DriverModel
  import opened Text

  // ---------- registration ----------

  /** Some command of the request has an empty name or no timeout. */
  ghost predicate HasBadCommand(request: RegistrationRequest) {
    exists command :: command in request.supportedCommands && (Trim(command.name) == "" || command.timeoutSeconds == 0)
  }

  /** The error of the first rule that the request breaks by itself, if it breaks one. */
  ghost function RuleBroken(policy: RegistrationPolicy, request: RegistrationRequest): Option<RelayError> {
    var id := request.targetId;
    if Trim(id) == "" then
      Some(RelayError("empty_target_id", "registration", None, "target id must not be empty", false))
    else if !FromRoot(request.ipcPath) then
      Some(RelayError("relative_ipc_path", "registration", Some(id), "IPC path must be absolute", false))
    else if !Permits(policy.allowedIpcPathPrefixes, request.ipcPath) then
      Some(RelayError("ipc_path_not_allowed", "registration", Some(id), "IPC path is outside allowed prefixes", false))
    else if !(1 <= request.leaseSeconds <= policy.maxLeaseSeconds) then
      Some(RelayError("invalid_lease_seconds", "registration", Some(id),
                      "lease seconds must be positive and must not exceed policy max", false))
    else if HasBadCommand(request) then
      Some(RelayError("unsupported_command_schema", "registration", Some(id),
                      "supported command name and timeout must be valid", false))
    else None
  }

  lemma BadCommandMeaning(request: RegistrationRequest)
    ensures HasBadCommand(request) <==>
              exists i :: 0 <= i < |request.supportedCommands| && !ValidCommandSchema(request.supportedCommands[i])
  {
    BlankMeaning();
    if i :| 0 <= i < |request.supportedCommands| && !ValidCommandSchema(request.supportedCommands[i]) {
      assert request.supportedCommands[i] in request.supportedCommands;
    }
  }

  lemma ValidationIsRefusedAs(policy: RegistrationPolicy, request: RegistrationRequest)
    ensures ValidateRequest(policy, request) ==
              match RuleBroken(policy, request) case Some(error) => Err(error) case None => Ok(())
  {
    BlankTrimsToNothing(request.targetId);
    AllowedMeaning(policy, request.ipcPath);
    BadCommandMeaning(request);
    if IsBlank(request.targetId) {
      assert RuleBroken(policy, request).Some?;
    } else if !request.ipcPath.IsAbsolute() {
      assert !FromRoot(request.ipcPath);
    } else if !policy.IpcPathIsAllowed(request.ipcPath) {
      assert !Permits(policy.allowedIpcPathPrefixes, request.ipcPath);
    }
  }

  /** Why a request that is not admissible is refused. */
  ghost function RegistrationRefusal(s: RegistryState, request: RegistrationRequest, owner: string,
                                     keyed: RelayResult<string>): RelayError
  {
    var id, broken := request.targetId, RuleBroken(s.policy, request);
    if broken.Some? then broken.value
    else if keyed.Err? then keyed.error
    else if id in s.registrations && s.registrations[id].ownerIdentity != owner then
      RelayError("target_id_owner_mismatch", "registration", Some(id),
                 "target id is owned by another supervisor identity", false)
    else
      RelayError("ipc_path_conflict", "registration", None, "ipc path is already used by another target", false)
  }

  lemma RegistrationIsRefusedAs(s: RegistryState, request: RegistrationRequest, owner: string,
                                keyed: RelayResult<string>, now: Instant)
    requires !Admissible(s, request, owner, keyed)
    ensures Register(s, request, owner, keyed, now)
         == (s, Returned(Err(RegistrationRefusal(s, request, owner, keyed))))
  {
    ValidationIsRefusedAs(s.policy, request);
    RegisterCharacterised(s, request, owner, keyed, now);
  }

  // ---------- the handshake ----------

  /** The handshake succeeds exactly once, for a store id that is not empty, and says why it does not. */
  lemma HelloCharacterised(s: SessionState, hello: ClientHello, now: Instant)
    ensures AcceptClientHello(s, hello, now) ==
              if Trim(hello.clientStoreId) == "" then
                (s, Err(RelayError("invalid_message_schema", "session", None, "client_store_id must not be empty",
                                   false)))
              else if s.phase != Handshaking then
                (s, Err(RelayError("protocol_error", "session", None, "client_hello is only valid during handshaking",
                                   false)))
              else
                (s.(clientStoreId := Some(hello.clientStoreId), phase := Established, control := ControlState.Granted,
                    lastSeenAt := now), Ok(()))
  {
    BlankMeaning();
  }

  // ---------- binding ----------

  /** A binding that cannot begin changes nothing and is refused for want of a session or of a lease. */
  lemma BindIsRefusedAs(s: SessionState, id: string, registry: RegistryState, answers: BindAnswers, now: Instant)
    requires !LetIn(s) || !HasActiveLease(registry, id, now)
    ensures var effect := BindTarget(s, id, registry, answers, now);
            && effect.session == s && effect.registry == registry && effect.exchanges == []
            && effect.result == Err(if !LetIn(s) then NotLetIn() else Inactive(registry, id))
  {
    ActiveMeaning(registry, id, now);
  }

  function NotLetIn(): RelayError {
    RelayError("session_not_established", "session", None,
               "control session must be established before IPC binding or command forwarding", false)
  }

  function Inactive(registry: RegistryState, id: string): RelayError {
    if id !in registry.registrations then
      RelayError("target_not_registered", "registry", Some(id), "target is not registered", true)
    else
      RelayError("target_unavailable", "registry", Some(id), "target registration is not active", true)
  }

  // ---------- commands ----------

  /** Why a command that is not admitted is refused. */
  function AdmissionRefusal(s: SessionState, command: ClientCommand, registry: RegistryState, now: Instant)
    : RelayError
  {
    var id := command.targetId;
    if !LetIn(s) then NotLetIn()
    else if id !in s.boundTargets then
      RelayError("target_not_bound", "session", Some(id), "target must be bound before command forwarding", false)
    else if !HasActiveLease(registry, id, now) then Inactive(registry, id)
    else if !DeclaredByName(registry, id, command.command) then
      RelayError("unsupported_command", "command_validate", Some(id),
                 "target does not declare support for this command", false)
    else if Trim(command.commandId) == "" then
      RelayError("invalid_message_schema", "command_validate", Some(id), "command_id must not be empty", false)
    else if command.requestedBy.Some? then
      RelayError("requested_by_override", "command_validate", Some(id), "client must not provide requested_by", false)
    else if Trim(command.reason) == "" then
      RelayError("empty_reason", "command_validate", Some(id), "command reason must not be empty", false)
    else
      RelayError("confirmation_required", "command_validate", Some(id), "dangerous command requires confirmed=true",
                 false)
  }

  /** Why a command that is incomplete, claims a requester or lacks its confirmation is refused. */
  lemma PreparationIsRefusedAs(command: ClientCommand, identity: RemoteIdentity, now: Instant)
    ensures var prepared, id := PrepareClientCommand(command, identity, now), command.targetId;
            prepared.Err? ==>
              prepared.error ==
                if Trim(command.commandId) == "" then
                  RelayError("invalid_message_schema", "command_validate", Some(id), "command_id must not be empty",
                             false)
                else if command.requestedBy.Some? then
                  RelayError("requested_by_override", "command_validate", Some(id),
                             "client must not provide requested_by", false)
                else if Trim(command.reason) == "" then
                  RelayError("empty_reason", "command_validate", Some(id), "command reason must not be empty", false)
                else
                  RelayError("confirmation_required", "command_validate", Some(id),
                             "dangerous command requires confirmed=true", false)
  {
    BlankMeaning();
  }

  lemma CommandIsRefusedAs(s: SessionState, command: ClientCommand, registry: RegistryState, now: Instant)
    ensures var admitted := AdmitCommand(s, command, registry, now);
            admitted.Err? ==> admitted.error == AdmissionRefusal(s, command, registry, now)
  {
    ActiveMeaning(registry, command.targetId, now);
    if LetIn(s) && HasActiveLease(registry, command.targetId, now) {
      SupportMeaning(registry, command.targetId, command.command);
      PreparationIsRefusedAs(command, s.remoteIdentity.value, now);
      PreparationCharacterised(command, s.remoteIdentity.value, now);
    }
  }

  /** A command that fails reports why: as it was refused before forwarding, or as its target refused it. */
  lemma CommandFailsAs(s: SessionState, command: ClientCommand, registry: RegistryState, answers: CommandAnswers,
                       now: Instant)
    ensures var result := HandleCommand(s, command, registry, answers, now).result;
            result.Err? ==>
              result.error == if AdmitCommand(s, command, registry, now).Err?
                              then AdmissionRefusal(s, command, registry, now)
                              else if YieldsResult(answers.forward) then result.error
                              else ResultRefusal(command.targetId, answers.forward)
  {
    CommandIsRefusedAs(s, command, registry, now);
    var admitted := AdmitCommand(s, command, registry, now);
    if admitted.Ok? {
      AdmittedIsGated(s, command, registry, now);
      ResultMeaning(admitted.value, answers.forward, now);
    }
  }

  // ---------- connections ----------

  /** What a client is sent for a command: its result and what follows, or the error it failed with. */
  lemma CommandIsServedAs(s: SessionState, inbound: Inbound)
    requires s.outbox == [] && InStep(inbound.at.registry)
    requires inbound.message.Ok? && inbound.message.value.CommandMessage?
    ensures var command, registry, now := inbound.message.value.command, inbound.at.registry, inbound.at.now;
            var answer := inbound.answers.forward;
            Serve(s, inbound).1 ==
              if AdmitCommand(s, command, registry, now).Err? then
                [ErrorReport(AdmissionRefusal(s, command, registry, now))]
              else if !YieldsResult(answer) then
                [ErrorReport(ResultRefusal(command.targetId, answer))]
              else
                var result := ReportedResult(command.commandId, command.correlationId, command.targetId,
                                             Who(s).principal, answer, now);
                [CommandResult(result.targetId, result)] + FollowUp(s, result.targetId, registry, inbound.answers)
  {
    var command, registry, now := inbound.message.value.command, inbound.at.registry, inbound.at.now;
    CommandSucceedsIff(s, command, registry, inbound.answers, now);
    if HandleCommand(s, command, registry, inbound.answers, now).result.Err? {
      CommandFailsAs(s, command, registry, inbound.answers, now);
      FailedCommandIsQuiet(s, command, registry, inbound.answers, now);
      FailureIsServed(s, inbound);
    } else {
      SuccessIsServed(s, inbound);
      ResultIsServed(s, command, registry, inbound.answers, now);
    }
  }

  lemma CommandSucceedsIff(s: SessionState, command: ClientCommand, registry: RegistryState, answers: CommandAnswers,
                           now: Instant)
    requires InStep(registry)
    ensures HandleCommand(s, command, registry, answers, now).result.Ok? <==>
              AdmitCommand(s, command, registry, now).Ok? && YieldsResult(answers.forward)
  {
    CommandCharacterised(s, command, registry, answers, now);
  }

  lemma ResultIsServed(s: SessionState, command: ClientCommand, registry: RegistryState, answers: CommandAnswers,
                       now: Instant)
    requires InStep(registry) && s.outbox == []
    requires HandleCommand(s, command, registry, answers, now).result.Ok?
    ensures YieldsResult(answers.forward)
    ensures var result := ReportedResult(command.commandId, command.correlationId, command.targetId, Who(s).principal,
                                         answers.forward, now);
            HandleCommand(s, command, registry, answers, now).session.outbox
              == [CommandResult(result.targetId, result)] + FollowUp(s, result.targetId, registry, answers)
  {
    CommandCharacterised(s, command, registry, answers, now);
    var result := HandleCommand(s, command, registry, answers, now).result.value;
    var reply := [CommandResult(result.targetId, result)] + FollowUp(s, result.targetId, registry, answers);
    assert s.outbox + reply == reply;
  }

  lemma FailureIsServed(s: SessionState, inbound: Inbound)
    requires inbound.message.Ok? && inbound.message.value.CommandMessage?
    requires var effect := HandleCommand(s, inbound.message.value.command, inbound.at.registry, inbound.answers,
                                         inbound.at.now);
             effect.result.Err? && effect.session.outbox == []
    ensures Serve(s, inbound).1
         == [ErrorReport(HandleCommand(s, inbound.message.value.command, inbound.at.registry, inbound.answers,
                                       inbound.at.now).result.error)]
  {
  }

  lemma SuccessIsServed(s: SessionState, inbound: Inbound)
    requires inbound.message.Ok? && inbound.message.value.CommandMessage?
    requires HandleCommand(s, inbound.message.value.command, inbound.at.registry, inbound.answers,
                           inbound.at.now).result.Ok?
    ensures Serve(s, inbound).1
         == HandleCommand(s, inbound.message.value.command, inbound.at.registry, inbound.answers,
                          inbound.at.now).session.outbox
  {
  }

  lemma FailedCommandIsQuiet(s: SessionState, command: ClientCommand, registry: RegistryState, answers: CommandAnswers,
                             now: Instant)
    ensures var effect := HandleCommand(s, command, registry, answers, now);
            effect.result.Err? ==> effect.session == s
  {
    if HandleCommand(s, command, registry, answers, now).result.Err? {
      FailedCommandChangesNothing(s, command, registry, answers, now);
    }
  }

  /** What a client is sent for a message out of place. */
  lemma MisplacedMessages(s: SessionState, inbound: Inbound)
    ensures inbound.message.Err? ==> Serve(s, inbound) == (s, [ErrorReport(inbound.message.error)])
    ensures inbound.message == Ok(LogEventFilterConditions) ==> Serve(s, inbound) == (s, [])
    ensures inbound.message.Ok? && inbound.message.value.HelloMessage? ==>
              Serve(s, inbound) ==
                (s, [ErrorReport(RelayError("protocol_error", "session", None,
                                            "client_hello is only valid as the first client message", false))])
  {
  }

  /** How a connection ends: as its stream does if it is let in, and otherwise for want of an acceptable hello. */
  lemma ConnectionEndsAs(c: Conversation)
    requires ListingIsPossible(c)
    ensures var (transcript, result) := Converse(c);
            match c.first
            case None =>
              result == Err(RelayError("protocol_error", "session", None,
                                       "client_hello is required before business messages", false))
            case Some(Err(error)) => result == Err(error)
            case Some(Ok(HelloMessage(hello))) =>
              result == if Trim(hello.clientStoreId) != "" then c.ending
                        else Err(RelayError("invalid_message_schema", "session", None,
                                            "client_store_id must not be empty", false))
            case Some(Ok(_)) =>
              && result == Ok(())
              && transcript[|transcript| - 1] ==
                   ErrorReport(RelayError("protocol_error", "session", None,
                                          "client_hello must be the first client message", false))
  {
    BlankMeaning();
  }
}
