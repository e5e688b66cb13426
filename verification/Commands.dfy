/** Control commands (src/command.rs): validation and binding of the requesting identity. */
module Commands {
  import opened Basics
  import opened Text

  datatype ControlCommandName =
    | RestartChild | PauseChild | ResumeChild | QuarantineChild | RemoveChild | AddChild | ShutdownTree
  {
    function WireName(): string {
      match this
      case RestartChild => "restart_child"
      case PauseChild => "pause_child"
      case ResumeChild => "resume_child"
      case QuarantineChild => "quarantine_child"
      case RemoveChild => "remove_child"
      case AddChild => "add_child"
      case ShutdownTree => "shutdown_tree"
    }

    predicate RequiresConfirmation() {
      ShutdownTree? || RemoveChild? || AddChild?
    }
  }

  /** The authenticated operator; the certificate fields it was derived from are not modelled. */
  datatype RemoteIdentity = RemoteIdentity(clientIdentity: string, principal: string)

  datatype ClientCommand = ClientCommand(
    commandId: string, correlationId: Option<string>, targetId: string, command: ControlCommandName,
    childPath: Option<string>, reason: string, confirmed: bool, requestedBy: Option<string>)

  datatype PreparedCommand = PreparedCommand(
    commandId: string, correlationId: Option<string>, targetId: string, command: ControlCommandName,
    childPath: Option<string>, reason: string, requestedBy: string, confirmed: bool, requestedAt: Instant)

  datatype ControlCommandResult = ControlCommandResult(
    commandId: string, correlationId: Option<string>, targetId: string, accepted: bool, status: string,
    requestedBy: string, completedAt: Instant)

  /** Validates a client command and derives who requested it. */
  function PrepareClientCommand(command: ClientCommand, identity: RemoteIdentity, now: Instant)
    : RelayResult<PreparedCommand>
  {
    if IsBlank(command.commandId) then
      Err(TargetError("invalid_message_schema", "command_validate", command.targetId,
                      "command_id must not be empty", false))
    else if command.requestedBy.Some? then
      Err(TargetError("requested_by_override", "command_validate", command.targetId,
                      "client must not provide requested_by", false))
    else if IsBlank(command.reason) then
      Err(TargetError("empty_reason", "command_validate", command.targetId,
                      "command reason must not be empty", false))
    else if command.command.RequiresConfirmation() && !command.confirmed then
      Err(TargetError("confirmation_required", "command_validate", command.targetId,
                      "dangerous command requires confirmed=true", false))
    else
      Ok(PreparedCommand(command.commandId, command.correlationId, command.targetId, command.command,
                         command.childPath, command.reason, identity.principal, command.confirmed, now))
  }

  /** What the relay promises about every command it forwards on behalf of `principal`. */
  predicate Forwardable(prepared: PreparedCommand, principal: string) {
    && prepared.requestedBy == principal
    && Trim(prepared.commandId) != ""
    && Trim(prepared.reason) != ""
    && (prepared.command in {ShutdownTree, RemoveChild, AddChild} ==> prepared.confirmed)
  }
}
