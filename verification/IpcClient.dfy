/**
 The target IPC port of src/ipc_client.rs at the level of its requests and decoded responses. A target
 may answer anything: every answer is an input of the call that asks for it.
 */
module IpcClient {
  import opened Basics
  import opened Commands
  import opened Policies
  import opened RegistryModel

  /** The state document of a target, with the one field that the relay reads from it. */
  datatype StatePayload = StatePayload(stateGeneration: Option<u64>, document: string)

  datatype DashboardState = DashboardState(
    targetId: string, stateGeneration: u64, generatedAt: Instant, payload: StatePayload)

  datatype CommandReply = CommandReply(
    commandId: Option<string>, correlationId: Option<string>, targetId: Option<string>,
    accepted: Option<bool>, status: Option<string>)

  datatype IpcResult = IpcResult(
    targetId: Option<string>, state: Option<StatePayload>, commandResult: Option<CommandReply>)

  datatype IpcErrorBody = IpcErrorBody(
    code: Option<string>, stage: Option<string>, targetId: Option<string>, message: Option<string>,
    retryable: Option<bool>)

  datatype IpcResponse = IpcResponse(ok: Option<bool>, result: Option<IpcResult>, error: Option<IpcErrorBody>)

  /** A decoded response line, or the failure to obtain one. */
  type IpcAnswer = RelayResult<IpcResponse>

  datatype IpcRequest =
    | StateRequest(path: Path, targetId: string)
    | EventsSubscribe(path: Path, targetId: string)
    | LogsTail(path: Path, targetId: string)
    | CommandRequest(path: Path, command: PreparedCommand)

  datatype IpcExchange = IpcExchange(request: IpcRequest, answer: IpcAnswer)

  /** Extracts the successful result of a response. */
  function ResponseResult(response: IpcResponse): RelayResult<IpcResult> {
    if GetOr(response.ok, false) then
      match response.result
      case Some(result) => Ok(result)
      case None => Err(NewError("ipc_result_missing", "ipc_response", "IPC response did not include result", false))
    else
      match response.error
      case Some(error) =>
        Err(RelayError(GetOr(error.code, "ipc_error"), GetOr(error.stage, "ipc_response"), error.targetId,
                       GetOr(error.message, "IPC response returned an error"), GetOr(error.retryable, false)))
      case None =>
        Err(NewError("ipc_response_failed", "ipc_response", "IPC response was not successful", false))
  }

  function AnswerResult(answer: IpcAnswer): RelayResult<IpcResult> {
    match answer
    case Err(error) => Err(error)
    case Ok(response) => ResponseResult(response)
  }

  /** Reads a state answer for `targetId`, filling in what the target left out. */
  function ReadState(targetId: string, answer: IpcAnswer, now: Instant): RelayResult<DashboardState> {
    match AnswerResult(answer)
    case Err(error) => Err(error)
    case Ok(result) =>
      match result.state
      case None => Err(TargetError("ipc_state_missing", "ipc_response", targetId,
                                   "state response did not include state payload", false))
      case Some(state) =>
        Ok(DashboardState(GetOr(result.targetId, targetId), GetOr(state.stateGeneration, 0), now, state))
  }

  /** Reads a command answer, filling in what the target left out. `requested_by` is never the target's. */
  function ReadCommandResult(command: PreparedCommand, answer: IpcAnswer, now: Instant)
    : RelayResult<ControlCommandResult>
  {
    match AnswerResult(answer)
    case Err(error) => Err(error)
    case Ok(result) =>
      match result.commandResult
      case None => Err(TargetError("ipc_command_result_missing", "ipc_response", command.targetId,
                                   "command response did not include result payload", false))
      case Some(reply) =>
        Ok(ControlCommandResult(
             GetOr(reply.commandId, command.commandId),
             if reply.correlationId.Some? then reply.correlationId else command.correlationId,
             GetOr(reply.targetId, command.targetId),
             GetOr(reply.accepted, false),
             GetOr(reply.status, "failed"),
             command.requestedBy,
             now))
  }

  datatype BindAnswers = BindAnswers(state: IpcAnswer, events: IpcAnswer, logs: IpcAnswer)

  datatype CommandAnswers = CommandAnswers(forward: IpcAnswer, refresh: IpcAnswer)

  /** The exchanges of a subscription: logs are asked for only once events are granted. */
  function SubscriptionExchanges(r: Registration, answers: BindAnswers): seq<IpcExchange> {
    var events := [IpcExchange(EventsSubscribe(r.ipcPath, r.targetId), answers.events)];
    if AnswerResult(answers.events).Err? then events
    else events + [IpcExchange(LogsTail(r.ipcPath, r.targetId), answers.logs)]
  }

  function SubscriptionResult(answers: BindAnswers): RelayResult<()> {
    match AnswerResult(answers.events)
    case Err(error) => Err(error)
    case Ok(_) =>
      match AnswerResult(answers.logs)
      case Err(error) => Err(error)
      case Ok(_) => Ok(())
  }

  /** The port records every request it sends together with its answer. */
  class TargetIpcPort {
    var exchanges: seq<IpcExchange>

    constructor ()
      ensures exchanges == []
    {
      exchanges := [];
    }

    method ConnectState(registration: Registration, answer: IpcAnswer, now: Instant)
      returns (state: RelayResult<DashboardState>)
      modifies this
      ensures exchanges == old(exchanges) +
        [IpcExchange(StateRequest(registration.ipcPath, registration.targetId), answer)]
      ensures state == ReadState(registration.targetId, answer, now)
    {
      exchanges := exchanges + [IpcExchange(StateRequest(registration.ipcPath, registration.targetId), answer)];
      state := ReadState(registration.targetId, answer, now);
    }

    method SubscribeEventLog(registration: Registration, answers: BindAnswers) returns (result: RelayResult<()>)
      modifies this
      ensures exchanges == old(exchanges) + SubscriptionExchanges(registration, answers)
      ensures result == SubscriptionResult(answers)
    {
      exchanges := exchanges +
        [IpcExchange(EventsSubscribe(registration.ipcPath, registration.targetId), answers.events)];
      var events := AnswerResult(answers.events);
      if events.Err? {
        return Err(events.error);
      }
      exchanges := exchanges + [IpcExchange(LogsTail(registration.ipcPath, registration.targetId), answers.logs)];
      var logs := AnswerResult(answers.logs);
      if logs.Err? {
        return Err(logs.error);
      }
      return Ok(());
    }

    method ForwardCommand(registration: Registration, command: PreparedCommand, answer: IpcAnswer, now: Instant)
      returns (result: RelayResult<ControlCommandResult>)
      modifies this
      ensures exchanges == old(exchanges) + [IpcExchange(CommandRequest(registration.ipcPath, command), answer)]
      ensures result == ReadCommandResult(command, answer, now)
    {
      exchanges := exchanges + [IpcExchange(CommandRequest(registration.ipcPath, command), answer)];
      result := ReadCommandResult(command, answer, now);
    }
  }
}
