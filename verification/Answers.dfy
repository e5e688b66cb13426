/**
 What a target's answer means to the relay, in terms of the fields of the response alone: whether it
 grants the request, what it then yields, and as which error it is reported otherwise.
 */
module Answers {
  import opened Basics
  import opened Commands
  import opened IpcClient

  /** The target said yes and sent a result. Everything else is a refusal. */
  predicate Grants(answer: IpcAnswer) {
    answer.Ok? && answer.value.ok == Some(true) && answer.value.result.Some?
  }

  /** The error under which a refusal is reported: the target's own words, where it has any. */
  function Refusal(answer: IpcAnswer): RelayError
    requires !Grants(answer)
  {
    if answer.Err? then answer.error
    else if answer.value.ok == Some(true) then
      RelayError("ipc_result_missing", "ipc_response", None, "IPC response did not include result", false)
    else if answer.value.error.None? then
      RelayError("ipc_response_failed", "ipc_response", None, "IPC response was not successful", false)
    else
      var words := answer.value.error.value;
      RelayError(
        if words.code.Some? then words.code.value else "ipc_error",
        if words.stage.Some? then words.stage.value else "ipc_response",
        words.targetId,
        if words.message.Some? then words.message.value else "IPC response returned an error",
        words.retryable == Some(true))
  }

  /** An answer is read as its result exactly when it grants the request, and as its refusal otherwise. */
  lemma AnswerMeaning(answer: IpcAnswer)
    ensures AnswerResult(answer).Ok? <==> Grants(answer)
    ensures AnswerResult(answer) == if Grants(answer) then Ok(answer.value.result.value) else Err(Refusal(answer))
  {
  }

  // ---------- states ----------

  predicate YieldsState(answer: IpcAnswer) {
    Grants(answer) && answer.value.result.value.state.Some?
  }

  function YieldedState(answer: IpcAnswer): StatePayload
    requires YieldsState(answer)
  {
    answer.value.result.value.state.value
  }

  /** The generation that the state names, or zero. */
  function YieldedGeneration(answer: IpcAnswer): u64
    requires YieldsState(answer)
  {
    var generation := YieldedState(answer).stateGeneration;
    if generation.Some? then generation.value else 0
  }

  /** Why the state of target `id` could not be read. */
  function StateRefusal(id: string, answer: IpcAnswer): RelayError
    requires !YieldsState(answer)
  {
    if Grants(answer) then
      RelayError("ipc_state_missing", "ipc_response", Some(id),
                 "state response did not include state payload", false)
    else Refusal(answer)
  }

  lemma StateMeaning(id: string, answer: IpcAnswer, now: Instant)
    ensures var state := ReadState(id, answer, now);
            && (state.Ok? <==> YieldsState(answer))
            && (state.Ok? ==>
                  && state.value.payload == YieldedState(answer)
                  && state.value.stateGeneration == YieldedGeneration(answer)
                  && state.value.generatedAt == now)
            && (state.Err? ==> state.error == StateRefusal(id, answer))
  {
    AnswerMeaning(answer);
  }

  // ---------- command results ----------

  predicate YieldsResult(answer: IpcAnswer) {
    Grants(answer) && answer.value.result.value.commandResult.Some?
  }

  function YieldedReply(answer: IpcAnswer): CommandReply
    requires YieldsResult(answer)
  {
    answer.value.result.value.commandResult.value
  }

  /** The result that a reply amounts to: what the reply leaves out is the command's, or the worst. */
  function ReportedResult(commandId: string, correlationId: Option<string>, targetId: string, principal: string,
                          answer: IpcAnswer, now: Instant): ControlCommandResult
    requires YieldsResult(answer)
  {
    var reply := YieldedReply(answer);
    ControlCommandResult(
      if reply.commandId.Some? then reply.commandId.value else commandId,
      if reply.correlationId.Some? then reply.correlationId else correlationId,
      if reply.targetId.Some? then reply.targetId.value else targetId,
      reply.accepted == Some(true),
      if reply.status.Some? then reply.status.value else "failed",
      principal,
      now)
  }

  /** Why a command sent to target `id` has no result. */
  function ResultRefusal(id: string, answer: IpcAnswer): RelayError
    requires !YieldsResult(answer)
  {
    if Grants(answer) then
      RelayError("ipc_command_result_missing", "ipc_response", Some(id),
                 "command response did not include result payload", false)
    else Refusal(answer)
  }

  lemma ResultMeaning(command: PreparedCommand, answer: IpcAnswer, now: Instant)
    ensures ReadCommandResult(command, answer, now) ==
              if YieldsResult(answer) then
                Ok(ReportedResult(command.commandId, command.correlationId, command.targetId, command.requestedBy,
                                  answer, now))
              else
                Err(ResultRefusal(command.targetId, answer))
  {
    AnswerMeaning(answer);
  }

  /** The target itself reported, in so many words, that it accepted and completed the command. */
  predicate SaysCompleted(answer: IpcAnswer) {
    && YieldsResult(answer)
    && YieldedReply(answer).accepted == Some(true)
    && YieldedReply(answer).status == Some("completed")
  }

  /** The answer names no target, or the one the command was sent to. */
  predicate EchoesTarget(targetId: string, answer: IpcAnswer) {
    YieldsResult(answer) ==> YieldedReply(answer).targetId in {None, Some(targetId)}
  }

  /** The answer names no command, or the one that was sent. */
  predicate EchoesCommand(commandId: string, answer: IpcAnswer) {
    YieldsResult(answer) ==> YieldedReply(answer).commandId in {None, Some(commandId)}
  }
}
