/** What the audit log of a session tells about the commands it forwarded, and what it leaves out. */
module AuditTrail {
  import opened Basics
  import opened Commands
  import opened Policies
  import opened RegistryModel
  import opened IpcClient
  import opened Answers
  import opened Audit
  import opened SessionModel
  import opened SystemModel
  import opened SystemInvariants
  import opened Correspondence

  // ---------- forwards and their entries ----------

  /** The commands that were forwarded, with their answers, in order. */
  function ForwardsOf(exchanges: seq<IpcExchange>): (forwards: seq<IpcExchange>)
    ensures forall k :: 0 <= k < |forwards| ==> forwards[k] in exchanges && forwards[k].request.CommandRequest?
  {
    if exchanges == [] then []
    else
      var x := exchanges[|exchanges| - 1];
      ForwardsOf(exchanges[..|exchanges| - 1]) + if x.request.CommandRequest? then [x] else []
  }

  ghost predicate IsAbout(entry: AuditEvent, principal: string, command: PreparedCommand) {
    && entry.identityPrincipal == principal
    && entry.commandId == command.commandId && entry.targetId == command.targetId
    && entry.command == command.command && entry.childPath == command.childPath
    && entry.reason == command.reason && entry.occurredAt == command.requestedAt
  }

  /**
   Two entries account for a forward: both are about its command and name the principal; the first
   says accepted; the second says completed, with the status of the result, if the answer carries one,
   and otherwise rejected, with the message of the refusal.
   */
  ghost predicate AccountsFor(first: AuditEvent, second: AuditEvent, principal: string, forward: IpcExchange)
    requires forward.request.CommandRequest?
  {
    && IsAbout(first, principal, forward.request.command)
    && IsAbout(second, principal, forward.request.command)
    && first.result == Accepted && first.detail == "accepted"
    && if YieldsResult(forward.answer) then
         && second.result == Completed
         && var status := YieldedReply(forward.answer).status;
            second.detail == if status.Some? then status.value else "failed"
       else
         && second.result == AuditResult.Rejected
         && second.detail == ResultRefusal(forward.request.command.targetId, forward.answer).message
  }

  /** The log consists of adjacent pairs, and the k-th pair accounts for the k-th forward. */
  ghost predicate IsTrailOf(audit: seq<AuditEvent>, principal: string, forwards: seq<IpcExchange>)
    requires forall k :: 0 <= k < |forwards| ==> forwards[k].request.CommandRequest?
  {
    && |audit| == 2 * |forwards|
    && forall k :: 0 <= k < |forwards| ==> AccountsFor(audit[2 * k], audit[2 * k + 1], principal, forwards[k])
  }

  lemma TrailExtends(audit: seq<AuditEvent>, pair: seq<AuditEvent>, principal: string, forwards: seq<IpcExchange>,
                     x: IpcExchange)
    requires forall k :: 0 <= k < |forwards| ==> forwards[k].request.CommandRequest?
    requires IsTrailOf(audit, principal, forwards)
    requires x.request.CommandRequest? && |pair| == 2 && AccountsFor(pair[0], pair[1], principal, x)
    ensures IsTrailOf(audit + pair, principal, forwards + [x])
  {
    forall k | 0 <= k < |forwards + [x]|
      ensures AccountsFor((audit + pair)[2 * k], (audit + pair)[2 * k + 1], principal, (forwards + [x])[k])
    {
      if k < |forwards| {
        assert AccountsFor(audit[2 * k], audit[2 * k + 1], principal, forwards[k]);
      }
    }
  }

  lemma {:induction false} AuditIsPairs(identity: RemoteIdentity, exchanges: seq<IpcExchange>)
    ensures IsTrailOf(AuditOf(identity, exchanges), identity.principal, ForwardsOf(exchanges))
  {
    if exchanges != [] {
      var shorter, x := exchanges[..|exchanges| - 1], exchanges[|exchanges| - 1];
      AuditIsPairs(identity, shorter);
      if x.request.CommandRequest? {
        ResultMeaning(x.request.command, x.answer, x.request.command.requestedAt);
        TrailExtends(AuditOf(identity, shorter), AuditPair(identity, x.request.command, x.answer), identity.principal,
                     ForwardsOf(shorter), x);
      }
    }
  }

  // ---------- completions and results ----------

  /** The completed entries of an audit log, in order. */
  function CompletedIn(audit: seq<AuditEvent>): seq<AuditEvent> {
    if audit == [] then []
    else
      var last := audit[|audit| - 1];
      CompletedIn(audit[..|audit| - 1]) + if last.result == Completed then [last] else []
  }

  lemma {:induction false} CompletedInAppend(xs: seq<AuditEvent>, ys: seq<AuditEvent>)
    ensures CompletedIn(xs + ys) == CompletedIn(xs) + CompletedIn(ys)
  {
    if ys == [] {
      assert xs + ys == xs;
    } else {
      assert (xs + ys)[..|xs + ys| - 1] == xs + ys[..|ys| - 1];
      CompletedInAppend(xs, ys[..|ys| - 1]);
    }
  }

  /** The entries report the statuses and times of the results, one for one and in order. */
  ghost predicate Report(entries: seq<AuditEvent>, results: seq<ControlCommandResult>) {
    && |entries| == |results|
    && forall k :: 0 <= k < |results| ==>
         entries[k].detail == results[k].status && entries[k].occurredAt == results[k].completedAt
  }

  lemma PairReports(identity: RemoteIdentity, x: IpcExchange)
    requires x.request.CommandRequest?
    ensures Report(CompletedIn(AuditPair(identity, x.request.command, x.answer)), ResultsOf([x]))
  {
    var pair := AuditPair(identity, x.request.command, x.answer);
    assert [x][..0] == [];
    assert pair[..1][..0] == [] && pair[..1] == [pair[0]];
    assert CompletedIn(pair[..1]) == [];
    assert CompletedIn(pair) == if pair[1].result == Completed then [pair[1]] else [];
  }

  lemma {:induction false} CompletionsMatchResults(identity: RemoteIdentity, exchanges: seq<IpcExchange>)
    ensures Report(CompletedIn(AuditOf(identity, exchanges)), ResultsOf(exchanges))
  {
    if exchanges != [] {
      var shorter, x := exchanges[..|exchanges| - 1], exchanges[|exchanges| - 1];
      CompletionsMatchResults(identity, shorter);
      if x.request.CommandRequest? {
        assert exchanges == shorter + [x];
        ResultsOfAppend(shorter, [x]);
        PairReports(identity, x);
        CompletedInAppend(AuditOf(identity, shorter), AuditPair(identity, x.request.command, x.answer));
      } else {
        assert AuditOf(identity, exchanges) == AuditOf(identity, shorter);
        assert ResultsOf(exchanges) == ResultsOf(shorter);
      }
    }
  }

  // ---------- every session, in every run ----------

  /**
   The audit log of any session in any run: its k-th pair of entries accounts for the k-th command the
   session forwarded, a rejection exactly where the answer carried no result, and its completed entries
   report the results the client was sent, one for one and in order.
   */
  lemma AuditLogIsFaithful(policy: RegistrationPolicy, steps: seq<Step>, sid: nat)
    requires sid in Run(policy, steps).endpoints
    ensures var e := Run(policy, steps).endpoints[sid];
            && IsTrailOf(e.audit, Principal(e), ForwardsOf(e.exchanges))
            && Report(CompletedIn(e.audit), ResultsIn(Transcript(e)))
  {
    RunIsSound(policy, steps);
    var e := Run(policy, steps).endpoints[sid];
    assert Accounted(e);
    AuditIsPairs(Who(e.session), e.exchanges);
    CompletionsMatchResults(Who(e.session), e.exchanges);
  }

  // ---------- what the log leaves out ----------

  /** The command failed, or its target did not say that it accepted it, or reported it as rejected. */
  predicate Refused(result: RelayResult<ControlCommandResult>) {
    result.Err? || !result.value.accepted || result.value.status == "rejected"
  }

  predicate HasEntry(audited: seq<AuditEvent>, result: AuditResult) {
    exists entry :: entry in audited && entry.result == result
  }

  /** The answer carries a result that does not say the target accepted the command, or has the status rejected. */
  predicate DeclinesInResult(answer: IpcAnswer) {
    && YieldsResult(answer)
    && (YieldedReply(answer).accepted != Some(true) || YieldedReply(answer).status == Some("rejected"))
  }

  /**
   The documented rule that every refused command is audited as rejected holds of a command exactly when
   the command is admitted and its target does not decline it in a result; one that is not admitted
   leaves no entry at all, and one declined in a result leaves a completed one.
   */
  lemma RefusalIsAuditedIff(s: SessionState, command: ClientCommand, registry: RegistryState, answers: CommandAnswers,
                            now: Instant)
    ensures var effect := HandleCommand(s, command, registry, answers, now);
            var admitted := AdmitCommand(s, command, registry, now).Ok?;
            && ((Refused(effect.result) ==> HasEntry(effect.audited, AuditResult.Rejected)) <==>
                  admitted && !DeclinesInResult(answers.forward))
            && (!admitted ==> effect.audited == [])
            && (admitted ==>
                  (Refused(effect.result) && HasEntry(effect.audited, Completed) <==>
                     DeclinesInResult(answers.forward)))
  {
    var admitted := AdmitCommand(s, command, registry, now);
    if admitted.Ok? {
      ForwardRefusals(s, admitted.value, registry.registrations[command.targetId].ipcPath, s.remoteIdentity.value,
                      registry, answers, now);
    }
  }

  lemma ForwardRefusals(s: SessionState, prepared: PreparedCommand, path: Path, identity: RemoteIdentity,
                        registry: RegistryState, answers: CommandAnswers, now: Instant)
    ensures var effect := ForwardCommand(s, prepared, path, identity, registry, answers, now);
            && (HasEntry(effect.audited, AuditResult.Rejected) <==> effect.result.Err?)
            && (HasEntry(effect.audited, Completed) <==> effect.result.Ok?)
            && (effect.result.Ok? && Refused(effect.result) <==> DeclinesInResult(answers.forward))
  {
    var effect := ForwardCommand(s, prepared, path, identity, registry, answers, now);
    ResultMeaning(prepared, answers.forward, now);
    assert effect.audited[1] in effect.audited;
    assert "failed" != "rejected" by {
      assert "failed"[0] != "rejected"[0];
    }
  }
}
