/**
 Concrete runs that reach what the relay does not promise, one for each promise that holds only under a
 condition: a foreign reply, a late refusal, a parted expiry, an inexact lease, a clock that runs back.
 */
module Witnesses {
  import opened Basics
  import opened Commands
  import opened Policies
  import opened RegistryModel
  import opened IpcClient
  import opened Answers
  import opened SessionModel
  import opened SystemModel
  import opened SystemInvariants
  import opened RunHistory
  import Audit
  import opened SweepTransparency
  import AuditTrail
  import Confidentiality
  import Correspondence
  import ExpiryMatch
  import RegistryLaws
  import opened Text

  const RUN := Path([RootDir, Normal("run")])
  const SOCKET_A := Path([RootDir, Normal("run"), Normal("a.sock")])
  const SOCKET_B := Path([RootDir, Normal("run"), Normal("b.sock")])
  const KEY_A: RelayResult<string> := Ok("/run/a.sock")
  const KEY_B: RelayResult<string> := Ok("/run/b.sock")
  const LISTEN := Path([RootDir, Normal("run"), Normal("relay.sock")])
  const POLICY := RegistrationPolicy(LISTEN, "0600", [RUN], 30, 120)
  const RESTART := SupportedCommand("restart_child", false, 30)
  const LONG := RegistrationRequest("a", "a", SOCKET_A, 120, [RESTART])
  const SHORT := RegistrationRequest("b", "b", SOCKET_B, 1, [])
  const OPERATOR := RemoteIdentity("client", "operator")
  const STATE_ANSWER: IpcAnswer :=
    Ok(IpcResponse(Some(true), Some(IpcResult(None, Some(StatePayload(Some(7), "{}")), None)), None))
  const REPLY_AS_B := CommandReply(None, None, Some("b"), Some(true), Some("completed"))
  const ANSWER_AS_B: IpcAnswer := Ok(IpcResponse(Some(true), Some(IpcResult(None, None, Some(REPLY_AS_B))), None))
  const COMMAND := ClientCommand("c", None, "a", RestartChild, None, "why", false, None)
  const LATER: Instant := 2 * NANOS_PER_SECOND

  const CONNECT: Step := Connect(0, Some(OPERATOR), "session", 0)
  const HELLO: Step := OnSession(0, Hello(ClientHello("store"), 0))
  const BIND_ANSWERS := BindAnswers(STATE_ANSWER, STATE_ANSWER, STATE_ANSWER)
  const FORWARD := Command(COMMAND, CommandAnswers(ANSWER_AS_B, STATE_ANSWER), LATER)

  lemma RunSnoc(policy: RegistrationPolicy, steps: seq<Step>, step: Step)
    ensures Run(policy, steps + [step]) == Next(Run(policy, steps), step).0
  {
    assert (steps + [step])[..|steps|] == steps;
  }

  lemma RequestsAreValid()
    ensures ValidateRequest(POLICY, LONG).Ok? && ValidateRequest(POLICY, SHORT).Ok?
  {
    assert !IsWhitespace(LONG.targetId[0]) && !IsWhitespace(SHORT.targetId[0]) && !IsWhitespace(RESTART.name[0]);
    assert SOCKET_A.components[..2] == RUN.components && SOCKET_B.components[..2] == RUN.components;
    assert RUN in POLICY.allowedIpcPathPrefixes && SOCKET_A.StartsWith(RUN) && SOCKET_B.StartsWith(RUN);
    assert ValidCommandSchema(RESTART);
  }

  /** A long-leased target that can be commanded, and a short-leased one. */
  ghost predicate BothRegistered(s: RegistryState) {
    && InStep(s) && "a" in s.registrations && "b" in s.registrations
    && s.registrations["a"].registrationState == Active && s.registrations["b"].registrationState == Active
    && s.registrations["a"].supportedCommands == [RESTART]
    && s.registrations["a"].expiresAt == 120 * NANOS_PER_SECOND
    && s.registrations["b"].expiresAt == NANOS_PER_SECOND
  }

  lemma FirstRegisters() returns (s: RegistryState)
    ensures s == RegistryModel.Register(EmptyRegistry(POLICY), LONG, "owner", KEY_A, 0).0
    ensures InStep(s) && s.policy == POLICY && s.registrations.Keys == {"a"}
    ensures s.registrations["a"].registrationState == Active && s.registrations["a"].ipcPathKey == "/run/a.sock"
    ensures s.registrations["a"].supportedCommands == [RESTART]
    ensures s.registrations["a"].expiresAt == 120 * NANOS_PER_SECOND
  {
    RequestsAreValid();
    s := RegistryModel.Register(EmptyRegistry(POLICY), LONG, "owner", KEY_A, 0).0;
  }

  lemma SecondRegisters(one: RegistryState)
    requires InStep(one) && one.policy == POLICY && one.registrations.Keys == {"a"}
    requires one.registrations["a"].registrationState == Active && one.registrations["a"].ipcPathKey == "/run/a.sock"
    requires one.registrations["a"].supportedCommands == [RESTART]
    requires one.registrations["a"].expiresAt == 120 * NANOS_PER_SECOND
    ensures BothRegistered(RegistryModel.Register(one, SHORT, "owner", KEY_B, 0).0)
  {
    RequestsAreValid();
    assert "/run/a.sock"[5] != "/run/b.sock"[5];
    assert "a"[0] != "b"[0];
    assert !KeyHeldByOther(one, "b", "/run/b.sock");
    RegistryLaws.RegisterWrites(one, SHORT, "owner", KEY_B, 0);
  }

  lemma TargetsRegister() returns (steps: seq<Step>)
    ensures Run(POLICY, steps).endpoints == map[] && BothRegistered(Run(POLICY, steps).registry)
    ensures EchoingTargets(steps)
  {
    var first := OnRegistry(Register(LONG, "owner", KEY_A, 0));
    var second := OnRegistry(Register(SHORT, "owner", KEY_B, 0));
    var one := FirstRegisters();
    SecondRegisters(one);
    RunSnoc(POLICY, [], first);
    RunSnoc(POLICY, [] + [first], second);
    steps := [] + [first] + [second];
  }

  lemma EchoingSnoc(steps: seq<Step>, step: Step)
    requires EchoingTargets(steps) && !(step.OnSession? && step.sessionStep.Command?)
    ensures EchoingTargets(steps + [step])
  {
  }

  lemma SessionSnoc(steps: seq<Step>, step: SessionStep)
    requires 0 in Run(POLICY, steps).endpoints
    ensures var sys := Run(POLICY, steps);
            var action := ActOnSession(sys.registry, sys.endpoints[0], step);
            var after := Run(POLICY, steps + [OnSession(0, step)]);
            after.registry == action.registry && 0 in after.endpoints && after.endpoints[0] == action.endpoint
  {
    RunSnoc(POLICY, steps, OnSession(0, step));
  }

  ghost predicate Greeted(e: Endpoint) {
    && ControlEstablished(e.session) && e.session.boundTargets == {} && e.session.remoteIdentity == Some(OPERATOR)
    && e.audit == []
  }

  /** The operator's session, created and greeted. */
  lemma SessionGreets(before: seq<Step>) returns (steps: seq<Step>)
    requires Run(POLICY, before).endpoints == map[] && EchoingTargets(before)
    ensures steps == before + [CONNECT] + [HELLO]
    ensures Run(POLICY, steps).registry == Run(POLICY, before).registry && EchoingTargets(steps)
    ensures 0 in Run(POLICY, steps).endpoints && Greeted(Run(POLICY, steps).endpoints[0])
  {
    assert !IsWhitespace("store"[0]);
    RunSnoc(POLICY, before, CONNECT);
    SessionSnoc(before + [CONNECT], HELLO.sessionStep);
    EchoingSnoc(before, CONNECT);
    EchoingSnoc(before + [CONNECT], HELLO);
    steps := before + [CONNECT] + [HELLO];
  }

  /** The session is bound to the long-leased target. */
  lemma SessionBinds(s: RegistryState, e: Endpoint)
    requires BothRegistered(s) && Greeted(e)
    ensures var bound := BindTarget(e.session, "a", s, BIND_ANSWERS, 0);
            && BothRegistered(bound.registry)
            && ControlEstablished(bound.session) && bound.session.boundTargets == {"a"}
            && bound.session.remoteIdentity == Some(OPERATOR)
  {
    BindSettles(e.session, "a", s, BIND_ANSWERS, 0);
    SettlingKeepsBoth(s, BindTarget(e.session, "a", s, BIND_ANSWERS, 0).registry);
    Correspondence.BindExchanges(e.session, "a", s, BIND_ANSWERS, 0);
    TargetIsBound(e.session, s);
  }

  lemma SessionBindStep(s: RegistryState, e: Endpoint)
    requires BothRegistered(s) && Greeted(e)
    ensures var bound := ActOnSession(s, e, Bind("a", BIND_ANSWERS, 0));
            && BothRegistered(bound.registry) && bound.endpoint.audit == []
            && ControlEstablished(bound.endpoint.session) && bound.endpoint.session.boundTargets == {"a"}
            && bound.endpoint.session.remoteIdentity == Some(OPERATOR)
  {
    SessionBinds(s, e);
  }

  lemma SettlingKeepsBoth(before: RegistryState, after: RegistryState)
    requires BothRegistered(before) && SettlesOnly(before, after, {"a"})
    ensures BothRegistered(after)
  {
  }

  lemma TargetIsBound(session: SessionState, s: RegistryState)
    requires BothRegistered(s) && ControlEstablished(session) && session.boundTargets == {}
    ensures BindTarget(session, "a", s, BIND_ANSWERS, 0).session.boundTargets == {"a"}
  {
    assert AnswerResult(STATE_ANSWER).Ok? && ReadState("a", STATE_ANSWER, 0).Ok?;
    Correspondence.BindCharacterised(session, "a", s, BIND_ANSWERS, 0);
  }

  lemma SessionOpens(before: seq<Step>) returns (steps: seq<Step>)
    requires Run(POLICY, before).endpoints == map[] && BothRegistered(Run(POLICY, before).registry)
    requires EchoingTargets(before)
    ensures 0 in Run(POLICY, steps).endpoints && BothRegistered(Run(POLICY, steps).registry)
    ensures var session := Run(POLICY, steps).endpoints[0].session;
            && ControlEstablished(session) && session.boundTargets == {"a"}
            && session.remoteIdentity == Some(OPERATOR)
    ensures Run(POLICY, steps).endpoints[0].audit == [] && EchoingTargets(steps)
  {
    var greeted := SessionGreets(before);
    var s, e := Run(POLICY, greeted).registry, Run(POLICY, greeted).endpoints[0];
    var bind := Bind("a", BIND_ANSWERS, 0);
    SessionBindStep(s, e);
    SessionSnoc(greeted, bind);
    steps := greeted + [OnSession(0, bind)];
    EchoingSnoc(greeted, OnSession(0, bind));
  }

  lemma SweepMarksShortLease(s: RegistryState)
    requires BothRegistered(s)
    ensures var swept := RegistryModel.ExpireLeases(s, LATER);
            && "a" in swept.registrations && IsActive(swept.registrations["a"], LATER)
            && swept.registrations["a"].supportedCommands == [RESTART]
            && "b" in swept.registrations && swept.registrations["b"].registrationState == RegistrationState.Expired
  {
  }

  /**
   One foreign reply: a target marked expired has a live connection, and a client is sent a result and
   the state of a target that is not bound in its session.
   */
  lemma ExpiredTargetCanComeAlive() returns (steps: seq<Step>)
    ensures !ExpiredNotLive(Run(POLICY, steps).registry)
    ensures !Confidentiality.AllConfidential(Run(POLICY, steps))
  {
    var swept := ShortIsSwept();
    ExpiredTargetsStayDown(POLICY, swept);
    Confidentiality.ClientsHearOfBoundTargetsOnly(POLICY, swept);
    RunIsSafe(POLICY, swept);
    ReplyRevives(Run(POLICY, swept));
    RunSnoc(POLICY, swept, OnSession(0, FORWARD));
    steps := swept + [OnSession(0, FORWARD)];
  }

  lemma ReplyRevives(sys: System)
    requires Safe(sys) && SweptReady(sys) && ExpiredNotLive(sys.registry) && Confidentiality.AllConfidential(sys)
    ensures var after := Next(sys, OnSession(0, FORWARD)).0;
            !ExpiredNotLive(after.registry) && !Confidentiality.AllConfidential(after)
  {
    ReplyIsForeign(sys);
    StepKeepsExpiredNotLiveIff(sys, OnSession(0, FORWARD));
    Confidentiality.StepKeepsConfidentialIff(sys, OnSession(0, FORWARD));
  }

  lemma ReplyIsForeign(sys: System)
    requires SweptReady(sys)
    ensures RevivesExpired(sys, OnSession(0, FORWARD)) && Confidentiality.Discloses(sys, OnSession(0, FORWARD))
  {
    CommandIsAdmitted(sys.registry, sys.endpoints[0]);
  }

  /** The session is bound to the long-leased target only, and the short-leased one is marked expired. */
  lemma ShortIsSwept() returns (steps: seq<Step>)
    ensures EchoingTargets(steps) && SweptReady(Run(POLICY, steps))
  {
    var registered := TargetsRegister();
    var ready := SessionOpens(registered);
    RunSnoc(POLICY, ready, SWEEP);
    EchoingSnoc(ready, SWEEP);
    SweepMarksShortLease(Run(POLICY, ready).registry);
    steps := ready + [SWEEP];
  }

  ghost predicate SweptReady(sys: System) {
    && 0 in sys.endpoints
    && var s, session := sys.registry, sys.endpoints[0].session;
       && ControlEstablished(session) && session.boundTargets == {"a"} && session.remoteIdentity == Some(OPERATOR)
       && "a" in s.registrations && IsActive(s.registrations["a"], LATER)
       && s.registrations["a"].supportedCommands == [RESTART]
       && "b" in s.registrations && s.registrations["b"].registrationState == RegistrationState.Expired
  }

  lemma CommandIsAdmitted(s: RegistryState, e: Endpoint)
    requires ControlEstablished(e.session) && "a" in e.session.boundTargets
    requires e.session.remoteIdentity == Some(OPERATOR)
    requires "a" in s.registrations && IsActive(s.registrations["a"], LATER)
    requires s.registrations["a"].supportedCommands == [RESTART]
    ensures var admitted := AdmitCommand(e.session, COMMAND, s, LATER);
            && admitted.Ok?
            && var result := ReadCommandResult(admitted.value, ANSWER_AS_B, LATER);
               result.Ok? && NeedsRefresh(result.value) && result.value.targetId == "b"
    ensures ReadState("b", STATE_ANSWER, LATER).Ok?
  {
    CommandIsComplete();
    assert s.registrations["a"].supportedCommands[0].name == RegistryLaws.NameOnWire(RestartChild);
    assert RegistryLaws.DeclaredByName(s, "a", RestartChild);
    Correspondence.AdmissionCharacterised(e.session, COMMAND, s, LATER);
    AnswersReadAsMeant(AdmitCommand(e.session, COMMAND, s, LATER).value);
  }

  lemma CommandIsComplete()
    ensures Trim(COMMAND.commandId) != "" && Trim(COMMAND.reason) != ""
  {
    assert !IsWhitespace(COMMAND.commandId[0]) && !IsWhitespace(COMMAND.reason[0]);
    BlankTrimsToNothing(COMMAND.commandId);
    BlankTrimsToNothing(COMMAND.reason);
  }

  lemma AnswersReadAsMeant(prepared: PreparedCommand)
    ensures var result := ReadCommandResult(prepared, ANSWER_AS_B, LATER);
            result.Ok? && NeedsRefresh(result.value) && result.value.targetId == "b"
    ensures ReadState("b", STATE_ANSWER, LATER).Ok?
  {
  }

  // ---------- parted expiry ----------

  const ONE_SHORT: Step := OnRegistry(Register(SHORT, "owner", KEY_B, 0))
  const SWEEP: Step := OnRegistry(ExpireLeases(LATER))
  const RENEW: Step := OnRegistry(Renew("b", LATER))

  ghost predicate ShortRegistered(s: RegistryState) {
    && InStep(s) && "b" in s.registrations && s.registrations["b"].registrationState == Active
    && s.registrations["b"].expiresAt == NANOS_PER_SECOND && s.registrations["b"].leaseSeconds == 1
  }

  lemma ShortIsAdmitted()
    ensures ShortRegistered(RegistryModel.Register(EmptyRegistry(POLICY), SHORT, "owner", KEY_B, 0).0)
  {
    RequestsAreValid();
    assert !KeyHeldByOther(EmptyRegistry(POLICY), "b", "/run/b.sock");
    RegistryLaws.RegisterWrites(EmptyRegistry(POLICY), SHORT, "owner", KEY_B, 0);
  }

  lemma ShortRegisters()
    ensures ShortRegistered(Run(POLICY, [ONE_SHORT]).registry) && Run(POLICY, [ONE_SHORT]).endpoints == map[]
  {
    ShortIsAdmitted();
    RunSnoc(POLICY, [], ONE_SHORT);
    assert [] + [ONE_SHORT] == [ONE_SHORT];
  }

  /** A target registers, is swept and renews: its registration is active and its connection expired. */
  lemma RenewalPartsExpiry() returns (steps: seq<Step>)
    ensures NonDecreasing(steps) && !ExpiryMatch.Matched(Run(POLICY, steps).registry)
  {
    steps := [ONE_SHORT] + [SWEEP] + [RENEW];
    TimesOfThree(ONE_SHORT, SWEEP, RENEW);
    ShortRegisters();
    SweepThenRenew([ONE_SHORT]);
    SweptRenewalParts(Run(POLICY, [ONE_SHORT]).registry);
  }

  lemma SweepThenRenew(before: seq<Step>)
    ensures Run(POLICY, before + [SWEEP] + [RENEW]).registry
         == RegistryModel.Renew(RegistryModel.ExpireLeases(Run(POLICY, before).registry, LATER), "b", LATER).0
  {
    RunSnoc(POLICY, before, SWEEP);
    RunSnoc(POLICY, before + [SWEEP], RENEW);
  }

  lemma SweptRenewalParts(s: RegistryState)
    requires InStep(s) && "b" in LapsedIds(s, LATER) && s.registrations["b"].leaseSeconds == 1
    ensures !ExpiryMatch.Matched(RegistryModel.Renew(RegistryModel.ExpireLeases(s, LATER), "b", LATER).0)
  {
    RegistryLaws.RenewLeavesConnectionExpired(s, "b", LATER, LATER);
    var after := RegistryModel.Renew(RegistryModel.ExpireLeases(s, LATER), "b", LATER).0;
    assert "b" in after.registrations && "b" in after.connections;
  }

  lemma TimesOfThree(a: Step, b: Step, c: Step)
    requires TimeOf(a).Some? && TimeOf(b).Some? && TimeOf(c).Some?
    requires TimeOf(a).value <= TimeOf(b).value <= TimeOf(c).value
    ensures NonDecreasing([a] + [b] + [c])
  {
    assert ([a] + [b] + [c])[..2] == [a] + [b] && ([a] + [b])[..1] == [a] && [a][..0] == [];
    assert NonDecreasing([a]) && Latest([a]) == TimeOf(a).value;
    assert NonDecreasing([a] + [b]) && Latest([a] + [b]) == TimeOf(b).value;
  }

  // ---------- inexact leases ----------

  const LONGEST: u64 := 253_402_300_799
  const GENEROUS := RegistrationPolicy(LISTEN, "0600", [RUN], 30, LONGEST)
  const FOREVER := RegistrationRequest("a", "a", SOCKET_A, LONGEST, [])
  const ONE_LONGEST: Step := OnRegistry(Register(FOREVER, "owner", KEY_A, 0))
  const RENEW_LONGEST: Step := OnRegistry(Renew("a", NANOS_PER_SECOND))

  lemma LongestRegisters()
    ensures var s := Run(GENEROUS, [ONE_LONGEST]).registry;
            && LeasesExact(s) && "a" in s.registrations && s.registrations["a"].leaseSeconds == LONGEST
  {
    assert !IsWhitespace(FOREVER.targetId[0]);
    assert SOCKET_A.components[..2] == RUN.components;
    assert RUN in GENEROUS.allowedIpcPathPrefixes && SOCKET_A.StartsWith(RUN);
    RunSnoc(GENEROUS, [], ONE_LONGEST);
    assert [] + [ONE_LONGEST] == [ONE_LONGEST];
    RegistryLaws.RegisterCharacterised(EmptyRegistry(GENEROUS), FOREVER, "owner", KEY_A, 0);
    RegistryLaws.RegisterWrites(EmptyRegistry(GENEROUS), FOREVER, "owner", KEY_A, 0);
  }

  lemma LongestRenewalBreaks(s: RegistryState)
    requires LeasesExact(s) && "a" in s.registrations && s.registrations["a"].leaseSeconds == LONGEST
    ensures !LeasesExact(RegistryModel.Renew(s, "a", NANOS_PER_SECOND).0)
  {
    RegistryLaws.RenewKeepsLeaseExactIffNoPanic(s, "a", NANOS_PER_SECOND);
  }

  lemma GenerousIsValid()
    ensures GENEROUS.ValidatePolicy().Ok?
  {
  }

  /** Under a valid policy, the longest lease that fits the clock, renewed a second later, gets a wrong end. */
  lemma RenewalBreaksLease() returns (steps: seq<Step>)
    ensures GENEROUS.ValidatePolicy().Ok?
    ensures !LeasesExact(Run(GENEROUS, steps).registry)
  {
    GenerousIsValid();
    LongestRegisters();
    RunSnoc(GENEROUS, [ONE_LONGEST], RENEW_LONGEST);
    LongestRenewalBreaks(Run(GENEROUS, [ONE_LONGEST]).registry);
    steps := [ONE_LONGEST] + [RENEW_LONGEST];
  }

  // ---------- a clock that runs back ----------

  const BIND_SHORT: Step := OnSession(0, Bind("b", BIND_ANSWERS, 0))

  lemma ScheduleSnoc(steps: seq<Step>, step: Step)
    ensures var more := steps + [step];
            && Unswept(more) == Unswept(steps) + (if IsSweep(step) then [] else [step])
            && LatestSweep(more) == Later(LatestSweep(steps), step)
            && (ReadsFollowSweeps(more) <==>
                  ReadsFollowSweeps(steps) && (ReadsLeases(step) ==> LatestSweep(steps) <= step.sessionStep.now))
  {
    assert (steps + [step])[..|steps|] == steps;
  }

  lemma OutcomesSnoc(steps: seq<Step>, step: Step)
    requires !IsSweep(step)
    ensures Outcomes(POLICY, steps + [step]) == Outcomes(POLICY, steps) + [Next(Run(POLICY, steps), step).1]
  {
    assert (steps + [step])[..|steps|] == steps;
  }

  /** A greeted session that binds the short-leased target is refused exactly when that target is not active. */
  lemma BindOutcome(steps: seq<Step>)
    requires InStep(Run(POLICY, steps).registry)
    requires 0 in Run(POLICY, steps).endpoints && Greeted(Run(POLICY, steps).endpoints[0])
    ensures var outcome := Next(Run(POLICY, steps), BIND_SHORT).1;
            outcome.Answered? && (outcome.answer.Ok? <==> "b" in ActiveIds(Run(POLICY, steps).registry, 0))
  {
    var sys := Run(POLICY, steps);
    assert AnswerResult(STATE_ANSWER).Ok? && ReadState("b", STATE_ANSWER, 0).Ok?;
    Correspondence.BindCharacterised(sys.endpoints[0].session, "b", sys.registry, BIND_ANSWERS, 0);
  }

  /** The schedule with the sweep, followed by the greeting and the binding at the time before it. */
  lemma ClockRunsBack(greeted: seq<Step>)
    requires greeted == [ONE_SHORT] + [SWEEP] + [CONNECT] + [HELLO]
    ensures Unswept(greeted + [BIND_SHORT]) == [ONE_SHORT] + [CONNECT] + [HELLO] + [BIND_SHORT]
    ensures !ReadsFollowSweeps(greeted + [BIND_SHORT])
  {
    ScheduleSnoc([], ONE_SHORT);
    assert [] + [ONE_SHORT] == [ONE_SHORT];
    ScheduleSnoc([ONE_SHORT], SWEEP);
    ScheduleSnoc([ONE_SHORT] + [SWEEP], CONNECT);
    ScheduleSnoc([ONE_SHORT] + [SWEEP] + [CONNECT], HELLO);
    ScheduleSnoc(greeted, BIND_SHORT);
  }

  lemma ClockStandsStill(greeted: seq<Step>)
    requires greeted == [ONE_SHORT] + [CONNECT] + [HELLO]
    ensures Unswept(greeted + [BIND_SHORT]) == greeted + [BIND_SHORT]
    ensures ReadsFollowSweeps(greeted + [BIND_SHORT])
  {
    ScheduleSnoc([], ONE_SHORT);
    assert [] + [ONE_SHORT] == [ONE_SHORT];
    ScheduleSnoc([ONE_SHORT], CONNECT);
    ScheduleSnoc([ONE_SHORT] + [CONNECT], HELLO);
    ScheduleSnoc(greeted, BIND_SHORT);
  }

  /**
   Two runs that differ only in a sweep, after which the clock runs back: a session binds a target in
   the one without the sweep, and is refused in the other.
   */
  lemma SweepShowsWhenClockRunsBack() returns (some: seq<Step>, other: seq<Step>)
    ensures Unswept(some) == Unswept(other) && !ReadsFollowSweeps(some) && ReadsFollowSweeps(other)
    ensures Outcomes(POLICY, some) != Outcomes(POLICY, other)
  {
    some := SweptIsRefused();
    other := UnsweptIsBound();
    var a, b := Outcomes(POLICY, some), Outcomes(POLICY, other);
    assert a[|a| - 1] != b[|b| - 1];
  }

  lemma SweptIsNotActive()
    ensures var sys := Run(POLICY, [ONE_SHORT] + [SWEEP]);
            sys.endpoints == map[] && "b" !in ActiveIds(sys.registry, 0)
  {
    ShortRegisters();
    RunSnoc(POLICY, [ONE_SHORT], SWEEP);
    assert "b" in LapsedIds(Run(POLICY, [ONE_SHORT]).registry, LATER);
  }

  lemma SweptIsRefused() returns (steps: seq<Step>)
    ensures Unswept(steps) == [ONE_SHORT] + [CONNECT] + [HELLO] + [BIND_SHORT] && !ReadsFollowSweeps(steps)
    ensures var outcomes := Outcomes(POLICY, steps);
            && outcomes != [] && outcomes[|outcomes| - 1].Answered? && outcomes[|outcomes| - 1].answer.Err?
  {
    SweptIsNotActive();
    var greeted := SessionGreets([ONE_SHORT] + [SWEEP]);
    steps := greeted + [BIND_SHORT];
    ClockRunsBack(greeted);
    RunIsSafe(POLICY, greeted);
    BindOutcome(greeted);
    OutcomesSnoc(greeted, BIND_SHORT);
  }

  lemma UnsweptIsBound() returns (steps: seq<Step>)
    ensures Unswept(steps) == [ONE_SHORT] + [CONNECT] + [HELLO] + [BIND_SHORT] && ReadsFollowSweeps(steps)
    ensures var outcomes := Outcomes(POLICY, steps);
            && outcomes != [] && outcomes[|outcomes| - 1].Answered? && outcomes[|outcomes| - 1].answer.Ok?
  {
    ShortRegisters();
    var greeted := SessionGreets([ONE_SHORT]);
    steps := greeted + [BIND_SHORT];
    ClockStandsStill(greeted);
    RunIsSafe(POLICY, greeted);
    BindOutcome(greeted);
    OutcomesSnoc(greeted, BIND_SHORT);
  }

  // ---------- refusals that are not audited as such ----------

  const DECLINING_REPLY := CommandReply(None, None, None, Some(true), Some("rejected"))
  const DECLINED: IpcAnswer := Ok(IpcResponse(Some(true), Some(IpcResult(None, None, Some(DECLINING_REPLY))), None))
  const DECLINED_COMMAND: Step := OnSession(0, Command(COMMAND, CommandAnswers(DECLINED, STATE_ANSWER), LATER))

  /** An established session sends a command to a target it is not bound to: the refusal leaves no entry. */
  lemma UnboundCommandIsNotAudited() returns (steps: seq<Step>)
    ensures steps != [] && 0 in Run(POLICY, steps).endpoints
    ensures var outcome := Next(Run(POLICY, steps[..|steps| - 1]), steps[|steps| - 1]).1;
            outcome.Commanded? && outcome.result.Err?
    ensures Run(POLICY, steps).endpoints[0].audit == []
  {
    var greeted := SessionGreets([]);
    steps := greeted + [DECLINED_COMMAND];
    assert steps[..|steps| - 1] == greeted;
    SessionSnoc(greeted, DECLINED_COMMAND.sessionStep);
  }

  /** A target declines a command with the status "rejected": the entries are an acceptance and a completion. */
  lemma DeclinedCommandIsAuditedCompleted() returns (steps: seq<Step>)
    ensures steps != [] && 0 in Run(POLICY, steps).endpoints
    ensures var outcome := Next(Run(POLICY, steps[..|steps| - 1]), steps[|steps| - 1]).1;
            outcome.Commanded? && outcome.result.Ok? && outcome.result.value.status == "rejected"
    ensures var audit := Run(POLICY, steps).endpoints[0].audit;
            AuditTrail.HasEntry(audit, Audit.Completed) && !AuditTrail.HasEntry(audit, Audit.Rejected)
  {
    var registered := TargetsRegister();
    var ready := SessionOpens(registered);
    steps := ready + [DECLINED_COMMAND];
    assert steps[..|steps| - 1] == ready;
    var sys := Run(POLICY, ready);
    var s := sys.endpoints[0].session;
    CommandIsAdmitted(sys.registry, sys.endpoints[0]);
    SessionSnoc(ready, DECLINED_COMMAND.sessionStep);
    AuditTrail.RefusalIsAuditedIff(s, COMMAND, sys.registry, DECLINED_COMMAND.sessionStep.commandAnswers, LATER);
    assert AuditTrail.DeclinesInResult(DECLINED);
    var effect := HandleCommand(s, COMMAND, sys.registry, DECLINED_COMMAND.sessionStep.commandAnswers, LATER);
    assert [] + effect.audited == effect.audited;
  }
}
