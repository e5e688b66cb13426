/** Properties of single registry operations, over every registry state and every input. */
module RegistryLaws {
  import opened Basics
  import opened Commands
  import opened PathLaws
  import opened Policies
  import opened RegistryModel
  import opened Text

  // ---------- registration ----------

  /** The admission rule, stated without reference to the order in which the code checks it. */
  ghost predicate Admissible(s: RegistryState, request: RegistrationRequest, owner: string,
                             keyed: RelayResult<string>)
  {
    && Trim(request.targetId) != ""
    && Permits(s.policy.allowedIpcPathPrefixes, request.ipcPath)
    && 1 <= request.leaseSeconds <= s.policy.maxLeaseSeconds
    && (forall command :: command in request.supportedCommands ==>
          Trim(command.name) != "" && command.timeoutSeconds >= 1)
    && keyed.Ok?
    && (request.targetId in s.registrations ==> s.registrations[request.targetId].ownerIdentity == owner)
    && (forall id :: id in s.registrations && s.registrations[id].ipcPathKey == keyed.value ==>
          id == request.targetId)
  }

  lemma ValidationMatchesPolicy(policy: RegistrationPolicy, request: RegistrationRequest)
    ensures ValidateRequest(policy, request).Ok? <==>
            && Trim(request.targetId) != ""
            && Permits(policy.allowedIpcPathPrefixes, request.ipcPath)
            && 1 <= request.leaseSeconds <= policy.maxLeaseSeconds
            && forall command :: command in request.supportedCommands ==>
                 Trim(command.name) != "" && command.timeoutSeconds >= 1
  {
    BlankMeaning();
    AllowedMeaning(policy, request.ipcPath);
    if forall i :: 0 <= i < |request.supportedCommands| ==> ValidCommandSchema(request.supportedCommands[i]) {
      forall command | command in request.supportedCommands
        ensures Trim(command.name) != "" && command.timeoutSeconds >= 1
      {
        assert ValidCommandSchema(command);
      }
    }
  }

  /**
   A policy is valid exactly when its listening path is absolute, it allows some paths, only below
   absolute prefixes, and its default lease lies between one second and the maximum.
   */
  lemma PolicyValidationMatches(policy: RegistrationPolicy)
    ensures policy.ValidatePolicy().Ok? <==>
              && FromRoot(policy.listenPath)
              && policy.allowedIpcPathPrefixes != []
              && (forall prefix :: prefix in policy.allowedIpcPathPrefixes ==> FromRoot(prefix))
              && 1 <= policy.defaultLeaseSeconds <= policy.maxLeaseSeconds
  {
  }

  /** A target that asks for the default lease of a valid policy is never refused because of it. */
  lemma ValidPolicyGrantsItsDefault(policy: RegistrationPolicy, request: RegistrationRequest)
    requires policy.ValidatePolicy().Ok? && request.leaseSeconds == policy.defaultLeaseSeconds
    ensures ValidateRequest(policy, request).Ok? <==>
              && Trim(request.targetId) != ""
              && Permits(policy.allowedIpcPathPrefixes, request.ipcPath)
              && forall command :: command in request.supportedCommands ==>
                   Trim(command.name) != "" && command.timeoutSeconds >= 1
  {
    PolicyValidationMatches(policy);
    ValidationMatchesPolicy(policy, request);
  }

  /** The lease in seconds as a signed 64-bit integer. */
  function SignedSeconds(lease: u64): int {
    if lease as int < 0x8000_0000_0000_0000 then lease as int else lease as int - 0x1_0000_0000_0000_0000
  }

  /** The moment in nanoseconds at which a lease taken at `now` ends. */
  function EndOf(now: Instant, lease: u64): int {
    now + SignedSeconds(lease) * 1_000_000_000
  }

  /** That moment lies between the first day of the year -9999 and the last of the year 9999. */
  predicate OnTheClock(now: Instant, lease: u64) {
    -377_705_116_800_000_000_000 <= EndOf(now, lease) < 253_402_300_800_000_000_000
  }

  lemma LeaseEndMeaning(now: Instant, lease: u64)
    ensures LeaseEnd(now, lease) == if OnTheClock(now, lease) then Some(EndOf(now, lease)) else None
  {
  }

  /**
   Registration succeeds exactly for admissible requests whose lease stays in the clock range; an
   admissible request outside that range aborts; anything else is an error. Only success changes the maps.
   */
  lemma RegisterCharacterised(s: RegistryState, request: RegistrationRequest, owner: string,
                              keyed: RelayResult<string>, now: Instant)
    ensures var (after, outcome) := Register(s, request, owner, keyed, now);
            var admissible := Admissible(s, request, owner, keyed);
            && (outcome.Returned? && outcome.result.Ok? <==>
                  admissible && OnTheClock(now, request.leaseSeconds))
            && (outcome.Panicked? <==> admissible && !OnTheClock(now, request.leaseSeconds))
            && (!(outcome.Returned? && outcome.result.Ok?) ==> after == s)
  {
    ValidationMatchesPolicy(s.policy, request);
  }

  /** The record of an admitted target: the request's fields, a fresh lease and the original registration time. */
  ghost predicate RecordWritten(s: RegistryState, request: RegistrationRequest, owner: string, key: string,
                                now: Instant, r: Registration)
  {
    var known := request.targetId in s.registrations;
    && r.targetId == request.targetId && r.displayName == request.displayName && r.ipcPath == request.ipcPath
    && r.ipcPathKey == key && r.ownerIdentity == owner
    && r.leaseSeconds == request.leaseSeconds && r.supportedCommands == request.supportedCommands
    && r.renewedAt == now && LeaseIsExact(r) && r.registrationState == Active && r.lastRejection == None
    && r.registeredAt == (if known then s.registrations[request.targetId].registeredAt else now)
  }

  /**
   Its connection: a new target starts registered with nothing recorded; a moved one reconnects and an
   unmoved one keeps its state, both with the last generation and sequence number they had.
   */
  ghost predicate ConnectionWritten(s: RegistryState, request: RegistrationRequest, key: string, now: Instant,
                                    c: Connection)
    requires InStep(s)
  {
    var id := request.targetId;
    && c.targetId == id && c.ipcPath == request.ipcPath && c.updatedAt == now
    && if id !in s.registrations then
         && c.state == Registered && c.lastError == None && c.connectedAt == None
         && c.lastStateGeneration == None && c.lastSequence == None
       else if s.registrations[id].ipcPathKey != key then
         && c.state == Reconnecting && c.lastError == Some("ipc_path_changed") && c.connectedAt == None
         && c.lastStateGeneration == s.connections[id].lastStateGeneration
         && c.lastSequence == s.connections[id].lastSequence
       else
         c == s.connections[id].(ipcPath := request.ipcPath, updatedAt := now)
  }

  /** The registry after admitting a target: one record and one connection are written, all others are kept. */
  ghost predicate Admits(s: RegistryState, request: RegistrationRequest, owner: string, key: string, now: Instant,
                         after: RegistryState)
    requires InStep(s)
  {
    var id := request.targetId;
    && after.policy == s.policy
    && after.registrations.Keys == after.connections.Keys == s.registrations.Keys + {id}
    && (forall other :: other in s.registrations && other != id ==>
          && after.registrations[other] == s.registrations[other]
          && after.connections[other] == s.connections[other])
    && RecordWritten(s, request, owner, key, now, after.registrations[id])
    && ConnectionWritten(s, request, key, now, after.connections[id])
  }

  lemma RegisterWrites(s: RegistryState, request: RegistrationRequest, owner: string,
                       keyed: RelayResult<string>, now: Instant)
    requires InStep(s)
    requires var outcome := Register(s, request, owner, keyed, now).1; outcome.Returned? && outcome.result.Ok?
    ensures var (after, outcome) := Register(s, request, owner, keyed, now);
            && keyed.Ok?
            && Admits(s, request, owner, keyed.value, now, after)
            && outcome.result.value == after.registrations[request.targetId]
  {
    if request.targetId in s.registrations {
      UpsertWrites(s, request, owner, keyed.value, now);
    } else {
      NewTargetWrites(s, request, owner, keyed, now);
    }
  }

  lemma UpsertWrites(s: RegistryState, request: RegistrationRequest, owner: string, key: string, now: Instant)
    requires InStep(s) && request.targetId in s.registrations && LeaseEnd(now, request.leaseSeconds).Some?
    ensures var (after, outcome) := UpsertExistingRegistration(s, request, owner, key, now);
            && outcome == Returned(Ok(after.registrations[request.targetId]))
            && Admits(s, request, owner, key, now, after)
  {
  }

  lemma NewTargetWrites(s: RegistryState, request: RegistrationRequest, owner: string, keyed: RelayResult<string>,
                        now: Instant)
    requires InStep(s) && request.targetId !in s.registrations
    requires var outcome := Register(s, request, owner, keyed, now).1; outcome.Returned? && outcome.result.Ok?
    ensures var (after, outcome) := Register(s, request, owner, keyed, now);
            && keyed.Ok?
            && Admits(s, request, owner, keyed.value, now, after)
            && outcome.result.value == after.registrations[request.targetId]
  {
  }

  /** The not-registered exit of the update path is never taken: no input makes registration report it itself. */
  lemma UpsertExitUnreachable(s: RegistryState, request: RegistrationRequest, owner: string,
                              keyed: RelayResult<string>, now: Instant, stage: string, id: string, message: string)
    ensures var outcome := Register(s, request, owner, keyed, now).1;
            outcome == Returned(Err(NotRegistered(stage, id, message))) ==>
              keyed == Err(NotRegistered(stage, id, message))
  {
    var outcome := Register(s, request, owner, keyed, now).1;
    if outcome == Returned(Err(NotRegistered(stage, id, message))) {
      var code := outcome.result.error.code;
      assert |code| == 21 && code[0] == 't';
      assert ValidateRequest(s.policy, request).Ok?;
    }
  }

  // ---------- sweeping ----------

  lemma CardinalityOfPart<T>(part: set<T>, whole: set<T>)
    requires part <= whole
    ensures |part| <= |whole|
    ensures |whole - part| == |whole| - |part|
  {
    assert whole == part + (whole - part);
  }

  lemma SweepMarksLapsed(s: RegistryState, now: Instant)
    ensures var after := ExpireLeases(s, now);
            && MarkedActiveIds(after) == MarkedActiveIds(s) - LapsedIds(s, now)
            && MarkedActiveIds(after) == ActiveIds(s, now)
            && ActiveIds(after, now) == ActiveIds(s, now)
  {
    var after := ExpireLeases(s, now);
    assert after.registrations.Keys == s.registrations.Keys;
    assert forall id :: id in MarkedActiveIds(after) <==> id in ActiveIds(s, now);
    assert forall id :: id in MarkedActiveIds(after) <==> id in MarkedActiveIds(s) - LapsedIds(s, now);
    assert forall id :: id in ActiveIds(after, now) <==> id in ActiveIds(s, now);
  }

  lemma SweepIsIdempotent(s: RegistryState, now: Instant, earlier: Instant)
    requires earlier <= now
    ensures var after := ExpireLeases(s, now);
            LapsedIds(after, earlier) == {} && ExpireLeases(after, earlier) == after
  {
    var after := ExpireLeases(s, now);
    forall id | id in after.registrations ensures !Lapsed(after.registrations[id], earlier) {
      assert after.registrations[id].expiresAt == s.registrations[id].expiresAt;
    }
    var again := ExpireLeases(after, earlier);
    assert again.registrations == after.registrations;
    assert again.connections == after.connections;
  }

  /**
   A sweep lowers the number of records marked active by exactly the number of lapsed ones, leaves
   the marked records equal to the truly active ones, and repeating it no later than before is a no-op.
   */
  lemma SweepAccounting(s: RegistryState, now: Instant, earlier: Instant)
    requires earlier <= now
    ensures var after := ExpireLeases(s, now);
            && |MarkedActiveIds(s)| == |MarkedActiveIds(after)| + |LapsedIds(s, now)|
            && MarkedActiveIds(after) == ActiveIds(after, now) == ActiveIds(s, now)
            && LapsedIds(after, earlier) == {}
            && ExpireLeases(after, earlier) == after
  {
    SweepMarksLapsed(s, now);
    SweepIsIdempotent(s, now, earlier);
    CardinalityOfPart(LapsedIds(s, now), MarkedActiveIds(s));
  }

  /** A sweep writes nothing but the mark of each lapsed record and the state and time of its connection. */
  lemma SweepWrites(s: RegistryState, now: Instant, id: string)
    requires InStep(s) && id in s.registrations
    ensures var after := ExpireLeases(s, now);
            && after.policy == s.policy
            && after.registrations.Keys == s.registrations.Keys && after.connections.Keys == s.connections.Keys
            && var r, c := s.registrations[id], s.connections[id];
               if r.registrationState == Active && r.expiresAt <= now then
                 && after.registrations[id] == r.(registrationState := RegistrationState.Expired)
                 && after.connections[id] == c.(state := ConnectionState.Expired, updatedAt := now)
               else
                 after.registrations[id] == r && after.connections[id] == c
  {
  }

  // ---------- connections ----------

  /** The registry with one connection replaced. */
  function Replacing(s: RegistryState, c: Connection): RegistryState {
    s.(connections := s.connections[c.targetId := c])
  }

  /** What beginning, completing, interrupting and abandoning a connection write; the rest of the registry is kept. */
  lemma ConnectionWrites(s: RegistryState, id: string, generation: u64, reason: string, now: Instant)
    requires InStep(s) && id in s.registrations
    ensures var c := s.connections[id];
            && BeginBinding(s, id, now) ==
                 (Replacing(s, Connection(id, c.ipcPath, Connecting, c.lastError, c.lastStateGeneration,
                                          c.lastSequence, c.connectedAt, now)), Ok(()))
            && MarkConnected(s, id, generation, now) ==
                 (Replacing(s, Connection(id, c.ipcPath, Connected, None, Some(generation), c.lastSequence, Some(now),
                                          now)), Ok(()))
            && MarkReconnecting(s, id, reason, now) ==
                 Replacing(s, Connection(id, c.ipcPath, Reconnecting, Some(reason), c.lastStateGeneration,
                                         c.lastSequence, c.connectedAt, now))
            && MarkUnavailable(s, id, reason, now) ==
                 Replacing(s, Connection(id, c.ipcPath, Unavailable, Some(reason), c.lastStateGeneration,
                                         c.lastSequence, c.connectedAt, now))
  {
  }

  /** None of them touches anything for an unknown target; the two that can fail say so. */
  lemma UnknownConnection(s: RegistryState, id: string, generation: u64, reason: string, now: Instant)
    requires id !in s.connections
    ensures var unknown: RelayResult<()> :=
              Err(RelayError("target_not_registered", "registry", Some(id), "target connection is not registered",
                             true));
            && BeginBinding(s, id, now) == (s, unknown)
            && MarkConnected(s, id, generation, now) == (s, unknown)
            && MarkReconnecting(s, id, reason, now) == s
            && MarkUnavailable(s, id, reason, now) == s
  {
  }

  // ---------- listings ----------

  /**
   A listing shows, for each target that it names, what the target registered and the state of its
   connection at that moment.
   */
  lemma ListingShowsTargets(s: RegistryState, order: seq<string>, i: nat)
    requires InStep(s) && i < |order| && forall id :: id in order ==> id in s.registrations
    ensures |VisibleTargets(s, order)| == |order|
    ensures var r := s.registrations[order[i]];
            VisibleTargets(s, order)[i] ==
              VisibleTarget(order[i], r.displayName, r.registrationState, s.connections[order[i]].state,
                            r.supportedCommands)
  {
  }

  // ---------- lease windows ----------

  /** Registering, updating and renewing a target all open the window that ends one lease after `now`. */
  lemma LeaseStepOpensWindow(s: RegistryState, request: RegistrationRequest, owner: string,
                             keyed: RelayResult<string>, now: Instant, t: Instant)
    requires var outcome := Register(s, request, owner, keyed, now).1; outcome.Returned? && outcome.result.Ok?
    ensures var (after, outcome) := Register(s, request, owner, keyed, now);
            EnsureTargetActive(after, request.targetId, t).Ok? <==> t < EndOf(now, request.leaseSeconds)
  {
  }

  lemma RenewOpensWindow(s: RegistryState, id: string, now: Instant, t: Instant)
    requires var outcome := Renew(s, id, now).1; outcome == Returned(Ok(()))
    ensures var after := Renew(s, id, now).0;
            && id in s.registrations
            && (EnsureTargetActive(after, id, t).Ok? <==> t < EndOf(now, s.registrations[id].leaseSeconds))
  {
  }

  /**
   A successful registration is active at the time it is made exactly when its lease fits in a signed
   64-bit integer: a longer one is cast to a negative duration and is born expired.
   */
  lemma RegisteredIsActiveIffLeaseFits(s: RegistryState, request: RegistrationRequest, owner: string,
                                       keyed: RelayResult<string>, now: Instant)
    requires var outcome := Register(s, request, owner, keyed, now).1; outcome.Returned? && outcome.result.Ok?
    ensures var after := Register(s, request, owner, keyed, now).0;
            EnsureTargetActive(after, request.targetId, now).Ok? <==>
              request.leaseSeconds <= 0x7FFF_FFFF_FFFF_FFFF
  {
    ValidationMatchesPolicy(s.policy, request);
    assert LeaseEnd(now, request.leaseSeconds).Some?;
  }

  /** A policy that passes validation and a request it accepts, whose target is expired from the start. */
  lemma BornExpiredExists() returns (policy: RegistrationPolicy, request: RegistrationRequest)
    ensures policy.ValidatePolicy().Ok?
    ensures var (after, outcome) := Register(EmptyRegistry(policy), request, "unix_uid:501", Ok("/run/a.sock"), 0);
            && outcome.Returned? && outcome.result.Ok?
            && EnsureTargetActive(after, request.targetId, 0).Err?
  {
    var run, socket := Path([RootDir, Normal("run")]), Path([RootDir, Normal("run"), Normal("a.sock")]);
    policy := RegistrationPolicy(run, "0600", [run], 30, 0xFFFF_FFFF_FFFF_FFFF);
    request := RegistrationRequest("a", "a", socket, 0xFFFF_FFFF_FFFF_FFFF, []);
    assert !IsWhitespace(request.targetId[0]);
    assert socket.components[..2] == run.components;
    assert run in policy.allowedIpcPathPrefixes && socket.StartsWith(run);
    ValidationMatchesPolicy(policy, request);
    RegisterCharacterised(EmptyRegistry(policy), request, "unix_uid:501", Ok("/run/a.sock"), 0);
    RegisteredIsActiveIffLeaseFits(EmptyRegistry(policy), request, "unix_uid:501", Ok("/run/a.sock"), 0);
  }

  // ---------- reads ----------

  /** The target is registered, marked active, and its lease ends after `now`. */
  predicate HasActiveLease(s: RegistryState, id: string, now: Instant) {
    && id in s.registrations
    && s.registrations[id].registrationState == Active
    && now < s.registrations[id].expiresAt
  }

  /** A target passes for active exactly when it has an active lease, and is refused as unknown or unavailable. */
  lemma ActiveMeaning(s: RegistryState, id: string, now: Instant)
    ensures EnsureTargetActive(s, id, now) ==
              if HasActiveLease(s, id, now) then Ok(())
              else if id !in s.registrations then
                Err(RelayError("target_not_registered", "registry", Some(id), "target is not registered", true))
              else
                Err(RelayError("target_unavailable", "registry", Some(id), "target registration is not active", true))
    ensures id in ActiveIds(s, now) <==> HasActiveLease(s, id, now)
  {
  }

  /** The name under which targets declare a command. */
  function NameOnWire(command: ControlCommandName): string {
    if command == RestartChild then "restart_child"
    else if command == PauseChild then "pause_child"
    else if command == ResumeChild then "resume_child"
    else if command == QuarantineChild then "quarantine_child"
    else if command == RemoveChild then "remove_child"
    else if command == AddChild then "add_child"
    else "shutdown_tree"
  }

  /** The target declared the command, by its name. */
  predicate DeclaredByName(s: RegistryState, id: string, command: ControlCommandName) {
    && id in s.registrations
    && exists i :: 0 <= i < |s.registrations[id].supportedCommands| &&
         s.registrations[id].supportedCommands[i].name == NameOnWire(command)
  }

  /** A command passes for supported exactly when the target declared its name, and is refused otherwise. */
  lemma SupportMeaning(s: RegistryState, id: string, command: ControlCommandName)
    requires id in s.registrations
    ensures EnsureCommandSupported(s, id, command) ==
              if DeclaredByName(s, id, command) then Ok(())
              else Err(RelayError("unsupported_command", "command_validate", Some(id),
                                  "target does not declare support for this command", false))
  {
    DeclarationMeaning(s, id, command);
  }

  lemma DeclarationMeaning(s: RegistryState, id: string, command: ControlCommandName)
    requires id in s.registrations
    ensures Declares(s.registrations[id], command) <==> DeclaredByName(s, id, command)
  {
    NamesAgree(command);
  }

  lemma NamesAgree(command: ControlCommandName)
    ensures command.WireName() == NameOnWire(command)
  {
  }

  // ---------- renewal ----------

  /**
   A renewal within the clock range writes the two times and the mark of one record and nothing else; one
   past it writes the renewal time and aborts; an unknown target is refused.
   */
  lemma RenewWrites(s: RegistryState, id: string, now: Instant)
    ensures var (after, outcome) := Renew(s, id, now);
            if id !in s.registrations then
              && after == s
              && outcome == Returned(Err(RelayError("target_not_registered", "registration_renew", Some(id),
                                                    "target is not registered", true)))
            else
              var r := s.registrations[id];
              if OnTheClock(now, r.leaseSeconds) then
                && outcome == Returned(Ok(()))
                && after == s.(registrations := s.registrations[id :=
                     r.(renewedAt := now, expiresAt := EndOf(now, r.leaseSeconds), registrationState := Active)])
              else
                && outcome == Panicked
                && after == s.(registrations := s.registrations[id := r.(renewedAt := now)])
  {
  }

  /**
   A renewal keeps `expires_at == renewed_at + lease` exactly when it does not abort on the clock
   addition: the renewal time is stored before the addition is tried.
   */
  lemma RenewKeepsLeaseExactIffNoPanic(s: RegistryState, id: string, now: Instant)
    requires LeasesExact(s)
    ensures LeasesExact(Renew(s, id, now).0) <==>
            !(id in s.registrations && !OnTheClock(now, s.registrations[id].leaseSeconds))
  {
    var after := Renew(s, id, now).0;
    if id in s.registrations && LeaseEnd(now, s.registrations[id].leaseSeconds).None? {
      assert !LeaseIsExact(after.registrations[id]);
    } else {
      forall other | other in after.registrations ensures LeaseIsExact(after.registrations[other]) {
        if other != id { assert after.registrations[other] == s.registrations[other]; }
      }
    }
  }

  /** Renewing a swept target revives its registration but leaves its connection expired. */
  lemma RenewLeavesConnectionExpired(s: RegistryState, id: string, swept: Instant, now: Instant)
    requires InStep(s) && id in LapsedIds(s, swept)
    requires var lease := s.registrations[id].leaseSeconds; SignedSeconds(lease) > 0 && OnTheClock(now, lease)
    ensures var after := Renew(ExpireLeases(s, swept), id, now).0;
            && EnsureTargetActive(after, id, now).Ok?
            && after.connections[id].state == ConnectionState.Expired
  {
  }

  // ---------- availability ----------

  /** How many connections are in one of `states`. */
  ghost function CountIn(s: RegistryState, states: set<ConnectionState>): nat {
    |set id | id in s.connections && s.connections[id].state in states|
  }

  /** The five classes partition the registered targets. */
  lemma BucketsPartitionTargets(s: RegistryState)
    requires InStep(s)
    ensures CountIn(s, {Registered, Disconnected, Connecting}) + CountIn(s, {Connected}) + CountIn(s, {Reconnecting})
              + CountIn(s, {Unavailable}) + CountIn(s, {ConnectionState.Expired}) == |s.registrations|
  {
    var c := s.connections;
    var a, b, d, e, f := InStates(c, {Registered, Disconnected, Connecting}), InStates(c, {Connected}),
                         InStates(c, {Reconnecting}), InStates(c, {Unavailable}),
                         InStates(c, {ConnectionState.Expired});
    forall id | id in c ensures id in a || id in b || id in d || id in e || id in f {
      EachStateHasItsClass(c[id].state);
    }
    SizeOfFive(c.Keys, a, b, d, e, f);
    assert |c.Keys| == |s.registrations.Keys|;
  }

  lemma EachStateHasItsClass(state: ConnectionState)
    ensures || state in {Registered, Disconnected, Connecting} || state in {Connected} || state in {Reconnecting}
            || state in {Unavailable} || state in {ConnectionState.Expired}
  {
    match state {
      case Registered =>
      case Disconnected =>
      case Connecting =>
      case Connected =>
      case Reconnecting =>
      case Unavailable =>
      case Expired =>
    }
  }

  lemma SizeOfFive(all: set<string>, a: set<string>, b: set<string>, c: set<string>, d: set<string>, e: set<string>)
    requires a !! b !! c !! d !! e
    requires forall id :: id in all <==> id in a || id in b || id in c || id in d || id in e
    ensures |all| == |a| + |b| + |c| + |d| + |e|
  {
    assert all == (((a + b) + c) + d) + e;
    SizeOfUnion(a, b);
    SizeOfUnion(a + b, c);
    SizeOfUnion(a + b + c, d);
    SizeOfUnion(a + b + c + d, e);
  }

  lemma SizeOfUnion(some: set<string>, others: set<string>)
    requires some !! others
    ensures |some + others| == |some| + |others|
  {
  }
}
