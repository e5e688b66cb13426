/** The target process registry of src/registry.rs, updating its two maps in place. */
module Registry {
  import opened Basics
  import opened Commands
  import opened Policies
  import opened RegistryModel
  import RegistryLaws

  /** A sweep that has yet to visit the targets in `pending`. */
  ghost function SweepPart(s: RegistryState, pending: set<string>, now: Instant): RegistryState {
    s.(registrations := map id | id in s.registrations ::
         if id !in pending && Lapsed(s.registrations[id], now)
         then s.registrations[id].(registrationState := RegistrationState.Expired)
         else s.registrations[id],
       connections := map id | id in s.connections ::
         if id !in pending && id in s.registrations && Lapsed(s.registrations[id], now)
         then s.connections[id].(state := ConnectionState.Expired, updatedAt := now)
         else s.connections[id])
  }

  /** The registry with one target, and its connection, marked expired. */
  function WithExpired(s: RegistryState, id: string, now: Instant): RegistryState
    requires id in s.registrations && id in s.connections
  {
    s.(registrations := s.registrations[id :=
         s.registrations[id].(registrationState := RegistrationState.Expired)],
       connections := s.connections[id :=
         s.connections[id].(state := ConnectionState.Expired, updatedAt := now)])
  }

  /** What visiting `id` does to a partial sweep. */
  lemma SweepPartStep(s: RegistryState, pending: set<string>, id: string, now: Instant)
    requires InStep(s) && id in s.registrations && id in pending
    ensures var before := SweepPart(s, pending, now);
            && id in before.registrations && id in before.connections
            && before.registrations[id] == s.registrations[id]
            && before.connections[id] == s.connections[id]
            && s.registrations[id].targetId == id
            && SweepPart(s, pending - {id}, now) ==
                 if Lapsed(s.registrations[id], now) then WithExpired(before, id, now) else before
  {
    var before := SweepPart(s, pending, now);
    var after := SweepPart(s, pending - {id}, now);
    if Lapsed(s.registrations[id], now) {
      assert after.registrations == before.registrations[id :=
        s.registrations[id].(registrationState := RegistrationState.Expired)];
      assert after.connections == before.connections[id :=
        s.connections[id].(state := ConnectionState.Expired, updatedAt := now)];
    } else {
      assert after.registrations == before.registrations;
      assert after.connections == before.connections;
    }
  }

  lemma SweepPartEnds(s: RegistryState, now: Instant)
    requires InStep(s)
    ensures SweepPart(s, s.registrations.Keys, now) == s
    ensures SweepPart(s, {}, now) == ExpireLeases(s, now)
    ensures InStep(ExpireLeases(s, now))
  {
    var none := SweepPart(s, s.registrations.Keys, now);
    assert none.registrations == s.registrations;
    assert none.connections == s.connections;
    assert SweepPart(s, {}, now).registrations == ExpireLeases(s, now).registrations;
    assert SweepPart(s, {}, now).connections == ExpireLeases(s, now).connections;
  }

  lemma LapsedPendingStep(s: RegistryState, pending: set<string>, id: string, now: Instant)
    requires id in s.registrations && id in pending
    ensures |LapsedIds(s, now) * pending|
         == |LapsedIds(s, now) * (pending - {id})| + (if Lapsed(s.registrations[id], now) then 1 else 0)
  {
    var left := LapsedIds(s, now) * (pending - {id});
    if Lapsed(s.registrations[id], now) {
      assert LapsedIds(s, now) * pending == left + {id};
    } else {
      assert LapsedIds(s, now) * pending == left;
    }
  }

  lemma ActivePendingStep(s: RegistryState, pending: set<string>, id: string, now: Instant)
    requires id in s.registrations && id in pending
    ensures |ActiveIds(s, now) - (pending - {id})|
         == |ActiveIds(s, now) - pending| + (if IsActive(s.registrations[id], now) then 1 else 0)
  {
    var counted := ActiveIds(s, now) - pending;
    if IsActive(s.registrations[id], now) {
      assert ActiveIds(s, now) - (pending - {id}) == counted + {id};
    } else {
      assert ActiveIds(s, now) - (pending - {id}) == counted;
    }
  }

  const UNBOUND: set<ConnectionState> := {Registered, Disconnected, Connecting}
  const LAPSED: set<ConnectionState> := {ConnectionState.Expired}

  /** The summary once every target outside `pending` has been counted. */
  ghost function Tally(connections: map<string, Connection>, pending: set<string>): AvailabilitySummary {
    AvailabilitySummary(
      |connections|,
      |InStates(connections, UNBOUND) - pending|,
      |InStates(connections, {Connected}) - pending|,
      |InStates(connections, {Reconnecting}) - pending|,
      |InStates(connections, {Unavailable}) - pending|,
      |InStates(connections, LAPSED) - pending|)
  }

  lemma TallyOne(connections: map<string, Connection>, states: set<ConnectionState>, pending: set<string>, id: string)
    requires id in connections && id in pending
    ensures |InStates(connections, states) - (pending - {id})|
         == |InStates(connections, states) - pending| + One(connections[id].state, states)
  {
    var hits := InStates(connections, states);
    if connections[id].state in states {
      assert hits - (pending - {id}) == (hits - pending) + {id};
    } else {
      assert hits - (pending - {id}) == hits - pending;
    }
  }

  /** Counts one connection into its class. */
  function Counted(summary: AvailabilitySummary, state: ConnectionState): AvailabilitySummary {
    match state
    case Registered => summary.(registered := summary.registered + 1)
    case Disconnected => summary.(registered := summary.registered + 1)
    case Connecting => summary.(registered := summary.registered + 1)
    case Connected => summary.(connected := summary.connected + 1)
    case Reconnecting => summary.(reconnecting := summary.reconnecting + 1)
    case Unavailable => summary.(unavailable := summary.unavailable + 1)
    case Expired => summary.(expired := summary.expired + 1)
  }

  function One(state: ConnectionState, states: set<ConnectionState>): nat {
    if state in states then 1 else 0
  }

  lemma CountedAddsOne(summary: AvailabilitySummary, state: ConnectionState)
    ensures Counted(summary, state) == AvailabilitySummary(
              summary.total,
              summary.registered + One(state, UNBOUND),
              summary.connected + One(state, {Connected}),
              summary.reconnecting + One(state, {Reconnecting}),
              summary.unavailable + One(state, {Unavailable}),
              summary.expired + One(state, LAPSED))
  {
  }

  lemma TallyStep(connections: map<string, Connection>, pending: set<string>, id: string)
    requires id in connections && id in pending
    ensures Tally(connections, pending - {id}) == Counted(Tally(connections, pending), connections[id].state)
  {
    TallyOne(connections, UNBOUND, pending, id);
    TallyOne(connections, {Connected}, pending, id);
    TallyOne(connections, {Reconnecting}, pending, id);
    TallyOne(connections, {Unavailable}, pending, id);
    TallyOne(connections, LAPSED, pending, id);
    CountedAddsOne(Tally(connections, pending), connections[id].state);
  }

  lemma NothingCounted(connections: map<string, Connection>, states: set<ConnectionState>)
    ensures InStates(connections, states) - connections.Keys == {}
    ensures InStates(connections, states) - {} == InStates(connections, states)
  {
  }

  lemma TallyEnds(s: RegistryState)
    ensures Tally(s.connections, s.connections.Keys)
         == RegistryModel.AvailabilitySummary(|s.connections|, 0, 0, 0, 0, 0)
    ensures var summary := Tally(s.connections, {});
            && summary.total == |s.connections|
            && summary.registered == RegistryLaws.CountIn(s, {Registered, Disconnected, Connecting})
            && summary.connected == RegistryLaws.CountIn(s, {Connected})
            && summary.reconnecting == RegistryLaws.CountIn(s, {Reconnecting})
            && summary.unavailable == RegistryLaws.CountIn(s, {Unavailable})
            && summary.expired == RegistryLaws.CountIn(s, {ConnectionState.Expired})
  {
    NothingCounted(s.connections, UNBOUND);
    NothingCounted(s.connections, {Connected});
    NothingCounted(s.connections, {Reconnecting});
    NothingCounted(s.connections, {Unavailable});
    NothingCounted(s.connections, LAPSED);
  }

  class TargetProcessRegistry {
    const policy: RegistrationPolicy
    var registrations: map<string, Registration>
    var connections: map<string, Connection>

    function State(): RegistryState
      reads this
    {
      RegistryState(policy, registrations, connections)
    }

    ghost predicate Valid()
      reads this
    {
      InStep(State())
    }

    constructor (policy: RegistrationPolicy)
      ensures State() == EmptyRegistry(policy) && Valid()
    {
      this.policy := policy;
      registrations, connections := map[], map[];
    }

    /** Between two lock acquisitions other tasks may leave the shared registry in any state. */
    method Interfere(left: RegistryState)
      requires left.policy == policy
      modifies this
      ensures State() == left
    {
      registrations, connections := left.registrations, left.connections;
    }

    method ValidateRequest(request: RegistrationRequest) returns (result: RelayResult<()>)
      ensures result == RegistryModel.ValidateRequest(policy, request)
    {
      if IsBlank(request.targetId) {
        return Err(NewError("empty_target_id", "registration", "target id must not be empty", false));
      }
      if !request.ipcPath.IsAbsolute() {
        return Err(TargetError("relative_ipc_path", "registration", request.targetId,
                               "IPC path must be absolute", false));
      }
      if !policy.IpcPathIsAllowed(request.ipcPath) {
        return Err(TargetError("ipc_path_not_allowed", "registration", request.targetId,
                               "IPC path is outside allowed prefixes", false));
      }
      if request.leaseSeconds == 0 || request.leaseSeconds > policy.maxLeaseSeconds {
        return Err(TargetError("invalid_lease_seconds", "registration", request.targetId,
                               "lease seconds must be positive and must not exceed policy max", false));
      }
      for i := 0 to |request.supportedCommands|
        invariant forall j :: 0 <= j < i ==> ValidCommandSchema(request.supportedCommands[j])
      {
        var command := request.supportedCommands[i];
        if IsBlank(command.name) || command.timeoutSeconds == 0 {
          assert !ValidCommandSchema(request.supportedCommands[i]);
          return Err(CommandSchemaError(request.targetId));
        }
      }
      return Ok(());
    }

    method Register(request: RegistrationRequest, owner: string, keyed: RelayResult<string>, now: Instant)
      returns (outcome: Attempt<Registration>)
      requires Valid()
      modifies this
      ensures (State(), outcome) == RegistryModel.Register(old(State()), request, owner, keyed, now)
      ensures Valid()
    {
      var validated := ValidateRequest(request);
      if validated.Err? {
        return Returned(Err(validated.error));
      }
      if keyed.Err? {
        return Returned(Err(keyed.error));
      }
      var key := keyed.value;
      var id := request.targetId;
      if id in registrations && registrations[id].ownerIdentity != owner {
        return Returned(Err(TargetError("target_id_owner_mismatch", "registration", id,
                                        "target id is owned by another supervisor identity", false)));
      }
      if exists other :: other in registrations && other != id && registrations[other].ipcPathKey == key {
        assert KeyHeldByOther(State(), id, key);
        return Returned(Err(NewError("ipc_path_conflict", "registration",
                                     "ipc path is already used by another target", false)));
      }
      assert !KeyHeldByOther(State(), id, key);
      if id in registrations {
        outcome := UpsertExistingRegistration(request, owner, key, now);
        return;
      }
      var end := LeaseEnd(now, request.leaseSeconds);
      if end.None? {
        return Panicked;
      }
      var registration := NewRegistration(request, owner, key, now, now, end.value);
      var connection := Connection(id, request.ipcPath, Registered, None, None, None, None, now);
      connections := connections[id := connection];
      registrations := registrations[id := registration];
      return Returned(Ok(registration));
    }

    method UpsertExistingRegistration(request: RegistrationRequest, owner: string, key: string, now: Instant)
      returns (outcome: Attempt<Registration>)
      requires Valid()
      modifies this
      ensures (State(), outcome) == RegistryModel.UpsertExistingRegistration(old(State()), request, owner, key, now)
      ensures Valid()
    {
      var id := request.targetId;
      if id !in registrations {
        return Returned(Err(NotRegistered("registration", id, "target is not registered")));
      }
      var existing := registrations[id];
      var pathChanged := existing.ipcPathKey != key;
      var end := LeaseEnd(now, request.leaseSeconds);
      if end.None? {
        return Panicked;
      }
      var registration := NewRegistration(request, owner, key, existing.registeredAt, now, end.value);
      if id in connections {
        var connection := connections[id].(ipcPath := request.ipcPath, updatedAt := now);
        if pathChanged {
          connection := connection.(state := Reconnecting);
          connection := connection.(lastError := Some("ipc_path_changed"));
          connection := connection.(connectedAt := None);
        }
        connections := connections[id := connection];
      }
      registrations := registrations[id := registration];
      return Returned(Ok(registration));
    }

    method Renew(targetId: string, now: Instant) returns (outcome: Attempt<()>)
      requires Valid()
      modifies this`registrations
      ensures (State(), outcome) == RegistryModel.Renew(old(State()), targetId, now)
      ensures Valid()
    {
      if targetId !in registrations {
        return Returned(Err(NotRegistered("registration_renew", targetId, "target is not registered")));
      }
      var touched := registrations[targetId].(renewedAt := now);
      registrations := registrations[targetId := touched];
      var end := LeaseEnd(now, touched.leaseSeconds);
      if end.None? {
        return Panicked;
      }
      var renewed := touched.(expiresAt := end.value, registrationState := Active);
      registrations := registrations[targetId := renewed];
      assert registrations == old(registrations)[targetId := renewed];
      return Returned(Ok(()));
    }

    /** Visits the records in an arbitrary order, as the hash map does. */
    method ExpireLeases(now: Instant) returns (expired: nat)
      requires Valid()
      modifies this
      ensures State() == RegistryModel.ExpireLeases(old(State()), now)
      ensures expired == |LapsedIds(old(State()), now)|
      ensures |MarkedActiveIds(old(State()))| == |MarkedActiveIds(State())| + expired
      ensures MarkedActiveIds(State()) == ActiveIds(State(), now)
      ensures Valid()
    {
      ghost var before := State();
      SweepPartEnds(before, now);
      assert LapsedIds(before, now) * before.registrations.Keys == LapsedIds(before, now);
      expired := 0;
      var pending := registrations.Keys;
      while pending != {}
        invariant pending <= before.registrations.Keys
        invariant State() == SweepPart(before, pending, now)
        invariant expired + |LapsedIds(before, now) * pending| == |LapsedIds(before, now)|
        decreases pending
      {
        var id :| id in pending;
        SweepPartStep(before, pending, id, now);
        LapsedPendingStep(before, pending, id, now);
        var lapsed := ExpireOne(id, now);
        expired := if lapsed then expired + 1 else expired;
        pending := pending - {id};
      }
      RegistryLaws.SweepAccounting(before, now, now);
    }

    /** The body of the sweep's loop. */
    method ExpireOne(id: string, now: Instant) returns (lapsed: bool)
      requires id in registrations && registrations[id].targetId == id && id in connections
      modifies this
      ensures lapsed == Lapsed(old(registrations[id]), now)
      ensures State() == if lapsed then WithExpired(old(State()), id, now) else old(State())
    {
      var registration := registrations[id];
      lapsed := registration.registrationState == Active && registration.expiresAt <= now;
      if lapsed {
        registrations := registrations[id := registration.(registrationState := RegistrationState.Expired)];
        if registration.targetId in connections {
          connections := connections[registration.targetId :=
            connections[registration.targetId].(state := ConnectionState.Expired, updatedAt := now)];
        }
      }
    }

    /** Counts the records that are marked active and whose lease still runs. */
    method ActiveRegistrationCount(now: Instant) returns (count: nat)
      requires Valid()
      ensures count == |ActiveIds(State(), now)|
    {
      count := 0;
      var pending := registrations.Keys;
      while pending != {}
        invariant pending <= registrations.Keys
        invariant count == |ActiveIds(State(), now) - pending|
        decreases pending
      {
        var id :| id in pending;
        ActivePendingStep(State(), pending, id, now);
        if registrations[id].registrationState == Active && registrations[id].expiresAt > now {
          count := count + 1;
        }
        pending := pending - {id};
      }
      assert ActiveIds(State(), now) - {} == ActiveIds(State(), now);
    }

    /** Lists the active targets in an arbitrary order, as the hash map does. */
    method ActiveTargets(now: Instant) returns (targets: seq<VisibleTarget>)
      requires Valid()
      ensures Enumerates(IdsOf(targets), ActiveIds(State(), now))
      ensures targets == VisibleTargets(State(), IdsOf(targets))
    {
      targets := [];
      var pending := registrations.Keys;
      while pending != {}
        invariant pending <= registrations.Keys
        invariant Enumerates(IdsOf(targets), ActiveIds(State(), now) - pending)
        invariant targets == VisibleTargets(State(), IdsOf(targets))
        decreases pending
      {
        var id :| id in pending;
        var registration := registrations[id];
        if registration.registrationState == Active && registration.expiresAt > now {
          ghost var listed := IdsOf(targets);
          targets := targets + [Visible(State(), registration)];
          assert IdsOf(targets) == listed + [id];
        }
        pending := pending - {id};
      }
      assert ActiveIds(State(), now) - {} == ActiveIds(State(), now);
    }

    function Lookup(targetId: string): RelayResult<Registration>
      reads this
    {
      LookUp(State(), targetId)
    }

    method BeginBinding(targetId: string, now: Instant) returns (result: RelayResult<()>)
      modifies this`connections
      ensures (State(), result) == RegistryModel.BeginBinding(old(State()), targetId, now)
    {
      if targetId !in connections {
        return Err(NoConnection(targetId));
      }
      connections := connections[targetId := connections[targetId].(state := Connecting, updatedAt := now)];
      return Ok(());
    }

    method MarkConnected(targetId: string, generation: u64, now: Instant) returns (result: RelayResult<()>)
      modifies this`connections
      ensures (State(), result) == RegistryModel.MarkConnected(old(State()), targetId, generation, now)
    {
      if targetId !in connections {
        return Err(NoConnection(targetId));
      }
      connections := connections[targetId := connections[targetId].(
        state := Connected, lastStateGeneration := Some(generation), connectedAt := Some(now),
        updatedAt := now, lastError := None)];
      return Ok(());
    }

    method MarkReconnecting(targetId: string, reason: string, now: Instant)
      modifies this`connections
      ensures State() == RegistryModel.MarkReconnecting(old(State()), targetId, reason, now)
    {
      if targetId in connections {
        connections := connections[targetId := connections[targetId].(
          state := Reconnecting, lastError := Some(reason), updatedAt := now)];
      }
    }

    method MarkUnavailable(targetId: string, reason: string, now: Instant)
      modifies this`connections
      ensures State() == RegistryModel.MarkUnavailable(old(State()), targetId, reason, now)
    {
      if targetId in connections {
        connections := connections[targetId := connections[targetId].(
          state := Unavailable, lastError := Some(reason), updatedAt := now)];
      }
    }

    /** Counts the connections by state. The five classes always add up to the number of registrations. */
    method AvailabilitySummary() returns (summary: AvailabilitySummary)
      requires Valid()
      ensures summary.registered == RegistryLaws.CountIn(State(), {Registered, Disconnected, Connecting})
      ensures summary.connected == RegistryLaws.CountIn(State(), {Connected})
      ensures summary.reconnecting == RegistryLaws.CountIn(State(), {Reconnecting})
      ensures summary.unavailable == RegistryLaws.CountIn(State(), {Unavailable})
      ensures summary.expired == RegistryLaws.CountIn(State(), {ConnectionState.Expired})
      ensures summary.total == |registrations|
           == summary.registered + summary.connected + summary.reconnecting + summary.unavailable + summary.expired
    {
      summary := RegistryModel.AvailabilitySummary(|connections|, 0, 0, 0, 0, 0);
      TallyEnds(State());
      RegistryLaws.BucketsPartitionTargets(State());
      var pending := connections.Keys;
      while pending != {}
        invariant pending <= connections.Keys
        invariant summary == Tally(connections, pending)
        decreases pending
      {
        var id :| id in pending;
        TallyStep(connections, pending, id);
        summary := Counted(summary, connections[id].state);
        pending := pending - {id};
      }
    }
  }
}
