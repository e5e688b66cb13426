/**
 The registry's state as a value, and what each operation of src/registry.rs makes of it.
 The class in Registry.dfy updates its maps in place and is proved against these functions.
 */
module RegistryModel {
  import opened Basics
  import opened Commands
  import opened Policies
  import opened PathLaws
  import opened Text

  datatype RegistrationState = Active | Rejected | Expired

  datatype ConnectionState =
    | Registered | Disconnected | Connecting | Connected | Reconnecting | Unavailable | Expired

  datatype SupportedCommand = SupportedCommand(name: string, idempotent: bool, timeoutSeconds: u64)

  datatype RegistrationRequest = RegistrationRequest(
    targetId: string, displayName: string, ipcPath: Path, leaseSeconds: u64,
    supportedCommands: seq<SupportedCommand>)

  datatype Registration = Registration(
    targetId: string, displayName: string, ipcPath: Path, ipcPathKey: string, ownerIdentity: string,
    leaseSeconds: u64, supportedCommands: seq<SupportedCommand>, registeredAt: Instant, renewedAt: Instant,
    expiresAt: Instant, registrationState: RegistrationState, lastRejection: Option<string>)

  datatype Connection = Connection(
    targetId: string, ipcPath: Path, state: ConnectionState, lastError: Option<string>,
    lastStateGeneration: Option<u64>, lastSequence: Option<u64>, connectedAt: Option<Instant>,
    updatedAt: Instant)

  datatype VisibleTarget = VisibleTarget(
    targetId: string, displayName: string, registrationState: RegistrationState,
    connectionState: ConnectionState, supportedCommands: seq<SupportedCommand>)

  datatype AvailabilitySummary = AvailabilitySummary(
    total: nat, registered: nat, connected: nat, reconnecting: nat, unavailable: nat, expired: nat)

  datatype RegistryState = RegistryState(
    policy: RegistrationPolicy,
    registrations: map<string, Registration>,
    connections: map<string, Connection>)

  function EmptyRegistry(policy: RegistrationPolicy): RegistryState {
    RegistryState(policy, map[], map[])
  }

  // ---------- registration ----------

  predicate ValidCommandSchema(command: SupportedCommand) {
    !IsBlank(command.name) && command.timeoutSeconds != 0
  }

  function ValidateRequest(policy: RegistrationPolicy, request: RegistrationRequest): RelayResult<()> {
    if IsBlank(request.targetId) then
      Err(NewError("empty_target_id", "registration", "target id must not be empty", false))
    else if !request.ipcPath.IsAbsolute() then
      Err(TargetError("relative_ipc_path", "registration", request.targetId, "IPC path must be absolute", false))
    else if !policy.IpcPathIsAllowed(request.ipcPath) then
      Err(TargetError("ipc_path_not_allowed", "registration", request.targetId,
                      "IPC path is outside allowed prefixes", false))
    else if request.leaseSeconds == 0 || request.leaseSeconds > policy.maxLeaseSeconds then
      Err(TargetError("invalid_lease_seconds", "registration", request.targetId,
                      "lease seconds must be positive and must not exceed policy max", false))
    else if exists i :: 0 <= i < |request.supportedCommands| && !ValidCommandSchema(request.supportedCommands[i]) then
      Err(CommandSchemaError(request.targetId))
    else
      Ok(())
  }

  function CommandSchemaError(targetId: string): RelayError {
    TargetError("unsupported_command_schema", "registration", targetId,
                "supported command name and timeout must be valid", false)
  }

  function NotRegistered(stage: string, targetId: string, message: string): RelayError {
    TargetError("target_not_registered", stage, targetId, message, true)
  }

  predicate KeyHeldByOther(s: RegistryState, targetId: string, key: string) {
    exists id :: id in s.registrations && id != targetId && s.registrations[id].ipcPathKey == key
  }

  function NewRegistration(request: RegistrationRequest, owner: string, key: string, registeredAt: Instant,
                           now: Instant, expiresAt: Instant): Registration
  {
    Registration(request.targetId, request.displayName, request.ipcPath, key, owner, request.leaseSeconds,
                 request.supportedCommands, registeredAt, now, expiresAt, Active, None)
  }

  /**
   Registers one target. `keyed` is what path normalisation answers for the request's IPC path: the
   conflict key, or an error, since the file system may change between calls.
   */
  function Register(s: RegistryState, request: RegistrationRequest, owner: string, keyed: RelayResult<string>,
                    now: Instant): (RegistryState, Attempt<Registration>)
  {
    match ValidateRequest(s.policy, request)
    case Err(error) => (s, Returned(Err(error)))
    case Ok(_) =>
      match keyed
      case Err(error) => (s, Returned(Err(error)))
      case Ok(key) =>
        if request.targetId in s.registrations && s.registrations[request.targetId].ownerIdentity != owner then
          (s, Returned(Err(TargetError("target_id_owner_mismatch", "registration", request.targetId,
                                       "target id is owned by another supervisor identity", false))))
        else if KeyHeldByOther(s, request.targetId, key) then
          (s, Returned(Err(NewError("ipc_path_conflict", "registration",
                                    "ipc path is already used by another target", false))))
        else if request.targetId in s.registrations then
          UpsertExistingRegistration(s, request, owner, key, now)
        else
          match LeaseEnd(now, request.leaseSeconds)
          case None => (s, Panicked)
          case Some(expiresAt) =>
            var registration := NewRegistration(request, owner, key, now, now, expiresAt);
            var connection := Connection(request.targetId, request.ipcPath, Registered, None, None, None, None, now);
            (s.(connections := s.connections[request.targetId := connection],
                registrations := s.registrations[request.targetId := registration]),
             Returned(Ok(registration)))
  }

  function UpsertExistingRegistration(s: RegistryState, request: RegistrationRequest, owner: string, key: string,
                                      now: Instant): (RegistryState, Attempt<Registration>)
  {
    if request.targetId !in s.registrations then
      (s, Returned(Err(NotRegistered("registration", request.targetId, "target is not registered"))))
    else
      var existing := s.registrations[request.targetId];
      match LeaseEnd(now, request.leaseSeconds)
      case None => (s, Panicked)
      case Some(expiresAt) =>
        var registration := NewRegistration(request, owner, key, existing.registeredAt, now, expiresAt);
        var connections :=
          if request.targetId in s.connections then
            s.connections[request.targetId :=
              Upserted(s.connections[request.targetId], request.ipcPath, existing.ipcPathKey != key, now)]
          else s.connections;
        (s.(connections := connections, registrations := s.registrations[request.targetId := registration]),
         Returned(Ok(registration)))
  }

  /** A connection after its target registered again, possibly under another path. */
  function Upserted(c: Connection, ipcPath: Path, pathChanged: bool, now: Instant): Connection {
    var moved := c.(ipcPath := ipcPath, updatedAt := now);
    if pathChanged
    then moved.(state := Reconnecting, lastError := Some("ipc_path_changed"), connectedAt := None)
    else moved
  }

  /** Renews a lease. The renewal time is written before the addition that may panic. */
  function Renew(s: RegistryState, targetId: string, now: Instant): (RegistryState, Attempt<()>) {
    if targetId !in s.registrations then
      (s, Returned(Err(NotRegistered("registration_renew", targetId, "target is not registered"))))
    else
      var touched := s.registrations[targetId].(renewedAt := now);
      match LeaseEnd(now, touched.leaseSeconds)
      case None => (s.(registrations := s.registrations[targetId := touched]), Panicked)
      case Some(expiresAt) =>
        var renewed := touched.(expiresAt := expiresAt, registrationState := Active);
        (s.(registrations := s.registrations[targetId := renewed]), Returned(Ok(())))
  }

  // ---------- leases ----------

  predicate Lapsed(r: Registration, now: Instant) {
    r.registrationState == Active && r.expiresAt <= now
  }

  predicate IsActive(r: Registration, now: Instant) {
    r.registrationState == Active && r.expiresAt > now
  }

  function LapsedIds(s: RegistryState, now: Instant): set<string> {
    set id | id in s.registrations && Lapsed(s.registrations[id], now)
  }

  function MarkedActiveIds(s: RegistryState): set<string> {
    set id | id in s.registrations && s.registrations[id].registrationState == Active
  }

  function ActiveIds(s: RegistryState, now: Instant): set<string> {
    set id | id in s.registrations && IsActive(s.registrations[id], now)
  }

  /** Marks every lapsed registration, and the connection of the same target, as expired. */
  function ExpireLeases(s: RegistryState, now: Instant): RegistryState {
    s.(registrations := map id | id in s.registrations ::
         if Lapsed(s.registrations[id], now)
         then s.registrations[id].(registrationState := RegistrationState.Expired)
         else s.registrations[id],
       connections := map id | id in s.connections ::
         if id in s.registrations && Lapsed(s.registrations[id], now)
         then s.connections[id].(state := ConnectionState.Expired, updatedAt := now)
         else s.connections[id])
  }

  // ---------- reading ----------

  function LookUp(s: RegistryState, targetId: string): RelayResult<Registration> {
    if targetId in s.registrations then Ok(s.registrations[targetId])
    else Err(NotRegistered("registry", targetId, "target is not registered"))
  }

  function EnsureTargetActive(s: RegistryState, targetId: string, now: Instant): RelayResult<()> {
    match LookUp(s, targetId)
    case Err(error) => Err(error)
    case Ok(registration) =>
      if registration.registrationState != Active || registration.expiresAt <= now then
        Err(TargetError("target_unavailable", "registry", targetId, "target registration is not active", true))
      else
        Ok(())
  }

  predicate Declares(r: Registration, command: ControlCommandName) {
    exists i :: 0 <= i < |r.supportedCommands| && r.supportedCommands[i].name == command.WireName()
  }

  function EnsureCommandSupported(s: RegistryState, targetId: string, command: ControlCommandName): RelayResult<()> {
    match LookUp(s, targetId)
    case Err(error) => Err(error)
    case Ok(registration) =>
      if Declares(registration, command) then Ok(())
      else Err(TargetError("unsupported_command", "command_validate", targetId,
                           "target does not declare support for this command", false))
  }

  function Visible(s: RegistryState, r: Registration): VisibleTarget {
    VisibleTarget(r.targetId, r.displayName, r.registrationState,
                  if r.targetId in s.connections then s.connections[r.targetId].state else Unavailable,
                  r.supportedCommands)
  }

  /** `order` lists each member of `ids` once. */
  predicate Enumerates(order: seq<string>, ids: set<string>) {
    && (forall i, j :: 0 <= i < j < |order| ==> order[i] != order[j])
    && (forall id :: id in order ==> id in ids)
    && (forall id :: id in ids ==> id in order)
  }

  function VisibleTargets(s: RegistryState, order: seq<string>): seq<VisibleTarget>
    requires forall id :: id in order ==> id in s.registrations
  {
    seq(|order|, i requires 0 <= i < |order| => Visible(s, s.registrations[order[i]]))
  }

  /** The order in which a list shows its targets. */
  function IdsOf(targets: seq<VisibleTarget>): seq<string> {
    seq(|targets|, i requires 0 <= i < |targets| => targets[i].targetId)
  }

  // ---------- connection lifecycle ----------

  function NoConnection(targetId: string): RelayError {
    NotRegistered("registry", targetId, "target connection is not registered")
  }

  function BeginBinding(s: RegistryState, targetId: string, now: Instant): (RegistryState, RelayResult<()>) {
    if targetId !in s.connections then (s, Err(NoConnection(targetId)))
    else
      (s.(connections := s.connections[targetId :=
            s.connections[targetId].(state := Connecting, updatedAt := now)]), Ok(()))
  }

  function MarkConnected(s: RegistryState, targetId: string, generation: u64, now: Instant)
    : (RegistryState, RelayResult<()>)
  {
    if targetId !in s.connections then (s, Err(NoConnection(targetId)))
    else
      (s.(connections := s.connections[targetId :=
            s.connections[targetId].(state := Connected, lastStateGeneration := Some(generation),
              connectedAt := Some(now), updatedAt := now, lastError := None)]), Ok(()))
  }

  function MarkFailed(s: RegistryState, targetId: string, state: ConnectionState, reason: string, now: Instant)
    : RegistryState
  {
    if targetId !in s.connections then s
    else
      s.(connections := s.connections[targetId :=
           s.connections[targetId].(state := state, lastError := Some(reason), updatedAt := now)])
  }

  function MarkReconnecting(s: RegistryState, targetId: string, reason: string, now: Instant): RegistryState {
    MarkFailed(s, targetId, Reconnecting, reason, now)
  }

  function MarkUnavailable(s: RegistryState, targetId: string, reason: string, now: Instant): RegistryState {
    MarkFailed(s, targetId, Unavailable, reason, now)
  }

  // ---------- availability ----------

  /** The targets whose connection is in one of `states`. */
  function InStates(connections: map<string, Connection>, states: set<ConnectionState>): set<string> {
    set id | id in connections && connections[id].state in states
  }

  // ---------- invariants ----------

  /** Both maps have the same keys and their records agree on identity and path. */
  ghost predicate InStep(s: RegistryState) {
    && s.registrations.Keys == s.connections.Keys
    && (forall id :: id in s.registrations ==>
          && s.registrations[id].targetId == id
          && s.connections[id].targetId == id
          && s.connections[id].ipcPath == s.registrations[id].ipcPath)
  }

  /** No two targets hold the same path key. */
  ghost predicate UniqueKeys(s: RegistryState) {
    forall a, b :: a in s.registrations && b in s.registrations && a != b ==>
      s.registrations[a].ipcPathKey != s.registrations[b].ipcPathKey
  }

  /** The record satisfies the policy it was admitted under, and was never rejected. */
  ghost predicate RecordGoverned(policy: RegistrationPolicy, id: string, r: Registration) {
    && Trim(id) != ""
    && Permits(policy.allowedIpcPathPrefixes, r.ipcPath)
    && 1 <= r.leaseSeconds <= policy.maxLeaseSeconds
    && (forall command :: command in r.supportedCommands ==> Trim(command.name) != "" && command.timeoutSeconds >= 1)
    && r.registrationState != Rejected
    && r.lastRejection == None
  }

  ghost predicate Governed(s: RegistryState) {
    forall id :: id in s.registrations ==> RecordGoverned(s.policy, id, s.registrations[id])
  }

  ghost predicate LeaseIsExact(r: Registration) {
    LeaseEnd(r.renewedAt, r.leaseSeconds) == Some(r.expiresAt)
  }

  ghost predicate LeasesExact(s: RegistryState) {
    forall id :: id in s.registrations ==> LeaseIsExact(s.registrations[id])
  }

  /** What a connection state proves about the fields beside it. */
  ghost predicate Evidenced(c: Connection) {
    match c.state
    case Registered => c.connectedAt == None && c.lastStateGeneration == None && c.lastError == None
    case Connected => c.connectedAt.Some? && c.lastStateGeneration.Some? && c.lastError == None
    case Reconnecting => c.lastError.Some?
    case Unavailable => c.lastError.Some?
    case Expired => true
    case Connecting => false
    case Disconnected => false
  }

  ghost predicate Evidence(s: RegistryState) {
    forall id :: id in s.connections ==> Evidenced(s.connections[id])
  }

  /** A target marked expired has no live connection. */
  ghost predicate ExpiredNotLive(s: RegistryState) {
    forall id :: id in s.registrations && s.registrations[id].registrationState == RegistrationState.Expired ==>
      id in s.connections ==> s.connections[id].state != Connected && s.connections[id].state != Connecting
  }
}
