# rust-supervisor-relay: a verified model of the control plane

The relay stands between dashboards and target processes. Targets register themselves, with a lease, in
one shared registry; dashboards open authenticated sessions, are bound to the active targets, and send
control commands that the relay vets, audits and forwards over local IPC. This project models that
control plane in Dafny and proves what it keeps, over single operations and over whole runs.

`dafny verify dfyconfig.toml` checks everything.

## How the model is built

* **State that the relay updates in place is a class** (`Registry.TargetProcessRegistry`,
  `Session.DashboardSession`, `Audit.AuditRecorder`, `IpcClient.TargetIpcPort`). Each method is proved
  against a function on values (`RegistryModel`, `SessionModel`), and the properties are proved of those
  functions, so they hold of the methods too.
* **A run is a sequence of atomic steps** (`SystemModel`). Registering, binding one target and handling
  one command each happen entirely under the registry's lock, so any number of sessions, the registration
  loop, sweeps, fan-outs and reconnect timeouts interleave as whole steps, in any order. `Run` is the
  fold of the steps; the theorems about runs quantify over every sequence of steps.
* **The outside world is an input of each step.** A target may answer any request with anything, path
  normalisation may return any key or error, a client may send anything, and the clock may read anything
  unless a theorem says otherwise. Every request sent to a target is recorded with its
  answer, and everything delivered to a client is recorded in its transcript.
* **One connection is also modelled from end to end** (`DriverModel`, `Driver`): greeting, handshake,
  target list, binding of the snapshot, message loop. Between two acquisitions of the lock the registry
  may have been left in any state by others. `Schedule` proves that a connection is a session of a run:
  whatever is proved of sessions in runs holds of the loop's session, requests and audit log.
* **Machine integers are explicit.** Sequence numbers, lease seconds and counts are unsigned 64-bit and
  every operation on them is shown to stay in range. A lease is cast to a signed 64-bit duration as the
  code casts it, and an addition that leaves the clock's range (years -9999 to 9999) is the panic it is
  in the code, modelled as the outcome `Panicked`.

| file | contents |
|---|---|
| `Basics.dfy`, `Text.dfy`, `Commands.dfy`, `Policies.dfy` | shared vocabulary, blank texts, command validation, registration policy |
| `RegistryModel.dfy`, `RegistryLaws.dfy`, `Registry.dfy` | the registry on values, its laws, and the class |
| `IpcClient.dfy`, `Answers.dfy`, `Audit.dfy` | the target port, what a target's answer means, and the audit log |
| `SessionModel.dfy`, `Session.dfy` | the session on values, and the class with its fan-out |
| `SystemModel.dfy` | sessions, registry and environment as one transition system |
| `SystemInvariants.dfy`, `RunHistory.dfy` | invariants of every run; sessions, ownership, leases and expiry along a run |
| `Requests.dfy`, `Refusals.dfy` | where requests go and who may send them; as which error each refusal is reported |
| `Correspondence.dfy`, `AuditTrail.dfy` | requests, audit log and replies determine one another; gating |
| `ExpiryMatch.dfy` | when registration and connection expire together |
| `Confidentiality.dfy` | which targets a client hears about |
| `SweepTransparency.dfy` | the eager lease sweep is redundant |
| `Streams.dfy`, `FanOut.dfy` | event streams: projection, maxima, partition, conservation; delivery of everything else |
| `DriverModel.dfy`, `Schedule.dfy`, `Driver.dfy` | one connection: transcript grammar, its place in a run, and the loops |
| `PathLaws.dfy` | what the path prefix test promises |
| `Witnesses.dfy` | concrete runs that reach what holds only under a condition |

## What turned out not to hold, and when it does

* *A lease that the policy admits makes its target active.* Only if the lease fits a signed 64-bit
  integer (`RegisteredIsActiveIffLeaseFits`); `BornExpiredExists` gives a valid policy and an accepted
  request whose target is expired at the moment it registers.
* *A lease always ends one lease after its last renewal.* Kept by a step exactly when the step does not
  renew a target at a time from which its lease leaves the clock range, because the renewal time is
  stored first (`StepKeepsLeasesExactIff`, `RenewKeepsLeaseExactIffNoPanic`); `RenewalBreaksLease` is a
  run, under a valid policy, that ends with a wrong lease.
* *The connection of an expired target is never live.* Kept by a step exactly when the step does not
  handle a command that one target answers, as completed, in the name of another, expired one
  (`StepKeepsExpiredNotLiveIff`); `ExpiredTargetCanComeAlive` is a run that reaches such a state, and
  `ExpiredTargetsStayDown` rules it out while targets answer in their own name.
* *A client hears only about targets bound in its session.* Kept by a step exactly when the step does not
  handle a command whose result names an unbound target (`StepKeepsConfidentialIff`); the same run
  breaks it, and `ClientsHearOfBoundTargetsOnly` rules that out while targets answer in their own name.
* *A sweep never changes what a read sees.* A sweep changes a read exactly when the sweep's clock had
  passed the end of a lease and the reader's has not (`SweepChangesReadIff`). Whole runs are therefore
  blind to sweeps as long as binding, listing and commanding read a clock no earlier than the sweeps
  before them (`SweepsAreInvisible`). The code reads those clocks under the lock (`src/main.rs:326-400`);
  a registration's clock is read before it waits for the lock (`src/main.rs:172-175`) and may be late
  without harm. `SweepShowsWhenClockRunsBack` gives two runs that differ only in a sweep and in what a
  client is told.
* *A connection is expired if and only if its lease is.* Kept by a step exactly when the step does none
  of the following (`StepKeepsMatchedIff`, and `AlwaysMatchedIff` for whole runs): admit an expired
  target again under an unchanged path key, renew an expired target within the clock range, mark an
  expired target as reconnecting or give up on it after a reconnect timeout, or handle a command that is
  answered, as completed, in the name of an expired target. `RenewalPartsExpiry` is a run that breaks it.
* *An allowed IPC path stays under its prefix.* The test compares components as written; the path stays
  under the directory that the prefix names exactly when what follows the prefix never climbs above its
  start (`StaysUnderIff`). `AllowedPathCanLeavePrefix` gives `/run/../etc` under the prefix `/run`.
* *Every accepted, rejected and completed result is audited*, as `manual/dashboard-relay.md:19` has it.
  The code (`src/session.rs:513-548`) audits a refused command as rejected exactly when the command is
  admitted and its target does not decline it in a result, be it by not saying that it accepted the
  command or by the status "rejected" (`RefusalIsAuditedIff`). A command that is not admitted leaves no
  entry (`UnboundCommandIsNotAudited`), and one that its target declines is audited as completed
  (`DeclinedCommandIsAuditedCompleted`, where the status alone declines). The model follows the code.

## Model

| member | source | states |
|---|---|---|
| `RegistryLaws.RegisterCharacterised` | `src/registry.rs:159-228` | Registration succeeds if and only if the request obeys the policy, its path has a key, no other owner holds the id, no other target holds the key and the lease stays in the clock range; it panics only for that last reason; without success both maps are unchanged. |
| `RegistryLaws.ValidationMatchesPolicy` | `src/registry.rs:548-602` | A request passes validation if and only if its id is more than white space, its path starts at the root and agrees component by component with a listed prefix, its lease is within the limit and each command has a name and a timeout. |
| `PathLaws.AllowedMeaning` | `src/config.rs:346-352` | A policy allows exactly the paths from the root that agree with one of its prefixes in each of its components. |
| `Text.WhitespaceIsListed` | `src/registry.rs:549` | White space is exactly the 25 characters that the Unicode Character Database lists as such. |
| `Text.BlankTrimsToNothing` | `src/registry.rs:549` | A text counts as empty if and only if trimming white space from both ends leaves nothing. |
| `Refusals.ValidationIsRefusedAs` | `src/registry.rs:548-602` | An invalid request is refused with the error of the first rule it breaks, in the order of the checks. |
| `Refusals.RegistrationIsRefusedAs` | `src/registry.rs:165-191` | A request that is not admissible changes nothing and is refused with the error of the first of all rules that it breaks. |
| `RegistryLaws.LeaseEndMeaning` | `src/registry.rs:197` | A lease ends its seconds, read as a signed 64-bit integer, after it is taken; there is no end exactly when that leaves the years -9999 to 9999. |
| `RegistryLaws.PolicyValidationMatches` | `src/config.rs:291-340` | A policy is valid if and only if its listening path and each of its prefixes start at the root, it has a prefix, and its default lease is positive and within the maximum. |
| `RegistryLaws.ValidPolicyGrantsItsDefault` | `src/config.rs:326-352` | A request for the default lease of a valid policy passes validation if and only if its id, path and commands do. |
| `PathLaws.StaysUnderIff` | `src/config.rs:346-352` | A path that starts with a prefix stays under the directory the prefix names, at every step, if and only if what follows the prefix never climbs above its start; only the root cannot be left. |
| `PathLaws.AllowedPathCanLeavePrefix` | `src/config.rs:346-352` | A valid policy and a path that it allows and that leaves its only prefix. |
| `RegistryLaws.RegisterWrites` | `src/registry.rs:197-275` | A successful registration writes exactly one record and one connection and keeps every other; a known target keeps its first registration time; a moved target is reconnecting and an unmoved one keeps its connection, both with their last generation and sequence number. |
| `RegistryLaws.UpsertExitUnreachable` | `src/registry.rs:237-245` | No input makes registration take the not-registered exit of its update path. |
| `RegistryLaws.SweepAccounting` | `src/registry.rs:303-332` | A sweep unmarks exactly the lapsed records; afterwards marked and truly active targets coincide, and sweeping again no later changes nothing. |
| `RegistryLaws.SweepWrites` | `src/registry.rs:305-315` | For each target a sweep changes nothing but the mark of a lapsed record and the state and time of its connection. |
| `RegistryLaws.LeaseStepOpensWindow` | `src/registry.rs:197-228` | After a successful registration or update the target is active at a time if and only if that time is before the end of the new lease. |
| `RegistryLaws.RenewOpensWindow` | `src/registry.rs:283-297` | The same for a renewal. |
| `RegistryLaws.RenewWrites` | `src/registry.rs:283-297` | What a renewal writes, when it aborts half-way, and how it refuses an unknown target; every other record is kept. |
| `RegistryLaws.RegisteredIsActiveIffLeaseFits` | `src/registry.rs:197` | A successfully registered target is active at that moment if and only if its lease fits a signed 64-bit integer. |
| `RegistryLaws.BornExpiredExists` | `src/registry.rs:197` | A policy that validates and a request that it accepts, whose target is expired from the start. |
| `RegistryLaws.RenewKeepsLeaseExactIffNoPanic` | `src/registry.rs:293-294` | A renewal keeps every lease end exact if and only if it does not panic. |
| `RegistryLaws.RenewLeavesConnectionExpired` | `src/registry.rs:293-295` | Renewing a swept target makes it active and leaves its connection expired. |
| `RegistryLaws.BucketsPartitionTargets` | `src/registry.rs:510-529` | The numbers of connections that are yet unbound, connected, reconnecting, unavailable and expired add up to the number of registered targets. |
| `Registry.TargetProcessRegistry.ValidateRequest` | `src/registry.rs:548-602` | The validation loop returns the first violated rule, and success only if every declared command is valid. |
| `Registry.TargetProcessRegistry.Register` | `src/registry.rs:159-228` | The in-place registration has the specified effect and result and keeps both maps in step. |
| `Registry.TargetProcessRegistry.UpsertExistingRegistration` | `src/registry.rs:230-276` | The in-place update of a known target has the specified effect and keeps both maps in step. |
| `Registry.TargetProcessRegistry.Renew` | `src/registry.rs:283-297` | The in-place renewal has the specified effect, including the half-written record of a panicking one. |
| `Registry.TargetProcessRegistry.ExpireLeases` | `src/registry.rs:303-318` | Whatever order the hash map is visited in, the sweep marks all and only the lapsed targets and returns their number; the number marked active drops by it, and exactly the truly active ones remain marked. |
| `Registry.TargetProcessRegistry.ActiveRegistrationCount` | `src/registry.rs:324-332` | The counting loop returns the number of targets that are marked active and whose lease still runs. |
| `Registry.TargetProcessRegistry.ActiveTargets` | `src/registry.rs:338-357` | The list shows each active target exactly once, in some order, with its connection state. |
| `Registry.TargetProcessRegistry.AvailabilitySummary` | `src/registry.rs:510-529` | Each figure of the summary is the number of connections in the states it stands for; together they are the total, the number of registrations. |
| `RegistryLaws.ActiveMeaning` | `src/registry.rs:380-395` | A target passes for active if and only if it is registered, marked active and its lease ends later; otherwise it is refused as unknown or as unavailable. |
| `RegistryLaws.SupportMeaning` | `src/registry.rs:402-424` | A command passes for supported if and only if the target declared its wire name. |
| `RegistryLaws.ListingShowsTargets` | `src/registry.rs:345-355` | A listing shows each target's own display name, registration state, commands and present connection state. |
| `RegistryLaws.ConnectionWrites` | `src/registry.rs:431-494` | What each of the four lifecycle changes writes into one connection, field by field; all else is kept. |
| `RegistryLaws.UnknownConnection` | `src/registry.rs:608-620` | None of them touches anything for an unknown target, and the two that can fail report it. |
| `Registry.TargetProcessRegistry.BeginBinding` | `src/registry.rs:431-436` | Marks one known connection as connecting, or reports that it is unknown. |
| `Registry.TargetProcessRegistry.MarkConnected` | `src/registry.rs:444-457` | Records the generation and the connection time and clears the error of one connection. |
| `Registry.TargetProcessRegistry.MarkReconnecting` | `src/registry.rs:465-476` | Records the reason on one connection and leaves unknown targets alone. |
| `Registry.TargetProcessRegistry.MarkUnavailable` | `src/registry.rs:483-494` | Records the reason on one connection and leaves unknown targets alone. |
| `Answers.AnswerMeaning` | `src/ipc_client.rs:341-388` | An answer is a grant if and only if it says yes and carries a result; any other is a refusal, reported in the target's own words where it has any. |
| `Answers.StateMeaning` | `src/ipc_client.rs:69-107` | A state is read if and only if the grant carries one; its payload and generation are the target's, a missing generation is zero, and a failure says why. |
| `Answers.ResultMeaning` | `src/ipc_client.rs:129-167` | A command has a result if and only if the grant carries one; what that leaves out is the command's own or the worst, and the requester is never the target's. |
| `IpcClient.TargetIpcPort.ConnectState` | `src/ipc_client.rs:69-107` | Sends one state request to the registered path and reads the answer with the relay's defaults. |
| `IpcClient.TargetIpcPort.SubscribeEventLog` | `src/ipc_client.rs:109-121` | Asks for logs only after events were granted, and succeeds only if both were. |
| `IpcClient.TargetIpcPort.ForwardCommand` | `src/ipc_client.rs:123-168` | Sends one command request and reads the result; the requester is never taken from the answer. |
| `Audit.AuditRecorder.Record` | `src/audit.rs:118-138` | Appends one entry and keeps all earlier ones. |
| `Audit.AuditRecorder.RecordAccepted` | `src/audit.rs:62-69` | Appends exactly one acceptance of the command by the identity. |
| `Audit.AuditRecorder.RecordRejected` | `src/audit.rs:77-85` | Appends exactly one rejection with its reason. |
| `Audit.AuditRecorder.RecordCompleted` | `src/audit.rs:93-101` | Appends exactly one completion with the reported status. |
| `Session.DashboardSession.ServerHello` | `src/session.rs:351-373` | A new authenticated session is unbound, waits for the handshake and holds one greeting. |
| `Session.DashboardSession.AcceptClientHello` | `src/session.rs:380-410` | The handshake succeeds once, for a non-blank store id, and otherwise changes nothing. |
| `Session.DashboardSession.PublishTargetList` | `src/session.rs:415-417` | Queues the list after everything already pending and changes nothing else. |
| `Session.DashboardSession.BindTarget` | `src/session.rs:463-495` | Binding in place has the specified effect on session, registry and target, at each of its failure exits. |
| `Session.DashboardSession.FinishBinding` | `src/session.rs:482-494` | After the state was read: the target is bound and its state queued only if both subscriptions are granted, otherwise it is unavailable and the session unchanged. |
| `Session.DashboardSession.HandleCommand` | `src/session.rs:505-559` | Handling a command in place has the specified effect on session, registry, target and audit log. |
| `Session.DashboardSession.ForwardCommand` | `src/session.rs:538-558` | The audited part has the specified effect: one acceptance, one request, one completion or rejection, and the reply. |
| `Session.DashboardSession.RefreshTargetState` | `src/session.rs:561-578` | Reading a target's state again in place has the specified effect on session and registry. |
| `Session.DashboardSession.DrainOutbox` | `src/session.rs:592-594` | Takes every pending message, leaves none and touches nothing else. |
| `Session.DashboardSession.AcceptEvent` | `src/session.rs:638-672` | Accepting an event has the specified effect, with no overflow or underflow of the sequence arithmetic. |
| `Session.DashboardSession.AcceptFor` | `src/session.rs:678-751` | Logs, deltas, drop counts and connection changes are passed on if and only if their target is bound. |
| `Session.DashboardSession.AcceptLog` | `src/session.rs:678-688` | A log reaches the client if and only if its target is bound, under that target's id. |
| `Session.DashboardSession.AcceptStateDelta` | `src/session.rs:695-709` | The same for a state delta. |
| `Session.DashboardSession.AcceptDroppedCount` | `src/session.rs:716-730` | The same for a target's own drop count; the sequence memory is untouched. |
| `Session.DashboardSession.AcceptConnectionState` | `src/session.rs:737-751` | The same for a connection change. |
| `Session.ReconnectTimeout` | `src/relay.rs:102-110` | The timeout marks the target unavailable first and then tells a bound session. |
| `FanOut.BoundTargetsAreHeard` | `src/session.rs:678-751` | A log, delta, drop count or connection change is queued and returned as it came if its target is bound, and leaves no trace otherwise. |
| `FanOut.StaleEventIsReported` | `src/session.rs:645-655` | An event that is not newer changes nothing and is answered with the documented error. |
| `FanOut.TimeoutCharacterised` | `src/relay.rs:102-110` | A reconnect timeout marks the target unavailable with its reason and tells exactly a bound client. |
| `FanOut.LogsAndDeltasAreDelivered` | `src/relay.rs:50-79` | In every run the logs and deltas about a target that a client was sent are exactly those fanned out while it was bound, each once and in order. |
| `SystemInvariants.BindSettles` | `src/session.rs:478-494` | Binding touches only an active target's connection, and whatever the target answers leaves it connected on success and unavailable on failure, never connecting. |
| `SystemInvariants.CommandSettles` | `src/session.rs:513-577` | A command changes no registration and at most the connection of the target its result names. |
| `SystemInvariants.SessionStepSettles` | `src/session.rs:463-578` | No session step changes a registration; every connection that it changes ends connected or unavailable, with evidence. |
| `SystemInvariants.RegisterKeepsSafe` | `src/registry.rs:159-276` | Registration keeps the maps in step, the path keys unique, the records within policy and the connection states evidenced, even as targets move between paths. |
| `SystemInvariants.BoundGrowsByBinding` | `src/session.rs:488` | A session's bound set never shrinks and grows only by binding an active target. |
| `SystemInvariants.StepKeepsSafe` | `src/registry.rs:159-494` | Every step of the relay, registry or session, keeps the system invariant. |
| `SystemInvariants.RunIsSafe` | `src/registry.rs:159-494` | In every reachable state both maps have the same keys and agree on id and path, path keys are unique, leases are within policy, connection states carry their evidence, and sessions are bound only to registered targets. |
| `RunHistory.OwnersNeverChange` | `src/registry.rs:169-179` | Along every run a registered target stays registered, to its first owner and with its first registration time. |
| `RunHistory.HandshakeIsMadeOnce` | `src/session.rs:380-410` | Along every run a session keeps its identity and its bindings, and once established it stays so under the same store id and refuses every further hello. |
| `Refusals.HelloCharacterised` | `src/session.rs:380-410` | The handshake succeeds if and only if the store id is not empty and it is the first; it establishes the session under that id, and otherwise says why not. |
| `Requests.OpeningCharacterised` | `src/session.rs:326-373` | A new session has the identity it was opened for and its greeting, if it has one, and nothing else: no handshake, no control, no bindings. |
| `Requests.RequestsFollowHello` | `src/session.rs:757-772` | In every run a session that has sent a request or is bound to a target was opened for an authenticated identity, which it still has, and its client had made a valid handshake. |
| `Requests.RequestsGoHome` | `src/session.rs:472-570` | Every request in every run is sent by an established session to the path under which its target is registered at that moment, and the policy permits that path. |
| `Requests.RegisteredPathsArePermitted` | `src/config.rs:346-352` | In every run each registered path agrees component by component with one of the policy's prefixes. |
| `RunHistory.StepKeepsLeasesExactIff` | `src/registry.rs:293-294` | A step keeps every lease end equal to renewal time plus lease if and only if it does not renew a target at a time from which its lease leaves the clock range. |
| `RunHistory.LeasesStayExact` | `src/registry.rs:197-294` | In every run that renews nothing past the end of the clock each lease ends exactly one lease after its last renewal. |
| `Witnesses.RenewalBreaksLease` | `src/registry.rs:293-294` | A run under a valid policy that ends with a lease whose end is not its renewal time plus its length. |
| `RunHistory.ActiveExactlyInWindow` | `src/registry.rs:380-395` | A target marked active is active at a later point of any run if and only if its end is still ahead and no sweep ran past it; no other step shortens or extends the window. |
| `RunHistory.LeaseWindow` | `src/registry.rs:197-297` | From a successful registration, update or renewal on, whatever else happens, the target is active exactly before that time plus its lease, up to sweeps past that end. |
| `RunHistory.StepKeepsExpiredNotLiveIff` | `src/session.rs:549-577` | A step gives an expired target a live connection if and only if it handles a command answered, as completed, in that target's name, whose state can then be read. |
| `RunHistory.ExpiredTargetsStayDown` | `src/registry.rs:303-318` | While targets answer only in their own name, a target marked expired is never connected or connecting. |
| `Witnesses.ExpiredTargetCanComeAlive` | `src/ipc_client.rs:151-155` | A concrete run that reaches a live connection of an expired target, and sends a client a result about a target it is not bound to. |
| `ExpiryMatch.RegistryStepMatchesIff` | `src/registry.rs:159-318` | A registry step keeps registration and connection expiry together if and only if it neither admits an expired target under its old path key, nor renews one within the clock range, nor marks one reconnecting. |
| `ExpiryMatch.SessionStepMatchesIff` | `src/session.rs:549-577` | A session step keeps them together if and only if it neither times out on an expired target nor handles a command completed in the name of one. |
| `ExpiryMatch.StepKeepsMatchedIff` | `src/registry.rs:264-318` | A connection is expired if and only if its registration is: kept by a step exactly when the step does none of these. |
| `ExpiryMatch.AlwaysMatchedIff` | `src/registry.rs:264-318` | The two agree throughout a run if and only if none of its steps does one of these. |
| `Witnesses.RenewalPartsExpiry` | `src/registry.rs:293-318` | A run, register, sweep and renew, that ends with an active registration and an expired connection. |
| `Correspondence.AdmissionCharacterised` | `src/session.rs:513-537` | A command is forwarded if and only if the session is established and bound, the lease runs, the target declared the command's wire name, and the command is complete, claims no requester and is confirmed if dangerous. |
| `Refusals.CommandIsRefusedAs` | `src/session.rs:513-537` | A command that is not forwarded is refused with the error of the first of these that fails. |
| `Refusals.PreparationIsRefusedAs` | `src/command.rs:164-202` | The same for the checks of the command itself. |
| `Refusals.CommandFailsAs` | `src/session.rs:513-543` | A failing command reports that refusal, or its target's. |
| `Correspondence.AdmittedIsGated` | `src/command.rs:159-215` | What is forwarded is the client's own command in every field, under the session's principal, non-blank, and confirmed if dangerous. |
| `Correspondence.BindCharacterised` | `src/session.rs:463-495` | Binding succeeds if and only if the session is established, the lease runs, and the target is bound or said yes with a state and said yes to both subscriptions; what a success writes and delivers is the target's own state and generation. |
| `Correspondence.BindAsks` | `src/session.rs:478-486` | A fresh binding asks the registered path for the state, then for events, then for logs, and stops at the first refusal; any other asks nothing. |
| `Correspondence.FailedBindSaysWhy` | `src/session.rs:479-486` | A binding that fails on an answer reports that refusal and leaves the target unavailable with its message. |
| `Refusals.BindIsRefusedAs` | `src/session.rs:470-472` | A binding without a session or a lease changes nothing, asks nothing and says why. |
| `Correspondence.CommandCharacterised` | `src/session.rs:539-577` | An admitted command succeeds if and only if its target answers with a result; the client gets exactly that result and, only if the target said it accepted and completed the command, the fresh state or word that the target is unavailable, and the registry records which. |
| `Correspondence.CommandAsks` | `src/session.rs:539-569` | A command asks its target to carry it out and, only after such a result, the named target for its state; each at its registered path. |
| `Correspondence.CommandAudits` | `src/session.rs:537-544` | The audit entries of a command are those that its requests and answers call for. |
| `Correspondence.CommandReplies` | `src/session.rs:545-548` | The results sent to the client are those that the target returned. |
| `Correspondence.StepKeepsSound` | `src/session.rs:463-578` | Every step of the system, by any session, keeps gating and accounting for all sessions. |
| `Correspondence.RunIsSound` | `src/session.rs:463-578` | In every reachable state no session sent a request before its handshake, every forward follows a state read that yielded a state and both subscriptions for that target in that session, and audit log and delivered results are exactly those that the requests and answers call for. |
| `AuditTrail.AuditIsPairs` | `src/audit.rs:62-138` | The audit log that requests and answers call for consists of adjacent pairs, the k-th about the k-th forwarded command in every field: accepted, then completed with the status if the answer carries a result, and rejected with the message of the refusal otherwise. |
| `AuditTrail.CompletionsMatchResults` | `src/session.rs:544-548` | The completed entries of that log report the status and time of the returned results, one for one and in order. |
| `AuditTrail.AuditLogIsFaithful` | `src/session.rs:537-548` | Both of these of the log that any session really has in any run, and of the results its client was sent. |
| `AuditTrail.RefusalIsAuditedIff` | `src/session.rs:513-548` | A refused command is audited as rejected if and only if it was admitted and its target did not decline it in a result, by its flag or by its status; otherwise there is no entry, or a completed one. |
| `Witnesses.UnboundCommandIsNotAudited` | `src/session.rs:524-532` | A run in which an established session's command is refused and its audit log stays empty. |
| `Witnesses.DeclinedCommandIsAuditedCompleted` | `src/session.rs:544` | A run in which a target returns a result with the status "rejected" and the log says completed, with no rejected entry. |
| `Correspondence.ResultsBearPrincipal` | `src/ipc_client.rs:165` | In every run every result a client gets names the session's own principal as requester. |
| `Correspondence.FailedCommandChangesNothing` | `src/session.rs:513-543` | A failing command leaves session and registry as they were; it sends a request and leaves audit entries if and only if it was admitted. |
| `Correspondence.ForwardedAtTheRightMoment` | `src/session.rs:534-540` | What a step forwards is the command that the client sent at that step; its target is active, bound and declares it, and the request goes to the path registered at that moment. |
| `Correspondence.StepConnectionMessagesAgree` | `src/session.rs:549-556` | Every connection message that a step produces agrees with the registry it leaves. |
| `Correspondence.ConnectionMessagesAgree` | `src/relay.rs:102-110` | Along every run connection messages agree with the registry, and delivered messages are never taken back. |
| `Confidentiality.StepKeepsConfidentialIff` | `src/session.rs:545-556` | A step keeps every client to reports on targets bound in its session if and only if it does not handle a command whose result names an unbound target. |
| `Confidentiality.ClientsHearOfBoundTargetsOnly` | `src/session.rs:488-751` | While targets answer in their own name, every state, event, log, delta, drop count, result and connection change in every run is about a target bound in the client's session. |
| `SweepTransparency.SameStep` | `src/registry.rs:230-395` | A step that is no sweep keeps a swept and an unswept system related and tells both callers the same, provided that, if it compares the clock with lease ends, it reads it no earlier than the sweeps before. |
| `SweepTransparency.SweepsCanBeDeleted` | `src/registry.rs:303-395` | Every run in which bindings, listings and commands read a clock no earlier than the sweeps before them agrees with the same run without its sweeps, however late registrations and renewals are. |
| `SweepTransparency.SweepsAreInvisible` | `src/registry.rs:303-395` | Two such runs that differ only in their sweeps give all other callers equal outcomes, equal audit logs, requests and bound sets, and the same active targets at every time after their sweeps. |
| `SweepTransparency.OutcomesAreAnswers` | `src/main.rs:172-400` | The outcomes that those runs agree on are the answers of the operations themselves. |
| `SweepTransparency.SteadyClockSuffices` | `src/main.rs:172-400` | A clock that never runs back meets that condition. |
| `SweepTransparency.SweepChangesReadIff` | `src/registry.rs:380-395` | A sweep changes what a read sees if and only if its clock had passed the end of the lease and the reader's has not. |
| `Witnesses.SweepShowsWhenClockRunsBack` | `src/registry.rs:303-395` | Two runs that differ only in a sweep, whose clock is ahead of a binding after it, and that give the binding session different answers. |
| `Streams.LastIsMaximum` | `src/session.rs:644-665` | The remembered number is the greatest one offered since binding. |
| `Streams.ForwardsExactlyTheRecords` | `src/session.rs:643-671` | The forwarded events are exactly the strict left-to-right maxima of those offered. |
| `Streams.ReofferIsSilent` | `src/session.rs:645-655` | Offering an old event again changes neither the stream nor the memory. |
| `Streams.StreamPartitions` | `src/session.rs:656-669` | Forwarded numbers and reported gaps cover each number from first to last exactly once, and no other. |
| `Streams.StreamConserves` | `src/session.rs:638-730` | Events plus gap counts equal the span of forwarded numbers, and the target's own drop counts are added apart. |
| `Streams.EventRefinesDetector` | `src/session.rs:638-672` | An accepted event pushes and remembers what the one-target detector emits for it. |
| `Streams.StreamIsDetectorOutput` | `src/relay.rs:24-93` | In every interleaving the part of a transcript about one target is the output of a detector that sees that target alone. |
| `Streams.TranscriptConserves` | `src/session.rs:638-730` | Conservation for what a client was actually sent, in every run. |
| `Streams.TranscriptForwardsTheRecords` | `src/session.rs:643-671` | In every run the events a client was sent for a target are the strict left-to-right maxima of those offered since binding, and the session remembers their maximum. |
| `Streams.HistoryMeansBound` | `src/session.rs:639-641` | In every run a target with a stream is bound. |
| `Streams.SeenEventsAreIgnored` | `src/session.rs:645-655` | In every run an event seen before changes nothing in the session and is answered with one error. |
| `DriverModel.ServeAllReplies` | `src/main.rs:334-374` | The outbox is empty whenever a message is read, and every message has its whole reply before the next; a result names the session's principal, and the command's own target and id unless the target's answer names others. |
| `DriverModel.ConversationIsWellFormed` | `src/main.rs:286-402` | Every connection yields one greeting, then, after an accepted hello, the target list, at most one state per snapshot target in order, and one reply per message in order, a command's reply being an error or that command's own result. |
| `Refusals.CommandIsServedAs` | `src/main.rs:336-350` | For a command a client is sent exactly its result and what follows it, or exactly the error it was refused or failed with. |
| `Refusals.MisplacedMessages` | `src/main.rs:352-372` | For a late hello or a malformed message it is sent exactly that error, and for a filter update nothing. |
| `Refusals.ConnectionEndsAs` | `src/main.rs:302-326` | A connection ends as its stream does if it is let in, and otherwise with the error of its first message. |
| `DriverModel.OneAnswerPerQuestion` | `src/main.rs:334-374` | The replies contain exactly one error or result for each message that is no filter update. |
| `DriverModel.OneStatePerTarget` | `src/main.rs:379-402` | Binding a snapshot yields at most one state per target and only for targets of the snapshot. |
| `DriverModel.WelcomedTranscript` | `src/main.rs:326-374` | A client that is let in gets the list, then states of distinct targets that were active at the snapshot, then exactly one error or result for each of its messages that is no filter update. |
| `Schedule.RunIsPlay` | `src/main.rs:286-402` | In every run a session's endpoint is what its own steps, in the registries they found, make of its opening. |
| `Schedule.WeaveCarriesOutScript` | `src/main.rs:326-346` | A session can take any turns with any steps of others in between, and at each it finds the registry that these leave. |
| `Schedule.FoundAt` | `src/main.rs:326-346` | The k-th of those turns is the k-th step of the session, in the registry after everything before it. |
| `Schedule.ScriptSendsTranscript` | `src/main.rs:300-350` | The steps of a connection send its transcript, errors apart, and leave nothing pending. |
| `Schedule.ConnectionIsSessionOfRun` | `src/main.rs:286-402` | In every run whose session does what a connection does, in the registries the run has reached, that session ends as the connection, has sent its transcript, and is gated and accounted for. |
| `Schedule.ConnectionCanBeScheduled` | `src/main.rs:286-402` | After any run, and with anything in between its turns, a new session that takes the steps of a connection does what that connection does in the registries it finds. |
| `Schedule.ScheduledConnectionIsServed` | `src/main.rs:286-402` | That session has sent the transcript of that connection, errors apart, and is gated and accounted for. |
| `Schedule.ListsExist` | `src/registry.rs:338-357` | There is an order in which the active targets can be listed, whatever they are. |
| `Schedule.ConnectionIsSound` | `src/main.rs:286-402` | The requests of a connection are gated, and its audit log and replies are those its requests and answers call for. |
| `Driver.SnapshotActiveTargets` | `src/main.rs:384-391` | The snapshot lists each active target exactly once. |
| `Driver.AutoBindActiveTargets` | `src/main.rs:379-402` | Binds each target of the snapshot in turn, whatever others do to the registry in between, with the requests this calls for. |
| `Driver.WelcomeClient` | `src/main.rs:326-332` | After the hello: lists, binds and delivers, as the model of the connection does. |
| `Driver.ServeCommand` | `src/main.rs:336-351` | Handles one command under the lock, then delivers its error, if any, and the outbox. |
| `Driver.ServeMessage` | `src/main.rs:335-373` | Delivers the specified reply to one message and leaves the outbox empty. |
| `Driver.RunEstablishedSession` | `src/main.rs:326-376` | Everything delivered after an accepted hello. |
| `Driver.ServeMessages` | `src/main.rs:334-374` | The message loop delivers the specified replies in order and leaves the outbox empty. |
| `Driver.RunDashboardSession` | `src/main.rs:286-377` | The imperative connection delivers exactly the transcript of its conversation, whose bindings find the given registries and answers, ends as its stream does, and leaves the session, the requests and the audit log that its steps call for. |

## Left out

- TLS, X.509, PEM, WebSocket and Unix-socket I/O, process arguments and shutdown: a send is an append to a
  transcript, a request to a target is a recorded exchange, and a failed send leaves a prefix.
- JSON and YAML: clients' messages and targets' answers are taken as decoded, or as the error of decoding.
- File-system canonicalisation and links of IPC paths: path normalisation is any key or error, per call.
- `src/auth.rs`: a session is given its identity; hashing, certificates and headers are not modelled.
- Generated identifiers (audit, request and session UUIDs) and the debug text of the audited command, which is
  kept as the command itself.
- The constant filter fields of the greeting, resume cursors, filter conditions and
  `update_sequence`: stored or ignored, never driving behaviour.
- Parsing of command names and their IPC method names: tables.
- `DashboardSession::establish`: the composition of the greeting, handshake and listing steps that are modelled.
- Liveness and real time: IPC calls return, and the clock is an input.
- Errors that the connection loop sends past the outbox: they appear in the transcripts of `DriverModel`, not in
  those of `SystemModel`, whose sessions may take any step at any time and so cover the loop's.
- RunDashboardSession: other tasks may leave any registry of the same policy at each lock, reachable or not; that the
  two listings see both maps in step is required.
