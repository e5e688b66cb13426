/** The append-only audit log of src/audit.rs. */
module Audit {
  import opened Basics
  import opened Commands

  datatype AuditResult = Accepted | Rejected | Completed

  datatype AuditEvent = AuditEvent(
    identityPrincipal: string, targetId: string, commandId: string, command: ControlCommandName,
    childPath: Option<string>, reason: string, result: AuditResult, detail: string, occurredAt: Instant)

  function Entry(identity: RemoteIdentity, command: PreparedCommand, result: AuditResult, detail: string,
                 now: Instant): AuditEvent
  {
    AuditEvent(identity.principal, command.targetId, command.commandId, command.command, command.childPath,
               command.reason, result, detail, now)
  }

  class AuditRecorder {
    var events: seq<AuditEvent>

    constructor ()
      ensures events == []
    {
      events := [];
    }

    method RecordAccepted(identity: RemoteIdentity, command: PreparedCommand, now: Instant)
      modifies this
      ensures events == old(events) + [Entry(identity, command, Accepted, "accepted", now)]
    {
      Record(identity, command, Accepted, "accepted", now);
    }

    method RecordRejected(identity: RemoteIdentity, command: PreparedCommand, detail: string, now: Instant)
      modifies this
      ensures events == old(events) + [Entry(identity, command, Rejected, detail, now)]
    {
      Record(identity, command, Rejected, detail, now);
    }

    method RecordCompleted(identity: RemoteIdentity, command: PreparedCommand, detail: string, now: Instant)
      modifies this
      ensures events == old(events) + [Entry(identity, command, Completed, detail, now)]
    {
      Record(identity, command, Completed, detail, now);
    }

    method Record(identity: RemoteIdentity, command: PreparedCommand, result: AuditResult, detail: string, now: Instant)
      modifies this
      ensures events == old(events) + [Entry(identity, command, result, detail, now)]
    {
      events := events + [Entry(identity, command, result, detail, now)];
    }
  }
}
