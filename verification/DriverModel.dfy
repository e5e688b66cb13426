/**
 One dashboard connection of src/main.rs, from the server's greeting to the end of the client's
 stream: everything that is delivered to the client, as a function of what the client sends, what the
 targets answer and in which state each lock acquisition finds the shared registry.
 */
module DriverModel {
  import opened Basics
  import opened Commands
  import opened Policies
  import opened RegistryModel
  import opened IpcClient
  import opened Answers
  import opened SessionModel
  import opened SystemInvariants
  import Correspondence

  /** The registry as other tasks left it when a lock is acquired, and the clock then. */
  datatype Moment = Moment(registry: RegistryState, now: Instant)

  datatype BindSlot = BindSlot(targetId: string, at: Moment, answers: BindAnswers)

  /** A client message, or the error of decoding it, with what handling it will meet. */
  datatype Inbound = Inbound(message: RelayResult<ClientMessage>, at: Moment, answers: CommandAnswers)

  /**
   Everything a connection meets. `first` is the client's first message, absent if the stream closes
   before it and an error if it cannot be read or decoded; `ending` is how the stream ends after the
   last of the `inbound` messages: closed, or with a failure to read from it.
   */
  datatype Conversation = Conversation(
    sessionId: string, identity: RemoteIdentity, openedAt: Instant,
    first: Option<RelayResult<ClientMessage>>, helloAt: Instant,
    listedAt: Moment, listOrder: seq<string>,
    binds: seq<BindSlot>,
    inbound: seq<Inbound>,
    ending: RelayResult<()>)

  function HelloRequired(): RelayError {
    NewError("protocol_error", "session", "client_hello is required before business messages", false)
  }

  function HelloMustBeFirst(): RelayError {
    NewError("protocol_error", "session", "client_hello must be the first client message", false)
  }

  function HelloOnlyFirst(): RelayError {
    NewError("protocol_error", "session", "client_hello is only valid as the first client message", false)
  }

  /** Binds the targets of a snapshot in order, ignoring failures. */
  function BindAll(s: SessionState, slots: seq<BindSlot>): SessionState {
    if slots == [] then s
    else
      var slot := slots[|slots| - 1];
      BindTarget(BindAll(s, slots[..|slots| - 1]), slot.targetId, slot.at.registry, slot.answers, slot.at.now).session
  }

  /** Handles one message after the handshake: the session afterwards and what is delivered. */
  function Serve(s: SessionState, inbound: Inbound): (SessionState, seq<ServerMessage>) {
    match inbound.message
    case Err(error) => (s, [ErrorReport(error)])
    case Ok(HelloMessage(_)) => (s, [ErrorReport(HelloOnlyFirst())])
    case Ok(LogEventFilterConditions) => (s, [])
    case Ok(CommandMessage(command)) =>
      var effect := HandleCommand(s, command, inbound.at.registry, inbound.answers, inbound.at.now);
      (effect.session.(outbox := []),
       (match effect.result case Err(error) => [ErrorReport(error)] case Ok(_) => []) + effect.session.outbox)
  }

  function ServeAll(s: SessionState, inbound: seq<Inbound>): (SessionState, seq<ServerMessage>) {
    if inbound == [] then (s, [])
    else
      var (before, delivered) := ServeAll(s, inbound[..|inbound| - 1]);
      var (after, reply) := Serve(before, inbound[|inbound| - 1]);
      (after, delivered + reply)
  }

  /** If the target list is reached, it is listed in an order that enumerates the active targets. */
  predicate ListingIsPossible(c: Conversation) {
    HelloAccepted(c) ==> Enumerates(c.listOrder, ActiveIds(c.listedAt.registry, c.listedAt.now))
  }

  predicate HelloAccepted(c: Conversation) {
    && c.first.Some? && c.first.value.Ok? && c.first.value.value.HelloMessage?
    && !IsBlank(c.first.value.value.hello.clientStoreId)
  }

  /** What the client gets before its first message is answered. */
  function Greeting(c: Conversation): seq<ServerMessage> {
    [ServerHello(c.sessionId, c.identity.clientIdentity)]
  }

  /** The session once the target list is published and the snapshot bound, before anything is delivered. */
  function Prepared(c: Conversation, ready: SessionState): SessionState
    requires HelloAccepted(c) && ListingIsPossible(c)
  {
    BindAll(Push(ready, [TargetList(VisibleTargets(c.listedAt.registry, c.listOrder))]), c.binds)
  }

  /** The whole transcript of a conversation and the connection's result. */
  function Converse(c: Conversation): (seq<ServerMessage>, RelayResult<()>)
    requires ListingIsPossible(c)
  {
    match c.first
    case None => (Greeting(c), Err(HelloRequired()))
    case Some(Err(error)) => (Greeting(c), Err(error))
    case Some(Ok(HelloMessage(hello))) =>
      var greeted := NewSession(c.sessionId, c.identity, c.openedAt).(outbox := []);
      var (ready, accepted) := AcceptClientHello(greeted, hello, c.helloAt);
      if accepted.Err? then (Greeting(c), accepted)
      else
        var prepared := Prepared(c, ready);
        (Greeting(c) + prepared.outbox + ServeAll(prepared.(outbox := []), c.inbound).1, c.ending)
    case Some(Ok(_)) => (Greeting(c) + [ErrorReport(HelloMustBeFirst())], Ok(()))
  }

  /** The transcript of a connection that is let in. */
  lemma ConverseWelcomed(c: Conversation)
    requires HelloAccepted(c) && ListingIsPossible(c)
    ensures var greeted := NewSession(c.sessionId, c.identity, c.openedAt).(outbox := []);
            var ready := AcceptClientHello(greeted, c.first.value.value.hello, c.helloAt).0;
            var bound := BindAll(Push(ready, [TargetList(VisibleTargets(c.listedAt.registry, c.listOrder))]), c.binds);
            Converse(c) == (Greeting(c) + (bound.outbox + ServeAll(bound.(outbox := []), c.inbound).1), c.ending)
  {
    var greeted := NewSession(c.sessionId, c.identity, c.openedAt).(outbox := []);
    var ready := AcceptClientHello(greeted, c.first.value.value.hello, c.helloAt).0;
    var bound := Prepared(c, ready);
    Correspondence.Associate(Greeting(c), bound.outbox, ServeAll(bound.(outbox := []), c.inbound).1);
  }

  // ---------- the grammar of a transcript ----------

  /** State messages for a subsequence of `ids`, in that order. */
  ghost predicate BindStates(messages: seq<ServerMessage>, ids: seq<string>) {
    if ids == [] then messages == []
    else
      var last, shorter := ids[|ids| - 1], ids[..|ids| - 1];
      || BindStates(messages, shorter)
      || (&& messages != []
          && messages[|messages| - 1].State? && messages[|messages| - 1].targetId == last
          && BindStates(messages[..|messages| - 1], shorter))
  }

  /**
   The result answers the command: it names the principal as requester, and the command's own target and
   id unless the target's answer names others.
   */
  ghost predicate AnswersCommand(result: ControlCommandResult, command: ClientCommand, answer: IpcAnswer,
                                 principal: string)
  {
    && result.requestedBy == principal
    && (EchoesTarget(command.targetId, answer) ==> result.targetId == command.targetId)
    && (EchoesCommand(command.commandId, answer) ==> result.commandId == command.commandId)
  }

  /** A result that answers the command, delivered under the target it names. */
  ghost predicate IsResultFor(m: ServerMessage, command: ClientCommand, answer: IpcAnswer, principal: string) {
    m.CommandResult? && m.targetId == m.result.targetId && AnswersCommand(m.result, command, answer, principal)
  }

  /**
   The reply to one message: nothing to a filter update; one error to a misplaced or malformed message;
   one error, or one result of that command with at most one follow-up about the same target, to a command.
   */
  ghost predicate IsReply(messages: seq<ServerMessage>, inbound: Inbound, principal: string) {
    match inbound.message
    case Err(error) => messages == [ErrorReport(error)]
    case Ok(HelloMessage(_)) => messages == [ErrorReport(HelloOnlyFirst())]
    case Ok(LogEventFilterConditions) => messages == []
    case Ok(CommandMessage(command)) =>
      || (|messages| == 1 && messages[0].ErrorReport?)
      || IsOutcomeOf(messages, command, inbound.answers.forward, principal)
  }

  /** The result of a command, and what may follow it. */
  ghost predicate IsOutcomeOf(messages: seq<ServerMessage>, command: ClientCommand, answer: IpcAnswer,
                              principal: string)
  {
    && 1 <= |messages| <= 2
    && IsResultFor(messages[0], command, answer, principal)
    && (|messages| == 2 ==>
          && NeedsRefresh(messages[0].result)
          && (messages[1].State? || (messages[1].ConnectionChange? && messages[1].connection == Unavailable))
          && messages[1].targetId == messages[0].targetId)
  }

  /** One reply for each message, in order. */
  ghost predicate Replies(messages: seq<ServerMessage>, inbound: seq<Inbound>, principal: string)
    decreases inbound
  {
    if inbound == [] then messages == []
    else
      exists cut :: 0 <= cut <= |messages| &&
        Replies(messages[..cut], inbound[..|inbound| - 1], principal) &&
        IsReply(messages[cut..], inbound[|inbound| - 1], principal)
  }

  function SnapshotIds(c: Conversation): seq<string> {
    seq(|c.binds|, i requires 0 <= i < |c.binds| => c.binds[i].targetId)
  }

  ghost predicate Opened(c: Conversation, t: seq<ServerMessage>, cut: nat) {
    && 2 <= cut <= |t|
    && t[1].TargetList? && |t[1].targets| == |ActiveIds(c.listedAt.registry, c.listedAt.now)|
    && BindStates(t[2..cut], SnapshotIds(c))
    && Replies(t[cut..], c.inbound, c.identity.principal)
  }

  ghost predicate WellFormed(c: Conversation, t: seq<ServerMessage>) {
    && t != []
    && t[0] == ServerHello(c.sessionId, c.identity.clientIdentity)
    && if HelloAccepted(c) then exists cut: nat :: Opened(c, t, cut)
       else if c.first.Some? && c.first.value.Ok? && !c.first.value.value.HelloMessage? then
         |t| == 2 && t[1] == ErrorReport(HelloMustBeFirst())
       else
         |t| == 1
  }

  // ---------- every conversation is well formed ----------

  lemma BindPushes(s: SessionState, slot: BindSlot)
    ensures var after := BindTarget(s, slot.targetId, slot.at.registry, slot.answers, slot.at.now).session;
            || after == s
            || (exists state :: after.outbox == s.outbox + [State(slot.targetId, state)])
  {
    var effect := BindTarget(s, slot.targetId, slot.at.registry, slot.answers, slot.at.now);
    if effect.session != s {
      var state := effect.session.outbox[|s.outbox|].state;
      assert effect.session.outbox == s.outbox + [State(slot.targetId, state)];
    }
  }

  lemma {:induction false} BindAllPushes(s: SessionState, slots: seq<BindSlot>, ids: seq<string>)
    requires |ids| == |slots| && forall i :: 0 <= i < |slots| ==> ids[i] == slots[i].targetId
    ensures s.outbox <= BindAll(s, slots).outbox
    ensures BindStates(BindAll(s, slots).outbox[|s.outbox|..], ids)
  {
    if slots != [] {
      var last := |slots| - 1;
      BindAllPushes(s, slots[..last], ids[..last]);
      var before := BindAll(s, slots[..last]);
      BindPushes(before, slots[last]);
      var after := BindAll(s, slots);
      if after != before {
        var pushed := after.outbox[|s.outbox|..];
        assert pushed[..|pushed| - 1] == before.outbox[|s.outbox|..];
      }
    }
  }

  lemma ForwardPushesReply(s: SessionState, prepared: PreparedCommand, path: Path, identity: RemoteIdentity,
                           registry: RegistryState, answers: CommandAnswers, now: Instant)
    requires s.outbox == []
    ensures var effect := ForwardCommand(s, prepared, path, identity, registry, answers, now);
            var pushed := effect.session.outbox;
            if effect.result.Err? then pushed == []
            else
              && 1 <= |pushed| <= 2
              && pushed[0] == CommandResult(effect.result.value.targetId, effect.result.value)
              && (|pushed| == 2 ==>
                    && NeedsRefresh(effect.result.value)
                    && (pushed[1].State? || (pushed[1].ConnectionChange? && pushed[1].connection == Unavailable))
                    && pushed[1].targetId == pushed[0].targetId)
  {
  }

  /** The session has the identity of `principal`, or none, and then it forwards nothing. */
  predicate ActsFor(s: SessionState, principal: string) {
    s.remoteIdentity.Some? ==> s.remoteIdentity.value.principal == principal
  }

  lemma ResultAnswersCommand(command: ClientCommand, identity: RemoteIdentity, answer: IpcAnswer, now: Instant)
    requires PrepareClientCommand(command, identity, now).Ok?
    ensures var result := ReadCommandResult(PrepareClientCommand(command, identity, now).value, answer, now);
            result.Ok? ==> AnswersCommand(result.value, command, answer, identity.principal)
  {
  }

  lemma ForwardOutcome(s: SessionState, command: ClientCommand, path: Path, identity: RemoteIdentity,
                       registry: RegistryState, answers: CommandAnswers, now: Instant)
    requires s.outbox == [] && PrepareClientCommand(command, identity, now).Ok?
    ensures var prepared := PrepareClientCommand(command, identity, now).value;
            var effect := ForwardCommand(s, prepared, path, identity, registry, answers, now);
            if effect.result.Err? then effect.session.outbox == []
            else IsOutcomeOf(effect.session.outbox, command, answers.forward, identity.principal)
  {
    ResultAnswersCommand(command, identity, answers.forward, now);
    ForwardPushesReply(s, PrepareClientCommand(command, identity, now).value, path, identity, registry, answers, now);
  }

  lemma CommandReplyIsWellFormed(s: SessionState, inbound: Inbound, principal: string)
    requires s.outbox == [] && ActsFor(s, principal)
    requires inbound.message.Ok? && inbound.message.value.CommandMessage?
    ensures IsReply(Serve(s, inbound).1, inbound, principal)
  {
    var command, registry, now := inbound.message.value.command, inbound.at.registry, inbound.at.now;
    if AdmitCommand(s, command, registry, now).Ok? {
      ForwardOutcome(s, command, registry.registrations[command.targetId].ipcPath, s.remoteIdentity.value, registry,
                     inbound.answers, now);
    }
  }

  lemma ServeKeepsIdentity(s: SessionState, inbound: Inbound)
    ensures Serve(s, inbound).0.remoteIdentity == s.remoteIdentity
  {
    if inbound.message.Ok? && inbound.message.value.CommandMessage? {
      CommandOnlyPushes(s, inbound.message.value.command, inbound.at.registry, inbound.answers, inbound.at.now);
    }
  }

  lemma ServeReplies(s: SessionState, inbound: Inbound, principal: string)
    requires s.outbox == [] && ActsFor(s, principal)
    ensures var (after, reply) := Serve(s, inbound);
            after.outbox == [] && ActsFor(after, principal) && IsReply(reply, inbound, principal)
  {
    ServeKeepsIdentity(s, inbound);
    if inbound.message.Ok? && inbound.message.value.CommandMessage? {
      CommandReplyIsWellFormed(s, inbound, principal);
    }
  }

  /** The outbox is empty whenever a message is read, and each message gets its reply before the next is read. */
  lemma {:induction false} ServeAllReplies(s: SessionState, inbound: seq<Inbound>, principal: string)
    requires s.outbox == [] && ActsFor(s, principal)
    ensures var (after, delivered) := ServeAll(s, inbound);
            after.outbox == [] && ActsFor(after, principal) && Replies(delivered, inbound, principal)
  {
    if inbound != [] {
      var last := |inbound| - 1;
      ServeAllReplies(s, inbound[..last], principal);
      var (before, delivered) := ServeAll(s, inbound[..last]);
      ServeReplies(before, inbound[last], principal);
      var all := ServeAll(s, inbound).1;
      assert all[..|delivered|] == delivered && all[|delivered|..] == Serve(before, inbound[last]).1;
    }
  }

  lemma {:induction false} BindAllKeepsIdentity(s: SessionState, slots: seq<BindSlot>)
    ensures BindAll(s, slots).remoteIdentity == s.remoteIdentity
  {
    if slots != [] {
      var last := |slots| - 1;
      BindAllKeepsIdentity(s, slots[..last]);
      BindPushesState(BindAll(s, slots[..last]), slots[last].targetId, slots[last].at.registry, slots[last].answers,
                      slots[last].at.now);
    }
  }

  /** What an accepted hello leads to: the list, the states of binding, and the replies. */
  lemma OpeningIsWellFormed(listed: SessionState, list: ServerMessage, binds: seq<BindSlot>, ids: seq<string>,
                            inbound: seq<Inbound>, principal: string)
    requires listed.outbox == [list] && ActsFor(listed, principal)
    requires |ids| == |binds| && forall i :: 0 <= i < |binds| ==> ids[i] == binds[i].targetId
    ensures var prepared := BindAll(listed, binds);
            && prepared.outbox != [] && prepared.outbox[0] == list
            && BindStates(prepared.outbox[1..], ids)
            && Replies(ServeAll(prepared.(outbox := []), inbound).1, inbound, principal)
  {
    BindAllPushes(listed, binds, ids);
    BindAllKeepsIdentity(listed, binds);
    ServeAllReplies(BindAll(listed, binds).(outbox := []), inbound, principal);
  }

  lemma OpenedFromParts(c: Conversation, hello: ServerMessage, outbox: seq<ServerMessage>, replies: seq<ServerMessage>)
    requires outbox != [] && outbox[0].TargetList?
    requires |outbox[0].targets| == |ActiveIds(c.listedAt.registry, c.listedAt.now)|
    requires BindStates(outbox[1..], SnapshotIds(c)) && Replies(replies, c.inbound, c.identity.principal)
    ensures Opened(c, [hello] + outbox + replies, 1 + |outbox|)
  {
    var t := [hello] + outbox + replies;
    assert t[2..1 + |outbox|] == outbox[1..];
    assert t[1 + |outbox|..] == replies;
  }

  /**
   Every conversation, whatever anyone answers, starts with one greeting; a client that does not open
   with a hello gets one error more, one whose hello fails gets nothing more; otherwise the target
   list follows, then at most one state per snapshot target in snapshot order, then one reply per
   message in order.
   */
  lemma ConversationIsWellFormed(c: Conversation)
    requires ListingIsPossible(c)
    ensures WellFormed(c, Converse(c).0)
  {
    if HelloAccepted(c) {
      var greeted := NewSession(c.sessionId, c.identity, c.openedAt).(outbox := []);
      var ready := AcceptClientHello(greeted, c.first.value.value.hello, c.helloAt).0;
      var list := TargetList(VisibleTargets(c.listedAt.registry, c.listOrder));
      var prepared := Prepared(c, ready);
      SizeOfOrder(c.listOrder, ActiveIds(c.listedAt.registry, c.listedAt.now));
      assert Push(ready, [list]).outbox == [list];
      OpeningIsWellFormed(Push(ready, [list]), list, c.binds, SnapshotIds(c), c.inbound, c.identity.principal);
      var replies := ServeAll(prepared.(outbox := []), c.inbound).1;
      OpenedFromParts(c, Greeting(c)[0], prepared.outbox, replies);
      assert Opened(c, Converse(c).0, 1 + |prepared.outbox|);
    }
  }

  lemma {:induction false} SizeOfOrder(order: seq<string>, ids: set<string>)
    requires Enumerates(order, ids)
    ensures |order| == |ids|
  {
    if order == [] {
      assert ids == {};
    } else {
      var last := order[|order| - 1];
      SizeOfOrder(order[..|order| - 1], ids - {last});
    }
  }

  // ---------- reading the grammar ----------

  /** The messages that answer a client message: errors and command results. */
  function AnswersIn(messages: seq<ServerMessage>): nat {
    if messages == [] then 0
    else
      var last := messages[|messages| - 1];
      AnswersIn(messages[..|messages| - 1]) + if last.ErrorReport? || last.CommandResult? then 1 else 0
  }

  /** The client messages that call for an answer: all but filter updates. */
  function Questions(inbound: seq<Inbound>): nat {
    if inbound == [] then 0
    else
      var last := inbound[|inbound| - 1].message;
      Questions(inbound[..|inbound| - 1]) + if last == Ok(LogEventFilterConditions) then 0 else 1
  }

  lemma {:induction false} AnswersInAppend(xs: seq<ServerMessage>, ys: seq<ServerMessage>)
    ensures AnswersIn(xs + ys) == AnswersIn(xs) + AnswersIn(ys)
  {
    if ys == [] {
      assert xs + ys == xs;
    } else {
      assert (xs + ys)[..|xs + ys| - 1] == xs + ys[..|ys| - 1];
      AnswersInAppend(xs, ys[..|ys| - 1]);
    }
  }

  lemma AnswersInReply(messages: seq<ServerMessage>, inbound: Inbound, principal: string)
    requires IsReply(messages, inbound, principal)
    ensures AnswersIn(messages) == if inbound.message == Ok(LogEventFilterConditions) then 0 else 1
  {
    if |messages| == 2 {
      assert messages[..1][..0] == [] && messages[..1] == [messages[0]];
      assert AnswersIn(messages[..1]) == 1;
    } else if |messages| == 1 {
      assert messages[..0] == [];
    }
  }

  /** Replies contain exactly one error or result for each message that is not a filter update. */
  lemma {:induction false} OneAnswerPerQuestion(messages: seq<ServerMessage>, inbound: seq<Inbound>, principal: string)
    requires Replies(messages, inbound, principal)
    ensures AnswersIn(messages) == Questions(inbound)
    decreases inbound
  {
    if inbound != [] {
      var last := |inbound| - 1;
      var cut := LastReply(messages, inbound, principal);
      OneAnswerPerQuestion(messages[..cut], inbound[..last], principal);
      AnswersAddUp(messages[..cut], messages[cut..], inbound, principal);
      assert messages == messages[..cut] + messages[cut..];
    }
  }

  lemma AnswersAddUp(before: seq<ServerMessage>, reply: seq<ServerMessage>, inbound: seq<Inbound>, principal: string)
    requires inbound != [] && AnswersIn(before) == Questions(inbound[..|inbound| - 1])
    requires IsReply(reply, inbound[|inbound| - 1], principal)
    ensures AnswersIn(before + reply) == Questions(inbound)
  {
    AnswersInAppend(before, reply);
    AnswersInReply(reply, inbound[|inbound| - 1], principal);
  }

  lemma LastReply(messages: seq<ServerMessage>, inbound: seq<Inbound>, principal: string) returns (cut: nat)
    requires inbound != [] && Replies(messages, inbound, principal)
    ensures cut <= |messages|
    ensures Replies(messages[..cut], inbound[..|inbound| - 1], principal)
    ensures IsReply(messages[cut..], inbound[|inbound| - 1], principal)
  {
    cut :| 0 <= cut <= |messages| && Replies(messages[..cut], inbound[..|inbound| - 1], principal)
           && IsReply(messages[cut..], inbound[|inbound| - 1], principal);
  }

  /** A snapshot without duplicates yields at most one state per target, and only for its targets. */
  lemma {:induction false} OneStatePerTarget(messages: seq<ServerMessage>, ids: seq<string>)
    requires BindStates(messages, ids)
    requires forall i, j :: 0 <= i < j < |ids| ==> ids[i] != ids[j]
    ensures forall i :: 0 <= i < |messages| ==> messages[i].State? && messages[i].targetId in ids
    ensures forall i, j :: 0 <= i < j < |messages| ==> messages[i].targetId != messages[j].targetId
  {
    if ids != [] {
      var last, shorter := ids[|ids| - 1], ids[..|ids| - 1];
      if BindStates(messages, shorter) {
        OneStatePerTarget(messages, shorter);
      } else {
        var before := messages[..|messages| - 1];
        OneStatePerTarget(before, shorter);
        forall i | 0 <= i < |before| ensures before[i].targetId in ids && before[i].targetId != last {
          assert before[i].targetId in shorter;
        }
      }
    }
  }

  /**
   What a client that is let in can count on: after the greeting and the list come states of distinct
   targets that were active when the snapshot was taken, and after them exactly one error or result
   for each of its messages that is not a filter update.
   */
  lemma WelcomedTranscript(c: Conversation, snapshot: Moment) returns (cut: nat)
    requires ListingIsPossible(c) && HelloAccepted(c)
    requires Enumerates(SnapshotIds(c), ActiveIds(snapshot.registry, snapshot.now))
    ensures var t := Converse(c).0;
            && 2 <= cut <= |t| && t[0].ServerHello? && t[1].TargetList?
            && (forall i :: 2 <= i < cut ==>
                  t[i].State? && t[i].targetId in ActiveIds(snapshot.registry, snapshot.now))
            && (forall i, j :: 2 <= i < j < cut ==> t[i].targetId != t[j].targetId)
            && AnswersIn(t[cut..]) == Questions(c.inbound)
  {
    ConversationIsWellFormed(c);
    var t := Converse(c).0;
    cut :| Opened(c, t, cut);
    var states := t[2..cut];
    OneStatePerTarget(states, SnapshotIds(c));
    OneAnswerPerQuestion(t[cut..], c.inbound, c.identity.principal);
    assert forall i :: 2 <= i < cut ==> t[i] == states[i - 2];
  }
}
