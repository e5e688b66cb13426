/**
 The event stream of one target, seen from any run. The session interleaves the events of all its
 targets; a reference detector that sees one target's events alone explains every message about that
 target, and its output is shown to lose and invent nothing.
 */
module Streams {
  import opened Basics
  import opened Commands
  import opened Policies
  import opened RegistryModel
  import opened IpcClient
  import opened SessionModel
  import opened SystemModel
  import opened SystemInvariants
  import opened RunHistory

  // ---------- the reference detector ----------

  /** What reaches one bound target's stream: an event, or a drop count reported by the target itself. */
  datatype StreamItem = Offered(event: EventRecord) | Injected(count: u64)

  /** What comes out: an event, a gap of `count` numbers starting at `first`, or the target's own report. */
  datatype StreamOut = Forwarded(event: EventRecord) | Gap(first: u64, count: u64) | Reported(count: u64)

  /** The newest sequence number after `items`. */
  function DetectLast(items: seq<StreamItem>): Option<u64> {
    if items == [] then None
    else Advance(items[|items| - 1], DetectLast(items[..|items| - 1]))
  }

  /** The newest number after one more item. */
  function Advance(item: StreamItem, last: Option<u64>): Option<u64> {
    if item.Offered? && Newer(item.event, last) then Some(item.event.sequence) else last
  }

  predicate Newer(event: EventRecord, last: Option<u64>) {
    last.None? || event.sequence > last.value
  }

  /** The output for one item, given the newest number before it. */
  function Emit(item: StreamItem, last: Option<u64>): seq<StreamOut> {
    match item
    case Injected(count) => [Reported(count)]
    case Offered(event) =>
      if !Newer(event, last) then []
      else if last.Some? && event.sequence > last.value + 1 then
        [Gap(last.value + 1, event.sequence - last.value - 1), Forwarded(event)]
      else
        [Forwarded(event)]
  }

  function DetectOut(items: seq<StreamItem>): seq<StreamOut> {
    if items == [] then []
    else
      var before := items[..|items| - 1];
      DetectOut(before) + Emit(items[|items| - 1], DetectLast(before))
  }

  // ---------- what the detector guarantees ----------

  /** Item `i` carries an event newer than everything offered before it. */
  ghost predicate IsRecord(items: seq<StreamItem>, i: nat)
    requires i < |items|
  {
    && items[i].Offered?
    && forall j :: 0 <= j < i && items[j].Offered? ==> items[j].event.sequence < items[i].event.sequence
  }

  /** The strict left-to-right maxima among the offered events. */
  ghost function Records(items: seq<StreamItem>): seq<EventRecord> {
    if items == [] then []
    else
      var last := |items| - 1;
      Records(items[..last]) + if IsRecord(items, last) then [items[last].event] else []
  }

  function ForwardedIn(outs: seq<StreamOut>): seq<EventRecord> {
    if outs == [] then []
    else
      var last := outs[|outs| - 1];
      ForwardedIn(outs[..|outs| - 1]) + if last.Forwarded? then [last.event] else []
  }

  lemma {:induction false} ForwardedInAppend(xs: seq<StreamOut>, ys: seq<StreamOut>)
    ensures ForwardedIn(xs + ys) == ForwardedIn(xs) + ForwardedIn(ys)
  {
    if ys == [] {
      assert xs + ys == xs;
    } else {
      assert (xs + ys)[..|xs + ys| - 1] == xs + ys[..|ys| - 1];
      ForwardedInAppend(xs, ys[..|ys| - 1]);
    }
  }

  /** The newest number is the greatest one offered, and there is none exactly when nothing was offered. */
  lemma {:induction false} LastIsMaximum(items: seq<StreamItem>)
    ensures DetectLast(items).None? <==> forall i :: 0 <= i < |items| ==> items[i].Injected?
    ensures DetectLast(items).Some? ==>
              && (exists i :: 0 <= i < |items| && items[i].Offered? &&
                    items[i].event.sequence == DetectLast(items).value)
              && (forall i :: 0 <= i < |items| && items[i].Offered? ==>
                    items[i].event.sequence <= DetectLast(items).value)
  {
    if items != [] {
      var before := items[..|items| - 1];
      LastIsMaximum(before);
      assert forall i :: 0 <= i < |items| - 1 ==> items[i] == before[i];
      if DetectLast(before).Some? {
        var i :| 0 <= i < |before| && before[i].Offered? && before[i].event.sequence == DetectLast(before).value;
        assert items[i] == before[i];
      }
    }
  }

  /** The forwarded events are exactly the strict left-to-right maxima of what was offered. */
  lemma {:induction false} ForwardsExactlyTheRecords(items: seq<StreamItem>)
    ensures ForwardedIn(DetectOut(items)) == Records(items)
  {
    if items != [] {
      var last := |items| - 1;
      var before := items[..last];
      ForwardsExactlyTheRecords(before);
      LastIsMaximum(before);
      assert forall j :: 0 <= j < last ==> items[j] == before[j];
      var emitted := Emit(items[last], DetectLast(before));
      ForwardedInAppend(DetectOut(before), emitted);
      if items[last].Offered? {
        assert IsRecord(items, last) <==> Newer(items[last].event, DetectLast(before));
        EmittedForwards(items[last], DetectLast(before));
      } else {
        assert emitted[..0] == [];
      }
    }
  }

  lemma EmittedForwards(item: StreamItem, last: Option<u64>)
    requires item.Offered?
    ensures ForwardedIn(Emit(item, last)) == if Newer(item.event, last) then [item.event] else []
  {
    var emitted := Emit(item, last);
    if |emitted| == 2 {
      assert emitted[..1] == [emitted[0]] && emitted[..1][..0] == [];
      assert ForwardedIn(emitted[..1]) == [];
    } else if |emitted| == 1 {
      assert emitted[..0] == [];
    }
  }

  /** Offering again an event no newer than one already offered changes neither output nor memory. */
  lemma ReofferIsSilent(items: seq<StreamItem>, event: EventRecord, i: nat)
    requires i < |items| && items[i].Offered? && event.sequence <= items[i].event.sequence
    ensures DetectOut(items + [Offered(event)]) == DetectOut(items)
    ensures DetectLast(items + [Offered(event)]) == DetectLast(items)
  {
    LastIsMaximum(items);
    assert (items + [Offered(event)])[..|items|] == items;
  }

  /** How many outputs account for the sequence number `n`. */
  function Cover(outs: seq<StreamOut>, n: int): nat {
    if outs == [] then 0
    else
      Cover(outs[..|outs| - 1], n) +
      match outs[|outs| - 1]
      case Forwarded(event) => if event.sequence as int == n then 1 else 0
      case Gap(first, count) => if first as int <= n < first as int + count as int then 1 else 0
      case Reported(_) => 0
  }

  lemma {:induction false} CoverAppend(xs: seq<StreamOut>, ys: seq<StreamOut>, n: int)
    ensures Cover(xs + ys, n) == Cover(xs, n) + Cover(ys, n)
  {
    if ys == [] {
      assert xs + ys == xs;
    } else {
      assert (xs + ys)[..|xs + ys| - 1] == xs + ys[..|ys| - 1];
      CoverAppend(xs, ys[..|ys| - 1], n);
    }
  }

  lemma EmittedCover(item: StreamItem, last: Option<u64>, n: int)
    ensures Cover(Emit(item, last), n) ==
              if item.Injected? || !Newer(item.event, last) then 0
              else if last.None? then (if n == item.event.sequence as int then 1 else 0)
              else if last.value as int < n <= item.event.sequence as int then 1 else 0
  {
    var emitted := Emit(item, last);
    if |emitted| == 2 {
      assert emitted[..1] == [emitted[0]] && emitted[..1][..0] == [];
      assert Cover(emitted[..1], n) ==
        if emitted[0].first as int <= n < emitted[0].first as int + emitted[0].count as int then 1 else 0;
    } else if |emitted| == 1 {
      assert emitted[..0] == [];
    }
  }

  /** The first number forwarded. */
  function DetectFirst(items: seq<StreamItem>): Option<u64> {
    if items == [] then None
    else
      var first := DetectFirst(items[..|items| - 1]);
      var item := items[|items| - 1];
      if first.None? && item.Offered? then Some(item.event.sequence) else first
  }

  lemma {:induction false} FirstBeforeLast(items: seq<StreamItem>)
    ensures DetectFirst(items).Some? <==> DetectLast(items).Some?
    ensures DetectFirst(items).Some? ==> DetectFirst(items).value <= DetectLast(items).value
  {
    if items != [] {
      FirstBeforeLast(items[..|items| - 1]);
    }
  }

  /**
   Forwarded events and reported gaps partition the numbers from the first to the last one forwarded:
   each of them is accounted for exactly once, and nothing else is, whatever the arrival order.
   */
  lemma {:induction false} StreamPartitions(items: seq<StreamItem>, n: int)
    ensures var first, last := DetectFirst(items), DetectLast(items);
            Cover(DetectOut(items), n) ==
              if first.Some? && last.Some? && first.value as int <= n <= last.value as int then 1 else 0
  {
    if items != [] {
      var before, item := items[..|items| - 1], items[|items| - 1];
      StreamPartitions(before, n);
      FirstBeforeLast(before);
      CoverAppend(DetectOut(before), Emit(item, DetectLast(before)), n);
      EmittedCover(item, DetectLast(before), n);
    }
  }

  // ---------- counting messages ----------

  /** The messages that carry a detector output. */
  function Render(id: string, outs: seq<StreamOut>): seq<ServerMessage> {
    seq(|outs|, i requires 0 <= i < |outs| => RenderOne(id, outs[i]))
  }

  function RenderOne(id: string, out: StreamOut): ServerMessage {
    match out
    case Forwarded(event) => Event(id, event)
    case Gap(_, count) => DroppedCount(id, count)
    case Reported(count) => DroppedCount(id, count)
  }

  lemma RenderAppend(id: string, xs: seq<StreamOut>, ys: seq<StreamOut>)
    ensures Render(id, xs + ys) == Render(id, xs) + Render(id, ys)
  {
  }

  /** Events count one, drop counts count what they report. */
  function Weight(messages: seq<ServerMessage>): nat {
    if messages == [] then 0
    else
      Weight(messages[..|messages| - 1]) +
      match messages[|messages| - 1]
      case Event(_, _) => 1
      case DroppedCount(_, count) => count as nat
      case _ => 0
  }

  lemma {:induction false} WeightAppend(xs: seq<ServerMessage>, ys: seq<ServerMessage>)
    ensures Weight(xs + ys) == Weight(xs) + Weight(ys)
  {
    if ys == [] {
      assert xs + ys == xs;
    } else {
      assert (xs + ys)[..|xs + ys| - 1] == xs + ys[..|ys| - 1];
      WeightAppend(xs, ys[..|ys| - 1]);
    }
  }

  function InjectedTotal(items: seq<StreamItem>): nat {
    if items == [] then 0
    else
      InjectedTotal(items[..|items| - 1]) +
      match items[|items| - 1] case Injected(count) => count as nat case Offered(_) => 0
  }

  /** The length of the span from the first to the last forwarded number. */
  function Span(items: seq<StreamItem>): int {
    if DetectFirst(items).Some? && DetectLast(items).Some?
    then DetectLast(items).value as int - DetectFirst(items).value as int + 1
    else 0
  }

  lemma EmittedWeight(id: string, item: StreamItem, last: Option<u64>)
    ensures Weight(Render(id, Emit(item, last))) ==
              match item
              case Injected(count) => count as int
              case Offered(event) =>
                if !Newer(event, last) then 0
                else if last.None? then 1
                else event.sequence as int - last.value as int
  {
    var messages := Render(id, Emit(item, last));
    if |messages| == 2 {
      assert messages[..1] == [messages[0]] && messages[..1][..0] == [];
      assert Weight(messages[..1]) == messages[0].droppedEventCount as int;
    } else if |messages| == 1 {
      assert messages[..0] == [];
    }
  }

  /**
   Conservation: events and drop counts add up to the span of forwarded numbers plus what the target
   itself reported as dropped.
   */
  lemma {:induction false} StreamConserves(id: string, items: seq<StreamItem>)
    ensures Weight(Render(id, DetectOut(items))) == Span(items) + InjectedTotal(items)
  {
    if items != [] {
      var before, item := items[..|items| - 1], items[|items| - 1];
      StreamConserves(id, before);
      FirstBeforeLast(before);
      RenderAppend(id, DetectOut(before), Emit(item, DetectLast(before)));
      WeightAppend(Render(id, DetectOut(before)), Render(id, Emit(item, DetectLast(before))));
      EmittedWeight(id, item, DetectLast(before));
    }
  }

  // ---------- the session refines the detector ----------

  /** What one step adds to the stream of target `id` in session `sid`. */
  function ItemOf(sys: System, step: Step, sid: nat, id: string): seq<StreamItem> {
    if step.OnSession? && step.sid == sid && sid in sys.endpoints && id in sys.endpoints[sid].session.boundTargets then
      match step.sessionStep
      case FanOutEvent(event) => if event.targetId == id then [Offered(event)] else []
      case FanOutDroppedCount(targetId, count) => if targetId == id then [Injected(count)] else []
      case _ => []
    else
      []
  }

  /** Everything a run offers to the stream of target `id` in session `sid` since it was bound. */
  function StreamHistory(policy: RegistrationPolicy, steps: seq<Step>, sid: nat, id: string): seq<StreamItem> {
    if steps == [] then []
    else
      var before := steps[..|steps| - 1];
      StreamHistory(policy, before, sid, id) + ItemOf(Run(policy, before), steps[|steps| - 1], sid, id)
  }

  predicate IsStreamOf(m: ServerMessage, id: string) {
    (m.Event? || m.DroppedCount?) && m.targetId == id
  }

  /** The part of a transcript that is target `id`'s stream. */
  function StreamIn(messages: seq<ServerMessage>, id: string): seq<ServerMessage> {
    if messages == [] then []
    else
      var last := messages[|messages| - 1];
      StreamIn(messages[..|messages| - 1], id) + if IsStreamOf(last, id) then [last] else []
  }

  lemma {:induction false} StreamInAppend(xs: seq<ServerMessage>, ys: seq<ServerMessage>, id: string)
    ensures StreamIn(xs + ys, id) == StreamIn(xs, id) + StreamIn(ys, id)
  {
    if ys == [] {
      assert xs + ys == xs;
    } else {
      assert (xs + ys)[..|xs + ys| - 1] == xs + ys[..|ys| - 1];
      StreamInAppend(xs, ys[..|ys| - 1], id);
    }
  }

  lemma {:induction false} StreamInOwn(messages: seq<ServerMessage>, id: string)
    requires forall i :: 0 <= i < |messages| ==> IsStreamOf(messages[i], id)
    ensures StreamIn(messages, id) == messages
  {
    if messages != [] {
      var last := |messages| - 1;
      StreamInOwn(messages[..last], id);
      assert messages[..last] + [messages[last]] == messages;
    }
  }

  lemma {:induction false} StreamInOther(messages: seq<ServerMessage>, id: string)
    requires forall i :: 0 <= i < |messages| ==> !IsStreamOf(messages[i], id)
    ensures StreamIn(messages, id) == []
  {
    if messages != [] {
      StreamInOther(messages[..|messages| - 1], id);
    }
  }

  function LastOf(s: SessionState, id: string): Option<u64> {
    if id in s.lastSequences then Some(s.lastSequences[id]) else None
  }

  lemma RenderedStream(own: string, outs: seq<StreamOut>, id: string)
    ensures StreamIn(Render(own, outs), id) == if id == own then Render(own, outs) else []
  {
    if id == own {
      StreamInOwn(Render(own, outs), id);
    } else {
      StreamInOther(Render(own, outs), id);
    }
  }

  /** An accepted event pushes what the detector emits for its own target, and remembers what the detector does. */
  lemma EventRefinesDetector(s: SessionState, event: EventRecord)
    requires event.targetId in s.boundTargets
    ensures var last := LastOf(s, event.targetId);
            var after := AcceptEvent(s, event).0;
            && after.outbox == s.outbox + Render(event.targetId, Emit(Offered(event), last))
            && after.lastSequences ==
                 if Newer(event, last) then s.lastSequences[event.targetId := event.sequence] else s.lastSequences
  {
    var last := LastOf(s, event.targetId);
    var emitted := Render(event.targetId, Emit(Offered(event), last));
    if Newer(event, last) {
      assert AcceptEvent(s, event).1 == emitted;
    } else {
      assert s.outbox + emitted == s.outbox;
    }
  }

  /** The fan-out of an event extends its own target's stream only. */
  lemma EventStepStream(registry: RegistryState, e: Endpoint, event: EventRecord, id: string)
    ensures var after := ActOnSession(registry, e, FanOutEvent(event)).endpoint;
            StreamIn(Transcript(after), id) == StreamIn(Transcript(e), id) +
              if event.targetId in e.session.boundTargets && event.targetId == id
              then Render(id, Emit(Offered(event), LastOf(e.session, id))) else []
  {
    var after := ActOnSession(registry, e, FanOutEvent(event)).endpoint;
    if event.targetId in e.session.boundTargets {
      var outs := Emit(Offered(event), LastOf(e.session, event.targetId));
      EventRefinesDetector(e.session, event);
      assert Transcript(after) == Transcript(e) + Render(event.targetId, outs);
      StreamInAppend(Transcript(e), Render(event.targetId, outs), id);
      RenderedStream(event.targetId, outs, id);
    }
  }

  lemma EventStepMemory(registry: RegistryState, e: Endpoint, event: EventRecord, id: string)
    ensures var after := ActOnSession(registry, e, FanOutEvent(event)).endpoint;
            LastOf(after.session, id) ==
              if event.targetId in e.session.boundTargets && event.targetId == id
              then Advance(Offered(event), LastOf(e.session, id)) else LastOf(e.session, id)
  {
    if event.targetId in e.session.boundTargets {
      EventRefinesDetector(e.session, event);
    }
  }

  /** A drop count that a target reports about itself enters its own stream only. */
  lemma DroppedStepRefinesDetector(registry: RegistryState, e: Endpoint, own: string, count: u64, id: string)
    ensures var after := ActOnSession(registry, e, FanOutDroppedCount(own, count)).endpoint;
            && LastOf(after.session, id) == LastOf(e.session, id)
            && StreamIn(Transcript(after), id) == StreamIn(Transcript(e), id) +
                 if own in e.session.boundTargets && own == id then Render(id, [Reported(count)]) else []
  {
    var after := ActOnSession(registry, e, FanOutDroppedCount(own, count)).endpoint;
    if own in e.session.boundTargets {
      assert Render(own, [Reported(count)]) == [DroppedCount(own, count)];
      assert Transcript(after) == Transcript(e) + Render(own, [Reported(count)]);
      StreamInAppend(Transcript(e), Render(own, [Reported(count)]), id);
      RenderedStream(own, [Reported(count)], id);
    }
  }

  /** Steps other than the fan-out of events and drop counts leave every stream alone. */
  lemma OtherStepsLeaveStreams(registry: RegistryState, e: Endpoint, step: SessionStep, id: string)
    requires !step.FanOutEvent? && !step.FanOutDroppedCount?
    ensures var after := ActOnSession(registry, e, step).endpoint;
            && StreamIn(Transcript(after), id) == StreamIn(Transcript(e), id)
            && LastOf(after.session, id) == LastOf(e.session, id)
  {
    var after := ActOnSession(registry, e, step).endpoint;
    if step.Drain? {
      assert Transcript(after) == Transcript(e);
    } else {
      var pushed := QuietPush(registry, e, step, id);
      assert Transcript(after) == Transcript(e) + pushed;
      StreamInOther(pushed, id);
      StreamInAppend(Transcript(e), pushed, id);
    }
  }

  lemma QuietPush(registry: RegistryState, e: Endpoint, step: SessionStep, id: string)
    returns (pushed: seq<ServerMessage>)
    requires !step.FanOutEvent? && !step.FanOutDroppedCount? && !step.Drain?
    ensures var after := ActOnSession(registry, e, step).endpoint;
            && after.session.outbox == e.session.outbox + pushed
            && after.sent == e.sent
            && after.session.lastSequences == e.session.lastSequences
    ensures forall i :: 0 <= i < |pushed| ==> !IsStreamOf(pushed[i], id)
  {
    if step.Command? {
      pushed := QuietCommand(e.session, step.command, registry, step.commandAnswers, step.now, id);
    } else {
      pushed := OtherStepPushes(registry, e, step);
      forall i | 0 <= i < |pushed| ensures !IsStreamOf(pushed[i], id) {
        assert PushKind(step, pushed[i]);
      }
    }
  }

  lemma QuietCommand(s: SessionState, command: ClientCommand, registry: RegistryState, answers: CommandAnswers,
                     now: Instant, id: string)
    returns (pushed: seq<ServerMessage>)
    ensures var after := HandleCommand(s, command, registry, answers, now).session;
            && after.outbox == s.outbox + pushed
            && after.lastSequences == s.lastSequences
            && forall i :: 0 <= i < |pushed| ==> !IsStreamOf(pushed[i], id)
  {
    var after := HandleCommand(s, command, registry, answers, now).session;
    CommandOnlyPushes(s, command, registry, answers, now);
    pushed := after.outbox[|s.outbox|..];
    var admitted := AdmitCommand(s, command, registry, now);
    if admitted.Ok? {
      QuietForward(s, admitted.value, registry.registrations[command.targetId].ipcPath, s.remoteIdentity.value,
                   registry, answers, now, id);
    }
  }

  lemma QuietForward(s: SessionState, prepared: PreparedCommand, path: Path, identity: RemoteIdentity,
                     registry: RegistryState, answers: CommandAnswers, now: Instant, id: string)
    ensures var after := ForwardCommand(s, prepared, path, identity, registry, answers, now).session;
            forall i :: |s.outbox| <= i < |after.outbox| ==> !IsStreamOf(after.outbox[i], id)
  {
  }

  lemma DetectOne(items: seq<StreamItem>, item: StreamItem, id: string)
    ensures var more := items + [item];
            && Render(id, DetectOut(more)) == Render(id, DetectOut(items)) + Render(id, Emit(item, DetectLast(items)))
            && DetectLast(more) == Advance(item, DetectLast(items))
  {
    assert (items + [item])[..|items|] == items;
    RenderAppend(id, DetectOut(items), Emit(item, DetectLast(items)));
  }

  /** The endpoint's stream of target `id` is what the detector makes of `items`. */
  ghost predicate Refines(e: Endpoint, id: string, items: seq<StreamItem>) {
    && StreamIn(Transcript(e), id) == Render(id, DetectOut(items))
    && LastOf(e.session, id) == DetectLast(items)
  }

  /** One step of a session extends each of its targets' streams by what the detector emits for that step. */
  lemma StepRefinesDetector(sys: System, sid: nat, step: SessionStep, id: string, items: seq<StreamItem>)
    requires sid in sys.endpoints && Refines(sys.endpoints[sid], id, items)
    ensures Refines(ActOnSession(sys.registry, sys.endpoints[sid], step).endpoint, id,
                    items + ItemOf(sys, OnSession(sid, step), sid, id))
  {
    var e := sys.endpoints[sid];
    var added := ItemOf(sys, OnSession(sid, step), sid, id);
    if added == [] {
      assert items + added == items;
    } else {
      DetectOne(items, added[0], id);
      assert added == [added[0]];
    }
    if step.FanOutEvent? {
      EventStepStream(sys.registry, e, step.event, id);
      EventStepMemory(sys.registry, e, step.event, id);
    } else if step.FanOutDroppedCount? {
      DroppedStepRefinesDetector(sys.registry, e, step.targetId, step.count, id);
    } else {
      OtherStepsLeaveStreams(sys.registry, e, step, id);
    }
  }

  /**
   Projection: for any interleaving of anything with anything, target `id`'s stream in a session's
   transcript is the output of the one-target detector on that target's own history, and the number
   the session remembers is the detector's.
   */
  lemma {:induction false} StreamIsDetectorOutput(policy: RegistrationPolicy, steps: seq<Step>, sid: nat, id: string)
    ensures var items := StreamHistory(policy, steps, sid, id);
            var endpoints := Run(policy, steps).endpoints;
            if sid in endpoints then Refines(endpoints[sid], id, items) else items == []
  {
    if steps != [] {
      var before, last := steps[..|steps| - 1], steps[|steps| - 1];
      StreamIsDetectorOutput(policy, before, sid, id);
      StepStreams(Run(policy, before), last, sid, id, StreamHistory(policy, before, sid, id));
    }
  }

  lemma StepStreams(sys: System, step: Step, sid: nat, id: string, items: seq<StreamItem>)
    requires if sid in sys.endpoints then Refines(sys.endpoints[sid], id, items) else items == []
    ensures var more := items + ItemOf(sys, step, sid, id);
            var endpoints := Next(sys, step).0.endpoints;
            if sid in endpoints then Refines(endpoints[sid], id, more) else more == []
  {
    if step.OnSession? && step.sid == sid && sid in sys.endpoints {
      StepRefinesDetector(sys, sid, step.sessionStep, id, items);
    } else {
      assert items + ItemOf(sys, step, sid, id) == items;
      if step.Connect? && step.sid == sid && sid !in sys.endpoints {
        NewEndpointIsSilent(step.identity, step.sessionId, step.now, id);
      }
    }
  }

  lemma NewEndpointIsSilent(identity: Option<RemoteIdentity>, sessionId: string, now: Instant, id: string)
    ensures StreamIn(Transcript(NewEndpoint(identity, sessionId, now)), id) == []
  {
    StreamInOther(Transcript(NewEndpoint(identity, sessionId, now)), id);
  }

  /** In every run, the events and drop counts a client got for a target add up to the span of its numbers. */
  lemma TranscriptConserves(policy: RegistrationPolicy, steps: seq<Step>, sid: nat, id: string)
    requires sid in Run(policy, steps).endpoints
    ensures var items := StreamHistory(policy, steps, sid, id);
            Weight(StreamIn(Transcript(Run(policy, steps).endpoints[sid]), id)) == Span(items) + InjectedTotal(items)
  {
    StreamIsDetectorOutput(policy, steps, sid, id);
    StreamConserves(id, StreamHistory(policy, steps, sid, id));
  }

  /** Only a bound target has a history, and it stays bound. */
  lemma {:induction false} HistoryMeansBound(policy: RegistrationPolicy, steps: seq<Step>, sid: nat, id: string)
    requires StreamHistory(policy, steps, sid, id) != []
    ensures sid in Run(policy, steps).endpoints && id in Run(policy, steps).endpoints[sid].session.boundTargets
  {
    var before, last := steps[..|steps| - 1], steps[|steps| - 1];
    if StreamHistory(policy, before, sid, id) != [] {
      HistoryMeansBound(policy, before, sid, id);
    }
    StepKeepsHandshake(Run(policy, before), last, sid);
  }

  /** In every run, offering a session an event of its history again changes nothing and reports one error. */
  lemma SeenEventsAreIgnored(policy: RegistrationPolicy, steps: seq<Step>, sid: nat, event: EventRecord)
    requires Offered(event) in StreamHistory(policy, steps, sid, event.targetId)
    ensures sid in Run(policy, steps).endpoints
    ensures var s := Run(policy, steps).endpoints[sid].session;
            AcceptEvent(s, event) == (s, [ErrorReport(NotMonotonic(event.targetId))])
  {
    HistoryMeansBound(policy, steps, sid, event.targetId);
    StreamIsDetectorOutput(policy, steps, sid, event.targetId);
    LastIsMaximum(StreamHistory(policy, steps, sid, event.targetId));
  }

  // ---------- maxima, in what a client was sent ----------

  /** The events among some messages, in order. */
  function EventsIn(messages: seq<ServerMessage>): seq<EventRecord> {
    if messages == [] then []
    else
      var last := messages[|messages| - 1];
      EventsIn(messages[..|messages| - 1]) + if last.Event? then [last.event] else []
  }

  lemma {:induction false} RenderedEvents(id: string, outs: seq<StreamOut>)
    ensures EventsIn(Render(id, outs)) == ForwardedIn(outs)
  {
    if outs != [] {
      RenderedEvents(id, outs[..|outs| - 1]);
      assert Render(id, outs)[..|outs| - 1] == Render(id, outs[..|outs| - 1]);
    }
  }

  /**
   In every run, the events a client got for a target are exactly the strict left-to-right maxima of
   what was offered for it since it was bound, and the number its session remembers is their maximum.
   */
  lemma TranscriptForwardsTheRecords(policy: RegistrationPolicy, steps: seq<Step>, sid: nat, id: string)
    requires sid in Run(policy, steps).endpoints
    ensures var e, items := Run(policy, steps).endpoints[sid], StreamHistory(policy, steps, sid, id);
            && EventsIn(StreamIn(Transcript(e), id)) == Records(items)
            && (id in e.session.lastSequences <==> exists i :: 0 <= i < |items| && items[i].Offered?)
            && (id in e.session.lastSequences ==> IsGreatestOffered(e.session.lastSequences[id], items))
  {
    var items := StreamHistory(policy, steps, sid, id);
    StreamIsDetectorOutput(policy, steps, sid, id);
    RenderedEvents(id, DetectOut(items));
    ForwardsExactlyTheRecords(items);
    LastIsMaximum(items);
  }

  ghost predicate IsGreatestOffered(n: u64, items: seq<StreamItem>) {
    && (exists i :: 0 <= i < |items| && items[i].Offered? && items[i].event.sequence == n)
    && (forall i :: 0 <= i < |items| && items[i].Offered? ==> items[i].event.sequence <= n)
  }
}
