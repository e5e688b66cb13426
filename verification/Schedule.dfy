/**
 A connection as part of a running relay. The session's acts, each with the registry it finds, determine
 its endpoint; the acts of a connection are those of a session in a run of the system, however they are
 interleaved with everything else, so what is proved of runs is proved of connections.
 */
module Schedule {
  import opened Basics
  import opened Commands
  import opened Policies
  import opened RegistryModel
  import opened IpcClient
  import opened Audit
  import opened SessionModel
  import opened SystemModel
  import opened SystemInvariants
  import opened RunHistory
  import opened Correspondence
  import opened DriverModel

  // ---------- acts ----------

  /** One step of a session and the registry it finds. */
  datatype Act = Act(registry: RegistryState, step: SessionStep)

  function Play(e: Endpoint, acts: seq<Act>): Endpoint {
    if acts == [] then e
    else
      var last := acts[|acts| - 1];
      ActOnSession(last.registry, Play(e, acts[..|acts| - 1]), last.step).endpoint
  }

  lemma PlayOne(e: Endpoint, acts: seq<Act>, act: Act)
    ensures Play(e, acts + [act]) == ActOnSession(act.registry, Play(e, acts), act.step).endpoint
  {
    assert (acts + [act])[..|acts|] == acts;
  }

  lemma {:induction false} PlayAppend(e: Endpoint, xs: seq<Act>, ys: seq<Act>)
    ensures Play(e, xs + ys) == Play(Play(e, xs), ys)
  {
    if ys == [] {
      assert xs + ys == xs;
    } else {
      assert (xs + ys)[..|xs + ys| - 1] == xs + ys[..|ys| - 1];
      PlayAppend(e, xs, ys[..|ys| - 1]);
    }
  }

  /** The steps that read the registry, and so hold its lock. */
  predicate TakesLock(step: SessionStep) {
    step.PublishTargets? || step.Bind? || step.Command?
  }

  /** The same steps, finding the same registry wherever they look at it. */
  ghost predicate SameActs(xs: seq<Act>, ys: seq<Act>) {
    && |xs| == |ys|
    && forall i :: 0 <= i < |xs| ==>
         xs[i].step == ys[i].step && (TakesLock(xs[i].step) ==> xs[i].registry == ys[i].registry)
  }

  lemma UnlockedActIgnoresRegistry(a: RegistryState, b: RegistryState, e: Endpoint, step: SessionStep)
    requires !TakesLock(step)
    ensures ActOnSession(a, e, step).endpoint == ActOnSession(b, e, step).endpoint
  {
  }

  lemma {:induction false} SameActsPlayAlike(e: Endpoint, xs: seq<Act>, ys: seq<Act>)
    requires SameActs(xs, ys)
    ensures Play(e, xs) == Play(e, ys)
  {
    if xs != [] {
      var last := |xs| - 1;
      SameActsPlayAlike(e, xs[..last], ys[..last]);
      if !TakesLock(xs[last].step) {
        UnlockedActIgnoresRegistry(xs[last].registry, ys[last].registry, Play(e, xs[..last]), xs[last].step);
      }
    }
  }

  // ---------- the acts of a session in a run ----------

  /** The endpoint that a run opens for a session. */
  function OpeningOf(steps: seq<Step>, sid: nat): Option<Endpoint> {
    if steps == [] then None
    else
      var opening, last := OpeningOf(steps[..|steps| - 1], sid), steps[|steps| - 1];
      if opening.None? && last.Connect? && last.sid == sid
      then Some(NewEndpoint(last.identity, last.sessionId, last.now)) else opening
  }

  /** What a session does in a run, and in which registry. */
  function ActsOf(policy: RegistrationPolicy, steps: seq<Step>, sid: nat): seq<Act> {
    if steps == [] then []
    else
      var before, last := steps[..|steps| - 1], steps[|steps| - 1];
      ActsOf(policy, before, sid) + ActOf(Run(policy, before), last, sid)
  }

  /** The session's endpoint, if it has one, is what `acts` make of `opening`. */
  ghost predicate Plays(sys: System, sid: nat, opening: Option<Endpoint>, acts: seq<Act>) {
    if sid in sys.endpoints then opening.Some? && sys.endpoints[sid] == Play(opening.value, acts)
    else opening.None? && acts == []
  }

  /** What one step adds to a session's acts. */
  function ActOf(sys: System, step: Step, sid: nat): seq<Act> {
    if step.OnSession? && step.sid == sid && sid in sys.endpoints then [Act(sys.registry, step.sessionStep)] else []
  }

  lemma StepIsPlay(sys: System, step: Step, sid: nat, opening: Option<Endpoint>, acts: seq<Act>)
    requires Plays(sys, sid, opening, acts)
    ensures Plays(Next(sys, step).0, sid,
                  if opening.None? && step.Connect? && step.sid == sid
                  then Some(NewEndpoint(step.identity, step.sessionId, step.now)) else opening,
                  acts + ActOf(sys, step, sid))
  {
    if sid in sys.endpoints {
      EndpointsAfter(sys, step, sid);
      if ActOf(sys, step, sid) == [] {
        assert acts + [] == acts;
      } else {
        PlayOne(opening.value, acts, Act(sys.registry, step.sessionStep));
      }
    }
  }

  /** A session's endpoint is what its own acts make of its opening, whatever else the run does. */
  lemma {:induction false} RunIsPlay(policy: RegistrationPolicy, steps: seq<Step>, sid: nat)
    ensures Plays(Run(policy, steps), sid, OpeningOf(steps, sid), ActsOf(policy, steps, sid))
  {
    if steps != [] {
      var before, last := steps[..|steps| - 1], steps[|steps| - 1];
      RunIsPlay(policy, before, sid);
      StepIsPlay(Run(policy, before), last, sid, OpeningOf(before, sid), ActsOf(policy, before, sid));
    }
  }

  ghost predicate AllInStep(acts: seq<Act>) {
    forall i :: 0 <= i < |acts| ==> InStep(acts[i].registry)
  }

  /** What is proved of sessions in runs. */
  ghost predicate SoundEndpoint(e: Endpoint) {
    Gated(e) && Accounted(e)
  }

  lemma ActIsSound(e: Endpoint, act: Act)
    requires SoundEndpoint(e) && InStep(act.registry)
    ensures SoundEndpoint(ActOnSession(act.registry, e, act.step).endpoint)
  {
    StepKeepsGated(act.registry, e, act.step);
    StepKeepsAccounted(act.registry, e, act.step);
  }

  /** What is proved of sessions in runs holds of acts in any registries that keep their maps in step. */
  lemma {:induction false} PlayIsSound(e: Endpoint, acts: seq<Act>)
    requires SoundEndpoint(e) && AllInStep(acts)
    ensures SoundEndpoint(Play(e, acts))
  {
    if acts != [] {
      var last := |acts| - 1;
      assert AllInStep(acts[..last]);
      PlayIsSound(e, acts[..last]);
      ActIsSound(Play(e, acts[..last]), acts[last]);
    }
  }

  // ---------- interleaving ----------

  /** Any steps of the rest of the relay, and then one of a session's own. */
  datatype Turn = Turn(others: seq<Step>, own: SessionStep)

  function Weave(sid: nat, turns: seq<Turn>): seq<Step> {
    if turns == [] then []
    else
      var last := turns[|turns| - 1];
      Weave(sid, turns[..|turns| - 1]) + last.others + [OnSession(sid, last.own)]
  }

  ghost predicate LeavesAlone(steps: seq<Step>, sid: nat) {
    forall i :: 0 <= i < |steps| ==> !(steps[i].OnSession? && steps[i].sid == sid)
  }

  lemma ActsOfOne(policy: RegistrationPolicy, steps: seq<Step>, step: Step, sid: nat)
    ensures var sys := Run(policy, steps);
            ActsOf(policy, steps + [step], sid) == ActsOf(policy, steps, sid) +
              if step.OnSession? && step.sid == sid && sid in sys.endpoints
              then [Act(sys.registry, step.sessionStep)] else []
    ensures sid in Run(policy, steps).endpoints ==> sid in Run(policy, steps + [step]).endpoints
  {
    assert (steps + [step])[..|steps|] == steps;
  }

  lemma {:induction false} OthersAddNoActs(policy: RegistrationPolicy, before: seq<Step>, others: seq<Step>, sid: nat)
    requires LeavesAlone(others, sid)
    ensures ActsOf(policy, before + others, sid) == ActsOf(policy, before, sid)
    ensures sid in Run(policy, before).endpoints ==> sid in Run(policy, before + others).endpoints
  {
    if others == [] {
      assert before + others == before;
    } else {
      var last := |others| - 1;
      OthersAddNoActs(policy, before, others[..last], sid);
      assert before + others == before + others[..last] + [others[last]];
      ActsOfOne(policy, before + others[..last], others[last], sid);
    }
  }

  /** What the turns of a session come to: its own steps, each with the registry that the steps before it leave. */
  function FoundActs(policy: RegistrationPolicy, before: seq<Step>, sid: nat, turns: seq<Turn>): seq<Act> {
    if turns == [] then []
    else
      var shorter, last := turns[..|turns| - 1], turns[|turns| - 1];
      FoundActs(policy, before, sid, shorter)
        + [Act(Run(policy, before + Weave(sid, shorter) + last.others).registry, last.own)]
  }

  lemma OneMoreStep(policy: RegistrationPolicy, before: seq<Step>, others: seq<Step>, sid: nat, step: SessionStep)
    requires sid in Run(policy, before).endpoints && LeavesAlone(others, sid)
    ensures sid in Run(policy, before + others + [OnSession(sid, step)]).endpoints
    ensures ActsOf(policy, before + others + [OnSession(sid, step)], sid)
         == ActsOf(policy, before, sid) + [Act(Run(policy, before + others).registry, step)]
  {
    OthersAddNoActs(policy, before, others, sid);
    ActsOfOne(policy, before + others, OnSession(sid, step), sid);
  }

  lemma WeaveOne(before: seq<Step>, sid: nat, turns: seq<Turn>)
    requires turns != []
    ensures var shorter, last := turns[..|turns| - 1], turns[|turns| - 1];
            before + Weave(sid, turns) == before + Weave(sid, shorter) + last.others + [OnSession(sid, last.own)]
  {
    var last := turns[|turns| - 1];
    var woven := Weave(sid, turns[..|turns| - 1]);
    assert before + (woven + last.others + [OnSession(sid, last.own)])
        == before + woven + last.others + [OnSession(sid, last.own)];
  }

  /** An open session can take any turns, with any steps of others in between, and finds what those leave. */
  lemma {:induction false} WeaveCarriesOutScript(policy: RegistrationPolicy, before: seq<Step>, sid: nat,
                                                 turns: seq<Turn>)
    requires sid in Run(policy, before).endpoints
    requires forall i :: 0 <= i < |turns| ==> LeavesAlone(turns[i].others, sid)
    ensures sid in Run(policy, before + Weave(sid, turns)).endpoints
    ensures ActsOf(policy, before + Weave(sid, turns), sid)
         == ActsOf(policy, before, sid) + FoundActs(policy, before, sid, turns)
  {
    if turns == [] {
      assert before + Weave(sid, turns) == before;
    } else {
      var shorter, last := turns[..|turns| - 1], turns[|turns| - 1];
      WeaveCarriesOutScript(policy, before, sid, shorter);
      WeaveOne(before, sid, turns);
      OneMoreStep(policy, before + Weave(sid, shorter), last.others, sid, last.own);
      Associate(ActsOf(policy, before, sid), FoundActs(policy, before, sid, shorter),
                [Act(Run(policy, before + Weave(sid, shorter) + last.others).registry, last.own)]);
    }
  }

  /** The k-th act is the k-th own step, and finds what the turns before it and the steps of others leave. */
  lemma {:induction false} FoundAt(policy: RegistrationPolicy, before: seq<Step>, sid: nat, turns: seq<Turn>, k: nat)
    requires k < |turns|
    ensures |FoundActs(policy, before, sid, turns)| == |turns|
    ensures FoundActs(policy, before, sid, turns)[k]
         == Act(Run(policy, before + Weave(sid, turns[..k]) + turns[k].others).registry, turns[k].own)
  {
    var shorter := turns[..|turns| - 1];
    FoundLength(policy, before, sid, shorter);
    if k < |shorter| {
      FoundAt(policy, before, sid, shorter, k);
      assert shorter[..k] == turns[..k];
    }
  }

  lemma {:induction false} FoundLength(policy: RegistrationPolicy, before: seq<Step>, sid: nat, turns: seq<Turn>)
    ensures |FoundActs(policy, before, sid, turns)| == |turns|
  {
    if turns != [] {
      FoundLength(policy, before, sid, turns[..|turns| - 1]);
    }
  }

  // ---------- the acts of a connection ----------

  function BindActs(slots: seq<BindSlot>): seq<Act> {
    seq(|slots|, i requires 0 <= i < |slots| =>
      Act(slots[i].at.registry, Bind(slots[i].targetId, slots[i].answers, slots[i].at.now)))
  }

  /** A command is handled and its outcome delivered; other messages do not touch the session. */
  function ServeAct(inbound: Inbound): seq<Act> {
    match inbound.message
    case Ok(CommandMessage(command)) =>
      [Act(inbound.at.registry, Command(command, inbound.answers, inbound.at.now)), Act(inbound.at.registry, Drain)]
    case _ => []
  }

  function ServeActs(inbound: seq<Inbound>): seq<Act> {
    if inbound == [] then []
    else ServeActs(inbound[..|inbound| - 1]) + ServeAct(inbound[|inbound| - 1])
  }

  /** Everything the session of a connection does, in order. */
  function Script(c: Conversation): seq<Act> {
    var greeting := [Act(c.listedAt.registry, Drain)];
    match c.first
    case Some(Ok(HelloMessage(hello))) =>
      var greeted := greeting + [Act(c.listedAt.registry, Hello(hello, c.helloAt))];
      if HelloAccepted(c) then greeted + [Listing(c)] + BindActs(c.binds) + [Delivery(c)] + ServeActs(c.inbound)
      else greeted
    case _ => greeting
  }

  function Listing(c: Conversation): Act {
    Act(c.listedAt.registry, PublishTargets(c.listOrder, c.listedAt.now))
  }

  function Delivery(c: Conversation): Act {
    Act(c.listedAt.registry, Drain)
  }

  function Opening(c: Conversation): Endpoint {
    NewEndpoint(Some(c.identity), c.sessionId, c.openedAt)
  }

  /** The part of a transcript that went through the session's outbox: all but errors. */
  function WithoutErrors(messages: seq<ServerMessage>): seq<ServerMessage> {
    if messages == [] then []
    else
      var last := messages[|messages| - 1];
      WithoutErrors(messages[..|messages| - 1]) + if last.ErrorReport? then [] else [last]
  }

  lemma {:induction false} WithoutErrorsAppend(xs: seq<ServerMessage>, ys: seq<ServerMessage>)
    ensures WithoutErrors(xs + ys) == WithoutErrors(xs) + WithoutErrors(ys)
  {
    if ys == [] {
      assert xs + ys == xs;
    } else {
      assert (xs + ys)[..|xs + ys| - 1] == xs + ys[..|ys| - 1];
      WithoutErrorsAppend(xs, ys[..|ys| - 1]);
    }
  }

  lemma {:induction false} NoErrorsToDrop(messages: seq<ServerMessage>)
    requires forall i :: 0 <= i < |messages| ==> !messages[i].ErrorReport?
    ensures WithoutErrors(messages) == messages
  {
    if messages != [] {
      var last := |messages| - 1;
      NoErrorsToDrop(messages[..last]);
      assert messages[..last] + [messages[last]] == messages;
    }
  }

  lemma BindActsPrefix(slots: seq<BindSlot>)
    requires slots != []
    ensures BindActs(slots)[..|slots| - 1] == BindActs(slots[..|slots| - 1])
  {
  }

  lemma {:induction false} PlayBinds(e: Endpoint, slots: seq<BindSlot>)
    ensures var after := Play(e, BindActs(slots));
            after.session == BindAll(e.session, slots) && after.sent == e.sent && after.audit == e.audit
  {
    if slots != [] {
      var last := |slots| - 1;
      PlayBinds(e, slots[..last]);
      BindActsPrefix(slots);
    }
  }

  /** What one message makes of the endpoint: the session's reply joins what was sent, errors apart. */
  lemma PlayCommand(e: Endpoint, inbound: Inbound)
    requires e.session.outbox == [] && inbound.message.Ok? && inbound.message.value.CommandMessage?
    ensures var command := Command(inbound.message.value.command, inbound.answers, inbound.at.now);
            var handled := ActOnSession(inbound.at.registry, e, command).endpoint;
            var after := ActOnSession(inbound.at.registry, handled, Drain).endpoint;
            && after.session == Serve(e.session, inbound).0
            && after.sent == e.sent + WithoutErrors(Serve(e.session, inbound).1)
  {
    var command, registry, now := inbound.message.value.command, inbound.at.registry, inbound.at.now;
    var effect := HandleCommand(e.session, command, registry, inbound.answers, now);
    CommandPushesNoErrors(e.session, command, registry, inbound.answers, now);
    NoErrorsToDrop(effect.session.outbox);
    if effect.result.Err? {
      var report := [ErrorReport(effect.result.error)];
      assert report[..0] == [];
      assert WithoutErrors(report) == [];
      WithoutErrorsAppend(report, effect.session.outbox);
    } else {
      assert [] + effect.session.outbox == effect.session.outbox;
    }
  }

  lemma ForwardPushesNoErrors(s: SessionState, prepared: PreparedCommand, path: Path, identity: RemoteIdentity,
                              registry: RegistryState, answers: CommandAnswers, now: Instant)
    requires s.outbox == []
    ensures HasNoErrors(ForwardCommand(s, prepared, path, identity, registry, answers, now).session.outbox)
  {
    ForwardPushesReply(s, prepared, path, identity, registry, answers, now);
  }

  ghost predicate HasNoErrors(messages: seq<ServerMessage>) {
    forall i :: 0 <= i < |messages| ==> !messages[i].ErrorReport?
  }

  lemma CommandPushesNoErrors(s: SessionState, command: ClientCommand, registry: RegistryState, answers: CommandAnswers,
                              now: Instant)
    requires s.outbox == []
    ensures HasNoErrors(HandleCommand(s, command, registry, answers, now).session.outbox)
  {
    var admitted := AdmitCommand(s, command, registry, now);
    if admitted.Ok? {
      ForwardPushesNoErrors(s, admitted.value, registry.registrations[command.targetId].ipcPath, s.remoteIdentity.value,
                            registry, answers, now);
    }
  }

  lemma OtherMessagesAreErrors(s: SessionState, inbound: Inbound)
    requires s.outbox == [] && !(inbound.message.Ok? && inbound.message.value.CommandMessage?)
    ensures Serve(s, inbound).0 == s && WithoutErrors(Serve(s, inbound).1) == []
  {
    var reply := Serve(s, inbound).1;
    if reply != [] {
      assert reply[..0] == [];
    }
  }

  /** The endpoint after the messages: the session is done with them and their replies, errors apart, are sent. */
  ghost predicate Served(e: Endpoint, after: Endpoint, inbound: seq<Inbound>) {
    && after.session == ServeAll(e.session, inbound).0
    && after.session.outbox == []
    && after.sent == e.sent + WithoutErrors(ServeAll(e.session, inbound).1)
  }

  lemma ServedOne(e: Endpoint, before: Endpoint, after: Endpoint, inbound: seq<Inbound>)
    requires inbound != [] && Served(e, before, inbound[..|inbound| - 1])
    requires ServedBy(before, after, inbound[|inbound| - 1])
    ensures Served(e, after, inbound)
  {
    var last := |inbound| - 1;
    var delivered, reply := ServeAll(e.session, inbound[..last]).1, Serve(before.session, inbound[last]).1;
    WithoutErrorsAppend(delivered, reply);
    Associate(e.sent, WithoutErrors(delivered), WithoutErrors(reply));
  }

  ghost predicate ServedBy(before: Endpoint, after: Endpoint, inbound: Inbound) {
    && after.session == Serve(before.session, inbound).0
    && after.session.outbox == []
    && after.sent == before.sent + WithoutErrors(Serve(before.session, inbound).1)
  }

  lemma PlayServesOne(e: Endpoint, acts: seq<Act>, inbound: Inbound)
    requires Play(e, acts).session.outbox == []
    ensures ServedBy(Play(e, acts), Play(e, acts + ServeAct(inbound)), inbound)
  {
    ServeReplies(Play(e, acts).session, inbound, Who(Play(e, acts).session).principal);
    if inbound.message.Ok? && inbound.message.value.CommandMessage? {
      PlayCommand(Play(e, acts), inbound);
      PlayTwo(e, acts, ServeAct(inbound)[0], ServeAct(inbound)[1]);
      assert ServeAct(inbound) == [ServeAct(inbound)[0], ServeAct(inbound)[1]];
    } else {
      OtherMessagesAreErrors(Play(e, acts).session, inbound);
      assert acts + ServeAct(inbound) == acts;
    }
  }

  lemma {:induction false} PlayServes(e: Endpoint, inbound: seq<Inbound>)
    requires e.session.outbox == []
    ensures Served(e, Play(e, ServeActs(inbound)), inbound)
  {
    if inbound == [] {
      assert e.sent + [] == e.sent;
    } else {
      var last := |inbound| - 1;
      PlayServes(e, inbound[..last]);
      PlayServesOne(e, ServeActs(inbound[..last]), inbound[last]);
      ServedOne(e, Play(e, ServeActs(inbound[..last])), Play(e, ServeActs(inbound)), inbound);
    }
  }

  lemma PlayTwo(e: Endpoint, acts: seq<Act>, first: Act, second: Act)
    ensures Play(e, acts + [first, second]) ==
              ActOnSession(second.registry, ActOnSession(first.registry, Play(e, acts), first.step).endpoint,
                           second.step).endpoint
  {
    PlayOne(e, acts, first);
    PlayOne(e, acts + [first], second);
    assert acts + [first] + [second] == acts + [first, second];
  }

  /** After the greeting has been delivered. */
  lemma PlayGreeting(c: Conversation)
    ensures var e := Play(Opening(c), [Delivery(c)]);
            && e.session == NewSession(c.sessionId, c.identity, c.openedAt).(outbox := [])
            && e.sent == Greeting(c) && e.audit == [] && e.exchanges == []
  {
    DeliveredFirst(Opening(c), Delivery(c));
    assert [] + Greeting(c) == Greeting(c);
  }

  lemma DeliveredFirst(e: Endpoint, delivery: Act)
    requires delivery.step == Drain
    ensures Play(e, [delivery]) == e.(session := e.session.(outbox := []), sent := e.sent + e.session.outbox)
  {
    PlayOne(e, [], delivery);
    assert [] + [delivery] == [delivery];
  }

  lemma BindAllPushesNoErrors(s: SessionState, slots: seq<BindSlot>)
    requires forall i :: 0 <= i < |s.outbox| ==> !s.outbox[i].ErrorReport?
    ensures forall i :: 0 <= i < |BindAll(s, slots).outbox| ==> !BindAll(s, slots).outbox[i].ErrorReport?
  {
    if slots != [] {
      var last := |slots| - 1;
      BindAllPushesNoErrors(s, slots[..last]);
      BindPushesState(BindAll(s, slots[..last]), slots[last].targetId, slots[last].at.registry, slots[last].answers,
                      slots[last].at.now);
    }
  }

  /** From an accepted hello to the delivery of the list and the states of binding. */
  lemma PlayWelcome(c: Conversation, e: Endpoint)
    requires HelloAccepted(c) && ListingIsPossible(c)
    requires e.session == NewSession(c.sessionId, c.identity, c.openedAt).(outbox := [])
    ensures var ready := AcceptClientHello(e.session, c.first.value.value.hello, c.helloAt).0;
            var after := Play(e, Welcome(c));
            && after.session == Prepared(c, ready).(outbox := [])
            && after.sent == e.sent + Prepared(c, ready).outbox
  {
    var hello := Act(c.listedAt.registry, Hello(c.first.value.value.hello, c.helloAt));
    var greeted := Play(e, [hello]);
    PlayHello(c, e);
    PlayAppend(e, [hello], [Listing(c)]);
    PlayAppend(e, [hello] + [Listing(c)], BindActs(c.binds));
    PlayBinds(Play(greeted, [Listing(c)]), c.binds);
    PlayListed(c, greeted);
    PlayOne(e, [hello] + [Listing(c)] + BindActs(c.binds), Delivery(c));
  }

  lemma PlayHello(c: Conversation, e: Endpoint)
    requires HelloAccepted(c)
    ensures Play(e, [Act(c.listedAt.registry, Hello(c.first.value.value.hello, c.helloAt))])
         == e.(session := AcceptClientHello(e.session, c.first.value.value.hello, c.helloAt).0)
  {
    var hello := Act(c.listedAt.registry, Hello(c.first.value.value.hello, c.helloAt));
    PlayOne(e, [], hello);
    assert [] + [hello] == [hello];
  }

  lemma PlayListed(c: Conversation, e: Endpoint)
    requires HelloAccepted(c) && ListingIsPossible(c)
    ensures Play(e, [Listing(c)])
         == e.(session := Push(e.session, [TargetList(VisibleTargets(c.listedAt.registry, c.listOrder))]))
  {
    PlayOne(e, [], Listing(c));
    assert [] + [Listing(c)] == [Listing(c)];
  }

  lemma BoundHasNoErrors(listed: SessionState, slots: seq<BindSlot>)
    requires |listed.outbox| == 1 && listed.outbox[0].TargetList?
    ensures WithoutErrors(BindAll(listed, slots).outbox) == BindAll(listed, slots).outbox
  {
    BindAllPushesNoErrors(listed, slots);
    NoErrorsToDrop(BindAll(listed, slots).outbox);
  }

  lemma TranscriptOfParts(greeting: seq<ServerMessage>, opening: seq<ServerMessage>, replies: seq<ServerMessage>)
    requires WithoutErrors(greeting) == greeting && WithoutErrors(opening) == opening
    ensures WithoutErrors(greeting + opening + replies) == greeting + opening + WithoutErrors(replies)
  {
    WithoutErrorsAppend(greeting, opening);
    WithoutErrorsAppend(greeting + opening, replies);
  }

  /** The acts of a connection whose hello is accepted, in three parts. */
  lemma PlayInParts(c: Conversation)
    requires HelloAccepted(c)
    ensures var greeted := Play(Opening(c), [Delivery(c)]);
            Play(Opening(c), Script(c)) == Play(Play(greeted, Welcome(c)), ServeActs(c.inbound))
  {
    PlayAppend(Opening(c), [Delivery(c)], Welcome(c));
    PlayAppend(Opening(c), [Delivery(c)] + Welcome(c), ServeActs(c.inbound));
    ScriptIsWelcome(c);
  }

  lemma ScriptIsWelcome(c: Conversation)
    requires HelloAccepted(c)
    ensures Script(c) == [Delivery(c)] + Welcome(c) + ServeActs(c.inbound)
  {
  }

  function Welcome(c: Conversation): seq<Act>
    requires HelloAccepted(c)
  {
    [Act(c.listedAt.registry, Hello(c.first.value.value.hello, c.helloAt))] + [Listing(c)] + BindActs(c.binds)
      + [Delivery(c)]
  }

  /** A connection whose hello is accepted. */
  lemma PlayWelcomed(c: Conversation)
    requires HelloAccepted(c) && ListingIsPossible(c)
    ensures var e := Play(Opening(c), Script(c));
            e.session.outbox == [] && e.sent == WithoutErrors(Converse(c).0)
  {
    var greeted := Play(Opening(c), [Delivery(c)]);
    PlayInParts(c);
    PlayGreeting(c);
    PlayWelcome(c, greeted);
    PlayServes(Play(greeted, Welcome(c)), c.inbound);
    WelcomedSent(c, AcceptClientHello(greeted.session, c.first.value.value.hello, c.helloAt).0);
  }

  lemma WelcomedSent(c: Conversation, ready: SessionState)
    requires HelloAccepted(c) && ListingIsPossible(c)
    requires ready == AcceptClientHello(NewSession(c.sessionId, c.identity, c.openedAt).(outbox := []),
                                        c.first.value.value.hello, c.helloAt).0
    ensures var prepared := Prepared(c, ready);
            WithoutErrors(Converse(c).0)
              == Greeting(c) + prepared.outbox + WithoutErrors(ServeAll(prepared.(outbox := []), c.inbound).1)
  {
    var prepared := Prepared(c, ready);
    var replies := ServeAll(prepared.(outbox := []), c.inbound).1;
    ConverseWelcomed(c);
    Associate(Greeting(c), prepared.outbox, replies);
    BoundHasNoErrors(Push(ready, [TargetList(VisibleTargets(c.listedAt.registry, c.listOrder))]), c.binds);
    NoErrorsToDrop(Greeting(c));
    TranscriptOfParts(Greeting(c), prepared.outbox, replies);
  }

  /** A connection that is not let in. */
  lemma PlayTurnedAway(c: Conversation)
    requires !HelloAccepted(c)
    ensures var e := Play(Opening(c), Script(c));
            e.session.outbox == [] && e.sent == WithoutErrors(Converse(c).0)
  {
    PlayGreeting(c);
    NoErrorsToDrop(Greeting(c));
    if c.first.Some? && c.first.value.Ok? {
      if c.first.value.value.HelloMessage? {
        PlayOne(Opening(c), [Delivery(c)], Act(c.listedAt.registry, Hello(c.first.value.value.hello, c.helloAt)));
      } else {
        var report := [ErrorReport(HelloMustBeFirst())];
        assert report[..0] == [];
        WithoutErrorsAppend(Greeting(c), report);
      }
    }
  }

  /** The acts of a connection leave nothing pending and send its transcript, errors apart. */
  lemma ScriptSendsTranscript(c: Conversation)
    requires ListingIsPossible(c)
    ensures var e := Play(Opening(c), Script(c));
            e.session.outbox == [] && e.sent == WithoutErrors(Converse(c).0)
  {
    if HelloAccepted(c) {
      PlayWelcomed(c);
    } else {
      PlayTurnedAway(c);
    }
  }

  /**
   A connection is a session of the running relay: in every run that opens a session as the connection
   does and in which that session does what the connection does, in the registries that the run has
   reached by then, the session ends as the connection does and has sent its transcript, errors apart;
   so its requests are gated and its audit log and replies are the ones its requests call for.
   */
  lemma ConnectionIsSessionOfRun(policy: RegistrationPolicy, steps: seq<Step>, sid: nat, c: Conversation)
    requires ListingIsPossible(c)
    requires OpeningOf(steps, sid) == Some(Opening(c)) && SameActs(ActsOf(policy, steps, sid), Script(c))
    ensures sid in Run(policy, steps).endpoints
    ensures var e := Run(policy, steps).endpoints[sid];
            && e == Play(Opening(c), Script(c))
            && Transcript(e) == WithoutErrors(Converse(c).0)
            && SoundEndpoint(e)
  {
    RunIsPlay(policy, steps, sid);
    SameActsPlayAlike(Opening(c), ActsOf(policy, steps, sid), Script(c));
    ScriptSendsTranscript(c);
    RunIsSound(policy, steps);
  }

  /** A connection that finds both maps of the registry in step at every lock is gated and accounted for. */
  lemma ConnectionIsSound(c: Conversation)
    requires InStep(c.listedAt.registry)
    requires forall i :: 0 <= i < |c.binds| ==> InStep(c.binds[i].at.registry)
    requires forall i :: 0 <= i < |c.inbound| ==> InStep(c.inbound[i].at.registry)
    ensures SoundEndpoint(Play(Opening(c), Script(c)))
  {
    ScriptInStep(c);
    OpeningIsSound(c);
    PlayIsSound(Opening(c), Script(c));
  }

  lemma OpeningIsSound(c: Conversation)
    ensures SoundEndpoint(Opening(c))
  {
    var transcript := Transcript(Opening(c));
    assert transcript == Greeting(c) && transcript[..0] == [];
    assert ResultsIn(transcript) == [];
  }

  lemma ScriptInStep(c: Conversation)
    requires InStep(c.listedAt.registry)
    requires forall i :: 0 <= i < |c.binds| ==> InStep(c.binds[i].at.registry)
    requires forall i :: 0 <= i < |c.inbound| ==> InStep(c.inbound[i].at.registry)
    ensures AllInStep(Script(c))
  {
    ServeActsInStep(c.inbound);
  }

  lemma {:induction false} ServeActsInStep(inbound: seq<Inbound>)
    requires forall i :: 0 <= i < |inbound| ==> InStep(inbound[i].at.registry)
    ensures AllInStep(ServeActs(inbound))
  {
    if inbound != [] {
      ServeActsInStep(inbound[..|inbound| - 1]);
    }
  }

  // ---------- every script is that of some connection ----------

  /** The messages of a connection, handled in the registries that `acts` found. */
  function ServedIn(inbound: seq<Inbound>, acts: seq<Act>): seq<Inbound>
    requires |acts| == |ServeActs(inbound)|
  {
    if inbound == [] then []
    else
      var last := inbound[|inbound| - 1];
      var from := |acts| - |ServeAct(last)|;
      ServedIn(inbound[..|inbound| - 1], acts[..from])
        + [if ServeAct(last) == [] then last else last.(at := Moment(acts[from].registry, last.at.now))]
  }

  function BoundIn(slots: seq<BindSlot>, acts: seq<Act>): seq<BindSlot>
    requires |acts| == |slots|
  {
    seq(|slots|, i requires 0 <= i < |slots| =>
      slots[i].(at := Moment(acts[i].registry, slots[i].at.now)))
  }

  /** The connection `c` in the registries that `acts` found in the place of its own. */
  function FoundIn(c: Conversation, acts: seq<Act>): Conversation
    requires |acts| == |Script(c)|
  {
    if !HelloAccepted(c) then c
    else
      var listed := 3;
      var bound := listed + |c.binds|;
      c.(listedAt := Moment(acts[2].registry, c.listedAt.now),
         binds := BoundIn(c.binds, acts[listed..bound]),
         inbound := ServedIn(c.inbound, acts[bound + 1..]))
  }

  /** The same steps, in whatever registries. */
  ghost predicate SameSteps(xs: seq<Act>, ys: seq<Act>) {
    |xs| == |ys| && forall i :: 0 <= i < |xs| ==> xs[i].step == ys[i].step
  }

  lemma SameStepsSplit(front: seq<Act>, back: seq<Act>, x: seq<Act>, y: seq<Act>)
    requires SameSteps(front + back, x + y) && |front| == |x|
    ensures SameSteps(front, x) && SameSteps(back, y)
  {
    forall i | 0 <= i < |front| ensures front[i].step == x[i].step {
      assert (front + back)[i].step == (x + y)[i].step;
    }
    forall i | 0 <= i < |back| ensures back[i].step == y[i].step {
      assert (front + back)[|front| + i].step == (x + y)[|front| + i].step;
    }
  }

  lemma SameActsAppend(a: seq<Act>, b: seq<Act>, x: seq<Act>, y: seq<Act>)
    requires SameActs(a, x) && SameActs(b, y)
    ensures SameActs(a + b, x + y)
  {
  }

  lemma {:induction false} ServedInAlike(inbound: seq<Inbound>, acts: seq<Act>)
    requires SameSteps(acts, ServeActs(inbound))
    ensures SameActs(acts, ServeActs(ServedIn(inbound, acts)))
  {
    if inbound != [] {
      var shorter, last := inbound[..|inbound| - 1], inbound[|inbound| - 1];
      var from := |acts| - |ServeAct(last)|;
      var front, back := acts[..from], acts[from..];
      assert front + back == acts;
      SameStepsSplit(front, back, ServeActs(shorter), ServeAct(last));
      ServedInAlike(shorter, front);
      var served := if back == [] then last else last.(at := Moment(back[0].registry, last.at.now));
      ServedOneAlike(last, back, served);
      ServedInLast(inbound, acts, front, served);
      SameActsAppend(front, back, ServeActs(ServedIn(shorter, front)), ServeAct(served));
    }
  }

  lemma ServedInLast(inbound: seq<Inbound>, acts: seq<Act>, front: seq<Act>, served: Inbound)
    requires inbound != [] && |acts| == |ServeActs(inbound)|
    requires front == acts[..|acts| - |ServeAct(inbound[|inbound| - 1])|]
    requires var last := inbound[|inbound| - 1];
             served == if ServeAct(last) == [] then last
                       else last.(at := Moment(acts[|acts| - |ServeAct(last)|].registry, last.at.now))
    ensures ServeActs(ServedIn(inbound, acts))
         == ServeActs(ServedIn(inbound[..|inbound| - 1], front)) + ServeAct(served)
  {
    var all := ServedIn(inbound, acts);
    assert all[..|all| - 1] == ServedIn(inbound[..|inbound| - 1], front) && all[|all| - 1] == served;
  }

  lemma ServedOneAlike(inbound: Inbound, acts: seq<Act>, served: Inbound)
    requires SameSteps(acts, ServeAct(inbound))
    requires served == if acts == [] then inbound else inbound.(at := Moment(acts[0].registry, inbound.at.now))
    ensures SameActs(acts, ServeAct(served))
  {
  }

  lemma BoundInAlike(slots: seq<BindSlot>, acts: seq<Act>)
    requires SameSteps(acts, BindActs(slots))
    ensures SameActs(acts, BindActs(BoundIn(slots, acts)))
  {
    forall i | 0 <= i < |acts| ensures acts[i].step == BindActs(BoundIn(slots, acts))[i].step {
      assert acts[i].step == BindActs(slots)[i].step;
    }
  }

  /** The greeting, the hello and the listing of a connection that is let in. */
  function OpeningActs(c: Conversation): seq<Act>
    requires HelloAccepted(c)
  {
    [Delivery(c), Act(c.listedAt.registry, Hello(c.first.value.value.hello, c.helloAt)), Listing(c)]
  }

  lemma ScriptInParts(c: Conversation)
    requires HelloAccepted(c)
    ensures Script(c) == OpeningActs(c) + (BindActs(c.binds) + ([Delivery(c)] + ServeActs(c.inbound)))
  {
  }

  lemma CutInFour<T>(s: seq<T>, from: nat, to: nat)
    requires from <= to < |s|
    ensures s == s[..from] + (s[from..to] + ([s[to]] + s[to + 1..]))
  {
  }

  /** Acts that take the steps of a connection, in whatever registries, are the acts of that connection there. */
  lemma FoundInAlike(c: Conversation, acts: seq<Act>)
    requires SameSteps(acts, Script(c))
    ensures SameActs(acts, Script(FoundIn(c, acts)))
  {
    if HelloAccepted(c) {
      FoundInWelcomed(c, acts);
    } else {
      assert forall i :: 0 <= i < |Script(c)| ==> !TakesLock(Script(c)[i].step);
    }
  }

  lemma FoundInWelcomed(c: Conversation, acts: seq<Act>)
    requires HelloAccepted(c) && SameSteps(acts, Script(c))
    ensures SameActs(acts, Script(FoundIn(c, acts)))
  {
    var bound := 3 + |c.binds|;
    ScriptInParts(c);
    CutInFour(acts, 3, bound);
    FoundInPartsAlike(c, acts[..3], acts[3..bound], acts[bound], acts[bound + 1..], FoundIn(c, acts));
  }

  lemma FoundInPartsAlike(c: Conversation, opening: seq<Act>, binding: seq<Act>, delivery: Act, serving: seq<Act>,
                          found: Conversation)
    requires HelloAccepted(c) && |opening| == 3 && |binding| == |c.binds| && |serving| == |ServeActs(c.inbound)|
    requires SameSteps(opening + (binding + ([delivery] + serving)),
                       OpeningActs(c) + (BindActs(c.binds) + ([Delivery(c)] + ServeActs(c.inbound))))
    requires found == c.(listedAt := Moment(opening[2].registry, c.listedAt.now), binds := BoundIn(c.binds, binding),
                         inbound := ServedIn(c.inbound, serving))
    ensures SameActs(opening + (binding + ([delivery] + serving)), Script(found))
  {
    SameStepsSplit(opening, binding + ([delivery] + serving), OpeningActs(c),
                   BindActs(c.binds) + ([Delivery(c)] + ServeActs(c.inbound)));
    SameStepsSplit(binding, [delivery] + serving, BindActs(c.binds), [Delivery(c)] + ServeActs(c.inbound));
    SameStepsSplit([delivery], serving, [Delivery(c)], ServeActs(c.inbound));
    OpeningActsAlike(c, opening, found);
    BoundInAlike(c.binds, binding);
    ServedInAlike(c.inbound, serving);
    assert [delivery][0].step == Drain;
    SameActsAppend([delivery], serving, [Delivery(found)], ServeActs(found.inbound));
    SameActsAppend(binding, [delivery] + serving, BindActs(found.binds), [Delivery(found)] + ServeActs(found.inbound));
    SameActsAppend(opening, binding + ([delivery] + serving), OpeningActs(found),
                   BindActs(found.binds) + ([Delivery(found)] + ServeActs(found.inbound)));
    ScriptInParts(found);
  }

  lemma OpeningActsAlike(c: Conversation, opening: seq<Act>, found: Conversation)
    requires HelloAccepted(c) && HelloAccepted(found) && SameSteps(opening, OpeningActs(c))
    requires found.first == c.first && found.helloAt == c.helloAt && found.listOrder == c.listOrder
    requires found.listedAt == Moment(opening[2].registry, c.listedAt.now)
    ensures SameActs(opening, OpeningActs(found))
  {
    assert OpeningActs(c)[0].step == OpeningActs(found)[0].step;
    assert OpeningActs(c)[1].step == OpeningActs(found)[1].step;
    assert OpeningActs(c)[2].step == OpeningActs(found)[2].step;
  }

  /** A run that goes on with the opening of a connection. */
  function Joined(before: seq<Step>, sid: nat, c: Conversation): seq<Step> {
    before + [Connect(sid, Some(c.identity), c.sessionId, c.openedAt)]
  }

  /** The own steps of the turns are those of the script. */
  ghost predicate TakesTurns(turns: seq<Turn>, script: seq<Act>) {
    |turns| == |script| && forall i :: 0 <= i < |turns| ==> turns[i].own == script[i].step
  }

  /**
   Every connection can be had in every run: whatever has happened before, and whatever others do between
   its turns, a new session that takes the steps of a connection is that connection, in the registries
   that it finds.
   */
  lemma ConnectionCanBeScheduled(policy: RegistrationPolicy, before: seq<Step>, sid: nat, c: Conversation,
                                 turns: seq<Turn>)
    requires sid !in Run(policy, before).endpoints
    requires TakesTurns(turns, Script(c))
    requires forall i :: 0 <= i < |turns| ==> LeavesAlone(turns[i].others, sid)
    ensures var joined := Joined(before, sid, c);
            var steps := joined + Weave(sid, turns);
            var acts := ActsOf(policy, steps, sid);
            && acts == FoundActs(policy, joined, sid, turns)
            && |acts| == |Script(c)|
            && OpeningOf(steps, sid) == Some(Opening(FoundIn(c, acts)))
            && SameActs(acts, Script(FoundIn(c, acts)))
  {
    var joined := Joined(before, sid, c);
    JoinedActs(policy, before, sid, c, turns);
    FoundTakesTurns(policy, joined, sid, turns, Script(c));
    FoundInAlike(c, FoundActs(policy, joined, sid, turns));
  }

  lemma JoinedActs(policy: RegistrationPolicy, before: seq<Step>, sid: nat, c: Conversation, turns: seq<Turn>)
    requires sid !in Run(policy, before).endpoints
    requires forall i :: 0 <= i < |turns| ==> LeavesAlone(turns[i].others, sid)
    ensures var steps := Joined(before, sid, c) + Weave(sid, turns);
            && ActsOf(policy, steps, sid) == FoundActs(policy, Joined(before, sid, c), sid, turns)
            && OpeningOf(steps, sid) == Some(Opening(c))
  {
    var joined := Joined(before, sid, c);
    SessionOpens(policy, before, sid, Connect(sid, Some(c.identity), c.sessionId, c.openedAt));
    WeaveCarriesOutScript(policy, joined, sid, turns);
    OpeningStays(joined, Weave(sid, turns), sid);
    assert [] + FoundActs(policy, joined, sid, turns) == FoundActs(policy, joined, sid, turns);
  }

  lemma FoundTakesTurns(policy: RegistrationPolicy, before: seq<Step>, sid: nat, turns: seq<Turn>, script: seq<Act>)
    requires TakesTurns(turns, script)
    ensures SameSteps(FoundActs(policy, before, sid, turns), script)
  {
    FoundLength(policy, before, sid, turns);
    var acts := FoundActs(policy, before, sid, turns);
    forall i | 0 <= i < |acts| ensures acts[i].step == script[i].step {
      FoundAt(policy, before, sid, turns, i);
    }
  }

  lemma SessionOpens(policy: RegistrationPolicy, before: seq<Step>, sid: nat, connect: Step)
    requires sid !in Run(policy, before).endpoints && connect.Connect? && connect.sid == sid
    ensures sid in Run(policy, before + [connect]).endpoints
    ensures ActsOf(policy, before + [connect], sid) == []
    ensures OpeningOf(before + [connect], sid) == Some(NewEndpoint(connect.identity, connect.sessionId, connect.now))
  {
    RunIsPlay(policy, before, sid);
    assert (before + [connect])[..|before|] == before;
  }

  lemma {:induction false} OpeningStays(steps: seq<Step>, more: seq<Step>, sid: nat)
    requires OpeningOf(steps, sid).Some?
    ensures OpeningOf(steps + more, sid) == OpeningOf(steps, sid)
  {
    if more == [] {
      assert steps + more == steps;
    } else {
      assert (steps + more)[..|steps + more| - 1] == steps + more[..|more| - 1];
      OpeningStays(steps, more[..|more| - 1], sid);
    }
  }

  /**
   The same connection, with the list taken in an order that is possible in the registry found at its
   third turn, has in that run the transcript of its conversation, errors apart, and is gated and
   accounted for. ListsExist gives such an order.
   */
  lemma ScheduledConnectionIsServed(policy: RegistrationPolicy, before: seq<Step>, sid: nat, c: Conversation,
                                    turns: seq<Turn>)
    requires sid !in Run(policy, before).endpoints
    requires TakesTurns(turns, Script(c))
    requires forall i :: 0 <= i < |turns| ==> LeavesAlone(turns[i].others, sid)
    requires HelloAccepted(c) ==>
               var joined := Joined(before, sid, c);
               Enumerates(c.listOrder,
                          ActiveIds(Run(policy, joined + Weave(sid, turns[..2]) + turns[2].others).registry,
                                    c.listedAt.now))
    ensures var steps := Joined(before, sid, c) + Weave(sid, turns);
            && |ActsOf(policy, steps, sid)| == |Script(c)|
            && sid in Run(policy, steps).endpoints
            && var found, e := FoundIn(c, ActsOf(policy, steps, sid)), Run(policy, steps).endpoints[sid];
               && ListingIsPossible(found)
               && Transcript(e) == WithoutErrors(Converse(found).0)
               && SoundEndpoint(e)
  {
    var joined := Joined(before, sid, c);
    var steps := joined + Weave(sid, turns);
    ConnectionCanBeScheduled(policy, before, sid, c, turns);
    var found := FoundIn(c, ActsOf(policy, steps, sid));
    if HelloAccepted(c) {
      FoundAt(policy, joined, sid, turns, 2);
    }
    assert ListingIsPossible(found);
    ConnectionIsSessionOfRun(policy, steps, sid, found);
  }

  /** Every set of targets can be listed. */
  lemma {:induction false} ListsExist(ids: set<string>) returns (order: seq<string>)
    ensures Enumerates(order, ids)
    decreases ids
  {
    if ids == {} {
      order := [];
    } else {
      var id :| id in ids;
      var rest := ListsExist(ids - {id});
      order := rest + [id];
    }
  }
}
