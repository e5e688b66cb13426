/** The connection loop of src/main.rs, driving the session, the shared registry and the target port. */
module Driver {
  import opened Basics
  import opened Commands
  import opened RegistryModel
  import opened IpcClient
  import opened Audit
  import opened SessionModel
  import opened SystemModel
  import opened Registry
  import opened Session
  import opened DriverModel
  import opened Schedule
  import Correspondence

  /** What a target answers when it is bound, and in which state the lock finds the registry then. */
  datatype BindMoment = BindMoment(at: Moment, answers: BindAnswers)

  function Slots(ids: seq<string>, moments: int -> BindMoment): seq<BindSlot> {
    seq(|ids|, i requires 0 <= i < |ids| => BindSlot(ids[i], moments(i).at, moments(i).answers))
  }

  /** Takes the snapshot of active targets under its own lock. */
  method SnapshotActiveTargets(registry: TargetProcessRegistry, snapshot: Moment) returns (ids: seq<string>)
    requires snapshot.registry.policy == registry.policy && InStep(snapshot.registry)
    modifies registry
    ensures Enumerates(ids, ActiveIds(snapshot.registry, snapshot.now))
  {
    registry.Interfere(snapshot.registry);
    var targets := registry.ActiveTargets(snapshot.now);
    ids := IdsOf(targets);
  }

  /** The session and what it has done so far are those of an endpoint. */
  ghost predicate Is(session: DashboardSession, ipc: TargetIpcPort, audit: AuditRecorder, e: Endpoint)
    reads session, ipc, audit
  {
    session.Value() == e.session && ipc.exchanges == e.exchanges && audit.events == e.audit
  }

  lemma BindActsExtend(ids: seq<string>, moments: int -> BindMoment, i: nat)
    requires i < |ids|
    ensures BindActs(Slots(ids[..i + 1], moments)) == BindActs(Slots(ids[..i], moments)) +
              [Act(moments(i).at.registry, Bind(ids[i], moments(i).answers, moments(i).at.now))]
  {
  }

  /** Binds every target of a snapshot; the lock is released between targets. */
  method AutoBindActiveTargets(session: DashboardSession, registry: TargetProcessRegistry, ipc: TargetIpcPort,
                               snapshot: Moment, moments: int -> BindMoment, audit: AuditRecorder, ghost e: Endpoint)
    returns (ids: seq<string>)
    requires snapshot.registry.policy == registry.policy && InStep(snapshot.registry)
    requires forall i :: moments(i).at.registry.policy == registry.policy
    requires Is(session, ipc, audit, e)
    modifies session, registry, ipc
    ensures Enumerates(ids, ActiveIds(snapshot.registry, snapshot.now))
    ensures session.Value() == BindAll(old(session.Value()), Slots(ids, moments))
    ensures Is(session, ipc, audit, Play(e, BindActs(Slots(ids, moments))))
  {
    ids := SnapshotActiveTargets(registry, snapshot);
    assert Slots(ids[..0], moments) == [] && BindActs([]) == [];
    for i := 0 to |ids|
      invariant Is(session, ipc, audit, Play(e, BindActs(Slots(ids[..i], moments))))
    {
      registry.Interfere(moments(i).at.registry);
      BindActsExtend(ids, moments, i);
      PlayOne(e, BindActs(Slots(ids[..i], moments)),
              Act(moments(i).at.registry, Bind(ids[i], moments(i).answers, moments(i).at.now)));
      var _ := session.BindTarget(ids[i], registry, ipc, moments(i).answers, moments(i).at.now);
    }
    assert ids[..|ids|] == ids;
    PlayBinds(e, Slots(ids, moments));
  }

  /**
   Runs one connection. The lists of targets come in whatever order the hash map yields; given the two
   orders, everything that is delivered is determined by the arguments. ConversationIsWellFormed says what that is, and
   ConnectionIsSessionOfRun ties the session, its requests and its audit log to the runs of the relay.
   */
  method RunDashboardSession(
    sessionId: string, identity: RemoteIdentity, openedAt: Instant,
    first: Option<RelayResult<ClientMessage>>, helloAt: Instant,
    listedAt: Moment, snapshot: Moment, moments: int -> BindMoment,
    inbound: seq<Inbound>, ending: RelayResult<()>, registry: TargetProcessRegistry)
    returns (transcript: seq<ServerMessage>, result: RelayResult<()>, session: DashboardSession, ipc: TargetIpcPort,
             audit: AuditRecorder, ghost c: Conversation)
    requires listedAt.registry.policy == registry.policy && InStep(listedAt.registry)
    requires snapshot.registry.policy == registry.policy && InStep(snapshot.registry)
    requires forall i :: moments(i).at.registry.policy == registry.policy
    requires forall i :: 0 <= i < |inbound| ==> inbound[i].at.registry.policy == registry.policy
    modifies registry
    ensures c.sessionId == sessionId && c.identity == identity && c.openedAt == openedAt && c.first == first
         && c.helloAt == helloAt && c.listedAt == listedAt && c.inbound == inbound && c.ending == ending
    ensures HelloAccepted(c) ==> Enumerates(SnapshotIds(c), ActiveIds(snapshot.registry, snapshot.now))
    ensures HelloAccepted(c) ==> c.binds == Slots(SnapshotIds(c), moments)
    ensures ListingIsPossible(c) && (transcript, result) == Converse(c)
    ensures fresh(session) && fresh(ipc) && fresh(audit)
    ensures Is(session, ipc, audit, Play(Opening(c), Script(c)))
  {
    session := new DashboardSession.ServerHello(sessionId, identity, openedAt);
    ipc := new TargetIpcPort();
    audit := new AuditRecorder();
    transcript := session.DrainOutbox();
    c := Conversation(sessionId, identity, openedAt, first, helloAt, listedAt, [], [], inbound, ending);
    PlayGreeting(c);
    result := Ok(());
    if first.None? {
      result := Err(HelloRequired());
      return;
    }
    if first.value.Err? {
      result := Err(first.value.error);
      return;
    }
    if !first.value.value.HelloMessage? {
      transcript := transcript + [ErrorReport(HelloMustBeFirst())];
      return;
    }
    ghost var greeted := [Delivery(c)] + [Act(listedAt.registry, Hello(first.value.value.hello, helloAt))];
    PlayOne(Opening(c), [Delivery(c)], Act(listedAt.registry, Hello(first.value.value.hello, helloAt)));
    var accepted := session.AcceptClientHello(first.value.value.hello, helloAt);
    if accepted.Err? {
      result := accepted;
      return;
    }
    var delivered, ids, order := RunEstablishedSession(session, registry, ipc, audit, listedAt, snapshot, moments,
                                                       inbound, Play(Opening(c), greeted));
    c := c.(listOrder := order, binds := Slots(ids, moments));
    assert SnapshotIds(c) == ids;
    ConverseWelcomed(c);
    ScriptWelcomed(c);
    PlayAppend(Opening(c), greeted, WelcomeActs(listedAt, order, Slots(ids, moments)) + ServeActs(inbound));
    transcript := transcript + delivered;
    result := ending;
  }

  lemma ScriptWelcomed(c: Conversation)
    requires HelloAccepted(c)
    ensures Script(c) == [Delivery(c)] + [Act(c.listedAt.registry, Hello(c.first.value.value.hello, c.helloAt))]
                         + (WelcomeActs(c.listedAt, c.listOrder, c.binds) + ServeActs(c.inbound))
  {
  }

  /** What follows an accepted hello: everything delivered from then on. */
  method RunEstablishedSession(session: DashboardSession, registry: TargetProcessRegistry, ipc: TargetIpcPort,
                               audit: AuditRecorder, listedAt: Moment, snapshot: Moment, moments: int -> BindMoment,
                               inbound: seq<Inbound>, ghost e: Endpoint)
    returns (delivered: seq<ServerMessage>, ids: seq<string>, order: seq<string>)
    requires listedAt.registry.policy == registry.policy && InStep(listedAt.registry)
    requires snapshot.registry.policy == registry.policy && InStep(snapshot.registry)
    requires forall i :: moments(i).at.registry.policy == registry.policy
    requires forall i :: 0 <= i < |inbound| ==> inbound[i].at.registry.policy == registry.policy
    requires Is(session, ipc, audit, e)
    modifies session, registry, ipc, audit
    ensures Enumerates(order, ActiveIds(listedAt.registry, listedAt.now))
    ensures Enumerates(ids, ActiveIds(snapshot.registry, snapshot.now))
    ensures var bound := BindAll(Push(e.session, [TargetList(VisibleTargets(listedAt.registry, order))]),
                                 Slots(ids, moments));
            delivered == bound.outbox + ServeAll(bound.(outbox := []), inbound).1
    ensures Is(session, ipc, audit,
               Play(e, WelcomeActs(listedAt, order, Slots(ids, moments)) + ServeActs(inbound)))
  {
    var opening;
    opening, ids, order := WelcomeClient(session, registry, ipc, audit, listedAt, snapshot, moments, e);
    ghost var welcome := WelcomeActs(listedAt, order, Slots(ids, moments));
    var replies := ServeMessages(session, inbound, registry, ipc, audit, Play(e, welcome));
    PlayAppend(e, welcome, ServeActs(inbound));
    delivered := opening + replies;
  }

  /** Publishing the list, binding the snapshot and delivering what that produced. */
  function WelcomeActs(listedAt: Moment, order: seq<string>, slots: seq<BindSlot>): seq<Act> {
    [Act(listedAt.registry, PublishTargets(order, listedAt.now))] + BindActs(slots) + [Act(listedAt.registry, Drain)]
  }

  lemma PlayListing(e: Endpoint, listedAt: Moment, order: seq<string>)
    requires Enumerates(order, ActiveIds(listedAt.registry, listedAt.now))
    ensures Play(e, [Act(listedAt.registry, PublishTargets(order, listedAt.now))])
         == e.(session := Push(e.session, [TargetList(VisibleTargets(listedAt.registry, order))]))
  {
    var listing := Act(listedAt.registry, PublishTargets(order, listedAt.now));
    PlayOne(e, [], listing);
    assert [] + [listing] == [listing];
  }

  lemma PlayWelcomeActs(e: Endpoint, listedAt: Moment, order: seq<string>, slots: seq<BindSlot>)
    ensures var bound := Play(Play(e, [Act(listedAt.registry, PublishTargets(order, listedAt.now))]), BindActs(slots));
            Play(e, WelcomeActs(listedAt, order, slots))
              == bound.(session := bound.session.(outbox := []), sent := bound.sent + bound.session.outbox)
  {
    var listing := [Act(listedAt.registry, PublishTargets(order, listedAt.now))];
    PlayAppend(e, listing, BindActs(slots));
    PlayOne(e, listing + BindActs(slots), Act(listedAt.registry, Drain));
  }

  /** What follows an accepted hello, up to the first delivery. */
  method WelcomeClient(session: DashboardSession, registry: TargetProcessRegistry, ipc: TargetIpcPort,
                       audit: AuditRecorder, listedAt: Moment, snapshot: Moment, moments: int -> BindMoment,
                       ghost e: Endpoint)
    returns (opening: seq<ServerMessage>, ids: seq<string>, order: seq<string>)
    requires listedAt.registry.policy == registry.policy && InStep(listedAt.registry)
    requires snapshot.registry.policy == registry.policy && InStep(snapshot.registry)
    requires forall i :: moments(i).at.registry.policy == registry.policy
    requires Is(session, ipc, audit, e)
    modifies session, registry, ipc
    ensures Enumerates(order, ActiveIds(listedAt.registry, listedAt.now))
    ensures Enumerates(ids, ActiveIds(snapshot.registry, snapshot.now))
    ensures var bound := BindAll(Push(e.session, [TargetList(VisibleTargets(listedAt.registry, order))]),
                                 Slots(ids, moments));
            session.Value() == bound.(outbox := []) && opening == bound.outbox
    ensures Is(session, ipc, audit, Play(e, WelcomeActs(listedAt, order, Slots(ids, moments))))
  {
    registry.Interfere(listedAt.registry);
    var targets := registry.ActiveTargets(listedAt.now);
    order := IdsOf(targets);
    session.PublishTargetList(targets);
    ghost var listed := Play(e, [Act(listedAt.registry, PublishTargets(order, listedAt.now))]);
    PlayListing(e, listedAt, order);
    ids := AutoBindActiveTargets(session, registry, ipc, snapshot, moments, audit, listed);
    PlayWelcomeActs(e, listedAt, order, Slots(ids, moments));
    opening := session.DrainOutbox();
  }

  lemma ServeActsExtend(inbound: seq<Inbound>, i: nat)
    requires i < |inbound|
    ensures inbound[..i + 1][..i] == inbound[..i]
    ensures ServeActs(inbound[..i + 1]) == ServeActs(inbound[..i]) + ServeAct(inbound[i])
  {
    assert inbound[..i + 1][..i] == inbound[..i];
  }

  lemma PlayTwoFromStart(e: Endpoint, first: Act, second: Act)
    ensures Play(e, [first, second]) ==
              ActOnSession(second.registry, ActOnSession(first.registry, e, first.step).endpoint, second.step).endpoint
  {
    PlayTwo(e, [], first, second);
    assert [] + [first, second] == [first, second];
  }

  /** Handles one command and returns what is delivered for it: its error, if any, and then the outbox. */
  method ServeCommand(session: DashboardSession, command: ClientCommand, at: Moment, answers: CommandAnswers,
                      registry: TargetProcessRegistry, ipc: TargetIpcPort, audit: AuditRecorder, ghost e: Endpoint)
    returns (reply: seq<ServerMessage>)
    requires Is(session, ipc, audit, e) && at.registry.policy == registry.policy
    modifies session, registry, ipc, audit
    ensures (session.Value(), reply) == Serve(e.session, Inbound(Ok(CommandMessage(command)), at, answers))
    ensures Is(session, ipc, audit,
               Play(e, [Act(at.registry, Command(command, answers, at.now)), Act(at.registry, Drain)]))
  {
    PlayTwoFromStart(e, Act(at.registry, Command(command, answers, at.now)), Act(at.registry, Drain));
    registry.Interfere(at.registry);
    var handled := session.HandleCommand(command, registry, ipc, audit, answers, at.now);
    var report := if handled.Err? then [ErrorReport(handled.error)] else [];
    var pushed := session.DrainOutbox();
    reply := report + pushed;
  }

  /** Handles one message and returns what is delivered for it. */
  method ServeMessage(session: DashboardSession, inbound: Inbound, registry: TargetProcessRegistry, ipc: TargetIpcPort,
                      audit: AuditRecorder, ghost e: Endpoint)
    returns (reply: seq<ServerMessage>)
    requires session.outbox == [] && Is(session, ipc, audit, e)
    requires inbound.at.registry.policy == registry.policy
    modifies session, registry, ipc, audit
    ensures (session.Value(), reply) == Serve(old(session.Value()), inbound)
    ensures session.outbox == []
    ensures Is(session, ipc, audit, Play(e, ServeAct(inbound)))
  {
    match inbound.message {
      case Ok(CommandMessage(command)) =>
        reply := ServeCommand(session, command, inbound.at, inbound.answers, registry, ipc, audit, e);
      case Ok(LogEventFilterConditions) => reply := [];
      case Ok(HelloMessage(_)) => reply := [ErrorReport(HelloOnlyFirst())];
      case Err(error) => reply := [ErrorReport(error)];
    }
  }

  /** The message loop: reads one message at a time and delivers its reply before the next. */
  method ServeMessages(session: DashboardSession, inbound: seq<Inbound>, registry: TargetProcessRegistry,
                       ipc: TargetIpcPort, audit: AuditRecorder, ghost e: Endpoint)
    returns (delivered: seq<ServerMessage>)
    requires session.outbox == [] && Is(session, ipc, audit, e)
    requires forall i :: 0 <= i < |inbound| ==> inbound[i].at.registry.policy == registry.policy
    modifies session, registry, ipc, audit
    ensures (session.Value(), delivered) == ServeAll(old(session.Value()), inbound)
    ensures session.outbox == [] && Replies(delivered, inbound, Correspondence.Who(e.session).principal)
    ensures Is(session, ipc, audit, Play(e, ServeActs(inbound)))
  {
    delivered := [];
    for i := 0 to |inbound|
      invariant (session.Value(), delivered) == ServeAll(e.session, inbound[..i])
      invariant session.outbox == []
      invariant Is(session, ipc, audit, Play(e, ServeActs(inbound[..i])))
    {
      ServeActsExtend(inbound, i);
      PlayAppend(e, ServeActs(inbound[..i]), ServeAct(inbound[i]));
      var reply := ServeMessage(session, inbound[i], registry, ipc, audit, Play(e, ServeActs(inbound[..i])));
      delivered := delivered + reply;
    }
    assert inbound[..|inbound|] == inbound;
    ServeAllReplies(e.session, inbound, Correspondence.Who(e.session).principal);
  }
}
