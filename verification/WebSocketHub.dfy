/** All WebSocket handler loops together with the two maps they share. A loop joins
    the connection map when it is authenticated; when it breaks it first removes its
    user's entry, then its user's transfers, then it is gone. */
module WebSocketHub {
  import opened Prelude
  import opened CM = ConnectionManager
  import FileRelay

  datatype Phase = Looping | Leaving | Unregistered | Gone

  datatype Loop = Loop(user: User, channel: Channel, phase: Phase)

  /** Who made a channel: the user it serves and the loop whose registration made it. */
  datatype Origin = Origin(user: User, conn: Conn)

  /** `origin` and `announcer` are history: where a channel came from, and which loop
      announced a transfer. */
  datatype Hub = Hub(manager: State, transfers: FileRelay.Table, loops: map<Conn, Loop>,
                     origin: map<Channel, Origin>, announcer: map<FileRelay.TransferId, Conn>)

  const START := Hub(EMPTY, map[], map[], map[], map[])

  datatype Step =
    | Connect(conn: Conn, user: User)
    | Break(conn: Conn)
    | Unregister(conn: Conn)
    | Forget(conn: Conn)
    | DeleteAccount(user: User)
    | Announce(conn: Conn, id: FileRelay.TransferId, at: Instant)
    | CleanTransfers(at: Instant)

  predicate InPhase(hub: Hub, conn: Conn, phase: Phase) {
    conn in hub.loops && hub.loops[conn].phase == phase
  }

  predicate Enabled(hub: Hub, step: Step) {
    match step
    case Connect(conn, _) => conn !in hub.loops
    case Break(conn) => InPhase(hub, conn, Looping)
    case Unregister(conn) => InPhase(hub, conn, Leaving)
    case Forget(conn) => InPhase(hub, conn, Unregistered)
    case DeleteAccount(_) => true
    case Announce(conn, _, _) => InPhase(hub, conn, Looping)
    case CleanTransfers(_) => true
  }

  type Loops = map<Conn, Loop>
  type Origins = map<Channel, Origin>
  type Announcers = map<FileRelay.TransferId, Conn>

  function Moved(loops: Loops, conn: Conn, phase: Phase): Loops
    requires conn in loops
  {
    loops[conn := loops[conn].(phase := phase)]
  }

  function Connected(hub: Hub, conn: Conn, user: User): Hub {
    var channel := ChannelFor(hub.manager, user);
    var origin := if user in hub.manager.channels then hub.origin else hub.origin[channel := Origin(user, conn)];
    Hub(Registering(hub.manager, user, conn), hub.transfers,
        hub.loops[conn := Loop(user, channel, Looping)], origin, hub.announcer)
  }

  function Left(hub: Hub, conn: Conn): Hub
    requires conn in hub.loops
  {
    hub.(manager := Unregistering(hub.manager, hub.loops[conn].user), loops := Moved(hub.loops, conn, Unregistered))
  }

  function Forgotten(hub: Hub, conn: Conn): Hub
    requires conn in hub.loops
  {
    var Loop(user, channel, _) := hub.loops[conn];
    Hub(Dropping(hub.manager, channel, conn), FileRelay.WithoutSender(hub.transfers, user),
        Moved(hub.loops, conn, Gone), hub.origin, hub.announcer)
  }

  function Next(hub: Hub, step: Step): Hub
    requires Enabled(hub, step)
  {
    match step
    case Connect(conn, user) => Connected(hub, conn, user)
    case Break(conn) => hub.(loops := Moved(hub.loops, conn, Leaving))
    case Unregister(conn) => Left(hub, conn)
    case Forget(conn) => Forgotten(hub, conn)
    case DeleteAccount(user) => hub.(manager := Unregistering(hub.manager, user))
    case Announce(conn, id, at) =>
      hub.(transfers := hub.transfers[id := FileRelay.Entry(hub.loops[conn].user, at)],
           announcer := hub.announcer[id := conn])
    case CleanTransfers(at) => hub.(transfers := FileRelay.Unexpired(hub.transfers, at))
  }

  ghost predicate Leads(hub: Hub, step: Step, hub': Hub) {
    Enabled(hub, step) && hub' == Next(hub, step)
  }

  ghost predicate Behaviour(hubs: seq<Hub>, steps: seq<Step>) {
    && |hubs| == |steps| + 1
    && hubs[0] == START
    && forall i | 0 <= i < |steps| :: Leads(hubs[i], steps[i], hubs[i + 1])
  }

  // ---------------------------------------------------------------------------
  // What every step keeps
  // ---------------------------------------------------------------------------

  /** The loop that created an entry's channel has not yet unregistered. */
  ghost predicate EntriesCreated(channels: map<User, Channel>, origin: Origins, loops: Loops) {
    forall user | user in channels ::
      && channels[user] in origin && origin[channels[user]].user == user && origin[channels[user]].conn in loops
      && var loop := loops[origin[channels[user]].conn];
         loop.user == user && loop.channel == channels[user] && (loop.phase == Looping || loop.phase == Leaving)
  }

  /** A channel serves one user, and belongs to the past of the channel counter. */
  ghost predicate ChannelsOwned(nextChannel: Channel, origin: Origins, loops: Loops) {
    && (forall channel | channel in origin :: channel < nextChannel)
    && (forall conn | conn in loops ::
          loops[conn].channel in origin && origin[loops[conn].channel].user == loops[conn].user)
  }

  /** Receivers are held by exactly the loops that are not gone. */
  ghost predicate ReceiversHeld(subscribers: Subscribers, loops: Loops) {
    && (forall conn | conn in loops && loops[conn].phase != Gone ::
          conn in SubscribersOf(subscribers, loops[conn].channel))
    && (forall channel, conn | conn in SubscribersOf(subscribers, channel) ::
          conn in loops && loops[conn].channel == channel && loops[conn].phase != Gone)
  }

  /** The loop that announced a stored transfer has not finished its exit cleanup. */
  ghost predicate TransfersAnnounced(transfers: FileRelay.Table, announcer: Announcers, loops: Loops) {
    forall id | id in transfers ::
      && id in announcer && announcer[id] in loops
      && loops[announcer[id]].user == transfers[id].sender && loops[announcer[id]].phase != Gone
  }

  ghost predicate Sound(hub: Hub) {
    && EntriesCreated(hub.manager.channels, hub.origin, hub.loops)
    && ChannelsOwned(hub.manager.nextChannel, hub.origin, hub.loops)
    && ReceiversHeld(hub.manager.subscribers, hub.loops)
    && TransfersAnnounced(hub.transfers, hub.announcer, hub.loops)
  }

  // A loop that changes phase.

  lemma {:induction false} EntriesMoved(channels: map<User, Channel>, origin: Origins, loops: Loops, conn: Conn,
                                        phase: Phase)
    requires EntriesCreated(channels, origin, loops) && conn in loops
    requires phase == Leaving || loops[conn].user !in channels
    ensures EntriesCreated(channels, origin, Moved(loops, conn, phase))
  {
  }

  lemma {:induction false} ChannelsMoved(nextChannel: Channel, origin: Origins, loops: Loops, conn: Conn, phase: Phase)
    requires ChannelsOwned(nextChannel, origin, loops) && conn in loops
    ensures ChannelsOwned(nextChannel, origin, Moved(loops, conn, phase))
  {
  }

  lemma {:induction false} ReceiversMoved(subscribers: Subscribers, loops: Loops, conn: Conn, phase: Phase)
    requires ReceiversHeld(subscribers, loops) && conn in loops && loops[conn].phase != Gone && phase != Gone
    ensures ReceiversHeld(subscribers, Moved(loops, conn, phase))
  {
  }

  lemma {:induction false} TransfersMoved(transfers: FileRelay.Table, announcer: Announcers, loops: Loops, conn: Conn,
                                          phase: Phase)
    requires TransfersAnnounced(transfers, announcer, loops) && conn in loops
    requires phase != Gone || forall id | id in transfers :: transfers[id].sender != loops[conn].user
    ensures TransfersAnnounced(transfers, announcer, Moved(loops, conn, phase))
  {
  }

  lemma {:induction false} EntryRemoved(channels: map<User, Channel>, origin: Origins, loops: Loops, user: User)
    requires EntriesCreated(channels, origin, loops)
    ensures EntriesCreated(channels - {user}, origin, loops)
  {
  }

  lemma {:induction false} ReceiverDropped(manager: State, loops: Loops, conn: Conn)
    requires ReceiversHeld(manager.subscribers, loops) && conn in loops
    ensures ReceiversHeld(Dropping(manager, loops[conn].channel, conn).subscribers, Moved(loops, conn, Gone))
  {
    var subscribers := Dropping(manager, loops[conn].channel, conn).subscribers;
    assert forall ch | ch != loops[conn].channel ::
        SubscribersOf(subscribers, ch) == SubscribersOf(manager.subscribers, ch);
  }

  // A loop that joins.

  lemma {:induction false} EntriesJoined(hub: Hub, conn: Conn, user: User)
    requires EntriesCreated(hub.manager.channels, hub.origin, hub.loops) && conn !in hub.loops
    requires ChannelsOwned(hub.manager.nextChannel, hub.origin, hub.loops)
    ensures var hub' := Connected(hub, conn, user);
            EntriesCreated(hub'.manager.channels, hub'.origin, hub'.loops)
  {
  }

  lemma {:induction false} ChannelsJoined(hub: Hub, conn: Conn, user: User)
    requires EntriesCreated(hub.manager.channels, hub.origin, hub.loops) && conn !in hub.loops
    requires ChannelsOwned(hub.manager.nextChannel, hub.origin, hub.loops)
    ensures var hub' := Connected(hub, conn, user);
            ChannelsOwned(hub'.manager.nextChannel, hub'.origin, hub'.loops)
  {
  }

  lemma {:induction false} ReceiversJoined(manager: State, loops: Loops, conn: Conn, user: User)
    requires ReceiversHeld(manager.subscribers, loops) && conn !in loops
    requires forall c | c in loops :: loops[c].channel < manager.nextChannel
    ensures ReceiversHeld(Registering(manager, user, conn).subscribers,
                          loops[conn := Loop(user, ChannelFor(manager, user), Looping)])
  {
    var subscribers := Registering(manager, user, conn).subscribers;
    assert forall ch | ch != ChannelFor(manager, user) ::
             SubscribersOf(subscribers, ch) == SubscribersOf(manager.subscribers, ch);
  }

  lemma {:induction false} ConnectKeepsSound(hub: Hub, conn: Conn, user: User)
    requires Sound(hub) && conn !in hub.loops
    ensures Sound(Connected(hub, conn, user))
  {
    EntriesJoined(hub, conn, user);
    ChannelsJoined(hub, conn, user);
    assert forall c | c in hub.loops :: hub.loops[c].channel < hub.manager.nextChannel;
    ReceiversJoined(hub.manager, hub.loops, conn, user);
  }

  lemma {:induction false} UnregisterKeepsSound(hub: Hub, conn: Conn)
    requires Sound(hub) && InPhase(hub, conn, Leaving)
    ensures Sound(Left(hub, conn))
  {
    var user := hub.loops[conn].user;
    EntryRemoved(hub.manager.channels, hub.origin, hub.loops, user);
    EntriesMoved(hub.manager.channels - {user}, hub.origin, hub.loops, conn, Unregistered);
    ChannelsMoved(hub.manager.nextChannel, hub.origin, hub.loops, conn, Unregistered);
    ReceiversMoved(hub.manager.subscribers, hub.loops, conn, Unregistered);
    TransfersMoved(hub.transfers, hub.announcer, hub.loops, conn, Unregistered);
  }

  /** No entry is left of a loop that has unregistered, whoever removed it. */
  lemma {:induction false} ForgetKeepsSound(hub: Hub, conn: Conn)
    requires Sound(hub) && InPhase(hub, conn, Unregistered)
    ensures Sound(Forgotten(hub, conn))
  {
    assert forall user | user in hub.manager.channels :: hub.origin[hub.manager.channels[user]].conn != conn;
    ChannelsMoved(hub.manager.nextChannel, hub.origin, hub.loops, conn, Gone);
    ReceiverDropped(hub.manager, hub.loops, conn);
    var transfers := FileRelay.WithoutSender(hub.transfers, hub.loops[conn].user);
    TransfersMoved(transfers, hub.announcer, hub.loops, conn, Gone);
  }

  lemma {:induction false} BreakKeepsSound(hub: Hub, conn: Conn)
    requires Sound(hub) && InPhase(hub, conn, Looping)
    ensures Sound(hub.(loops := Moved(hub.loops, conn, Leaving)))
  {
    EntriesMoved(hub.manager.channels, hub.origin, hub.loops, conn, Leaving);
    ChannelsMoved(hub.manager.nextChannel, hub.origin, hub.loops, conn, Leaving);
    ReceiversMoved(hub.manager.subscribers, hub.loops, conn, Leaving);
    TransfersMoved(hub.transfers, hub.announcer, hub.loops, conn, Leaving);
  }

  lemma {:induction false} StepKeepsSound(hub: Hub, step: Step)
    requires Sound(hub) && Enabled(hub, step)
    ensures Sound(Next(hub, step))
  {
    match step {
      case Connect(conn, user) => ConnectKeepsSound(hub, conn, user);
      case Break(conn) => BreakKeepsSound(hub, conn);
      case Unregister(conn) => UnregisterKeepsSound(hub, conn);
      case Forget(conn) => ForgetKeepsSound(hub, conn);
      case DeleteAccount(user) => EntryRemoved(hub.manager.channels, hub.origin, hub.loops, user);
      case Announce(_, _, _) =>
      case CleanTransfers(_) =>
    }
  }

  lemma {:induction false} RunKeepsSound(hubs: seq<Hub>, steps: seq<Step>, i: nat)
    requires Behaviour(hubs, steps) && i < |hubs|
    ensures Sound(hubs[i])
  {
    if i == 0 {
      assert hubs[0] == START;
    } else {
      RunKeepsSound(hubs, steps, i - 1);
      assert Leads(hubs[i - 1], steps[i - 1], hubs[i - 1 + 1]);
      StepKeepsSound(hubs[i - 1], steps[i - 1]);
    }
  }

  // ---------------------------------------------------------------------------
  // What a reader of the maps may rely on
  // ---------------------------------------------------------------------------

  /** A channel is open while the map holds its sender. */
  ghost predicate Open(hub: Hub, channel: Channel) {
    exists user :: user in hub.manager.channels && hub.manager.channels[user] == channel
  }

  /** In every reachable state a broadcast to a user is accepted exactly when the user is
      reported connected: no entry outlives its receivers. */
  lemma {:induction false} SentIffConnected(hubs: seq<Hub>, steps: seq<Step>, i: nat, user: User)
    requires Behaviour(hubs, steps) && i < |hubs|
    ensures Accepts(hubs[i].manager, user) <==> user in hubs[i].manager.channels
  {
    RunKeepsSound(hubs, steps, i);
    var hub := hubs[i];
    if user in hub.manager.channels {
      var conn := hub.origin[hub.manager.channels[user]].conn;
      assert conn in SubscribersOf(hub.manager.subscribers, hub.loops[conn].channel);
    }
  }

  /** In every reachable state a loop that still owns a receiver owns one of its user's
      channel of the map, or one of a channel whose sender is gone. */
  lemma {:induction false} LoopsSubscribed(hubs: seq<Hub>, steps: seq<Step>, i: nat, conn: Conn)
    requires Behaviour(hubs, steps) && i < |hubs|
    requires conn in hubs[i].loops && hubs[i].loops[conn].phase != Gone
    ensures var hub := hubs[i];
            var loop := hub.loops[conn];
            && conn in SubscribersOf(hub.manager.subscribers, loop.channel)
            && (Open(hub, loop.channel) <==>
                  loop.user in hub.manager.channels && hub.manager.channels[loop.user] == loop.channel)
  {
    RunKeepsSound(hubs, steps, i);
    var hub := hubs[i];
    var loop := hub.loops[conn];
    if Open(hub, loop.channel) {
      var user :| user in hub.manager.channels && hub.manager.channels[user] == loop.channel;
      assert hub.origin[loop.channel].user == user;
    }
  }

  /** Step `k` is the last announcement of `id` before state `i`. */
  ghost predicate LastAnnounced(steps: seq<Step>, i: nat, k: nat, id: FileRelay.TransferId)
    requires i <= |steps|
  {
    && k < i && steps[k].Announce? && steps[k].id == id
    && forall j | k < j < i :: !(steps[j].Announce? && steps[j].id == id)
  }

  /** The history remembers who announced what last, and when. */
  lemma {:induction false} AnnouncerExactly(hubs: seq<Hub>, steps: seq<Step>, i: nat, id: FileRelay.TransferId)
    returns (k: nat)
    requires Behaviour(hubs, steps) && i < |hubs| && id in hubs[i].announcer
    ensures LastAnnounced(steps, i, k, id) && steps[k].conn == hubs[i].announcer[id]
    ensures id in hubs[i].transfers ==> hubs[i].transfers[id].insertedAt == steps[k].at
  {
    assert Leads(hubs[i - 1], steps[i - 1], hubs[i - 1 + 1]);
    if steps[i - 1].Announce? && steps[i - 1].id == id {
      k := i - 1;
    } else {
      k := AnnouncerExactly(hubs, steps, i - 1, id);
    }
  }

  /** In every reachable state a stored transfer is the one last announced under its id,
      and the very loop that announced it, one of its sender's, has not finished its
      exit cleanup. */
  lemma {:induction false} TransfersHaveLoops(hubs: seq<Hub>, steps: seq<Step>, i: nat, id: FileRelay.TransferId)
    returns (k: nat)
    requires Behaviour(hubs, steps) && i < |hubs| && id in hubs[i].transfers
    ensures LastAnnounced(steps, i, k, id) && hubs[i].transfers[id].insertedAt == steps[k].at
    ensures var conn := steps[k].conn;
            && conn in hubs[i].loops && hubs[i].loops[conn].phase != Gone
            && hubs[i].loops[conn].user == hubs[i].transfers[id].sender
  {
    RunKeepsSound(hubs, steps, i);
    k := AnnouncerExactly(hubs, steps, i, id);
  }

  /** A channel that has lost its sender never gets one again: the loops left on it can
      only end. */
  lemma {:induction false} ClosedForever(hubs: seq<Hub>, steps: seq<Step>, i: nat, j: nat, channel: Channel)
    requires Behaviour(hubs, steps) && i <= j < |hubs|
    requires channel < hubs[i].manager.nextChannel && !Open(hubs[i], channel)
    ensures channel < hubs[j].manager.nextChannel && !Open(hubs[j], channel)
  {
    if i < j {
      ClosedForever(hubs, steps, i, j - 1, channel);
      assert Leads(hubs[j - 1], steps[j - 1], hubs[j - 1 + 1]);
      assert forall user | user in hubs[j].manager.channels ::
          hubs[j].manager.channels[user] == channel ==>
            user in hubs[j - 1].manager.channels && hubs[j - 1].manager.channels[user] == channel;
    }
  }

  // ---------------------------------------------------------------------------
  // Connected is not the same as having a connection
  // ---------------------------------------------------------------------------

  predicate Removes(hub: Hub, step: Step, user: User) {
    || step == DeleteAccount(user)
    || (step.Unregister? && step.conn in hub.loops && hub.loops[step.conn].user == user)
  }

  /** Step `k` connected the user, and no later step before `i` removed the entry. */
  ghost predicate ConnectionStands(hubs: seq<Hub>, steps: seq<Step>, i: nat, k: nat, user: User)
    requires |hubs| == |steps| + 1 && i < |hubs|
  {
    && k < i && steps[k].Connect? && steps[k].user == user
    && forall j | k < j < i :: !Removes(hubs[j], steps[j], user)
  }

  lemma {:induction false} ConnectedStands(hubs: seq<Hub>, steps: seq<Step>, i: nat, user: User) returns (k: nat)
    requires Behaviour(hubs, steps) && i < |hubs| && user in hubs[i].manager.channels
    ensures ConnectionStands(hubs, steps, i, k, user)
  {
    var step := steps[i - 1];
    assert Leads(hubs[i - 1], step, hubs[i - 1 + 1]);
    if step.Connect? && step.user == user {
      k := i - 1;
    } else {
      k := ConnectedStands(hubs, steps, i - 1, user);
    }
  }

  lemma {:induction false} StandsConnected(hubs: seq<Hub>, steps: seq<Step>, i: nat, k: nat, user: User)
    requires Behaviour(hubs, steps) && i < |hubs| && ConnectionStands(hubs, steps, i, k, user)
    ensures user in hubs[i].manager.channels
  {
    assert Leads(hubs[i - 1], steps[i - 1], hubs[i - 1 + 1]);
    if k < i - 1 {
      StandsConnected(hubs, steps, i - 1, k, user);
    }
  }

  /** A user is connected exactly when somebody connected as that user and, since then,
      no loop of that user, its own or another, unregistered and the account was not deleted. */
  lemma {:induction false} ConnectedExactly(hubs: seq<Hub>, steps: seq<Step>, i: nat, user: User)
    requires Behaviour(hubs, steps) && i < |hubs|
    ensures user in hubs[i].manager.channels <==> exists k :: ConnectionStands(hubs, steps, i, k, user)
  {
    if user in hubs[i].manager.channels {
      var k := ConnectedStands(hubs, steps, i, user);
    }
    if k :| ConnectionStands(hubs, steps, i, k, user) {
      StandsConnected(hubs, steps, i, k, user);
    }
  }

  /** Two connections of one user, the first of which ends. */
  function FirstOfTwoEnds(user: User): seq<Step> {
    [Connect(1, user), Connect(2, user), Break(1), Unregister(1)]
  }

  /** Having a running loop does not make a user connected: here the second loop still
      runs, yet the user is reported offline and cannot be reached. */
  lemma {:induction false} RunningButOffline(user: User) returns (hubs: seq<Hub>)
    ensures Behaviour(hubs, FirstOfTwoEnds(user))
    ensures InPhase(hubs[4], 2, Looping) && hubs[4].loops[2].user == user
    ensures user !in hubs[4].manager.channels && !Accepts(hubs[4].manager, user)
  {
    var steps := FirstOfTwoEnds(user);
    var h1 := Next(START, steps[0]);
    var h2 := Next(h1, steps[1]);
    var h3 := Next(h2, steps[2]);
    var h4 := Next(h3, steps[3]);
    hubs := [START, h1, h2, h3, h4];
    assert Leads(START, steps[0], h1) && Leads(h1, steps[1], h2) && Leads(h2, steps[2], h3) && Leads(h3, steps[3], h4);
  }
}
