/** One WebSocket connection from authentication to exit, run on its own. */
module WebSocketHandler {
  import opened Prelude
  import CM = ConnectionManager
  import FR = FileRelay

  const USER_HASH_SIZE: nat := 32

  /** What the loop selects next. `sent` is whether writing to the socket succeeded. */
  datatype Event =
    | FileAvailable(rawId: Bytes, at: Instant, sent: bool)
    | CheckOnline(target: Bytes, sent: bool)
    | OtherRequest(sent: bool)
    | Ping(sent: bool)
    | OtherFrame
    | SocketClosed
    | Notification(sent: bool)
    | Lagged
    | ChannelClosed

  predicate Breaks(event: Event) {
    match event
    case FileAvailable(_, _, sent) => !sent
    case CheckOnline(_, sent) => !sent
    case OtherRequest(sent) => !sent
    case Ping(sent) => !sent
    case OtherFrame => false
    case SocketClosed => true
    case Notification(sent) => !sent
    case Lagged => false
    case ChannelClosed => true
  }

  /** The user of a first frame: 32 bytes of hash followed by a session token that `verify` accepts. */
  function Authenticated(frame: Option<Bytes>, verify: (Bytes, Bytes) -> bool): (user: Option<Bytes>)
    ensures user.Some? <==> frame.Some? && |frame.value| > 32 && verify(frame.value[32..], frame.value[..32])
    ensures user.Some? ==> user.value == frame.value[..32]
  {
    if frame == None || |frame.value| <= USER_HASH_SIZE then None
    else
      var user := frame.value[..USER_HASH_SIZE];
      if verify(frame.value[USER_HASH_SIZE..], user) then Some(user) else None
  }

  /** The transfers announced before the loop breaks. */
  function Announced(events: seq<Event>): set<FR.TransferId> {
    if events == [] then {}
    else AnnouncedBy(events[0]) + if Breaks(events[0]) then {} else Announced(events[1..])
  }

  function AnnouncedBy(event: Event): set<FR.TransferId> {
    var id := if event.FileAvailable? then FR.ParseTransferId(event.rawId) else None;
    if id.Some? then {id.value} else {}
  }

  /** What the online checks are answered before the loop breaks. */
  function OnlineReplies(online: set<Bytes>, events: seq<Event>): seq<bool> {
    if events == [] then []
    else
      OnlineReply(online, events[0]) + if Breaks(events[0]) then [] else OnlineReplies(online, events[1..])
  }

  function OnlineReply(online: set<Bytes>, event: Event): seq<bool> {
    if event.CheckOnline? then [event.target in online] else []
  }

  lemma {:induction false} RepliesGoOn(online: set<Bytes>, replies: seq<bool>, events: seq<Event>, i: nat)
    requires i < |events|
    ensures var next := replies + OnlineReply(online, events[i]);
            replies + OnlineReplies(online, events[i..])
            == if Breaks(events[i]) then next else next + OnlineReplies(online, events[i + 1..])
  {
    assert events[i..][1..] == events[i + 1..];
    var rest := OnlineReplies(online, events[i + 1..]);
    assert replies + (OnlineReply(online, events[i]) + rest) == (replies + OnlineReply(online, events[i])) + rest;
  }

  /** The registry once the loop has broken. */
  function Announcing(table: FR.Table, user: Bytes, events: seq<Event>): FR.Table
    decreases events
  {
    if events == [] then table
    else
      var table' := AnnouncingOne(table, user, events[0]);
      if Breaks(events[0]) then table' else Announcing(table', user, events[1..])
  }

  function AnnouncingOne(table: FR.Table, user: Bytes, event: Event): FR.Table {
    var id := if event.FileAvailable? then FR.ParseTransferId(event.rawId) else None;
    if id.Some? then table[id.value := FR.Entry(user, event.at)] else table
  }

  /** Taking the user's transfers out again leaves what others announced, less the ids that this
      connection announced over theirs. */
  lemma {:induction false} AnnouncedAndForgotten(table: FR.Table, user: Bytes, events: seq<Event>)
    ensures FR.WithoutSender(Announcing(table, user, events), user)
            == FR.WithoutSender(table, user) - Announced(events)
    decreases events
  {
    if events != [] && !Breaks(events[0]) {
      AnnouncedAndForgotten(AnnouncingOne(table, user, events[0]), user, events[1..]);
    }
  }

  lemma {:induction false} ReceiverReleased(manager: CM.State, user: Bytes, conn: CM.Conn, channel: CM.Channel)
    requires conn !in CM.SubscribersOf(manager.subscribers, channel)
    ensures var registered := CM.Unregistering(CM.Registering(manager, user, conn), user);
            conn !in CM.SubscribersOf(CM.Dropping(registered, CM.ChannelFor(manager, user), conn).subscribers, channel)
  {
  }

  lemma {:induction false} AnnouncementsGoOn(table: FR.Table, user: Bytes, events: seq<Event>, i: nat)
    requires i < |events|
    ensures var next := AnnouncingOne(table, user, events[i]);
            Announcing(table, user, events[i..])
            == if Breaks(events[i]) then next else Announcing(next, user, events[i + 1..])
  {
    assert events[i..][1..] == events[i + 1..];
  }

  /** One event: an announcement goes into the registry, an online check is answered. */
  method HandleEvent(manager: CM.Manager, registry: FR.Registry, user: Bytes, event: Event) returns (reply: seq<bool>)
    modifies registry
    ensures registry.table == AnnouncingOne(old(registry.table), user, event)
    ensures reply == OnlineReply(manager.channels.Keys, event)
  {
    reply := [];
    if event.FileAvailable? {
      var id := FR.ParseTransferId(event.rawId);
      if id.Some? {
        registry.Register(id.value, user, event.at);
      }
    } else if event.CheckOnline? {
      var online := manager.IsConnected(event.target);
      reply := [online];
    }
  }

  /** The loop, until an event breaks it. */
  method HandleEvents(manager: CM.Manager, registry: FR.Registry, user: Bytes, events: seq<Event>)
    returns (replies: seq<bool>)
    modifies registry
    ensures registry.table == Announcing(old(registry.table), user, events)
    ensures replies == OnlineReplies(manager.channels.Keys, events)
  {
    replies := [];
    ghost var online := manager.channels.Keys;
    ghost var announced, replied := Announcing(registry.table, user, events), OnlineReplies(online, events);
    assert events[0..] == events;
    for i := 0 to |events|
      invariant manager.channels.Keys == online
      invariant Announcing(registry.table, user, events[i..]) == announced
      invariant replies + OnlineReplies(online, events[i..]) == replied
    {
      AnnouncementsGoOn(registry.table, user, events, i);
      RepliesGoOn(online, replies, events, i);
      var reply := HandleEvent(manager, registry, user, events[i]);
      replies := replies + reply;
      if Breaks(events[i]) {
        return;
      }
    }
  }

  /** A connection that authenticates leaves nothing behind: not its user's entry, not
      its receiver, and no transfer of its user; a transfer id it announced no longer
      leads to anyone. Its online checks find its own user and whoever was connected before
      it. One that does not authenticate touches nothing. */
  method HandleWebSocket(manager: CM.Manager, registry: FR.Registry, conn: CM.Conn, frame: Option<Bytes>,
                         verify: (Bytes, Bytes) -> bool, events: seq<Event>)
    returns (replies: seq<bool>)
    requires forall channel :: conn !in CM.SubscribersOf(manager.subscribers, channel)
    modifies manager, registry
    ensures var user := Authenticated(frame, verify);
            if user == None then
              manager.Contents() == old(manager.Contents()) && registry.table == old(registry.table) && replies == []
            else
              && replies == OnlineReplies(old(manager.channels).Keys + {user.value}, events)
              && manager.channels == old(manager.channels) - {user.value}
              && registry.table == FR.WithoutSender(old(registry.table), user.value) - Announced(events)
    ensures forall channel :: conn !in CM.SubscribersOf(manager.subscribers, channel)
  {
    var user := Authenticated(frame, verify);
    if user == None {
      return [];
    }
    var channel := manager.Register(user.value, conn);
    assert manager.Contents().channels.Keys == old(manager.channels).Keys + {user.value};
    replies := HandleEvents(manager, registry, user.value, events);
    AnnouncedAndForgotten(old(registry.table), user.value, events);
    manager.Unregister(user.value);
    registry.UnregisterBySender(user.value);
    manager.DropReceiver(channel, conn);
    forall channel ensures conn !in CM.SubscribersOf(manager.subscribers, channel) {
      ReceiverReleased(old(manager.Contents()), user.value, conn, channel);
      assert manager.subscribers == manager.Contents().subscribers;
    }
  }
}
