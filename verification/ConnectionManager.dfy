/** The map from connected users to broadcast channels. All connections of a user
    share the channel of the map; a channel loses its only sender with its entry. */
module ConnectionManager {
  import opened Prelude

  type User = Bytes
  type Channel = nat
  type Conn = nat

  /** `subscribers` holds, per channel, the connections that own a receiver of it. */
  datatype State = State(channels: map<User, Channel>, subscribers: Subscribers, nextChannel: Channel)

  const EMPTY := State(map[], map[], 0)

  type Subscribers = map<Channel, set<Conn>>

  function SubscribersOf(subscribers: Subscribers, channel: Channel): set<Conn> {
    if channel in subscribers then subscribers[channel] else {}
  }

  /** The channel that a registration of `user` ends up on. */
  function ChannelFor(s: State, user: User): Channel {
    if user in s.channels then s.channels[user] else s.nextChannel
  }

  function Registering(s: State, user: User, conn: Conn): State {
    var channel := ChannelFor(s, user);
    if user in s.channels then
      s.(subscribers := s.subscribers[channel := SubscribersOf(s.subscribers, channel) + {conn}])
    else
      State(s.channels[user := channel], s.subscribers[channel := {conn}], s.nextChannel + 1)
  }

  function Unregistering(s: State, user: User): State {
    s.(channels := s.channels - {user})
  }

  function Dropping(s: State, channel: Channel, conn: Conn): State {
    s.(subscribers := s.subscribers[channel := SubscribersOf(s.subscribers, channel) - {conn}])
  }

  /** A broadcast is accepted as long as the channel has a receiver. */
  predicate Accepts(s: State, user: User) {
    user in s.channels && SubscribersOf(s.subscribers, s.channels[user]) != {}
  }

  class Manager {
    var channels: map<User, Channel>
    var subscribers: Subscribers
    var nextChannel: Channel

    ghost function Contents(): State
      reads this
    {
      State(channels, subscribers, nextChannel)
    }

    constructor ()
      ensures Contents() == EMPTY
    {
      channels, subscribers, nextChannel := map[], map[], 0;
    }

    method Register(user: User, conn: Conn) returns (channel: Channel)
      modifies this
      ensures Contents() == Registering(old(Contents()), user, conn)
      ensures channel == ChannelFor(old(Contents()), user)
    {
      if user in channels {
        channel := channels[user];
        subscribers := subscribers[channel := SubscribersOf(subscribers, channel) + {conn}];
        return;
      }
      channel := nextChannel;
      nextChannel := nextChannel + 1;
      subscribers := subscribers[channel := {conn}];
      channels := channels[user := channel];
    }

    method Unregister(user: User)
      modifies this`channels
      ensures Contents() == Unregistering(old(Contents()), user)
    {
      channels := channels - {user};
    }

    /** A receiver goes out of scope. */
    method DropReceiver(channel: Channel, conn: Conn)
      modifies this`subscribers
      ensures Contents() == Dropping(old(Contents()), channel, conn)
    {
      subscribers := subscribers[channel := SubscribersOf(subscribers, channel) - {conn}];
    }

    method SendToUser(user: User) returns (sent: bool)
      ensures sent <==> Accepts(Contents(), user)
    {
      if user in channels {
        var channel := channels[user];
        sent := SubscribersOf(subscribers, channel) != {};
      } else {
        sent := false;
      }
    }

    method IsConnected(user: User) returns (connected: bool)
      ensures connected <==> user in channels
    {
      connected := user in channels;
    }
  }
}
