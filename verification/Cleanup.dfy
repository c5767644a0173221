/** The periodic cleanup task, over everything it cleans. */
module Cleanup {
  import opened Prelude
  import FileRelay
  import Mailbox
  import Messages
  import MessageStore
  import MessageTiers

  const TICKS_PER_PURGE: nat := 12

  class Task {
    const relay: Mailbox.Server
    const store: MessageStore.Server
    const registry: FileRelay.Registry
    var tick: nat

    /** The four limiters are four objects. */
    ghost predicate Valid() {
      && relay.Valid() && store.Valid()
      && {relay.pushLimiter, relay.blobLimiter} !! {store.gate.mid, store.gate.large}
    }

    constructor ()
      ensures Valid() && tick == 0
      ensures relay.Contents() == Mailbox.INITIAL && store.Contents() == Messages.EMPTY_STORE && registry.table == map[]
    {
      relay := new Mailbox.Server();
      store := new MessageStore.Server();
      registry := new FileRelay.Registry();
      tick := 0;
    }

    /** One turn of the loop, every five minutes: all four limiters and the transfer
        registry, and every twelfth turn the expired messages, relay rows and blobs too. */
    method Tick(at: Instant, now: Instant)
      requires Valid()
      modifies this`tick, registry, store`mail, relay`rows, relay`blobs
      modifies relay.pushLimiter, relay.blobLimiter, store.gate.mid, store.gate.large
      ensures Valid() && tick == old(tick) + 1
      ensures registry.table == FileRelay.Unexpired(old(registry.table), at)
      ensures var cleaned := Mailbox.LimitersCleaned(old(relay.Contents()), at);
              relay.Contents() == if tick % 12 == 0 then Mailbox.Purged(cleaned, now) else cleaned
      ensures var before := old(store.Contents());
              store.Contents() == before.(
                tiers := MessageTiers.Cleaned(before.tiers, at),
                mail := if tick % 12 == 0 then Messages.Purged(before.mail, now) else before.mail)
    {
      tick := tick + 1;
      relay.CleanLimiters(at);
      store.gate.Cleanup(at);
      registry.CleanupExpired(at);
      if tick % TICKS_PER_PURGE == 0 {
        store.DeleteExpired(now);
        relay.DeleteExpired(now);
      }
    }
  }
}
