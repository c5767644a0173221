/** The registry of peer-to-peer file transfers: who announced a transfer, forgotten
    after ten minutes, on request, or when the sender disconnects. */
module FileRelay {
  import opened Prelude

  const TRANSFER_ID_SIZE: nat := 16
  const TRANSFER_TTL: nat := 600

  type TransferId = t: Bytes | |t| == TRANSFER_ID_SIZE witness seq(TRANSFER_ID_SIZE, _ => 0)

  datatype Entry = Entry(sender: Bytes, insertedAt: Instant)

  type Table = map<TransferId, Entry>

  function ParseTransferId(raw: Bytes): (id: Option<TransferId>)
    ensures id.Some? <==> |raw| == 16
    ensures id.Some? ==> id.value == raw
  {
    if |raw| == TRANSFER_ID_SIZE then Some(raw) else None
  }

  /** `elapsed() < TRANSFER_TTL`, at full resolution. */
  predicate Live(insertedAt: Instant, at: Instant) {
    at < insertedAt + Seconds(TRANSFER_TTL)
  }

  function WithoutSender(table: Table, sender: Bytes): Table {
    map id | id in table && table[id].sender != sender :: table[id]
  }

  function Unexpired(table: Table, at: Instant): Table {
    map id | id in table && Live(table[id].insertedAt, at) :: table[id]
  }

  function SenderIn(table: Table, id: TransferId, at: Instant): Option<Bytes> {
    if id in table && Live(table[id].insertedAt, at) then Some(table[id].sender) else None
  }

  class Registry {
    var table: Table

    constructor ()
      ensures table == map[]
    {
      table := map[];
    }

    method Register(id: TransferId, sender: Bytes, at: Instant)
      modifies this
      ensures table == old(table)[id := Entry(sender, at)]
    {
      table := table[id := Entry(sender, at)];
    }

    method Unregister(id: TransferId)
      modifies this
      ensures table == old(table) - {id}
    {
      table := table - {id};
    }

    method UnregisterBySender(sender: Bytes)
      modifies this
      ensures table == WithoutSender(old(table), sender)
    {
      table := map id | id in table && table[id].sender != sender :: table[id];
    }

    method GetSender(id: TransferId, at: Instant) returns (sender: Option<Bytes>)
      ensures sender == SenderIn(table, id, at)
    {
      sender := None;
      if id in table {
        var entry := table[id];
        if Live(entry.insertedAt, at) {
          sender := Some(entry.sender);
        }
      }
    }

    method CleanupExpired(at: Instant)
      modifies this
      ensures table == Unexpired(old(table), at)
      ensures forall id :: id in table <==> id in old(table) && at < old(table)[id].insertedAt + Seconds(600)
      ensures forall id | id in table :: table[id] == old(table)[id]
    {
      table := map id | id in table && Live(table[id].insertedAt, at) :: table[id];
    }
  }

  // ---------------------------------------------------------------------------
  // Histories
  // ---------------------------------------------------------------------------

  datatype Event =
    | Registered(id: TransferId, sender: Bytes, at: Instant)
    | Unregistered(id: TransferId, at: Instant)
    | Disconnected(sender: Bytes, at: Instant)
    | Cleaned(at: Instant)

  type History = seq<Event>

  ghost predicate Ordered(history: History) {
    forall i, j | 0 <= i < j < |history| :: history[i].at <= history[j].at
  }

  function Step(table: Table, event: Event): Table {
    match event
    case Registered(id, sender, at) => table[id := Entry(sender, at)]
    case Unregistered(id, _) => table - {id}
    case Disconnected(sender, _) => WithoutSender(table, sender)
    case Cleaned(at) => Unexpired(table, at)
  }

  function After(history: History): Table {
    if history == [] then map[] else Step(After(history[..|history| - 1]), history[|history| - 1])
  }

  /** Event `i` announced `id`, and nothing after it took the announcement back:
      no later registration or removal of the id, no disconnection of the sender. */
  ghost predicate Stands(history: History, i: nat, id: TransferId) {
    && i < |history| && history[i].Registered? && history[i].id == id
    && forall j | i < j < |history| ::
         match history[j]
         case Registered(id', _, _) => id' != id
         case Unregistered(id', _) => id' != id
         case Disconnected(sender, _) => sender != history[i].sender
         case Cleaned(_) => true
  }

  ghost predicate Announced(history: History, id: TransferId, sender: Bytes, at: Instant) {
    exists i | 0 <= i < |history| ::
      Stands(history, i, id) && history[i].sender == sender && at < history[i].at + Seconds(600)
  }

  /** A stored entry is that of a standing announcement. */
  lemma {:induction false} StoredStands(history: History, id: TransferId) returns (i: nat)
    requires id in After(history)
    ensures Stands(history, i, id) && After(history)[id] == Entry(history[i].sender, history[i].at)
  {
    var before, last := history[..|history| - 1], history[|history| - 1];
    if last.Registered? && last.id == id {
      i := |history| - 1;
    } else {
      i := StoredStands(before, id);
      assert forall j | i < j < |before| :: history[j] == before[j];
    }
  }

  /** A standing announcement that is still live has not been cleaned away. */
  lemma {:induction false} StandingIsStored(history: History, i: nat, id: TransferId, at: Instant)
    requires Ordered(history) && history != [] && history[|history| - 1].at <= at
    requires Stands(history, i, id) && at < history[i].at + Seconds(600)
    ensures id in After(history) && After(history)[id] == Entry(history[i].sender, history[i].at)
  {
    var before, last := history[..|history| - 1], history[|history| - 1];
    if i < |history| - 1 {
      assert forall j | i < j < |before| :: history[j] == before[j];
      assert Stands(before, i, id);
      StandingIsStored(before, i, id, at);
    }
  }

  /** The registry answers from its history alone, wherever cleanups occurred: the
      sender of `id` is `sender` exactly when the last announcement of `id` was by
      `sender`, less than ten minutes ago, and was not taken back. */
  lemma {:induction false} SenderFromHistory(history: History, id: TransferId, sender: Bytes, at: Instant)
    requires Ordered(history) && (history != [] ==> history[|history| - 1].at <= at)
    ensures SenderIn(After(history), id, at) == Some(sender) <==> Announced(history, id, sender, at)
  {
    if SenderIn(After(history), id, at) == Some(sender) {
      var i := StoredStands(history, id);
    }
    if Announced(history, id, sender, at) {
      var i :| && 0 <= i < |history| && Stands(history, i, id) && history[i].sender == sender
               && at < history[i].at + Seconds(600);
      StandingIsStored(history, i, id, at);
    }
  }
}
