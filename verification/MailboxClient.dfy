/** A mailbox and the client that owns it: it fetches after, and acknowledges no
    further than, the last id it received, while anyone pushes, time passes and the
    server cleans up. */
module MailboxClient {
  import opened Prelude
  import opened Mailbox
  import opened Ordering
  import MailboxExpiry

  /** `log` remembers every row ever stored, whatever became of it. */
  datatype System = System(server: State, now: Instant, log: Rows, cursor: nat, received: seq<RelayEntry>)

  datatype Step =
    | Tick(elapsed: nat)
    | Serve(op: Operation)
    | ClientFetch(op: Operation)
    | ClientAck(op: Operation)

  const START := System(INITIAL, 0, map[], 0, [])

  /** Nobody but the client can acknowledge its mailbox; a signature check of anyone
      else's attempt fails. */
  predicate Enabled(sys: System, device: Bytes, step: Step) {
    match step
    case Tick(_) => true
    case Serve(op) => op.AckRelay? && op.device == device ==> !op.verified
    case ClientFetch(op) => op.FetchRelay? && op.device == device && op.since == sys.cursor
    case ClientAck(op) => op.AckRelay? && op.device == device && op.upTo <= sys.cursor
  }

  function LastId(entries: seq<RelayEntry>, otherwise: nat): nat {
    if entries == [] then otherwise else entries[|entries| - 1].id
  }

  function Logged(log: Rows, server: State, server': State): Rows {
    if server.nextId in server'.rows then log[server.nextId := server'.rows[server.nextId]] else log
  }

  function Next(sys: System, device: Bytes, step: Step): System
    requires Enabled(sys, device, step)
  {
    match step
    case Tick(elapsed) => sys.(now := sys.now + elapsed)
    case Serve(op) =>
      var server := Execute(sys.server, op, sys.now).0;
      sys.(server := server, log := Logged(sys.log, sys.server, server))
    case ClientFetch(op) =>
      var response := Fetching(sys.server, op, sys.now);
      if response.Entries?
      then sys.(cursor := LastId(response.entries, sys.cursor), received := sys.received + response.entries)
      else sys
    case ClientAck(op) => sys.(server := Acking(sys.server, op, sys.now).0)
  }

  ghost predicate Leads(prior: System, device: Bytes, step: Step, sys: System) {
    Enabled(prior, device, step) && sys == Next(prior, device, step)
  }

  /** A run: the states passed through, one more than the steps taken. */
  ghost predicate Behaviour(device: Bytes, states: seq<System>, steps: seq<Step>) {
    && |states| == |steps| + 1
    && states[0] == START
    && forall i | 0 <= i < |steps| :: Leads(states[i], device, steps[i], states[i + 1])
  }

  // ---------------------------------------------------------------------------
  // What every step keeps
  // ---------------------------------------------------------------------------

  /** The ids received, in the order of reception. */
  function Ids(entries: seq<RelayEntry>): (ids: seq<nat>)
    ensures |ids| == |entries|
  {
    if entries == [] then [] else [entries[0].id] + Ids(entries[1..])
  }

  lemma {:induction false} IdsOfEntries(rows: Rows, ids: seq<nat>)
    requires forall id | id in ids :: id in rows
    ensures Ids(EntriesOf(rows, ids)) == ids
    ensures forall e | e in EntriesOf(rows, ids) :: e.id in ids && e == EntryOf(rows, e.id)
  {
    if ids != [] {
      IdsOfEntries(rows, ids[1..]);
      assert EntriesOf(rows, ids)[1..] == EntriesOf(rows, ids[1..]);
    }
  }

  lemma {:induction false} IdsConcat(q: seq<RelayEntry>, r: seq<RelayEntry>)
    ensures Ids(q + r) == Ids(q) + Ids(r)
  {
    if q == [] {
      assert q + r == r;
    } else {
      assert (q + r)[1..] == q[1..] + r;
      IdsConcat(q[1..], r);
    }
  }

  lemma {:induction false} IdsAt(q: seq<RelayEntry>, i: nat)
    requires i < |q|
    ensures Ids(q)[i] == q[i].id
  {
    if i > 0 {
      IdsAt(q[1..], i - 1);
    }
  }

  ghost predicate Genuine(entry: RelayEntry, device: Bytes, log: Rows) {
    && entry.id in log && log[entry.id].device == device
    && entry.ciphertext == log[entry.id].ciphertext && entry.nonce == log[entry.id].nonce
  }

  /** Ids below the next one; the table is what is left of the log. */
  ghost predicate TableSound(server: State, log: Rows) {
    && server.nextId >= 1
    && (forall id | id in log :: id < server.nextId)
    && (forall id | id in server.rows :: id in log && server.rows[id] == log[id])
  }

  /** Received ids ascend up to the cursor, and their content is what was pushed. */
  ghost predicate ClientSound(sys: System, device: Bytes) {
    && sys.cursor < sys.server.nextId
    && Ascending(Ids(sys.received))
    && (forall e | e in sys.received :: e.id <= sys.cursor && Genuine(e, device, sys.log))
  }

  /** No row is lost: up to the cursor it was received, beyond it it is still stored,
      unless it has expired. */
  ghost predicate Accounted(sys: System, device: Bytes) {
    forall id | id in sys.log && sys.log[id].device == device && sys.log[id].expiresAt > sys.now ::
      if id <= sys.cursor then id in Ids(sys.received) else id in sys.server.rows
  }

  ghost predicate Sound(sys: System, device: Bytes) {
    TableSound(sys.server, sys.log) && ClientSound(sys, device) && Accounted(sys, device)
  }

  // ---------------------------------------------------------------------------
  // Server steps
  // ---------------------------------------------------------------------------

  /** What any server step may do to the table, seen from one mailbox. */
  ghost predicate Serves(server: State, server': State, device: Bytes, now: Instant) {
    && server.nextId <= server'.nextId
    && (server.nextId in server'.rows ==> server'.nextId == server.nextId + 1)
    && (forall id | id in server'.rows && id != server.nextId ::
          id in server.rows && server'.rows[id] == server.rows[id])
    && (forall id | id in server.rows && server.rows[id].device == device && server.rows[id].expiresAt > now ::
          id in server'.rows)
  }

  lemma {:induction false} PushServes(server: State, op: Operation, now: Instant, device: Bytes)
    requires op.PushRelay? && forall id | id in server.rows :: id < server.nextId
    ensures Serves(server, Pushing(server, op, now).0, device, now)
  {
  }

  lemma {:induction false} AckServes(server: State, op: Operation, now: Instant, device: Bytes)
    requires op.AckRelay? && (op.device == device ==> !op.verified)
    requires forall id | id in server.rows :: id < server.nextId
    ensures Serves(server, Acking(server, op, now).0, device, now)
  {
  }

  lemma {:induction false} PurgeServes(server: State, now: Instant, device: Bytes)
    requires forall id | id in server.rows :: id < server.nextId
    ensures Serves(server, Purged(server, now), device, now)
  {
  }

  lemma {:induction false} ExecuteServes(server: State, op: Operation, now: Instant, device: Bytes)
    requires op.AckRelay? && op.device == device ==> !op.verified
    requires forall id | id in server.rows :: id < server.nextId
    ensures Serves(server, Execute(server, op, now).0, device, now)
  {
    match op {
      case PushRelay(_, _, _, _, _, _, _, _) => PushServes(server, op, now, device);
      case AckRelay(_, _, _, _, _) => AckServes(server, op, now, device);
      case PurgeExpired => PurgeServes(server, now, device);
      case _ =>
        assert Execute(server, op, now).0.rows == server.rows;
        assert Execute(server, op, now).0.nextId == server.nextId;
    }
  }

  lemma {:induction false} ServeKeepsSound(sys: System, device: Bytes, server: State)
    requires Sound(sys, device) && Serves(sys.server, server, device, sys.now)
    ensures Sound(sys.(server := server, log := Logged(sys.log, sys.server, server)), device)
  {
    var log := Logged(sys.log, sys.server, server);
    assert forall e | e in sys.received :: e.id in sys.log && e.id != sys.server.nextId;
    assert forall id | id in sys.log :: id in log && log[id] == sys.log[id];
  }

  // ---------------------------------------------------------------------------
  // Client steps
  // ---------------------------------------------------------------------------

  lemma {:induction false} AckKeepsSound(sys: System, device: Bytes, op: Operation)
    requires Sound(sys, device) && op.AckRelay? && op.device == device && op.upTo <= sys.cursor
    ensures Sound(sys.(server := Acking(sys.server, op, sys.now).0), device)
  {
  }

  lemma {:induction false} PageIdFacts(rows: Rows, device: Bytes, since: nat, limit: nat, now: Instant)
    ensures var ids := PageIds(rows, device, since, limit, now);
            var visible := Visible(rows, device, since, now);
            && Ascending(ids)
            && (forall x | x in ids :: since < x && x in visible)
            && (ids != [] ==> forall x | x in ids :: x <= ids[|ids| - 1])
            && (ids != [] ==> forall id | id in visible && id <= ids[|ids| - 1] :: id in ids)
  {
    var ids := PageIds(rows, device, since, limit, now);
    if ids != [] {
      FirstAscends(Visible(rows, device, since, now), |ids|);
    }
  }

  lemma {:induction false} LastIdIs(rows: Rows, ids: seq<nat>, since: nat)
    requires forall id | id in ids :: id in rows
    ensures Ids(EntriesOf(rows, ids)) == ids
    ensures LastId(EntriesOf(rows, ids), since) == if ids == [] then since else ids[|ids| - 1]
  {
    IdsOfEntries(rows, ids);
    if ids != [] {
      IdsAt(EntriesOf(rows, ids), |ids| - 1);
    }
  }

  /** A page after a cursor: ascending ids beyond it, each with its own row, and nothing
      visible skipped. */
  lemma {:induction false} PageFacts(rows: Rows, device: Bytes, since: nat, limit: nat, now: Instant)
    ensures var page := Page(rows, device, since, limit, now);
            var visible := Visible(rows, device, since, now);
            && Ascending(Ids(page))
            && (forall x | x in Ids(page) :: since < x <= LastId(page, since))
            && (forall e | e in page :: e.id in Ids(page) && e.id in visible && e == EntryOf(rows, e.id))
            && (forall id | id in visible && id <= LastId(page, since) :: id in Ids(page))
  {
    var ids := PageIds(rows, device, since, limit, now);
    PageIdFacts(rows, device, since, limit, now);
    LastIdIs(rows, ids, since);
    IdsOfEntries(rows, ids);
  }

  lemma {:induction false} FetchKeepsSound(sys: System, device: Bytes, page: seq<RelayEntry>, limit: nat)
    requires Sound(sys, device) && page == Page(sys.server.rows, device, sys.cursor, limit, sys.now)
    ensures Sound(sys.(cursor := LastId(page, sys.cursor), received := sys.received + page), device)
  {
    PageFacts(sys.server.rows, device, sys.cursor, limit, sys.now);
    IdsConcat(sys.received, page);
    forall x | x in Ids(sys.received) ensures x <= sys.cursor {
      var i :| 0 <= i < |sys.received| && Ids(sys.received)[i] == x;
      IdsAt(sys.received, i);
      assert sys.received[i] in sys.received;
    }
    AscendingConcat(Ids(sys.received), Ids(page), sys.cursor);
    if page != [] {
      assert page[|page| - 1] in page;
    }
  }

  // ---------------------------------------------------------------------------
  // Whole runs
  // ---------------------------------------------------------------------------

  lemma {:induction false} StepKeepsSound(sys: System, device: Bytes, step: Step)
    requires Sound(sys, device) && Enabled(sys, device, step)
    ensures Sound(Next(sys, device, step), device)
  {
    match step {
      case Tick(_) =>
      case Serve(op) =>
        ExecuteServes(sys.server, op, sys.now, device);
        ServeKeepsSound(sys, device, Execute(sys.server, op, sys.now).0);
      case ClientFetch(op) =>
        FetchKeepsSound(sys, device, Page(sys.server.rows, device, sys.cursor, op.limit, sys.now), op.limit);
      case ClientAck(op) => AckKeepsSound(sys, device, op);
    }
  }

  lemma {:induction false} RunKeepsSound(device: Bytes, states: seq<System>, steps: seq<Step>, i: nat)
    requires Behaviour(device, states, steps) && i < |states|
    ensures Sound(states[i], device)
  {
    if i > 0 {
      RunKeepsSound(device, states, steps, i - 1);
      assert Leads(states[i - 1], device, steps[i - 1], states[i - 1 + 1]);
      StepKeepsSound(states[i - 1], device, steps[i - 1]);
    }
  }

  /** No loss, no duplicates: in every reachable state the received ids strictly
      increase, each entry is a row that was stored for this device, and each such row
      is still in the table unless it was received or has expired. */
  lemma {:induction false} NoLossNoDuplicates(device: Bytes, states: seq<System>, steps: seq<Step>, k: nat)
    requires Behaviour(device, states, steps) && k < |states|
    ensures var sys := states[k];
            && (forall i, j | 0 <= i < j < |sys.received| :: sys.received[i].id < sys.received[j].id)
            && (forall e | e in sys.received :: Genuine(e, device, sys.log))
            && (forall id | id in sys.log && sys.log[id].device == device ::
                  id in sys.server.rows || id in Ids(sys.received) || sys.log[id].expiresAt <= sys.now)
  {
    RunKeepsSound(device, states, steps, k);
    var received := states[k].received;
    forall i, j | 0 <= i < j < |received| ensures received[i].id < received[j].id {
      IdsAt(received, i);
      IdsAt(received, j);
      assert Ids(received)[i] < Ids(received)[j];
    }
  }

  /** A page shorter than its limit ends the mailbox: once it has come in, every row
      ever stored for the device was received or has expired. */
  lemma {:induction false} ShortPageIsTheLast(device: Bytes, states: seq<System>, steps: seq<Step>, k: nat)
    requires Behaviour(device, states, steps) && k < |steps|
    requires steps[k].ClientFetch? && steps[k].op.FetchRelay?
    requires var response := Fetching(states[k].server, steps[k].op, states[k].now);
             response.Entries? && |response.entries| < PageLimit(steps[k].op.limit)
    ensures var sys := states[k + 1];
            forall id | id in sys.log && sys.log[id].device == device ::
              id in Ids(sys.received) || sys.log[id].expiresAt <= sys.now
  {
    RunKeepsSound(device, states, steps, k);
    assert Leads(states[k], device, steps[k], states[k + 1]);
    ShortPageEmpties(states[k], device, steps[k].op);
  }

  /** A short page of a sound system brings in all that waits. */
  lemma {:induction false} ShortPageEmpties(sys: System, device: Bytes, op: Operation)
    requires Sound(sys, device) && Enabled(sys, device, ClientFetch(op))
    requires var response := Fetching(sys.server, op, sys.now);
             response.Entries? && |response.entries| < PageLimit(op.limit)
    ensures var sys' := Next(sys, device, ClientFetch(op));
            forall id | id in sys'.log && sys'.log[id].device == device ::
              id in Ids(sys'.received) || sys'.log[id].expiresAt <= sys'.now
  {
    var page := Page(sys.server.rows, device, sys.cursor, op.limit, sys.now);
    ShortPageIsAll(sys.server.rows, device, sys.cursor, op.limit, sys.now);
    IdsConcat(sys.received, page);
    assert forall id | id in Visible(sys.server.rows, device, sys.cursor, sys.now) :: id in Ids(page);
  }

  lemma {:induction false} ShortPageIsAll(rows: Rows, device: Bytes, since: nat, limit: nat, now: Instant)
    requires |Page(rows, device, since, limit, now)| < PageLimit(limit)
    ensures forall id | id in Visible(rows, device, since, now) :: id in Ids(Page(rows, device, since, limit, now))
  {
    var ids := PageIds(rows, device, since, limit, now);
    IdsOfEntries(rows, ids);
    assert ids == Sorted(Visible(rows, device, since, now));
  }

  // ---------------------------------------------------------------------------
  // Draining a mailbox
  // ---------------------------------------------------------------------------

  lemma {:induction false} EntriesOfConcat(rows: Rows, ids: seq<nat>, ids': seq<nat>)
    requires forall id | id in ids + ids' :: id in rows
    ensures EntriesOf(rows, ids + ids') == EntriesOf(rows, ids) + EntriesOf(rows, ids')
  {
    if ids == [] {
      assert ids + ids' == ids';
    } else {
      assert (ids + ids')[1..] == ids[1..] + ids';
      EntriesOfConcat(rows, ids[1..], ids');
    }
  }

  lemma {:induction false} RestVisible(rows: Rows, device: Bytes, since: nat, now: Instant, last: nat)
    requires last in Visible(rows, device, since, now)
    ensures Visible(Unacknowledged(rows, device, last), device, last, now)
            == Above(Visible(rows, device, since, now), last)
            < Visible(rows, device, since, now)
  {
    assert last !in Above(Visible(rows, device, since, now), last);
  }

  /** A listing is a non-empty page followed by the listing after its last id, also
      once the page has been acknowledged. */
  lemma {:induction false} ListingSplit(rows: Rows, device: Bytes, since: nat, limit: nat, now: Instant)
    ensures var page := Page(rows, device, since, limit, now);
            var rest := Unacknowledged(rows, device, LastId(page, since));
            && (page == [] <==> Visible(rows, device, since, now) == {})
            && (page != [] ==>
                  && Visible(rest, device, LastId(page, since), now) < Visible(rows, device, since, now)
                  && Listing(rows, device, since, now) == page + Listing(rest, device, LastId(page, since), now))
  {
    var visible := Visible(rows, device, since, now);
    var ids := PageIds(rows, device, since, limit, now);
    var page := Page(rows, device, since, limit, now);
    IdsOfEntries(rows, ids);
    if ids != [] {
      var last := ids[|ids| - 1];
      IdsAt(page, |page| - 1);
      FirstThenAbove(visible, |ids|);
      RestVisible(rows, device, since, now, last);
      var above := Sorted(Above(visible, last));
      EntriesOfConcat(rows, ids, above);
      MailboxExpiry.SameEntries(rows, Unacknowledged(rows, device, last), above);
    }
  }

  /** What a draining client knows between rounds: what it has, followed by what is
      still listed, is the listing it started from. */
  ghost predicate Draining(original: Rows, rows: Rows, device: Bytes, now: Instant,
                           received: seq<RelayEntry>, cursor: nat)
  {
    && cursor == LastId(received, 0)
    && Listing(original, device, 0, now) == received + Listing(rows, device, cursor, now)
    && rows == if received == [] then original else Unacknowledged(original, device, cursor)
  }

  lemma {:induction false} AcknowledgedTwice(rows: Rows, device: Bytes, upTo: nat, later: nat)
    requires upTo <= later
    ensures Unacknowledged(Unacknowledged(rows, device, upTo), device, later) == Unacknowledged(rows, device, later)
  {
  }

  lemma {:induction false} LastOfPage(rows: Rows, device: Bytes, since: nat, limit: nat, now: Instant)
    requires Page(rows, device, since, limit, now) != []
    ensures LastId(Page(rows, device, since, limit, now), since) > since
  {
    var page := Page(rows, device, since, limit, now);
    PageFacts(rows, device, since, limit, now);
    assert page[|page| - 1] in page;
  }

  lemma {:induction false} LastIdConcat(received: seq<RelayEntry>, page: seq<RelayEntry>, cursor: nat)
    requires page != []
    ensures received + page != [] && LastId(received + page, 0) == LastId(page, cursor)
  {
  }

  lemma {:induction false} Regroup<T>(all: seq<T>, received: seq<T>, left: seq<T>, page: seq<T>, rest: seq<T>)
    requires all == received + left && left == page + rest
    ensures all == (received + page) + rest
  {
    assert received + (page + rest) == (received + page) + rest;
  }

  /** What acknowledging the page leaves is what acknowledging up to it leaves of the whole. */
  lemma {:induction false} AcknowledgedOnward(original: Rows, rows: Rows, device: Bytes, received: seq<RelayEntry>,
                                              cursor: nat, last: nat)
    requires cursor <= last
    requires rows == if received == [] then original else Unacknowledged(original, device, cursor)
    ensures Unacknowledged(rows, device, last) == Unacknowledged(original, device, last)
  {
    if received != [] {
      AcknowledgedTwice(original, device, cursor, last);
    }
  }

  lemma {:induction false} DrainRound(original: Rows, rows: Rows, device: Bytes, now: Instant,
                                      received: seq<RelayEntry>, cursor: nat, limit: nat)
    requires Draining(original, rows, device, now, received, cursor)
    requires Page(rows, device, cursor, limit, now) != []
    ensures var page := Page(rows, device, cursor, limit, now);
            var last := LastId(page, cursor);
            var rest := Unacknowledged(rows, device, last);
            && Draining(original, rest, device, now, received + page, last)
            && Visible(rest, device, last, now) < Visible(rows, device, cursor, now)
  {
    var page := Page(rows, device, cursor, limit, now);
    var last := LastId(page, cursor);
    ListingSplit(rows, device, cursor, limit, now);
    LastOfPage(rows, device, cursor, limit, now);
    AcknowledgedOnward(original, rows, device, received, cursor, last);
    LastIdConcat(received, page, cursor);
    Regroup(Listing(original, device, 0, now), received, Listing(rows, device, cursor, now), page,
            Listing(Unacknowledged(rows, device, last), device, last, now));
  }

  predicate DrainSigned(fetch: Operation, ack: Operation, device: Bytes, now: Instant) {
    && fetch.FetchRelay? && fetch.device == device && OwnerRefusal(fetch, now) == None
    && ack.AckRelay? && ack.device == device && OwnerRefusal(ack, now) == None
  }

  /** Fetch and acknowledge until a page comes back empty, with any page limits. At a
      fixed instant the pages make up exactly the sorted mailbox, and none of it is left. */
  method Drain(server: Server, device: Bytes, now: Instant, limits: nat -> nat, fetch: Operation, ack: Operation)
    returns (received: seq<RelayEntry>)
    requires server.Valid() && DrainSigned(fetch, ack, device, now)
    modifies server`rows
    ensures received == Listing(old(server.rows), device, 0, now)
    ensures server.rows == if received == [] then old(server.rows)
                           else Unacknowledged(old(server.rows), device, LastId(received, 0))
  {
    var cursor := 0;
    received := [];
    var round := 0;
    ghost var original := server.rows;
    while true
      invariant Draining(original, server.rows, device, now, received, cursor)
      decreases Visible(server.rows, device, cursor, now)
    {
      ghost var rows := server.rows;
      var response := server.FetchRelay(fetch.(since := cursor, limit := limits(round)), now);
      var page := response.entries;
      if page == [] {
        ListingSplit(rows, device, cursor, limits(round), now);
        break;
      }
      DrainRound(original, rows, device, now, received, cursor, limits(round));
      var acknowledged := server.AckRelay(ack.(upTo := LastId(page, cursor)), now);
      assert server.rows == Unacknowledged(rows, device, LastId(page, cursor)) by {
        assert server.rows == server.Contents().rows;
      }
      cursor := LastId(page, cursor);
      received := received + page;
      round := round + 1;
    }
  }
}
