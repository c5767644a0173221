/** What a fetch returns, told from the history of requests alone. */
module MailboxFetches {
  import opened Prelude
  import opened Ordering
  import opened Mailbox
  import opened MailboxAnswers
  import opened MailboxHistory

  /** At event `i`, a fetch, the row is stored for the device under an id after the cursor,
      unexpired and not acknowledged. */
  ghost predicate Waits(run: Run, i: nat, id: nat, row: Row)
    requires i < |run| && run[i].op.FetchRelay?
  {
    && row.device == run[i].op.device && id > run[i].op.since && row.expiresAt > run[i].at
    && exists k: nat :: PushedAndKept(run, i, k, id, row)
  }

  ghost predicate Returns(run: Run, i: nat, entry: RelayEntry, row: Row)
    requires i < |run| && run[i].op.FetchRelay?
  {
    Waits(run, i, entry.id, row) && entry.ciphertext == row.ciphertext && entry.nonce == row.nonce
  }

  lemma {:induction false} WaitsExactly(states: seq<State>, run: Run, i: nat, id: nat, row: Row)
    requires Behaviour(states, run) && i < |run| && run[i].op.FetchRelay?
    ensures Waits(run, i, id, row)
       <==> && id in Visible(states[i].rows, run[i].op.device, run[i].op.since, run[i].at)
            && states[i].rows[id] == row
  {
    if row.expiresAt > run[i].at {
      KeptExactly(states, run, i, id, row, run[i].at);
    }
  }

  lemma {:induction false} EntryAt(rows: Rows, ids: seq<nat>, n: nat)
    requires n < |ids| && forall id | id in ids :: id in rows
    ensures EntriesOf(rows, ids)[n] == EntryOf(rows, ids[n])
  {
    if n > 0 {
      EntryAt(rows, ids[1..], n - 1);
    }
  }

  ghost predicate Listed(entries: seq<RelayEntry>, id: nat) {
    exists n :: 0 <= n < |entries| && entries[n].id == id
  }

  /** The page was full before it came to `id`. */
  ghost predicate Beyond(entries: seq<RelayEntry>, limit: nat, id: nat) {
    |entries| == limit && forall n | 0 <= n < |entries| :: entries[n].id < id
  }

  /** Rows, one after the other in the order of their ids. */
  ghost predicate InOrder(rows: Rows, visible: set<nat>, entries: seq<RelayEntry>) {
    && (forall m, n | 0 <= m < n < |entries| :: entries[m].id < entries[n].id)
    && forall n | 0 <= n < |entries| ::
         entries[n].id in visible && entries[n].id in rows && entries[n] == EntryOf(rows, entries[n].id)
  }

  lemma {:induction false} EntriesInOrder(rows: Rows, visible: set<nat>, ids: seq<nat>)
    requires Ascending(ids) && forall id | id in ids :: id in visible && id in rows
    ensures InOrder(rows, visible, EntriesOf(rows, ids))
    ensures forall n | 0 <= n < |ids| :: EntriesOf(rows, ids)[n].id == ids[n]
  {
    forall n | 0 <= n < |ids| ensures EntriesOf(rows, ids)[n] == EntryOf(rows, ids[n]) {
      EntryAt(rows, ids, n);
    }
  }

  lemma {:induction false} FirstInOrder(visible: set<nat>, n: nat)
    requires n <= |visible|
    ensures Ascending(First(visible, n))
  {
    if n > 0 {
      FirstAscends(visible, n);
    }
  }

  /** A row that a first part leaves out comes after it. */
  lemma {:induction false} MissingRow(visible: set<nat>, n: nat, id: nat)
    requires n <= |visible| && id in visible && id !in First(visible, n)
    ensures n < |visible| && forall x | x in First(visible, n) :: x < id
  {
    WholeFirst(visible);
    if n > 0 {
      FirstAscends(visible, n);
    }
  }

  lemma {:induction false} WholeFirst(visible: set<nat>)
    ensures forall id | id in visible :: id in First(visible, |visible|)
  {
    assert First(visible, |visible|) == Sorted(visible);
  }

  lemma {:induction false} ListedOrBeyond(rows: Rows, visible: set<nat>, limit: nat, id: nat)
    requires id in visible && forall x | x in visible :: x in rows
    ensures var entries := EntriesOf(rows, First(visible, Min(limit, |visible|)));
            Listed(entries, id) || Beyond(entries, limit, id)
  {
    var ids := First(visible, Min(limit, |visible|));
    FirstInOrder(visible, |ids|);
    EntriesInOrder(rows, visible, ids);
    if id in ids {
      var n :| 0 <= n < |ids| && ids[n] == id;
      assert EntriesOf(rows, ids)[n].id == id;
    } else {
      MissingRow(visible, |ids|, id);
      assert forall n | 0 <= n < |ids| :: EntriesOf(rows, ids)[n].id == ids[n] && ids[n] in ids;
    }
  }

  lemma {:induction false} PageInOrder(rows: Rows, device: Bytes, since: int, limit: nat, now: Instant)
    ensures InOrder(rows, Visible(rows, device, since, now), Page(rows, device, since, limit, now))
    ensures |Page(rows, device, since, limit, now)| <= PageLimit(limit)
  {
    var visible := Visible(rows, device, since, now);
    FirstInOrder(visible, Min(PageLimit(limit), |visible|));
    EntriesInOrder(rows, visible, PageIds(rows, device, since, limit, now));
  }

  /** The entry is that of the one row that waits under its id. */
  ghost predicate Genuine(run: Run, i: nat, entry: RelayEntry)
    requires i < |run| && run[i].op.FetchRelay?
  {
    && (exists row :: Returns(run, i, entry, row))
    && forall row | Waits(run, i, entry.id, row) :: Returns(run, i, entry, row)
  }

  lemma {:induction false} EntryReturned(states: seq<State>, run: Run, i: nat, entries: seq<RelayEntry>, n: nat)
    requires Behaviour(states, run) && i < |run| && run[i].op.FetchRelay? && n < |entries|
    requires InOrder(states[i].rows, Visible(states[i].rows, run[i].op.device, run[i].op.since, run[i].at), entries)
    ensures Genuine(run, i, entries[n])
  {
    var id := entries[n].id;
    forall row ensures Waits(run, i, id, row) <==> row == states[i].rows[id] {
      WaitsExactly(states, run, i, id, row);
    }
    assert Returns(run, i, entries[n], states[i].rows[id]);
  }

  ghost predicate ReturnsAll(run: Run, i: nat, entries: seq<RelayEntry>, limit: nat)
    requires i < |run| && run[i].op.FetchRelay?
  {
    && |entries| <= limit
    && (forall m, n | 0 <= m < n < |entries| :: entries[m].id < entries[n].id)
    && (forall n | 0 <= n < |entries| :: Genuine(run, i, entries[n]))
    && (forall id, row | Waits(run, i, id, row) :: Listed(entries, id) || Beyond(entries, limit, id))
  }

  lemma {:induction false} PageReturnsAll(states: seq<State>, run: Run, i: nat)
    requires Behaviour(states, run) && i < |run| && run[i].op.FetchRelay?
    ensures var op := run[i].op;
            ReturnsAll(run, i, Page(states[i].rows, op.device, op.since, op.limit, run[i].at), PageLimit(op.limit))
  {
    var op, rows := run[i].op, states[i].rows;
    var entries := Page(rows, op.device, op.since, op.limit, run[i].at);
    PageInOrder(rows, op.device, op.since, op.limit, run[i].at);
    forall n | 0 <= n < |entries| ensures Genuine(run, i, entries[n]) {
      EntryReturned(states, run, i, entries, n);
    }
    forall id, row | Waits(run, i, id, row) ensures Listed(entries, id) || Beyond(entries, PageLimit(op.limit), id) {
      WaitsExactly(states, run, i, id, row);
      ListedOrBeyond(rows, Visible(rows, op.device, op.since, run[i].at), PageLimit(op.limit), id);
    }
  }

  /** Over every run, what a fetch by the owner returns: in the order of their ids, each row
      that waits for the device after the cursor, with the ciphertext and nonce of its push;
      or the first 50 of them if no limit is given, and never more than 200. */
  lemma {:induction false} FetchedExactly(states: seq<State>, run: Run, i: nat)
    requires Behaviour(states, run) && i < |run| && run[i].op.FetchRelay? && ByOwner(run[i])
    ensures Answer(states, run, i).Entries?
    ensures var limit := if run[i].op.limit == 0 then 50 else Min(run[i].op.limit, 200);
            ReturnsAll(run, i, Answer(states, run, i).entries, limit)
  {
    OwnerAnsweredExactly(states[i], run[i]);
    PageReturnsAll(states, run, i);
    assert Answer(states, run, i) == Fetching(states[i], run[i].op, run[i].at);
  }

  /** Over every run, what a fetch of the blob by its owner returns: ciphertext and signature
      of the last one stored for the device, if it has not expired and was not deleted. */
  lemma {:induction false} BlobFetchedExactly(states: seq<State>, run: Run, i: nat, ciphertext: Bytes, signature: Bytes)
    requires Behaviour(states, run) && i < |run| && run[i].op.FetchBlob? && ByOwner(run[i])
    ensures Answer(states, run, i) == FetchedBlob(ciphertext, signature)
       <==> exists k: nat, expiresAt: Instant ::
              && StoredAndKept(run, i, k, run[i].op.device, Blob(ciphertext, signature, expiresAt))
              && expiresAt > run[i].at
    ensures Answer(states, run, i) == Refused(NotFound)
       <==> forall k: nat, blob: Blob | blob.expiresAt > run[i].at :: !StoredAndKept(run, i, k, run[i].op.device, blob)
  {
    var device, at := run[i].op.device, run[i].at;
    OwnerAnsweredExactly(states[i], run[i]);
    assert Answer(states, run, i) == FetchingBlob(states[i], run[i].op, at);
    if device in states[i].blobs && states[i].blobs[device].expiresAt > at {
      var blob := states[i].blobs[device];
      BlobKeptExactly(states, run, i, device, blob, at);
      var k: nat :| StoredAndKept(run, i, k, device, blob);
      assert blob == Blob(blob.ciphertext, blob.signature, blob.expiresAt);
    }
    forall k: nat, blob: Blob | blob.expiresAt > at && StoredAndKept(run, i, k, device, blob)
      ensures HasBlob(states[i].blobs, device, blob)
    {
      BlobKeptExactly(states, run, i, device, blob, at);
    }
  }
}
