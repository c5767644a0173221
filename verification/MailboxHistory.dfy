/** What the relay and blob tables hold, told from the history of requests alone. */
module MailboxHistory {
  import opened Prelude
  import opened Mailbox
  import opened MailboxAnswers
  import opened Latches
  import MailboxQuota

  ghost predicate IdsBelow(s: State) {
    forall id | id in s.rows :: id < s.nextId
  }

  lemma {:induction false} RunKeepsIdsBelow(states: seq<State>, run: Run, i: nat)
    requires Behaviour(states, run) && i < |states|
    ensures IdsBelow(states[i])
  {
    if i > 0 {
      RunKeepsIdsBelow(states, run, i - 1);
      assert Leads(states[i - 1], run[i - 1], states[i - 1 + 1]);
      MailboxQuota.RowsOnlyLeave(states[i - 1], run[i - 1]);
    }
  }

  // ---------------------------------------------------------------------------
  // Relay rows
  // ---------------------------------------------------------------------------

  ghost predicate HasRow(rows: Rows, id: nat, row: Row) {
    id in rows && rows[id] == row
  }

  /** Event `k` is a push that is stored under `id`; it lives between a minute and a day. */
  ghost predicate Pushes(run: Run, k: nat, id: nat, row: Row) {
    && PushAccepted(run, k) && id == CountAccepted(run, k) + 1
    && row == Row(run[k].op.device, run[k].op.ciphertext, run[k].op.nonce,
                  run[k].at + Seconds(Max(60, Min(run[k].op.ttl, 86_400))))
  }

  /** The event is an acknowledgement by the row's owner, of its id or a greater one. */
  predicate Acknowledges(e: Event, id: nat, row: Row) {
    e.op.AckRelay? && ByOwner(e) && e.op.device == row.device && id <= e.op.upTo
  }

  predicate Removes(e: Event, id: nat, row: Row) {
    Acknowledges(e, id, row) || (e.op.PurgeExpired? && row.expiresAt < e.at)
  }

  ghost predicate RowFollows(rows: Rows, run: Run, j: nat, rows': Rows, id: nat, row: Row)
    requires j < |run|
  {
    HasRow(rows', id, row) <==> Pushes(run, j, id, row) || (HasRow(rows, id, row) && !Removes(run[j], id, row))
  }

  lemma {:induction false} PushRow(s: State, e: Event, id: nat, row: Row)
    requires e.op.PushRelay? && IdsBelow(s)
    ensures HasRow(Pushing(s, e.op, e.at).0.rows, id, row)
       <==> || (Pushing(s, e.op, e.at).1.Pushed? && id == s.nextId && row == RowOf(e.op, e.at))
            || HasRow(s.rows, id, row)
  {
  }

  lemma {:induction false} OtherRow(s: State, e: Event, id: nat, row: Row)
    requires !e.op.PushRelay?
    ensures HasRow(Execute(s, e.op, e.at).0.rows, id, row) <==> HasRow(s.rows, id, row) && !Removes(e, id, row)
  {
    if e.op.AckRelay? {
      assert Execute(s, e.op, e.at) == Acking(s, e.op, e.at);
    } else if e.op.PurgeExpired? {
      assert Execute(s, e.op, e.at).0 == Purged(s, e.at);
    } else {
      assert Execute(s, e.op, e.at).0.rows == s.rows;
    }
  }

  lemma {:induction false} RowNext(states: seq<State>, run: Run, j: nat, id: nat, row: Row)
    requires Behaviour(states, run) && j < |run|
    ensures RowFollows(states[j].rows, run, j, states[j + 1].rows, id, row)
  {
    assert Leads(states[j], run[j], states[j + 1]);
    if run[j].op.PushRelay? {
      RunKeepsIdsBelow(states, run, j);
      NextIdCounts(states, run, j);
      PushedWhenAccepted(states, run, j);
      PushRow(states[j], run[j], id, row);
    } else {
      OtherRow(states[j], run[j], id, row);
    }
  }

  /** Event `k` stored the row, and no event since took it away. */
  ghost predicate RowStands(run: Run, i: nat, k: nat, id: nat, row: Row)
    requires i <= |run|
  {
    k < i && Pushes(run, k, id, row) && forall j | k < j < i :: !Removes(run[j], id, row)
  }

  /** Event `k` stored the row, and its owner has not acknowledged it since. */
  ghost predicate PushedAndKept(run: Run, i: nat, k: nat, id: nat, row: Row)
    requires i <= |run|
  {
    k < i && Pushes(run, k, id, row) && forall j | k < j < i :: !Acknowledges(run[j], id, row)
  }

  lemma {:induction false} RowLatch(tables: seq<Rows>, run: Run, i: nat, id: nat, row: Row)
    requires i <= |run| && i < |tables| && tables[0] == map[]
    requires forall j: nat | j < i :: RowFollows(tables[j], run, j, tables[j + 1], id, row)
    ensures HasRow(tables[i], id, row) <==> exists k: nat :: RowStands(run, i, k, id, row)
  {
    ghost var has := (j: nat) => j < |tables| && HasRow(tables[j], id, row);
    ghost var gained := (j: nat) => Pushes(run, j, id, row);
    ghost var lost := (j: nat) => j < |run| && Removes(run[j], id, row);
    forall j: nat | j < i ensures has(j + 1) <==> gained(j) || (has(j) && !lost(j)) {
      assert RowFollows(tables[j], run, j, tables[j + 1], id, row);
    }
    LatchHolds(has, gained, lost, i);
    forall k: nat ensures Stands(gained, lost, i, k) <==> RowStands(run, i, k, id, row) {
      assert forall j: nat | j < i :: lost(j) <==> Removes(run[j], id, row);
    }
  }

  lemma {:induction false} RowsExactly(states: seq<State>, run: Run, i: nat, id: nat, row: Row)
    requires Behaviour(states, run) && i < |states|
    ensures HasRow(states[i].rows, id, row) <==> exists k: nat :: RowStands(run, i, k, id, row)
  {
    var tables := seq(|states|, j requires 0 <= j < |states| => states[j].rows);
    forall j: nat | j < i ensures RowFollows(tables[j], run, j, tables[j + 1], id, row) {
      RowNext(states, run, j, id, row);
    }
    RowLatch(tables, run, i, id, row);
  }

  /** An unexpired row is in the table exactly when a push with just that content and
      lifetime was stored under its id, and its owner has not acknowledged it since. */
  lemma {:induction false} KeptExactly(states: seq<State>, run: Run, i: nat, id: nat, row: Row, now: Instant)
    requires Behaviour(states, run) && i < |states| && forall j | 0 <= j < i :: run[j].at <= now
    requires row.expiresAt > now
    ensures HasRow(states[i].rows, id, row) <==> exists k: nat :: PushedAndKept(run, i, k, id, row)
  {
    RowsExactly(states, run, i, id, row);
    assert forall j | 0 <= j < i :: Removes(run[j], id, row) <==> Acknowledges(run[j], id, row);
    assert forall k: nat :: RowStands(run, i, k, id, row) <==> PushedAndKept(run, i, k, id, row);
  }

  // ---------------------------------------------------------------------------
  // Blobs
  // ---------------------------------------------------------------------------

  ghost predicate HasBlob(blobs: Blobs, device: Bytes, blob: Blob) {
    device in blobs && blobs[device] == blob
  }

  /** Event `k` stores a blob for the device. */
  ghost predicate StoresFor(run: Run, k: nat, device: Bytes) {
    BlobAccepted(run, k) && run[k].op.device == device
  }

  /** Event `k` stores the blob, for between a minute and an hour. */
  ghost predicate Stores(run: Run, k: nat, device: Bytes, blob: Blob) {
    && StoresFor(run, k, device)
    && blob == Blob(run[k].op.ciphertext, run[k].op.blobSignature,
                    run[k].at + Seconds(Max(60, Min(run[k].op.ttl, 3_600))))
  }

  /** Event `k` stores another blob for the device, or is its owner's deletion of the blob. */
  ghost predicate Replaces(run: Run, k: nat, device: Bytes) {
    || StoresFor(run, k, device)
    || (k < |run| && run[k].op.DeleteBlob? && ByOwner(run[k]) && run[k].op.device == device)
  }

  ghost predicate Drops(run: Run, k: nat, device: Bytes, blob: Blob) {
    Replaces(run, k, device) || (k < |run| && run[k].op.PurgeExpired? && blob.expiresAt < run[k].at)
  }

  ghost predicate BlobFollows(blobs: Blobs, run: Run, j: nat, blobs': Blobs, device: Bytes, blob: Blob) {
    HasBlob(blobs', device, blob)
    <==> Stores(run, j, device, blob) || (HasBlob(blobs, device, blob) && !Drops(run, j, device, blob))
  }

  lemma {:induction false} PushedBlob(s: State, e: Event, device: Bytes, blob: Blob)
    requires e.op.PushBlob?
    ensures var (s', answer) := PushingBlob(s, e.op, e.at);
            var stored := answer == Done && e.op.device == device;
            HasBlob(s'.blobs, device, blob)
            <==> if stored then blob == BlobOf(e.op, e.at) else HasBlob(s.blobs, device, blob)
  {
  }

  lemma {:induction false} OtherBlob(s: State, run: Run, j: nat, device: Bytes, blob: Blob)
    requires j < |run| && !run[j].op.PushBlob?
    ensures BlobFollows(s.blobs, run, j, Execute(s, run[j].op, run[j].at).0.blobs, device, blob)
  {
    var e := run[j];
    if e.op.DeleteBlob? {
      assert Execute(s, e.op, e.at) == DeletingBlob(s, e.op, e.at);
    } else if e.op.PurgeExpired? {
      assert Execute(s, e.op, e.at).0 == Purged(s, e.at);
    } else {
      assert Execute(s, e.op, e.at).0.blobs == s.blobs;
    }
  }

  lemma {:induction false} BlobNext(states: seq<State>, run: Run, j: nat, device: Bytes, blob: Blob)
    requires Behaviour(states, run) && j < |run|
    ensures BlobFollows(states[j].blobs, run, j, states[j + 1].blobs, device, blob)
  {
    assert Leads(states[j], run[j], states[j + 1]);
    if run[j].op.PushBlob? {
      BlobAnsweredExactly(states, run, j);
      PushedBlob(states[j], run[j], device, blob);
    } else {
      OtherBlob(states[j], run, j, device, blob);
    }
  }

  ghost predicate BlobStands(run: Run, i: nat, k: nat, device: Bytes, blob: Blob) {
    k < i && Stores(run, k, device, blob) && forall j | k < j < i :: !Drops(run, j, device, blob)
  }

  /** Event `k` stored the blob, and none since replaced or deleted it. */
  ghost predicate StoredAndKept(run: Run, i: nat, k: nat, device: Bytes, blob: Blob) {
    k < i && Stores(run, k, device, blob) && forall j | k < j < i :: !Replaces(run, j, device)
  }

  lemma {:induction false} BlobLatch(tables: seq<Blobs>, run: Run, i: nat, device: Bytes, blob: Blob)
    requires i < |tables| && tables[0] == map[]
    requires forall j: nat | j < i :: BlobFollows(tables[j], run, j, tables[j + 1], device, blob)
    ensures HasBlob(tables[i], device, blob) <==> exists k: nat :: BlobStands(run, i, k, device, blob)
  {
    ghost var has := (j: nat) => j < |tables| && HasBlob(tables[j], device, blob);
    ghost var gained := (j: nat) => Stores(run, j, device, blob);
    ghost var lost := (j: nat) => Drops(run, j, device, blob);
    forall j: nat | j < i ensures has(j + 1) <==> gained(j) || (has(j) && !lost(j)) {
      assert BlobFollows(tables[j], run, j, tables[j + 1], device, blob);
    }
    LatchHolds(has, gained, lost, i);
    forall k: nat ensures Stands(gained, lost, i, k) <==> BlobStands(run, i, k, device, blob) {
      assert forall j: nat | j < i :: lost(j) <==> Drops(run, j, device, blob);
    }
  }

  lemma {:induction false} BlobsExactly(states: seq<State>, run: Run, i: nat, device: Bytes, blob: Blob)
    requires Behaviour(states, run) && i < |states|
    ensures HasBlob(states[i].blobs, device, blob) <==> exists k: nat :: BlobStands(run, i, k, device, blob)
  {
    var tables := seq(|states|, j requires 0 <= j < |states| => states[j].blobs);
    forall j: nat | j < i ensures BlobFollows(tables[j], run, j, tables[j + 1], device, blob) {
      BlobNext(states, run, j, device, blob);
    }
    BlobLatch(tables, run, i, device, blob);
  }

  /** An unexpired blob is the device's exactly when it is the last one stored for it and
      was not deleted since. */
  lemma {:induction false} BlobKeptExactly(states: seq<State>, run: Run, i: nat, device: Bytes, blob: Blob,
                                           now: Instant)
    requires Behaviour(states, run) && i < |states| && forall j | 0 <= j < i :: run[j].at <= now
    requires blob.expiresAt > now
    ensures HasBlob(states[i].blobs, device, blob) <==> exists k: nat :: StoredAndKept(run, i, k, device, blob)
  {
    BlobsExactly(states, run, i, device, blob);
    assert forall j | 0 <= j < i :: Drops(run, j, device, blob) <==> Replaces(run, j, device);
    assert forall k: nat :: BlobStands(run, i, k, device, blob) <==> StoredAndKept(run, i, k, device, blob);
  }
}
