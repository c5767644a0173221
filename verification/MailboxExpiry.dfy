/** Expiry cleanup cannot be observed: with cleanups at arbitrary points, every client
    gets the response it would have got without them. */
module MailboxExpiry {
  import opened Prelude
  import RateLimit
  import opened Mailbox

  /** A cleaned server agrees with an uncleaned one up to rows and blobs that have expired,
      and up to limiter buckets idle for two windows. */
  ghost predicate Simulates(cleaned: State, full: State, at: Instant) {
    && RateLimit.Simulates(RateLimit.RELAY_PUSH, cleaned.pushTable, full.pushTable, at)
    && RateLimit.Simulates(RateLimit.BLOB_PUSH, cleaned.blobTable, full.blobTable, at)
    && cleaned.nextId == full.nextId
    && RowsAgree(cleaned.rows, full.rows, at)
    && BlobsAgree(cleaned.blobs, full.blobs, at)
  }

  ghost predicate RowsAgree(cleaned: Rows, full: Rows, at: Instant) {
    && (forall id | id in cleaned :: id in full && full[id] == cleaned[id])
    && (forall id | id in full && id !in cleaned :: full[id].expiresAt < at)
  }

  ghost predicate BlobsAgree(cleaned: Blobs, full: Blobs, at: Instant) {
    && (forall d | d in cleaned :: d in full && full[d] == cleaned[d])
    && (forall d | d in full && d !in cleaned :: full[d].expiresAt < at)
  }

  lemma {:induction false} SimulatesLater(cleaned: State, full: State, at: Instant, later: Instant)
    requires Simulates(cleaned, full, at) && at <= later
    ensures Simulates(cleaned, full, later)
  {
    RateLimit.SimulationLater(RateLimit.RELAY_PUSH, cleaned.pushTable, full.pushTable, at, later);
    RateLimit.SimulationLater(RateLimit.BLOB_PUSH, cleaned.blobTable, full.blobTable, at, later);
  }

  // ---------------------------------------------------------------------------
  // A fetch reads the same page
  // ---------------------------------------------------------------------------

  lemma {:induction false} SameEntries(rows: Rows, rows': Rows, ids: seq<nat>)
    requires forall id | id in ids :: id in rows && id in rows' && rows[id] == rows'[id]
    ensures EntriesOf(rows, ids) == EntriesOf(rows', ids)
  {
    if ids != [] {
      SameEntries(rows, rows', ids[1..]);
    }
  }

  lemma {:induction false} SamePage(cleaned: Rows, full: Rows, device: Bytes, since: int, limit: nat, now: Instant)
    requires RowsAgree(cleaned, full, now)
    ensures Page(cleaned, device, since, limit, now) == Page(full, device, since, limit, now)
  {
    var ids := Visible(cleaned, device, since, now);
    assert ids == Visible(full, device, since, now);
    SameEntries(cleaned, full, PageIds(cleaned, device, since, limit, now));
  }

  // ---------------------------------------------------------------------------
  // One operation
  // ---------------------------------------------------------------------------

  ghost predicate Alike(cleaned: (State, Response), full: (State, Response), now: Instant) {
    Simulates(cleaned.0, full.0, now) && cleaned.1 == full.1
  }

  lemma {:induction false} RowsStillAgree(cleaned: Rows, full: Rows, id: nat, row: Row, device: Bytes, upTo: int,
                                          now: Instant)
    requires RowsAgree(cleaned, full, now)
    ensures RowsAgree(cleaned[id := row], full[id := row], now)
    ensures RowsAgree(Unacknowledged(cleaned, device, upTo), Unacknowledged(full, device, upTo), now)
  {
  }

  lemma {:induction false} BlobsStillAgree(cleaned: Blobs, full: Blobs, device: Bytes, blob: Blob, now: Instant)
    requires BlobsAgree(cleaned, full, now)
    ensures BlobsAgree(cleaned[device := blob], full[device := blob], now)
    ensures BlobsAgree(cleaned - {device}, full - {device}, now)
  {
  }

  lemma {:induction false} PostedAlike(cleaned: State, full: State, row: Row, now: Instant)
    requires Simulates(cleaned, full, now)
    ensures Simulates(Posted(cleaned, row), Posted(full, row), now)
  {
    RowsStillAgree(cleaned.rows, full.rows, cleaned.nextId, row, [], 0, now);
  }

  lemma {:induction false} PushLimitedAlike(cleaned: State, full: State, table: RateLimit.Table,
                                            table': RateLimit.Table, ok: bool, op: Operation, now: Instant)
    requires Simulates(cleaned, full, now) && op.PushRelay?
    requires RateLimit.Simulates(RateLimit.RELAY_PUSH, table, table', now)
    ensures Alike(PushLimited(cleaned, table, ok, op, now), PushLimited(full, table', ok, op, now), now)
  {
    PostedAlike(cleaned.(pushTable := table), full.(pushTable := table'), RowOf(op, now), now);
  }

  lemma {:induction false} PushSimulated(cleaned: State, full: State, op: Operation, now: Instant)
    requires Simulates(cleaned, full, now) && op.PushRelay?
    ensures Alike(Pushing(cleaned, op, now), Pushing(full, op, now), now)
  {
    RateLimit.SimulatedRequest(RateLimit.RELAY_PUSH, cleaned.pushTable, full.pushTable, op.sender, now, now);
    var (table, ok) := RateLimit.Decide(RateLimit.RELAY_PUSH, cleaned.pushTable, op.sender, now, now);
    var (table', _) := RateLimit.Decide(RateLimit.RELAY_PUSH, full.pushTable, op.sender, now, now);
    PushLimitedAlike(cleaned, full, table, table', ok, op, now);
  }

  lemma {:induction false} AckSimulated(cleaned: State, full: State, op: Operation, now: Instant)
    requires Simulates(cleaned, full, now) && op.AckRelay?
    ensures Alike(Acking(cleaned, op, now), Acking(full, op, now), now)
  {
    RowsStillAgree(cleaned.rows, full.rows, 0, Row([], [], [], 0), op.device, op.upTo, now);
  }

  lemma {:induction false} UpsertedAlike(cleaned: State, full: State, device: Bytes, blob: Blob, now: Instant)
    requires Simulates(cleaned, full, now)
    ensures Simulates(Upserted(cleaned, device, blob), Upserted(full, device, blob), now)
  {
    BlobsStillAgree(cleaned.blobs, full.blobs, device, blob, now);
  }

  lemma {:induction false} PushBlobLimitedAlike(cleaned: State, full: State, table: RateLimit.Table,
                                                table': RateLimit.Table, ok: bool, op: Operation, now: Instant)
    requires Simulates(cleaned, full, now) && op.PushBlob?
    requires RateLimit.Simulates(RateLimit.BLOB_PUSH, table, table', now)
    ensures Alike(PushBlobLimited(cleaned, table, ok, op, now), PushBlobLimited(full, table', ok, op, now), now)
  {
    UpsertedAlike(cleaned.(blobTable := table), full.(blobTable := table'), op.device, BlobOf(op, now), now);
  }

  lemma {:induction false} PushBlobSimulated(cleaned: State, full: State, op: Operation, now: Instant)
    requires Simulates(cleaned, full, now) && op.PushBlob?
    ensures Alike(PushingBlob(cleaned, op, now), PushingBlob(full, op, now), now)
  {
    RateLimit.SimulatedRequest(RateLimit.BLOB_PUSH, cleaned.blobTable, full.blobTable, op.sender, now, now);
    var (table, ok) := RateLimit.Decide(RateLimit.BLOB_PUSH, cleaned.blobTable, op.sender, now, now);
    var (table', _) := RateLimit.Decide(RateLimit.BLOB_PUSH, full.blobTable, op.sender, now, now);
    PushBlobLimitedAlike(cleaned, full, table, table', ok, op, now);
  }

  lemma {:induction false} DeleteBlobSimulated(cleaned: State, full: State, op: Operation, now: Instant)
    requires Simulates(cleaned, full, now) && op.DeleteBlob?
    ensures Alike(DeletingBlob(cleaned, op, now), DeletingBlob(full, op, now), now)
  {
    BlobsStillAgree(cleaned.blobs, full.blobs, op.device, Blob([], [], 0), now);
  }

  lemma {:induction false} FetchesAlike(cleaned: State, full: State, op: Operation, now: Instant)
    requires Simulates(cleaned, full, now)
    ensures op.FetchRelay? ==> Fetching(cleaned, op, now) == Fetching(full, op, now)
    ensures op.FetchBlob? ==> FetchingBlob(cleaned, op, now) == FetchingBlob(full, op, now)
  {
    if op.FetchRelay? {
      SamePage(cleaned.rows, full.rows, op.device, op.since, op.limit, now);
    }
  }

  lemma {:induction false} OperationSimulated(cleaned: State, full: State, op: Operation, now: Instant)
    requires Simulates(cleaned, full, now) && !IsCleanup(op)
    ensures Alike(Execute(cleaned, op, now), Execute(full, op, now), now)
  {
    match op {
      case PushRelay(_, _, _, _, _, _, _, _) => PushSimulated(cleaned, full, op, now);
      case AckRelay(_, _, _, _, _) => AckSimulated(cleaned, full, op, now);
      case PushBlob(_, _, _, _, _, _, _, _) => PushBlobSimulated(cleaned, full, op, now);
      case DeleteBlob(_, _, _, _) => DeleteBlobSimulated(cleaned, full, op, now);
      case _ => FetchesAlike(cleaned, full, op, now);
    }
  }

  /** Cleaning the cleaned server again keeps the simulation. */
  lemma {:induction false} CleanupSimulated(cleaned: State, full: State, op: Operation, now: Instant)
    requires Simulates(cleaned, full, now) && IsCleanup(op)
    ensures Simulates(Execute(cleaned, op, now).0, full, now)
  {
    RateLimit.SimulatedCleanup(RateLimit.RELAY_PUSH, cleaned.pushTable, full.pushTable, now);
    RateLimit.SimulatedCleanup(RateLimit.BLOB_PUSH, cleaned.blobTable, full.blobTable, now);
  }

  // ---------------------------------------------------------------------------
  // Runs
  // ---------------------------------------------------------------------------

  lemma {:induction false} RunSimulates(run: Run, at: Instant)
    requires Ordered(run) && (run != [] ==> run[|run| - 1].at <= at)
    ensures Simulates(After(run), After(Uncleaned(run)), at)
  {
    if run != [] {
      var before, last := run[..|run| - 1], run[|run| - 1];
      RunSimulates(before, last.at);
      var cleaned, full := After(before), After(Uncleaned(before));
      if IsCleanup(last.op) {
        CleanupSimulated(cleaned, full, last.op, last.at);
      } else {
        OperationSimulated(cleaned, full, last.op, last.at);
        assert Uncleaned(run)[..|Uncleaned(run)| - 1] == Uncleaned(before);
      }
      SimulatesLater(After(run), After(Uncleaned(run)), last.at, at);
    }
  }

  /** Any run of relay and blob operations returns the same responses as the run
      with every cleanup left out. */
  lemma {:induction false} CleanupUnobservable(run: Run)
    requires Ordered(run)
    ensures Responses(run) == Responses(Uncleaned(run))
  {
    if run != [] {
      var before, last := run[..|run| - 1], run[|run| - 1];
      CleanupUnobservable(before);
      if !IsCleanup(last.op) {
        RunSimulates(before, last.at);
        OperationSimulated(After(before), After(Uncleaned(before)), last.op, last.at);
        assert Uncleaned(run)[..|Uncleaned(run)| - 1] == Uncleaned(before);
      }
    }
  }
}
