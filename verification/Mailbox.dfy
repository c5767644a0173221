/** The relay mailboxes and the sync blobs: tables of opaque ciphertext that expire,
    filled by rate-limited anonymous senders and read by the owner of a device key.
    A `verified` argument is the result of the signature check. */
module Mailbox {
  import opened Prelude
  import opened RateLimit
  import opened Ordering

  const MAX_TTL: nat := 86_400
  const MIN_TTL: nat := 60
  const MAX_BLOB_TTL: nat := 3_600
  const DEFAULT_LIMIT: nat := 50
  const MAX_LIMIT: nat := 200
  const NONCE_SIZE: nat := 12
  const TIMESTAMP_TOLERANCE: nat := 900

  datatype Row = Row(device: Bytes, ciphertext: Bytes, nonce: Bytes, expiresAt: Instant)

  datatype Blob = Blob(ciphertext: Bytes, signature: Bytes, expiresAt: Instant)

  type Rows = map<nat, Row>
  type Blobs = map<Bytes, Blob>

  datatype State = State(pushTable: Table, blobTable: Table, rows: Rows, nextId: nat, blobs: Blobs)

  const INITIAL := State(map[], map[], map[], 1, map[])

  datatype RelayEntry = RelayEntry(id: nat, ciphertext: Bytes, nonce: Bytes)

  datatype Operation =
    | PushRelay(device: Bytes, ciphertext: Bytes, nonce: Bytes, sender: Bytes, signature: Bytes,
                timestamp: nat, ttl: nat, verified: bool)
    | FetchRelay(device: Bytes, since: int, limit: nat, signature: Bytes, timestamp: nat, verified: bool)
    | AckRelay(device: Bytes, upTo: int, signature: Bytes, timestamp: nat, verified: bool)
    | PushBlob(device: Bytes, ciphertext: Bytes, blobSignature: Bytes, sender: Bytes, signature: Bytes,
               timestamp: nat, ttl: nat, verified: bool)
    | FetchBlob(device: Bytes, signature: Bytes, timestamp: nat, verified: bool)
    | DeleteBlob(device: Bytes, signature: Bytes, timestamp: nat, verified: bool)
    | CleanLimiters
    | PurgeExpired

  datatype Refusal =
    | EmptyDevice | InvalidPayload | SenderRequired | SignatureRequired
    | StaleTimestamp | RateLimited | InvalidSignature | NotFound

  datatype Response =
    | Refused(reason: Refusal)
    | Pushed(id: nat)
    | Entries(entries: seq<RelayEntry>)
    | FetchedBlob(ciphertext: Bytes, signature: Bytes)
    | Done

  /** A request is fresh if its time stamp, in seconds, is within 15 minutes of the server's. */
  predicate Fresh(timestamp: nat, now: Instant) {
    var secs := now / 1_000_000_000;
    secs <= timestamp + TIMESTAMP_TOLERANCE && timestamp <= secs + TIMESTAMP_TOLERANCE
  }

  function Clamp(ttl: nat, maxTtl: nat): nat
    requires MIN_TTL <= maxTtl
  {
    Max(Min(ttl, maxTtl), MIN_TTL)
  }

  function PageLimit(limit: nat): nat {
    if limit == 0 then DEFAULT_LIMIT else Min(limit, MAX_LIMIT)
  }

  // ---------------------------------------------------------------------------
  // Relay
  // ---------------------------------------------------------------------------

  /** The checks that precede the rate limiter. */
  function PushRefusal(op: Operation, now: Instant): Option<Refusal>
    requires op.PushRelay? || op.PushBlob?
  {
    if op.device == [] then Some(EmptyDevice)
    else if op.ciphertext == [] || (op.PushRelay? && |op.nonce| != NONCE_SIZE) then Some(InvalidPayload)
    else if op.sender == [] || op.signature == [] then Some(SenderRequired)
    else if !Fresh(op.timestamp, now) then Some(StaleTimestamp)
    else None
  }

  /** The checks of a request by the owner of a device key. */
  function OwnerRefusal(op: Operation, now: Instant): Option<Refusal>
    requires op.FetchRelay? || op.AckRelay? || op.FetchBlob? || op.DeleteBlob?
  {
    if op.device == [] then Some(EmptyDevice)
    else if op.signature == [] then Some(SignatureRequired)
    else if !Fresh(op.timestamp, now) then Some(StaleTimestamp)
    else if !op.verified then Some(InvalidSignature)
    else None
  }

  function RowOf(op: Operation, now: Instant): Row
    requires op.PushRelay?
  {
    Row(op.device, op.ciphertext, op.nonce, now + Seconds(Clamp(op.ttl, MAX_TTL)))
  }

  /** The insert: ids come from a sequence. */
  function Posted(s: State, row: Row): State {
    s.(rows := s.rows[s.nextId := row], nextId := s.nextId + 1)
  }

  /** The rest of a push, once the limiter has answered. */
  function PushLimited(s: State, table: Table, ok: bool, op: Operation, now: Instant): (State, Response)
    requires op.PushRelay?
  {
    var s' := s.(pushTable := table);
    if !ok then (s', Refused(RateLimited))
    else if !op.verified then (s', Refused(InvalidSignature))
    else
      (Posted(s', RowOf(op, now)), Pushed(s.nextId))
  }

  function Pushing(s: State, op: Operation, now: Instant): (State, Response)
    requires op.PushRelay?
  {
    var refusal := PushRefusal(op, now);
    if refusal.Some? then (s, Refused(refusal.value))
    else
      var (table, ok) := Decide(RELAY_PUSH, s.pushTable, op.sender, now, now);
      PushLimited(s, table, ok, op, now)
  }

  /** Ids of a mailbox after a cursor that have not expired. */
  function Visible(rows: Rows, device: Bytes, since: int, now: Instant): set<nat> {
    set id | id in rows && rows[id].device == device && id > since && rows[id].expiresAt > now
  }

  function EntryOf(rows: Rows, id: nat): RelayEntry
    requires id in rows
  {
    RelayEntry(id, rows[id].ciphertext, rows[id].nonce)
  }

  function EntriesOf(rows: Rows, ids: seq<nat>): (entries: seq<RelayEntry>)
    requires forall id | id in ids :: id in rows
    ensures |entries| == |ids|
  {
    if ids == [] then [] else [EntryOf(rows, ids[0])] + EntriesOf(rows, ids[1..])
  }

  /** The unexpired mailbox after a cursor, in id order. */
  function Listing(rows: Rows, device: Bytes, since: int, now: Instant): seq<RelayEntry> {
    var ids := Visible(rows, device, since, now);
    EntriesOf(rows, Sorted(ids))
  }

  /** The ids of one page: the first ones after the cursor. */
  function PageIds(rows: Rows, device: Bytes, since: int, limit: nat, now: Instant): (page: seq<nat>)
    ensures forall id | id in page :: id in Visible(rows, device, since, now)
  {
    var visible := Visible(rows, device, since, now);
    First(visible, Min(PageLimit(limit), |visible|))
  }

  function Page(rows: Rows, device: Bytes, since: int, limit: nat, now: Instant): seq<RelayEntry> {
    EntriesOf(rows, PageIds(rows, device, since, limit, now))
  }

  function Fetching(s: State, op: Operation, now: Instant): Response
    requires op.FetchRelay?
  {
    var refusal := OwnerRefusal(op, now);
    if refusal.Some? then Refused(refusal.value)
    else Entries(Page(s.rows, op.device, op.since, op.limit, now))
  }

  function Unacknowledged(rows: Rows, device: Bytes, upTo: int): Rows {
    map id | id in rows && !(rows[id].device == device && id <= upTo) :: rows[id]
  }

  function Acking(s: State, op: Operation, now: Instant): (State, Response)
    requires op.AckRelay?
  {
    var refusal := OwnerRefusal(op, now);
    if refusal.Some? then (s, Refused(refusal.value))
    else (s.(rows := Unacknowledged(s.rows, op.device, op.upTo)), Done)
  }

  // ---------------------------------------------------------------------------
  // Sync blobs
  // ---------------------------------------------------------------------------

  function BlobOf(op: Operation, now: Instant): Blob
    requires op.PushBlob?
  {
    Blob(op.ciphertext, op.blobSignature, now + Seconds(Clamp(op.ttl, MAX_BLOB_TTL)))
  }

  /** The insert that updates on conflict: one blob per device. */
  function Upserted(s: State, device: Bytes, blob: Blob): State {
    s.(blobs := s.blobs[device := blob])
  }

  function PushBlobLimited(s: State, table: Table, ok: bool, op: Operation, now: Instant): (State, Response)
    requires op.PushBlob?
  {
    var s' := s.(blobTable := table);
    if !ok then (s', Refused(RateLimited))
    else if !op.verified then (s', Refused(InvalidSignature))
    else
      (Upserted(s', op.device, BlobOf(op, now)), Done)
  }

  function PushingBlob(s: State, op: Operation, now: Instant): (State, Response)
    requires op.PushBlob?
  {
    var refusal := PushRefusal(op, now);
    if refusal.Some? then (s, Refused(refusal.value))
    else
      var (table, ok) := Decide(BLOB_PUSH, s.blobTable, op.sender, now, now);
      PushBlobLimited(s, table, ok, op, now)
  }

  function FetchingBlob(s: State, op: Operation, now: Instant): Response
    requires op.FetchBlob?
  {
    var refusal := OwnerRefusal(op, now);
    if refusal.Some? then Refused(refusal.value)
    else if op.device in s.blobs && s.blobs[op.device].expiresAt > now
    then FetchedBlob(s.blobs[op.device].ciphertext, s.blobs[op.device].signature)
    else Refused(NotFound)
  }

  function DeletingBlob(s: State, op: Operation, now: Instant): (State, Response)
    requires op.DeleteBlob?
  {
    var refusal := OwnerRefusal(op, now);
    if refusal.Some? then (s, Refused(refusal.value))
    else (s.(blobs := s.blobs - {op.device}), Done)
  }

  // ---------------------------------------------------------------------------
  // Periodic cleanup
  // ---------------------------------------------------------------------------

  function LimitersCleaned(s: State, now: Instant): State {
    s.(pushTable := Retained(RELAY_PUSH, s.pushTable, now), blobTable := Retained(BLOB_PUSH, s.blobTable, now))
  }

  function Unexpired(rows: Rows, now: Instant): Rows {
    map id | id in rows && !(rows[id].expiresAt < now) :: rows[id]
  }

  function UnexpiredBlobs(blobs: Blobs, now: Instant): Blobs {
    map d | d in blobs && !(blobs[d].expiresAt < now) :: blobs[d]
  }

  function Purged(s: State, now: Instant): State {
    s.(rows := Unexpired(s.rows, now), blobs := UnexpiredBlobs(s.blobs, now))
  }

  function Execute(s: State, op: Operation, now: Instant): (State, Response) {
    match op
    case PushRelay(_, _, _, _, _, _, _, _) => Pushing(s, op, now)
    case FetchRelay(_, _, _, _, _, _) => (s, Fetching(s, op, now))
    case AckRelay(_, _, _, _, _) => Acking(s, op, now)
    case PushBlob(_, _, _, _, _, _, _, _) => PushingBlob(s, op, now)
    case FetchBlob(_, _, _, _) => (s, FetchingBlob(s, op, now))
    case DeleteBlob(_, _, _, _) => DeletingBlob(s, op, now)
    case CleanLimiters => (LimitersCleaned(s, now), Done)
    case PurgeExpired => (Purged(s, now), Done)
  }

  // ---------------------------------------------------------------------------
  // The server
  // ---------------------------------------------------------------------------

  class Server {
    const pushLimiter: KeyRateLimiter
    const blobLimiter: KeyRateLimiter
    var rows: Rows
    var nextId: nat
    var blobs: Blobs

    ghost predicate Valid() {
      pushLimiter != blobLimiter && pushLimiter.limits == RELAY_PUSH && blobLimiter.limits == BLOB_PUSH
    }

    ghost function Contents(): State
      reads this, pushLimiter, blobLimiter
    {
      State(pushLimiter.entries, blobLimiter.entries, rows, nextId, blobs)
    }

    constructor ()
      ensures Valid() && Contents() == INITIAL
      ensures fresh(pushLimiter) && fresh(blobLimiter)
    {
      pushLimiter := new KeyRateLimiter(RELAY_PUSH);
      blobLimiter := new KeyRateLimiter(BLOB_PUSH);
      rows, nextId, blobs := map[], 1, map[];
    }

    method PushRelay(op: Operation, now: Instant) returns (response: Response)
      requires Valid() && op.PushRelay?
      modifies this`rows, this`nextId, pushLimiter
      ensures (Contents(), response) == Pushing(old(Contents()), op, now)
    {
      var refusal := PushRefusal(op, now);
      if refusal.Some? {
        return Refused(refusal.value);
      }
      var ok := pushLimiter.IsAllowed(op.sender, now, now);
      if !ok {
        return Refused(RateLimited);
      }
      if !op.verified {
        return Refused(InvalidSignature);
      }
      var ttl := Clamp(op.ttl, MAX_TTL);
      response := Pushed(nextId);
      rows := rows[nextId := Row(op.device, op.ciphertext, op.nonce, now + Seconds(ttl))];
      nextId := nextId + 1;
    }

    method FetchRelay(op: Operation, now: Instant) returns (response: Response)
      requires Valid() && op.FetchRelay?
      ensures response == Fetching(Contents(), op, now)
    {
      var refusal := OwnerRefusal(op, now);
      if refusal.Some? {
        return Refused(refusal.value);
      }
      response := Entries(Page(rows, op.device, op.since, op.limit, now));
    }

    method AckRelay(op: Operation, now: Instant) returns (response: Response)
      requires Valid() && op.AckRelay?
      modifies this`rows
      ensures (Contents(), response) == Acking(old(Contents()), op, now)
    {
      var refusal := OwnerRefusal(op, now);
      if refusal.Some? {
        return Refused(refusal.value);
      }
      rows := map id | id in rows && !(rows[id].device == op.device && id <= op.upTo) :: rows[id];
      response := Done;
    }

    method PushBlob(op: Operation, now: Instant) returns (response: Response)
      requires Valid() && op.PushBlob?
      modifies this`blobs, blobLimiter
      ensures (Contents(), response) == PushingBlob(old(Contents()), op, now)
    {
      var refusal := PushRefusal(op, now);
      if refusal.Some? {
        return Refused(refusal.value);
      }
      var ok := blobLimiter.IsAllowed(op.sender, now, now);
      if !ok {
        return Refused(RateLimited);
      }
      if !op.verified {
        return Refused(InvalidSignature);
      }
      var ttl := Clamp(op.ttl, MAX_BLOB_TTL);
      blobs := blobs[op.device := Blob(op.ciphertext, op.blobSignature, now + Seconds(ttl))];
      response := Done;
    }

    method FetchBlob(op: Operation, now: Instant) returns (response: Response)
      requires Valid() && op.FetchBlob?
      ensures response == FetchingBlob(Contents(), op, now)
    {
      var refusal := OwnerRefusal(op, now);
      if refusal.Some? {
        response := Refused(refusal.value);
      } else if op.device in blobs && blobs[op.device].expiresAt > now {
        response := FetchedBlob(blobs[op.device].ciphertext, blobs[op.device].signature);
      } else {
        response := Refused(NotFound);
      }
    }

    method DeleteBlob(op: Operation, now: Instant) returns (response: Response)
      requires Valid() && op.DeleteBlob?
      modifies this`blobs
      ensures (Contents(), response) == DeletingBlob(old(Contents()), op, now)
    {
      var refusal := OwnerRefusal(op, now);
      if refusal.Some? {
        return Refused(refusal.value);
      }
      blobs := blobs - {op.device};
      response := Done;
    }

    method CleanLimiters(at: Instant)
      requires Valid()
      modifies pushLimiter, blobLimiter
      ensures Contents() == LimitersCleaned(old(Contents()), at)
    {
      pushLimiter.Cleanup(at);
      blobLimiter.Cleanup(at);
    }

    method DeleteExpired(now: Instant)
      modifies this`rows, this`blobs
      ensures Contents() == Purged(old(Contents()), now)
    {
      rows := map id | id in rows && !(rows[id].expiresAt < now) :: rows[id];
      blobs := map d | d in blobs && !(blobs[d].expiresAt < now) :: blobs[d];
    }
  }

  // ---------------------------------------------------------------------------
  // Runs
  // ---------------------------------------------------------------------------

  datatype Event = Event(op: Operation, at: Instant)

  type Run = seq<Event>

  ghost predicate Ordered(run: Run) {
    forall i, j | 0 <= i < j < |run| :: run[i].at <= run[j].at
  }

  function After(run: Run): State {
    if run == [] then INITIAL else Execute(After(run[..|run| - 1]), run[|run| - 1].op, run[|run| - 1].at).0
  }

  predicate IsCleanup(op: Operation) {
    op.CleanLimiters? || op.PurgeExpired?
  }

  /** The responses to the clients, in order. */
  function Responses(run: Run): seq<Response> {
    if run == [] then []
    else
      var before, last := run[..|run| - 1], run[|run| - 1];
      if IsCleanup(last.op) then Responses(before)
      else Responses(before) + [Execute(After(before), last.op, last.at).1]
  }

  function Uncleaned(run: Run): Run {
    if run == [] then []
    else
      var before, last := run[..|run| - 1], run[|run| - 1];
      if IsCleanup(last.op) then Uncleaned(before) else Uncleaned(before) + [last]
  }
}
