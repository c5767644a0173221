/** The per-key fixed-window rate limiter: one request counter per key bucket, a
    window that restarts at the first request after it ran out, and a periodic
    cleanup of idle buckets. */
module RateLimit {
  import opened Prelude

  datatype Limits = Limits(maxRequests: nat, windowSecs: nat)

  const RELAY_PUSH := Limits(60, 60)
  const BLOB_PUSH := Limits(20, 60)
  const MID_MESSAGE := Limits(1, 10)
  const LARGE_MESSAGE := Limits(1, 30)

  const BUCKET_SIZE: nat := 32

  type Bucket = k: Bytes | |k| == BUCKET_SIZE witness seq(BUCKET_SIZE, _ => 0)

  /** When the window opened, and the requests it has admitted. */
  datatype Entry = Entry(start: Instant, count: nat)

  type Table = map<Bucket, Entry>

  /** A key is cut, or padded with zeros, to 32 bytes. */
  function BucketOf(key: Bytes): Bucket {
    var len := Min(|key|, BUCKET_SIZE);
    key[..len] + seq(BUCKET_SIZE - len, _ => 0)
  }

  /** Byte `i` of a key read as if zeros followed its end. */
  function ByteAt(key: Bytes, i: nat): byte {
    if i < |key| then key[i] else 0
  }

  /** Two keys share a counter exactly when their first 32 bytes agree. */
  lemma {:induction false} BucketsMerge(key: Bytes, other: Bytes)
    ensures BucketOf(key) == BucketOf(other) <==>
            forall i | 0 <= i < 32 :: ByteAt(key, i) == ByteAt(other, i)
  {
    assert forall i | 0 <= i < BUCKET_SIZE :: BucketOf(key)[i] == ByteAt(key, i);
    assert forall i | 0 <= i < BUCKET_SIZE :: BucketOf(other)[i] == ByteAt(other, i);
  }

  /** `Instant::elapsed` in whole seconds; it saturates at zero. */
  function ElapsedSecs(since: Instant, at: Instant): nat {
    if at <= since then 0 else (at - since) / 1_000_000_000
  }

  /** Rounding down to seconds does not blur the comparison with a whole number. */
  lemma {:induction false} ElapsedIsExact(since: Instant, at: Instant, secs: nat)
    requires since <= at
    ensures ElapsedSecs(since, at) >= secs <==> at >= since + Seconds(secs)
  {
  }

  // ---------------------------------------------------------------------------
  // One request and one cleanup, on values
  // ---------------------------------------------------------------------------

  /** What a request does to its bucket's entry, and whether it is admitted. `now`
      was read before the lock was taken, `at` is the instant under the lock. */
  function Count(limits: Limits, found: Option<Entry>, now: Instant, at: Instant): (Entry, bool) {
    var entry := if found.Some? then found.value else Entry(now, 0);
    if ElapsedSecs(entry.start, at) >= limits.windowSecs then
      (Entry(now, 1), true)
    else if entry.count < limits.maxRequests then
      (entry.(count := entry.count + 1), true)
    else
      (entry, false)
  }

  function Lookup(table: Table, bucket: Bucket): Option<Entry> {
    if bucket in table then Some(table[bucket]) else None
  }

  function Decide(limits: Limits, table: Table, key: Bytes, now: Instant, at: Instant): (Table, bool) {
    if key == [] then
      (table, false)
    else
      var bucket := BucketOf(key);
      var (entry, ok) := Count(limits, Lookup(table, bucket), now, at);
      (table[bucket := entry], ok)
  }

  /** The entries that a cleanup keeps. */
  function Retained(limits: Limits, table: Table, at: Instant): Table {
    map k | k in table && ElapsedSecs(table[k].start, at) < limits.windowSecs * 2 :: table[k]
  }

  // ---------------------------------------------------------------------------
  // The limiter itself
  // ---------------------------------------------------------------------------

  class KeyRateLimiter {
    var entries: Table
    const limits: Limits

    constructor (limits: Limits)
      ensures entries == map[] && this.limits == limits
    {
      this.limits := limits;
      entries := map[];
    }

    method IsAllowed(key: Bytes, now: Instant, at: Instant) returns (ok: bool)
      modifies this
      ensures (entries, ok) == Decide(limits, old(entries), key, now, at)
    {
      if key == [] {
        return false;
      }
      var k := BucketOf(key);
      if k !in entries {
        entries := entries[k := Entry(now, 0)];
      }
      if ElapsedSecs(entries[k].start, at) >= limits.windowSecs {
        entries := entries[k := Entry(now, 1)];
        ok := true;
      } else if entries[k].count < limits.maxRequests {
        entries := entries[k := entries[k].(count := entries[k].count + 1)];
        ok := true;
      } else {
        ok := false;
      }
      assert entries == Decide(limits, old(entries), key, now, at).0;
    }

    method Cleanup(at: Instant)
      modifies this
      ensures entries == Retained(limits, old(entries), at)
      ensures forall k :: k in entries <==> && k in old(entries) && limits.windowSecs > 0
                                            && at < old(entries)[k].start + Seconds(2 * limits.windowSecs)
      ensures forall k | k in entries :: entries[k] == old(entries)[k]
    {
      var threshold := limits.windowSecs * 2;
      entries := map k | k in entries && ElapsedSecs(entries[k].start, at) < threshold :: entries[k];
    }
  }

  // ---------------------------------------------------------------------------
  // Runs
  // ---------------------------------------------------------------------------

  datatype Event =
    | Request(key: Bytes, now: Instant, at: Instant)
    | Cleanup(at: Instant)

  type Run = seq<Event>

  /** Events are in lock order, and a request's own reading of the clock is at most
      `lag` older than the instant it holds the lock. */
  ghost predicate Timely(run: Run, lag: nat) {
    && (forall i, j | 0 <= i < j < |run| :: run[i].at <= run[j].at)
    && (forall i | 0 <= i < |run| && run[i].Request? :: run[i].now <= run[i].at <= run[i].now + lag)
  }

  /** The instant of the last event, or zero for the empty run. */
  function LastInstant(run: Run): Instant {
    if run == [] then 0 else run[|run| - 1].at
  }

  function Step(limits: Limits, table: Table, event: Event): Table {
    match event
    case Request(key, now, at) => Decide(limits, table, key, now, at).0
    case Cleanup(at) => Retained(limits, table, at)
  }

  function After(limits: Limits, run: Run): Table {
    if run == [] then map[] else Step(limits, After(limits, run[..|run| - 1]), run[|run| - 1])
  }

  /** The answers given to the requests of a run, in order. */
  function Answers(limits: Limits, run: Run): seq<bool> {
    if run == [] then []
    else
      var before, last := run[..|run| - 1], run[|run| - 1];
      match last
      case Request(key, now, at) =>
        Answers(limits, before) + [Decide(limits, After(limits, before), key, now, at).1]
      case Cleanup(_) => Answers(limits, before)
  }

  /** How many requests of `bucket` were admitted at instants in `[from, to)`. */
  function Admitted(limits: Limits, run: Run, bucket: Bucket, from: int, to: int): nat {
    if run == [] then 0
    else
      var before, last := run[..|run| - 1], run[|run| - 1];
      Admitted(limits, before, bucket, from, to) +
      if IsAdmitted(limits, After(limits, before), last, bucket) && from <= last.at < to then 1 else 0
  }

  predicate IsAdmitted(limits: Limits, table: Table, event: Event, bucket: Bucket) {
    && event.Request?
    && BucketOf(event.key) == bucket
    && Decide(limits, table, event.key, event.now, event.at).1
  }

  /** The run of a limiter that is never cleaned. */
  function Uncleaned(run: Run): Run {
    if run == [] then []
    else
      var before, last := run[..|run| - 1], run[|run| - 1];
      if last.Request? then Uncleaned(before) + [last] else Uncleaned(before)
  }

  /** A run with one more event, if there is one. */
  function Extend(run: Run, event: Option<Event>): Run {
    if event.Some? then run + [event.value] else run
  }

  /** The slot of `bucket` that an event spends inside `[from, to)`. */
  function Slot(limits: Limits, table: Table, event: Option<Event>, bucket: Bucket, from: int, to: int): nat {
    if event.Some? && IsAdmitted(limits, table, event.value, bucket) && from <= event.value.at < to then 1 else 0
  }

  lemma {:induction false} ExtendedAdmitted(limits: Limits, run: Run, event: Option<Event>, bucket: Bucket, from: int,
                                            to: int)
    ensures Admitted(limits, Extend(run, event), bucket, from, to)
         == Admitted(limits, run, bucket, from, to) + Slot(limits, After(limits, run), event, bucket, from, to)
  {
    if event.Some? {
      assert Extend(run, event)[..|run|] == run;
    }
  }

  lemma {:induction false} ExtendedAfter(limits: Limits, run: Run, event: Option<Event>)
    ensures After(limits, Extend(run, event))
         == if event.Some? then Step(limits, After(limits, run), event.value) else After(limits, run)
  {
    if event.Some? {
      assert Extend(run, event)[..|run|] == run;
    }
  }

  lemma {:induction false} ExtendedTimely(run: Run, event: Option<Event>, lag: nat)
    requires Timely(run, lag)
    requires event.Some? ==> LastInstant(run) <= event.value.at
    requires event.Some? && event.value.Request? ==> event.value.now <= event.value.at <= event.value.now + lag
    ensures Timely(Extend(run, event), lag)
  {
  }

  // ---------------------------------------------------------------------------
  // Counters stay within the limit
  // ---------------------------------------------------------------------------

  /** A counter never passes the limit, save that the request which reopens a window
      is counted without consulting it; and no stored window is empty if requests are
      admitted at all. */
  lemma {:induction false} CountersBounded(limits: Limits, run: Run)
    ensures forall k | k in After(limits, run) ::
              Min(limits.maxRequests, 1) <= After(limits, run)[k].count <= Max(limits.maxRequests, 1)
  {
    if run != [] {
      CountersBounded(limits, run[..|run| - 1]);
    }
  }

  // ---------------------------------------------------------------------------
  // Cleanup is transparent
  // ---------------------------------------------------------------------------

  /** A cleaned table agrees with the uncleaned one, except that it may lack
      buckets whose window opened at least two windows ago. */
  ghost predicate Simulates(limits: Limits, cleaned: Table, full: Table, at: Instant) {
    && (forall k | k in cleaned :: k in full && full[k] == cleaned[k])
    && (forall k | k in full && k !in cleaned :: ElapsedSecs(full[k].start, at) >= limits.windowSecs * 2)
  }

  lemma {:induction false} ElapsedMonotone(since: Instant, at: Instant, later: Instant)
    requires at <= later
    ensures ElapsedSecs(since, at) <= ElapsedSecs(since, later)
  {
  }

  lemma {:induction false} SimulationLater(limits: Limits, cleaned: Table, full: Table, at: Instant, later: Instant)
    requires Simulates(limits, cleaned, full, at) && at <= later
    ensures Simulates(limits, cleaned, full, later)
  {
    forall k | k in full && k !in cleaned
      ensures ElapsedSecs(full[k].start, later) >= limits.windowSecs * 2
    {
      ElapsedMonotone(full[k].start, at, later);
    }
  }

  /** One request keeps the simulation and gets the same answer from both tables. */
  lemma {:induction false} SimulatedRequest(limits: Limits, cleaned: Table, full: Table, key: Bytes, now: Instant,
                                            at: Instant)
    requires limits.maxRequests >= 1 || limits.windowSecs == 0
    requires Simulates(limits, cleaned, full, at)
    ensures Decide(limits, cleaned, key, now, at).1 == Decide(limits, full, key, now, at).1
    ensures Simulates(limits, Decide(limits, cleaned, key, now, at).0, Decide(limits, full, key, now, at).0, at)
  {
  }

  lemma {:induction false} SimulatedCleanup(limits: Limits, cleaned: Table, full: Table, at: Instant)
    requires Simulates(limits, cleaned, full, at)
    ensures Simulates(limits, Retained(limits, cleaned, at), full, at)
  {
  }

  /** Along a run, the cleaned limiter simulates the uncleaned one. */
  lemma {:induction false} RunSimulates(limits: Limits, run: Run, lag: nat, at: Instant)
    requires limits.maxRequests >= 1 || limits.windowSecs == 0
    requires Timely(run, lag) && LastInstant(run) <= at
    ensures Simulates(limits, After(limits, run), After(limits, Uncleaned(run)), at)
  {
    if run != [] {
      var before, last := run[..|run| - 1], run[|run| - 1];
      RunSimulates(limits, before, lag, last.at);
      var cleaned, full := After(limits, before), After(limits, Uncleaned(before));
      match last {
        case Request(key, now, _) =>
          SimulatedRequest(limits, cleaned, full, key, now, last.at);
          assert Uncleaned(run)[..|Uncleaned(run)| - 1] == Uncleaned(before);
        case Cleanup(_) =>
          SimulatedCleanup(limits, cleaned, full, last.at);
      }
      SimulationLater(limits, After(limits, run), After(limits, Uncleaned(run)), last.at, at);
    }
  }

  /** The last request of a run is decided alike by both limiters. */
  lemma {:induction false} LastDecidedAlike(limits: Limits, run: Run, lag: nat)
    requires limits.maxRequests >= 1 || limits.windowSecs == 0
    requires Timely(run, lag) && run != [] && run[|run| - 1].Request?
    ensures var before, last := run[..|run| - 1], run[|run| - 1];
            Decide(limits, After(limits, before), last.key, last.now, last.at).1
            == Decide(limits, After(limits, Uncleaned(before)), last.key, last.now, last.at).1
    ensures Uncleaned(run) != [] && Uncleaned(run)[|Uncleaned(run)| - 1] == run[|run| - 1]
    ensures Uncleaned(run)[..|Uncleaned(run)| - 1] == Uncleaned(run[..|run| - 1])
  {
    var before, last := run[..|run| - 1], run[|run| - 1];
    RunSimulates(limits, before, lag, last.at);
    SimulatedRequest(limits, After(limits, before), After(limits, Uncleaned(before)), last.key, last.now, last.at);
  }

  lemma {:induction false} AnswersAlike(limits: Limits, run: Run, lag: nat)
    requires limits.maxRequests >= 1 || limits.windowSecs == 0
    requires Timely(run, lag)
    ensures Answers(limits, run) == Answers(limits, Uncleaned(run))
  {
    if run != [] {
      AnswersAlike(limits, run[..|run| - 1], lag);
      if run[|run| - 1].Request? {
        LastDecidedAlike(limits, run, lag);
      }
    }
  }

  lemma {:induction false} AdmittedAlike(limits: Limits, run: Run, lag: nat, bucket: Bucket, from: int, to: int)
    requires limits.maxRequests >= 1 || limits.windowSecs == 0
    requires Timely(run, lag)
    ensures Admitted(limits, run, bucket, from, to) == Admitted(limits, Uncleaned(run), bucket, from, to)
  {
    if run != [] {
      AdmittedAlike(limits, run[..|run| - 1], lag, bucket, from, to);
      if run[|run| - 1].Request? {
        LastDecidedAlike(limits, run, lag);
      }
    }
  }

  /** Whether cleanup can never be noticed by a caller. */
  ghost predicate CleanupTransparent(limits: Limits) {
    forall run: Run, lag: nat | Timely(run, lag) :: Answers(limits, run) == Answers(limits, Uncleaned(run))
  }

  /** The run that tells a limiter of no requests from its uncleaned twin. */
  function TellTale(limits: Limits): Run {
    var later := Seconds(limits.windowSecs * 2);
    [Request([1], 0, 0), Cleanup(later), Request([1], later, later)]
  }

  lemma {:induction false} TellTaleRefused(limits: Limits)
    requires limits.maxRequests == 0 && limits.windowSecs > 0
    ensures Answers(limits, TellTale(limits)) == [false, false]
  {
    var run := TellTale(limits);
    var later := Seconds(limits.windowSecs * 2);
    assert run[..2][..1] == [run[0]] && run[..1][..0] == [];
    assert After(limits, [run[0]]) == map[BucketOf([1]) := Entry(0, 0)];
    ElapsedIsExact(0, later, limits.windowSecs * 2);
    assert After(limits, run[..2]) == map[];
    assert Answers(limits, [run[0]]) == [false];
    assert Answers(limits, run[..2]) == [false];
  }

  lemma {:induction false} TellTaleAdmitted(limits: Limits)
    requires limits.maxRequests == 0 && limits.windowSecs > 0
    ensures Answers(limits, Uncleaned(TellTale(limits))) == [false, true]
  {
    var run := TellTale(limits);
    var later := Seconds(limits.windowSecs * 2);
    assert run[..2][..1] == [run[0]] && run[..1][..0] == [];
    assert Uncleaned([run[0]]) == [run[0]] && Uncleaned(run[..2]) == [run[0]];
    var kept := [run[0], run[2]];
    assert Uncleaned(run) == kept && kept[..1] == [run[0]];
    assert After(limits, kept[..1]) == map[BucketOf([1]) := Entry(0, 0)];
    ElapsedIsExact(0, later, limits.windowSecs);
    assert Answers(limits, kept[..1]) == [false];
  }

  /** Cleanup is transparent for every limiter that admits requests at all; with a
      limit of zero the uncleaned limiter still admits one request per window after
      the first, and cleaning takes that request away. */
  lemma {:induction false} CleanupTransparentExactly(limits: Limits)
    ensures CleanupTransparent(limits) <==> limits.maxRequests >= 1 || limits.windowSecs == 0
  {
    if limits.maxRequests >= 1 || limits.windowSecs == 0 {
      forall run: Run, lag: nat | Timely(run, lag)
        ensures Answers(limits, run) == Answers(limits, Uncleaned(run))
      {
        AnswersAlike(limits, run, lag);
      }
    } else {
      TellTaleRefused(limits);
      TellTaleAdmitted(limits);
      assert Timely(TellTale(limits), 0);
    }
  }
}
