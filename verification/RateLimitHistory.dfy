/** Whether a request is admitted, told from the earlier requests alone: not from the
    counters, and not from the earlier answers. */
module RateLimitHistory {
  import opened Prelude
  import opened RateLimit

  /** What one limiter sees, step by step, of a run that also does other things. */
  type Log = seq<Option<Event>>

  /** The tables of the limiter along the run. */
  ghost predicate Traces(limits: Limits, tables: seq<Table>, log: Log) {
    && |tables| == |log| + 1
    && tables[0] == map[]
    && forall i | 0 <= i < |log| :: Follows(limits, tables[i], log[i], tables[i + 1])
  }

  ghost predicate Follows(limits: Limits, table: Table, event: Option<Event>, table': Table) {
    table' == if event.Some? then Step(limits, table, event.value) else table
  }

  /** The clock never goes back, and a request's own reading of it is at most `lag` old. */
  ghost predicate Timely(log: Log, lag: nat) {
    && (forall i, j | 0 <= i < j < |log| && log[i].Some? && log[j].Some? :: log[i].value.at <= log[j].value.at)
    && (forall i | 0 <= i < |log| && log[i].Some? && log[i].value.Request? ::
          log[i].value.now <= log[i].value.at <= log[i].value.now + lag)
  }

  /** Step `i` is a request of `bucket`. */
  ghost predicate Arrives(log: Log, i: nat, bucket: Bucket) {
    && i < |log| && log[i].Some? && log[i].value.Request?
    && log[i].value.key != [] && BucketOf(log[i].value.key) == bucket
  }

  /** How many requests of `bucket` arrived at steps `from` up to `to`. */
  ghost function Arrivals(log: Log, bucket: Bucket, from: nat, to: nat): (n: nat)
    requires from <= to <= |log|
  {
    if from == to then 0
    else Arrivals(log, bucket, from, to - 1) + if Arrives(log, to - 1, bucket) then 1 else 0
  }

  /** Step `i` opens a window: it is a request that comes when every window opened before
      for its bucket has run out. */
  ghost predicate Opens(limits: Limits, log: Log, i: nat, bucket: Bucket)
    decreases i
  {
    && Arrives(log, i, bucket)
    && forall k: nat | k < i && Opens(limits, log, k, bucket) :: RunOut(limits, log, k, i)
  }

  /** The window that step `k` opened has run out by step `i`. */
  ghost predicate RunOut(limits: Limits, log: Log, k: nat, i: nat) {
    && k < |log| && log[k].Some? && log[k].value.Request? && i < |log| && log[i].Some?
    && log[i].value.at >= log[k].value.now + Seconds(limits.windowSecs)
  }

  /** Step `i` falls into the window that step `k` opened, as one of the first `maxRequests`
      requests of it. */
  ghost predicate InTime(limits: Limits, log: Log, k: nat, i: nat, bucket: Bucket) {
    && k <= i < |log| && Opens(limits, log, k, bucket) && (k < i ==> !RunOut(limits, log, k, i))
    && Arrivals(log, bucket, k, i) < limits.maxRequests
  }

  /** What the limiter is to answer to the request of step `i`. */
  ghost predicate Admits(limits: Limits, log: Log, i: nat) {
    && i < |log| && log[i].Some? && log[i].value.Request? && log[i].value.key != []
    && exists k: nat :: InTime(limits, log, k, i, BucketOf(log[i].value.key))
  }

  // ---------------------------------------------------------------------------
  // The invariant
  // ---------------------------------------------------------------------------

  /** Step `k` opened the latest window. */
  ghost predicate OpenedLast(limits: Limits, log: Log, k: nat, i: nat, bucket: Bucket) {
    && k < i && Opens(limits, log, k, bucket)
    && forall j: nat | k < j < i :: !Opens(limits, log, j, bucket)
  }

  /** A stored entry tells the latest window and its requests; without one, every window
      has long run out. */
  ghost predicate Tells(limits: Limits, log: Log, table: Table, i: nat, bucket: Bucket, at: Instant)
    requires i <= |log|
  {
    if bucket in table then
      exists k: nat :: OpenedLast(limits, log, k, i, bucket) && Entered(limits, log, table[bucket], k, i, bucket)
    else
      forall k: nat | k < i && Opens(limits, log, k, bucket) ::
        at >= log[k].value.now + Seconds(limits.windowSecs * 2)
  }

  ghost predicate Entered(limits: Limits, log: Log, entry: Entry, k: nat, i: nat, bucket: Bucket)
    requires k < i <= |log| && Opens(limits, log, k, bucket)
  {
    && entry.start == log[k].value.now
    && entry.count == Min(limits.maxRequests, Arrivals(log, bucket, k, i))
  }

  /** The latest window is the only one that may not have run out. */
  lemma {:induction false} OnlyLatest(limits: Limits, log: Log, lag: nat, k: nat, i: nat, bucket: Bucket)
    requires Timely(log, lag) && lag <= Seconds(limits.windowSecs)
    requires i < |log| && log[i].Some? && OpenedLast(limits, log, k, i, bucket) && RunOut(limits, log, k, i)
    ensures forall j: nat | j < i && Opens(limits, log, j, bucket) :: RunOut(limits, log, j, i)
  {
    forall j: nat | j < i && Opens(limits, log, j, bucket) ensures RunOut(limits, log, j, i) {
      if j < k {
        assert RunOut(limits, log, j, k);
      } else {
        assert j == k;
      }
    }
  }

  lemma {:induction false} OpenOrNot(limits: Limits, log: Log, lag: nat, table: Table, i: nat, bucket: Bucket)
    requires Timely(log, lag) && lag <= Seconds(limits.windowSecs)
    requires Arrives(log, i, bucket) && Tells(limits, log, table, i, bucket, log[i].value.at)
    ensures Opens(limits, log, i, bucket)
       <==> bucket !in table || ElapsedSecs(table[bucket].start, log[i].value.at) >= limits.windowSecs
  {
    if bucket in table {
      var k: nat :| OpenedLast(limits, log, k, i, bucket) && Entered(limits, log, table[bucket], k, i, bucket);
      ElapsedIsExact(log[k].value.now, log[i].value.at, limits.windowSecs);
      if RunOut(limits, log, k, i) {
        OnlyLatest(limits, log, lag, k, i, bucket);
      }
    }
  }

  /** The decision on a request is the one its history tells. */
  lemma {:induction false} DecisionTold(limits: Limits, log: Log, lag: nat, table: Table, i: nat)
    requires limits.maxRequests >= 1 && Timely(log, lag) && lag <= Seconds(limits.windowSecs)
    requires i < |log| && log[i].Some? && log[i].value.Request?
    requires log[i].value.key != [] ==>
               Tells(limits, log, table, i, BucketOf(log[i].value.key), log[i].value.at)
    ensures Decide(limits, table, log[i].value.key, log[i].value.now, log[i].value.at).1 <==> Admits(limits, log, i)
  {
    if log[i].value.key != [] {
      var bucket := BucketOf(log[i].value.key);
      OpenOrNot(limits, log, lag, table, i, bucket);
      if Opens(limits, log, i, bucket) {
        assert InTime(limits, log, i, i, bucket);
      } else {
        var k: nat :| OpenedLast(limits, log, k, i, bucket) && Entered(limits, log, table[bucket], k, i, bucket);
        ElapsedIsExact(log[k].value.now, log[i].value.at, limits.windowSecs);
        InWindowOf(limits, log, lag, k, i, bucket);
      }
    }
  }

  /** A request that opens no window falls into the latest one or into none. */
  lemma {:induction false} InWindowOf(limits: Limits, log: Log, lag: nat, k: nat, i: nat, bucket: Bucket)
    requires Timely(log, lag) && lag <= Seconds(limits.windowSecs) && limits.maxRequests >= 1
    requires Arrives(log, i, bucket) && OpenedLast(limits, log, k, i, bucket) && !RunOut(limits, log, k, i)
    ensures (exists j: nat :: InTime(limits, log, j, i, bucket))
       <==> Arrivals(log, bucket, k, i) < limits.maxRequests
  {
    if Arrivals(log, bucket, k, i) < limits.maxRequests {
      assert InTime(limits, log, k, i, bucket);
    }
    if j: nat :| InTime(limits, log, j, i, bucket) {
      if j < k {
        assert RunOut(limits, log, j, k);
        assert RunOut(limits, log, j, i);
      }
      assert j == k;
    }
  }

  // ---------------------------------------------------------------------------
  // Every step keeps it
  // ---------------------------------------------------------------------------

  lemma {:induction false} TellsLater(limits: Limits, log: Log, table: Table, i: nat, bucket: Bucket, at: Instant,
                                      later: Instant)
    requires i <= |log| && Tells(limits, log, table, i, bucket, at) && at <= later
    ensures Tells(limits, log, table, i, bucket, later)
  {
  }

  /** Steps at which nothing of the bucket arrives. */
  lemma {:induction false} TellsIdle(limits: Limits, log: Log, table: Table, i: nat, bucket: Bucket, at: Instant)
    requires i < |log| && Tells(limits, log, table, i, bucket, at) && !Arrives(log, i, bucket)
    ensures Tells(limits, log, table, i + 1, bucket, at)
  {
    assert !Opens(limits, log, i, bucket);
    if bucket in table {
      var k: nat :| OpenedLast(limits, log, k, i, bucket) && Entered(limits, log, table[bucket], k, i, bucket);
      assert OpenedLast(limits, log, k, i + 1, bucket);
      assert Entered(limits, log, table[bucket], k, i + 1, bucket);
    }
  }

  /** A cleanup takes out only windows that ran out long ago. */
  lemma {:induction false} TellsCleaned(limits: Limits, log: Log, lag: nat, table: Table, i: nat, bucket: Bucket,
                                        at: Instant)
    requires Timely(log, lag) && lag <= Seconds(limits.windowSecs)
    requires i < |log| && log[i].Some? && log[i].value == Cleanup(at)
    requires Tells(limits, log, table, i, bucket, at)
    ensures Tells(limits, log, Retained(limits, table, at), i, bucket, at)
  {
    if bucket in table && bucket !in Retained(limits, table, at) {
      var k: nat :| OpenedLast(limits, log, k, i, bucket) && Entered(limits, log, table[bucket], k, i, bucket);
      ElapsedIsExact(log[k].value.now, at, limits.windowSecs * 2);
      forall j: nat | j < i && Opens(limits, log, j, bucket)
        ensures at >= log[j].value.now + Seconds(limits.windowSecs * 2)
      {
        if j != k {
          assert j < k && RunOut(limits, log, j, k);
        }
      }
    }
  }

  lemma {:induction false} ArrivalsNext(log: Log, bucket: Bucket, from: nat, i: nat)
    requires from <= i < |log| && Arrives(log, i, bucket)
    ensures Arrivals(log, bucket, from, i + 1) == Arrivals(log, bucket, from, i) + 1
    ensures Arrivals(log, bucket, i, i + 1) == 1
  {
    assert Arrivals(log, bucket, i, i) == 0;
  }

  /** A request of the bucket. */
  lemma {:induction false} TellsCounted(limits: Limits, log: Log, lag: nat, table: Table, i: nat, bucket: Bucket)
    requires limits.maxRequests >= 1 && Timely(log, lag) && lag <= Seconds(limits.windowSecs)
    requires Arrives(log, i, bucket) && Tells(limits, log, table, i, bucket, log[i].value.at)
    ensures Tells(limits, log, Step(limits, table, log[i].value), i + 1, bucket, log[i].value.at)
  {
    var table' := Step(limits, table, log[i].value);
    OpenOrNot(limits, log, lag, table, i, bucket);
    if Opens(limits, log, i, bucket) {
      ArrivalsNext(log, bucket, i, i);
      assert OpenedLast(limits, log, i, i + 1, bucket);
      assert Entered(limits, log, table'[bucket], i, i + 1, bucket);
    } else {
      var k: nat :| OpenedLast(limits, log, k, i, bucket) && Entered(limits, log, table[bucket], k, i, bucket);
      ArrivalsNext(log, bucket, k, i);
      assert OpenedLast(limits, log, k, i + 1, bucket);
      assert Entered(limits, log, table'[bucket], k, i + 1, bucket);
    }
  }

  /** A request of another bucket. */
  lemma {:induction false} TellsOther(limits: Limits, log: Log, table: Table, i: nat, bucket: Bucket)
    requires i < |log| && log[i].Some? && log[i].value.Request? && !Arrives(log, i, bucket)
    requires Tells(limits, log, table, i, bucket, log[i].value.at)
    ensures Tells(limits, log, Step(limits, table, log[i].value), i + 1, bucket, log[i].value.at)
  {
    var table' := Step(limits, table, log[i].value);
    assert bucket in table' <==> bucket in table;
    assert bucket in table ==> table'[bucket] == table[bucket];
    TellsIdle(limits, log, table, i, bucket, log[i].value.at);
    if bucket in table {
      var k: nat :| OpenedLast(limits, log, k, i + 1, bucket)
                    && Entered(limits, log, table[bucket], k, i + 1, bucket);
      assert Entered(limits, log, table'[bucket], k, i + 1, bucket);
    }
  }

  lemma {:induction false} TellsNext(limits: Limits, log: Log, lag: nat, table: Table, i: nat, bucket: Bucket,
                                     at: Instant)
    requires limits.maxRequests >= 1 && Timely(log, lag) && lag <= Seconds(limits.windowSecs)
    requires i < |log| && log[i].Some? && log[i].value.at == at && Tells(limits, log, table, i, bucket, at)
    ensures Tells(limits, log, Step(limits, table, log[i].value), i + 1, bucket, at)
  {
    if log[i].value.Cleanup? {
      TellsCleaned(limits, log, lag, table, i, bucket, at);
      TellsIdle(limits, log, Retained(limits, table, at), i, bucket, at);
    } else if Arrives(log, i, bucket) {
      TellsCounted(limits, log, lag, table, i, bucket);
    } else {
      TellsOther(limits, log, table, i, bucket);
    }
  }

  lemma {:induction false} TellsAfter(limits: Limits, log: Log, lag: nat, table: Table, table': Table, i: nat,
                                      bucket: Bucket, at: Instant)
    requires limits.maxRequests >= 1 && Timely(log, lag) && lag <= Seconds(limits.windowSecs)
    requires i < |log| && Follows(limits, table, log[i], table')
    requires log[i].Some? ==> log[i].value.at <= at
    requires Tells(limits, log, table, i, bucket, if log[i].Some? then log[i].value.at else at)
    ensures Tells(limits, log, table', i + 1, bucket, at)
  {
    if log[i].Some? {
      TellsNext(limits, log, lag, table, i, bucket, log[i].value.at);
      TellsLater(limits, log, table', i + 1, bucket, log[i].value.at, at);
    } else {
      TellsIdle(limits, log, table, i, bucket, at);
    }
  }

  lemma {:induction false} RunTells(limits: Limits, tables: seq<Table>, log: Log, lag: nat, i: nat, bucket: Bucket,
                                    at: Instant)
    requires limits.maxRequests >= 1 && Timely(log, lag) && lag <= Seconds(limits.windowSecs)
    requires Traces(limits, tables, log) && i <= |log|
    requires forall j | 0 <= j < i && log[j].Some? :: log[j].value.at <= at
    ensures Tells(limits, log, tables[i], i, bucket, at)
  {
    if i > 0 {
      var before := if log[i - 1].Some? then log[i - 1].value.at else at;
      RunTells(limits, tables, log, lag, i - 1, bucket, before);
      assert Follows(limits, tables[i - 1], log[i - 1], tables[i - 1 + 1]);
      TellsAfter(limits, log, lag, tables[i - 1], tables[i], i - 1, bucket, at);
    }
  }

  /** Over every run, wherever cleanups occur and with any lag up to a window: a request is
      admitted if and only if it has a key and is among the first `maxRequests` requests of a
      window that has not run out, where a window is opened by the first request of the bucket
      after every earlier window of it has run out. */
  lemma {:induction false} AdmittedExactly(limits: Limits, tables: seq<Table>, log: Log, lag: nat, i: nat)
    requires limits.maxRequests >= 1 && Timely(log, lag) && lag <= Seconds(limits.windowSecs)
    requires Traces(limits, tables, log) && i < |log| && log[i].Some? && log[i].value.Request?
    ensures Decide(limits, tables[i], log[i].value.key, log[i].value.now, log[i].value.at).1 <==> Admits(limits, log, i)
  {
    if log[i].value.key != [] {
      RunTells(limits, tables, log, lag, i, BucketOf(log[i].value.key), log[i].value.at);
    }
    DecisionTold(limits, log, lag, tables[i], i);
  }
}
