/** The other side of the bounds: the limiter refuses nothing that it could admit. */
module RateLimitFairness {
  import opened Prelude
  import opened RateLimit
  import opened RateLimitBound

  lemma {:induction false} AdmittedWider(limits: Limits, run: Run, bucket: Bucket, from: int, to: int, from': int,
                                         to': int)
    requires from' <= from && to <= to'
    ensures Admitted(limits, run, bucket, from, to) <= Admitted(limits, run, bucket, from', to')
  {
    if run != [] {
      AdmittedWider(limits, run[..|run| - 1], bucket, from, to, from', to');
    }
  }

  /** Every unit of a counter is a request admitted since the window opened. */
  ghost predicate Earned(limits: Limits, run: Run, bucket: Bucket, entry: Entry, at: Instant) {
    entry.start <= at && entry.count <= Admitted(limits, run, bucket, entry.start, at + 1)
  }

  lemma {:induction false} EarnedLater(limits: Limits, before: Run, event: Event, bucket: Bucket, entry: Entry,
                                       at: Instant)
    requires Earned(limits, before, bucket, entry, at) && at <= event.at
    ensures Earned(limits, before + [event], bucket, entry, event.at)
    ensures IsAdmitted(limits, After(limits, before), event, bucket) ==>
              Earned(limits, before + [event], bucket, entry.(count := entry.count + 1), event.at)
  {
    ExtendedAdmitted(limits, before, Some(event), bucket, entry.start, event.at + 1);
    AdmittedWider(limits, before, bucket, entry.start, at + 1, entry.start, event.at + 1);
  }

  /** A request that opens a window or an entry has earned what it counts. */
  lemma {:induction false} EarnedAfresh(limits: Limits, before: Run, event: Event, count: nat)
    requires event.Request? && event.now <= event.at
    requires count == 0 || (count == 1 && IsAdmitted(limits, After(limits, before), event, BucketOf(event.key)))
    ensures Earned(limits, before + [event], BucketOf(event.key), Entry(event.now, count), event.at)
  {
    ExtendedAdmitted(limits, before, Some(event), BucketOf(event.key), event.now, event.at + 1);
  }

  lemma {:induction false} CountersEarned(limits: Limits, run: Run, lag: nat)
    requires Timely(run, lag)
    ensures forall k | k in After(limits, run) :: Earned(limits, run, k, After(limits, run)[k], LastInstant(run))
  {
    if run != [] {
      var before, last := run[..|run| - 1], run[|run| - 1];
      CountersEarned(limits, before, lag);
      assert run == before + [last];
      var table, at := After(limits, before), LastInstant(before);
      forall k | k in After(limits, run) ensures Earned(limits, run, k, After(limits, run)[k], last.at) {
        if k in table {
          EarnedLater(limits, before, last, k, table[k], at);
        }
        if last.Request? && k == BucketOf(last.key) {
          EarnedAfresh(limits, before, last, 0);
          if IsAdmitted(limits, table, last, k) {
            EarnedAfresh(limits, before, last, 1);
          }
        }
      }
    }
  }

  /** A request is refused only if as many as the limit were admitted within the last
      window, or if its key is empty. */
  lemma {:induction false} RefusedOnlyWhenFull(limits: Limits, run: Run, lag: nat, key: Bytes, now: Instant,
                                               at: Instant)
    requires Timely(run, lag) && LastInstant(run) <= at && now <= at && key != []
    requires !Decide(limits, After(limits, run), key, now, at).1
    ensures Admitted(limits, run, BucketOf(key), at - Seconds(limits.windowSecs) + 1, at + 1) >= limits.maxRequests
  {
    CountersEarned(limits, run, lag);
    var found := Lookup(After(limits, run), BucketOf(key));
    if found.Some? {
      var start := found.value.start;
      ElapsedIsExact(start, at, limits.windowSecs);
      AdmittedWider(limits, run, BucketOf(key), start, LastInstant(run) + 1,
                    at - Seconds(limits.windowSecs) + 1, at + 1);
    }
  }

  /** With a limit of one the answer is known from the earlier answers alone: admitted if
      and only if nothing was admitted within the last window. */
  lemma {:induction false} SpacedExactly(limits: Limits, run: Run, key: Bytes, at: Instant)
    requires limits.maxRequests == 1 && limits.windowSecs >= 1
    requires Timely(run, 0) && LastInstant(run) <= at && key != []
    ensures Decide(limits, After(limits, run), key, at, at).1
       <==> Admitted(limits, run, BucketOf(key), at - Seconds(limits.windowSecs) + 1, at + 1) == 0
  {
    var from := at - Seconds(limits.windowSecs) + 1;
    if Decide(limits, After(limits, run), key, at, at).1 {
      var request := Request(key, at, at);
      ExtendedTimely(run, Some(request), 0);
      ExtendedAdmitted(limits, run, Some(request), BucketOf(key), from, at + 1);
      SpacingBound(limits, run + [request], BucketOf(key), from, Seconds(limits.windowSecs));
    } else {
      RefusedOnlyWhenFull(limits, run, 0, key, at, at);
    }
  }
}
