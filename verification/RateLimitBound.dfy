/** How many requests a limiter admits in any interval of time. Every count is for
    one bucket and a half-open interval `[from, to)`, over runs in which cleanups and
    refused requests are interleaved at will. */
module RateLimitBound {
  import opened Prelude
  import opened RateLimit

  /** Openings of successive windows of one bucket are at least this far apart:
      a window opens at the stale reading `now`, so the lag eats into its length. */
  function Gap(limits: Limits, lag: nat): nat
    requires lag < Seconds(limits.windowSecs)
  {
    Seconds(limits.windowSecs) - lag
  }

  ghost predicate Bounds(limits: Limits, lag: nat) {
    limits.maxRequests >= 1 && lag < Seconds(limits.windowSecs)
  }

  /** The windows that reach past `from` and open no later than `start`. */
  function WindowsUpTo(limits: Limits, lag: nat, start: Instant, from: int): nat
    requires lag < Seconds(limits.windowSecs)
    requires start + Seconds(limits.windowSecs) > from
  {
    (start + Seconds(limits.windowSecs) - from - 1) / Gap(limits, lag)
  }

  /** What a never-cleaned limiter knows of a bucket: all its earlier windows were full
      at worst, and the current one holds `count` requests. */
  ghost predicate CountedUpTo(limits: Limits, lag: nat, found: Option<Entry>, admitted: nat, from: int)
    requires Bounds(limits, lag)
  {
    match found
    case None => admitted == 0
    case Some(Entry(start, count)) =>
      && 1 <= count <= limits.maxRequests
      && if start + Seconds(limits.windowSecs) <= from then admitted == 0
         else admitted <= limits.maxRequests * WindowsUpTo(limits, lag, start, from) + count
  }

  lemma {:induction false} WindowsGrow(limits: Limits, lag: nat, start: Instant, next: Instant, from: int)
    requires lag < Seconds(limits.windowSecs)
    requires start + Seconds(limits.windowSecs) > from
    requires next >= start + Gap(limits, lag)
    ensures WindowsUpTo(limits, lag, next, from) >= WindowsUpTo(limits, lag, start, from) + 1
  {
    var w := Seconds(limits.windowSecs);
    DivStrides(start + w - from - 1, next + w - from - 1, Gap(limits, lag));
  }

  /** The window that is left behind is full at worst. */
  lemma {:induction false} WindowReopened(limits: Limits, lag: nat, start: Instant, next: Instant, count: nat,
                                          admitted: nat, from: int)
    requires Bounds(limits, lag) && start + Seconds(limits.windowSecs) > from
    requires next >= start + Gap(limits, lag) && count <= limits.maxRequests
    requires admitted <= limits.maxRequests * WindowsUpTo(limits, lag, start, from) + count
    ensures next + Seconds(limits.windowSecs) > from
    ensures admitted <= limits.maxRequests * WindowsUpTo(limits, lag, next, from)
  {
    WindowsGrow(limits, lag, start, next, from);
    var w, w' := WindowsUpTo(limits, lag, start, from), WindowsUpTo(limits, lag, next, from);
    MulMonotone(limits.maxRequests, w + 1, w');
    assert limits.maxRequests * (w + 1) == limits.maxRequests * w + limits.maxRequests;
  }

  /** A window opened where nothing of the interval was admitted before. */
  lemma {:induction false} WindowOpened(limits: Limits, lag: nat, next: Instant, from: int)
    requires Bounds(limits, lag) && next + Seconds(limits.windowSecs) > from
    ensures 0 <= limits.maxRequests * WindowsUpTo(limits, lag, next, from)
  {
  }

  /** One request keeps the count, whichever branch it takes. */
  lemma {:induction false} CountKept(limits: Limits, lag: nat, found: Option<Entry>, admitted: nat, from: int, to: int,
                                     now: Instant, at: Instant)
    requires Bounds(limits, lag) && now <= at <= now + lag
    requires CountedUpTo(limits, lag, found, admitted, from)
    requires found.Some? ==> found.value.start <= at
    ensures var (entry, ok) := Count(limits, found, now, at);
            var total := admitted + if ok && from <= at < to then 1 else 0;
            CountedUpTo(limits, lag, Some(entry), total, from) && entry.start <= at
  {
    ElapsedIsExact(now, at, limits.windowSecs);
    if now + Seconds(limits.windowSecs) > from {
      WindowOpened(limits, lag, now, from);
    }
    if found.Some? {
      var Entry(start, count) := found.value;
      ElapsedIsExact(start, at, limits.windowSecs);
      if at >= start + Seconds(limits.windowSecs) > from {
        WindowReopened(limits, lag, start, now, count, admitted, from);
      }
    }
  }

  /** The most requests a window opened before `to` can leave in `[from, to)`. */
  function Ceiling(limits: Limits, lag: nat, length: nat): nat
    requires lag < Seconds(limits.windowSecs)
  {
    limits.maxRequests * CeilDiv(length + Seconds(limits.windowSecs), Gap(limits, lag))
  }

  lemma {:induction false} CountedBelowCeiling(limits: Limits, lag: nat, entry: Entry, admitted: nat, from: int,
                                               to: int)
    requires Bounds(limits, lag) && from <= to
    requires CountedUpTo(limits, lag, Some(entry), admitted, from)
    requires entry.start < to
    ensures admitted <= Ceiling(limits, lag, to - from)
  {
    if entry.start + Seconds(limits.windowSecs) > from {
      var gap := Gap(limits, lag);
      var w := WindowsUpTo(limits, lag, entry.start, from);
      var x := to - from + Seconds(limits.windowSecs);
      DivMonotone(entry.start + Seconds(limits.windowSecs) - from - 1 + gap, x + gap - 1, gap);
      DivShift(entry.start + Seconds(limits.windowSecs) - from - 1, gap);
      MulMonotone(limits.maxRequests, w + 1, CeilDiv(x, gap));
      assert limits.maxRequests * (w + 1) == limits.maxRequests * w + limits.maxRequests;
    }
  }

  /** Along a run without cleanups: the exact bookkeeping, and the ceiling. */
  lemma {:induction false} UncleanedBound(limits: Limits, lag: nat, run: Run, bucket: Bucket, from: int, to: int)
    requires Bounds(limits, lag) && from <= to
    requires Timely(run, lag) && forall i | 0 <= i < |run| :: run[i].Request?
    ensures var found := Lookup(After(limits, run), bucket);
            && CountedUpTo(limits, lag, found, Admitted(limits, run, bucket, from, to), from)
            && (found.Some? ==> run != [] && found.value.start <= run[|run| - 1].at)
    ensures Admitted(limits, run, bucket, from, to) <= Ceiling(limits, lag, to - from)
  {
    if run != [] {
      var before, last := run[..|run| - 1], run[|run| - 1];
      UncleanedBound(limits, lag, before, bucket, from, to);
      if last.key != [] && BucketOf(last.key) == bucket {
        var found := Lookup(After(limits, before), bucket);
        var admitted := Admitted(limits, before, bucket, from, to);
        CountKept(limits, lag, found, admitted, from, to, last.now, last.at);
        var (entry, ok) := Count(limits, found, last.now, last.at);
        if last.at < to {
          CountedBelowCeiling(limits, lag, entry, Admitted(limits, run, bucket, from, to), from, to);
        }
      }
    }
  }

  lemma {:induction false} UncleanedTimely(run: Run, lag: nat)
    requires Timely(run, lag)
    ensures Timely(Uncleaned(run), lag)
    ensures forall i | 0 <= i < |Uncleaned(run)| ::
              Uncleaned(run)[i].Request? && Uncleaned(run)[i].at <= run[|run| - 1].at
  {
    if run != [] {
      UncleanedTimely(run[..|run| - 1], lag);
    }
  }

  /** The sliding bound: with readings of the clock at most `lag` stale, the
      admitted requests of a bucket in any interval of `length` nanoseconds number at most
      `max * ceil((length + W) / (W - lag))`. */
  lemma {:induction false} SlidingBound(limits: Limits, lag: nat, run: Run, bucket: Bucket, from: int, length: nat)
    requires limits.maxRequests >= 1 && lag < Seconds(limits.windowSecs)
    requires Timely(run, lag)
    ensures Admitted(limits, run, bucket, from, from + length)
         <= limits.maxRequests * CeilDiv(length + Seconds(limits.windowSecs), Seconds(limits.windowSecs) - lag)
  {
    AdmittedAlike(limits, run, lag, bucket, from, from + length);
    UncleanedTimely(run, lag);
    UncleanedBound(limits, lag, Uncleaned(run), bucket, from, from + length);
  }

  /** The clean form, for requests that read the clock under the lock:
      `max * (ceil(length / W) + 1)`. */
  lemma {:induction false} SlidingBoundAtomic(limits: Limits, run: Run, bucket: Bucket, from: int, length: nat)
    requires limits.maxRequests >= 1 && limits.windowSecs >= 1
    requires Timely(run, 0)
    ensures Admitted(limits, run, bucket, from, from + length)
         <= limits.maxRequests * (CeilDiv(length, Seconds(limits.windowSecs)) + 1)
    ensures length == Seconds(limits.windowSecs) ==>
              Admitted(limits, run, bucket, from, from + length) <= 2 * limits.maxRequests
  {
    var w := Seconds(limits.windowSecs);
    SlidingBound(limits, 0, run, bucket, from, length);
    DivShift(length + w - 1, w);
    CeilDivSelf(w);
  }

  // ---------------------------------------------------------------------------
  // Limiters of one request per window
  // ---------------------------------------------------------------------------

  /** The openings that fit into `[from, start]`. */
  function OpeningsUpTo(window: nat, start: Instant, from: int): nat
    requires window > 0 && start >= from
  {
    (start - from) / window + 1
  }

  /** Every admitted request of such a limiter opens a window, so the last one is
      the entry's own start. */
  ghost predicate SpacedUpTo(window: nat, found: Option<Entry>, admitted: nat, from: int)
    requires window > 0
  {
    match found
    case None => admitted == 0
    case Some(Entry(start, count)) =>
      && count == 1
      && if start < from then admitted == 0 else admitted <= OpeningsUpTo(window, start, from)
  }

  lemma {:induction false} OpeningsGrow(window: nat, start: Instant, next: Instant, from: int)
    requires window > 0 && start >= from && next >= start + window
    ensures OpeningsUpTo(window, next, from) >= OpeningsUpTo(window, start, from) + 1
  {
    DivStrides(start - from, next - from, window);
  }

  /** A request admitted by such a limiter is the new start. */
  lemma {:induction false} OpensWindow(limits: Limits, found: Option<Entry>, at: Instant)
    requires limits.maxRequests == 1 && limits.windowSecs >= 1
    requires found.Some? ==> found.value.count == 1 && found.value.start <= at
    ensures var (entry, ok) := Count(limits, found, at, at);
            && entry.count == 1
            && (if ok then entry.start == at else found == Some(entry))
            && (ok && found.Some? ==> at >= found.value.start + Seconds(limits.windowSecs))
  {
    if found.Some? {
      ElapsedIsExact(found.value.start, at, limits.windowSecs);
    } else {
      ElapsedIsExact(at, at, limits.windowSecs);
    }
  }

  lemma {:induction false} SpacingKept(limits: Limits, found: Option<Entry>, admitted: nat, from: int, to: int,
                                       at: Instant)
    requires limits.maxRequests == 1 && limits.windowSecs >= 1
    requires SpacedUpTo(Seconds(limits.windowSecs), found, admitted, from)
    requires found.Some? ==> found.value.start <= at
    ensures var (entry, ok) := Count(limits, found, at, at);
            var total := admitted + if ok && from <= at < to then 1 else 0;
            && SpacedUpTo(Seconds(limits.windowSecs), Some(entry), total, from)
            && entry.start <= at && (ok ==> entry.start == at)
  {
    OpensWindow(limits, found, at);
    if found.Some? && at >= found.value.start + Seconds(limits.windowSecs) && found.value.start >= from {
      OpeningsGrow(Seconds(limits.windowSecs), found.value.start, at, from);
    }
  }

  lemma {:induction false} UncleanedSpacing(limits: Limits, run: Run, bucket: Bucket, from: int, to: int)
    requires limits.maxRequests == 1 && limits.windowSecs >= 1 && from <= to
    requires Timely(run, 0) && forall i | 0 <= i < |run| :: run[i].Request?
    ensures var found := Lookup(After(limits, run), bucket);
            && SpacedUpTo(Seconds(limits.windowSecs), found, Admitted(limits, run, bucket, from, to), from)
            && (found.Some? ==> run != [] && found.value.start <= run[|run| - 1].at)
    ensures Admitted(limits, run, bucket, from, to) <= CeilDiv(to - from, Seconds(limits.windowSecs))
  {
    if run != [] {
      var before, last := run[..|run| - 1], run[|run| - 1];
      UncleanedSpacing(limits, before, bucket, from, to);
      if last.key != [] && BucketOf(last.key) == bucket {
        var w := Seconds(limits.windowSecs);
        var found := Lookup(After(limits, before), bucket);
        SpacingKept(limits, found, Admitted(limits, before, bucket, from, to), from, to, last.at);
        if IsAdmitted(limits, After(limits, before), last, bucket) && from <= last.at < to {
          DivStrides(last.at - from, to - from + w - 1, w);
        }
      }
    }
  }

  /** With a limit of one, `ceil(length / W)` suffices; in particular no two
      admitted requests are less than a window apart. */
  lemma {:induction false} SpacingBound(limits: Limits, run: Run, bucket: Bucket, from: int, length: nat)
    requires limits.maxRequests == 1 && limits.windowSecs >= 1
    requires Timely(run, 0)
    ensures Admitted(limits, run, bucket, from, from + length) <= CeilDiv(length, Seconds(limits.windowSecs))
    ensures length == Seconds(limits.windowSecs) ==> Admitted(limits, run, bucket, from, from + length) <= 1
  {
    AdmittedAlike(limits, run, 0, bucket, from, from + length);
    UncleanedTimely(run, 0);
    UncleanedSpacing(limits, Uncleaned(run), bucket, from, from + length);
    CeilDivSelf(Seconds(limits.windowSecs));
  }
}
