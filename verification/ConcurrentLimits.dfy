/** The composed bounds for handlers that run at once: the limiters are seen in the order of
    their locks, a handler may have read the clock up to `lag` before its turn at the lock,
    and gets to its next step up to `delay` after it. */
module ConcurrentLimits {
  import opened Prelude
  import opened Ordering
  import opened RateLimit
  import opened RateLimitBound
  import Mailbox
  import Tiers = MessageTiers

  // ---------------------------------------------------------------------------
  // Admitted requests, one by one
  // ---------------------------------------------------------------------------

  /** The positions in the run of the admitted requests of a bucket. */
  function AdmittedAt(limits: Limits, run: Run, bucket: Bucket): (positions: set<nat>)
    ensures forall i | i in positions :: i < |run| && run[i].Request? && BucketOf(run[i].key) == bucket
  {
    if run == [] then {}
    else
      var before, last := run[..|run| - 1], run[|run| - 1];
      AdmittedAt(limits, before, bucket)
      + if IsAdmitted(limits, After(limits, before), last, bucket) then {|run| - 1} else {}
  }

  /** Those at instants in `[from, to)`. */
  function Within(run: Run, positions: set<nat>, from: int, to: int): set<nat> {
    set i | i in positions && i < |run| && from <= run[i].at < to
  }

  lemma {:induction false} WithinGrows(run: Run, positions: set<nat>, from: int, to: int)
    requires run != [] && forall i | i in positions :: i < |run| - 1
    ensures Within(run, positions, from, to) == Within(run[..|run| - 1], positions, from, to)
    ensures var n := |run| - 1;
            |Within(run, positions + {n}, from, to)|
            == |Within(run, positions, from, to)| + if from <= run[n].at < to then 1 else 0
  {
    var n := |run| - 1;
    assert Within(run, positions + {n}, from, to)
        == Within(run, positions, from, to) + if from <= run[n].at < to then {n} else {};
  }

  lemma {:induction false} AdmittedOneByOne(limits: Limits, run: Run, bucket: Bucket, from: int, to: int)
    ensures |Within(run, AdmittedAt(limits, run, bucket), from, to)| == Admitted(limits, run, bucket, from, to)
  {
    if run != [] {
      var before, last := run[..|run| - 1], run[|run| - 1];
      AdmittedOneByOne(limits, before, bucket, from, to);
      var positions := AdmittedAt(limits, before, bucket);
      WithinGrows(run, positions, from, to);
      if IsAdmitted(limits, After(limits, before), last, bucket) {
        assert AdmittedAt(limits, run, bucket) == positions + {|run| - 1};
      } else {
        assert AdmittedAt(limits, run, bucket) == positions;
      }
    }
  }

  lemma {:induction false} PositionsWithin(limits: Limits, run: Run, bucket: Bucket, positions: set<nat>, from: int,
                                           to: int)
    requires positions <= AdmittedAt(limits, run, bucket)
    requires forall i | i in positions :: i < |run| && from <= run[i].at < to
    ensures |positions| <= Admitted(limits, run, bucket, from, to)
  {
    var all := Within(run, AdmittedAt(limits, run, bucket), from, to);
    assert positions <= all;
    SubsetSize(positions, all);
    AdmittedOneByOne(limits, run, bucket, from, to);
  }

  /** No more positions lie in an interval than the sliding bound allows. */
  lemma {:induction false} PositionsBounded(limits: Limits, lag: nat, run: Run, bucket: Bucket, positions: set<nat>,
                                            from: int, length: nat)
    requires limits.maxRequests >= 1 && lag < Seconds(limits.windowSecs) && Timely(run, lag)
    requires positions <= AdmittedAt(limits, run, bucket)
    requires forall i | i in positions :: i < |run| && from <= run[i].at < from + length
    ensures |positions|
         <= limits.maxRequests * CeilDiv(length + Seconds(limits.windowSecs), Seconds(limits.windowSecs) - lag)
  {
    PositionsWithin(limits, run, bucket, positions, from, from + length);
    SlidingBound(limits, lag, run, bucket, from, length);
  }

  // ---------------------------------------------------------------------------
  // Relay rows alive per sender
  // ---------------------------------------------------------------------------

  /** The insert of an admitted push: when its expiry is computed, and the lifetime asked for. */
  datatype Insert = Insert(at: Instant, ttl: nat)

  /** Inserts of admitted pushes, each no later than `delay` after its turn at the lock. */
  ghost predicate Pushes(run: Run, inserts: map<nat, Insert>, delay: nat) {
    forall i | i in inserts ::
      && i < |run| && run[i].Request? && i in AdmittedAt(RELAY_PUSH, run, BucketOf(run[i].key))
      && run[i].at <= inserts[i].at <= run[i].at + delay
  }

  function Alive(run: Run, inserts: map<nat, Insert>, bucket: Bucket, instant: Instant): set<nat> {
    set i | && i in inserts && i < |run| && run[i].Request? && BucketOf(run[i].key) == bucket
            && inserts[i].at <= instant < inserts[i].at + Seconds(Mailbox.Clamp(inserts[i].ttl, Mailbox.MAX_TTL))
  }

  /** However pushes overlap, the unexpired rows of one sender number at most
      60 * ceil((1 day + delay + 60 s) / (60 s - lag)), whatever is pushed, refused or cleaned up. */
  lemma {:induction false} ConcurrentRelayQuota(run: Run, inserts: map<nat, Insert>, lag: nat, delay: nat,
                                                bucket: Bucket, instant: Instant)
    requires Timely(run, lag) && lag < Seconds(60) && Pushes(run, inserts, delay)
    ensures |Alive(run, inserts, bucket, instant)|
         <= 60 * CeilDiv(Seconds(DAY) + delay + Seconds(60), Seconds(60) - lag)
  {
    var alive := Alive(run, inserts, bucket, instant);
    forall i | i in alive ensures instant - Seconds(DAY) - delay < run[i].at <= instant {
      LifetimeBounded(inserts[i].ttl);
    }
    PositionsBounded(RELAY_PUSH, lag, run, bucket, alive, instant - Seconds(DAY) - delay + 1, Seconds(DAY) + delay);
  }

  lemma {:induction false} LifetimeBounded(ttl: nat)
    ensures Seconds(60) <= Seconds(Mailbox.Clamp(ttl, Mailbox.MAX_TTL)) <= Seconds(DAY)
  {
  }

  // ---------------------------------------------------------------------------
  // Bytes past the message tiers
  // ---------------------------------------------------------------------------

  /** A message over 1 MiB that passed: its turn at the mid limiter and, if it is over
      10 MiB, its earlier turn at the large one. */
  datatype Pass = Pass(sender: Bytes, size: nat, mid: nat, large: Option<nat>)

  ghost predicate Paid(midRun: Run, largeRun: Run, delay: nat, p: Pass) {
    && Tiers.MID_THRESHOLD < p.size <= Tiers.MAX_THRESHOLD
    && p.mid in AdmittedAt(MID_MESSAGE, midRun, BucketOf(p.sender))
    && (p.size > Tiers.LARGE_THRESHOLD ==> p.large.Some?)
    && (p.large.Some? ==>
          && p.large.value in AdmittedAt(LARGE_MESSAGE, largeRun, BucketOf(p.sender))
          && largeRun[p.large.value].at <= midRun[p.mid].at <= largeRun[p.large.value].at + delay)
  }

  /** Passed messages, each with turns of its own. */
  ghost predicate Passes(midRun: Run, largeRun: Run, delay: nat, passes: seq<Pass>) {
    && (forall p | p in passes :: Paid(midRun, largeRun, delay, p))
    && (forall i, j | 0 <= i < j < |passes| :: passes[i].mid != passes[j].mid)
    && (forall i, j | 0 <= i < j < |passes| && passes[i].large.Some? :: passes[i].large != passes[j].large)
  }

  predicate Counts(midRun: Run, p: Pass, bucket: Bucket, from: int, to: int) {
    BucketOf(p.sender) == bucket && p.mid < |midRun| && from <= midRun[p.mid].at < to
  }

  /** The bytes passed by senders of the bucket in `[from, to)`. */
  function PassedBytes(midRun: Run, passes: seq<Pass>, bucket: Bucket, from: int, to: int): nat {
    if passes == [] then 0
    else
      var last := passes[|passes| - 1];
      PassedBytes(midRun, passes[..|passes| - 1], bucket, from, to)
      + if Counts(midRun, last, bucket, from, to) then last.size else 0
  }

  function Mids(midRun: Run, passes: seq<Pass>, bucket: Bucket, from: int, to: int): set<nat> {
    set p | p in passes && Counts(midRun, p, bucket, from, to) :: p.mid
  }

  function Larges(midRun: Run, passes: seq<Pass>, bucket: Bucket, from: int, to: int): set<nat> {
    set p | p in passes && Counts(midRun, p, bucket, from, to) && p.large.Some? :: p.large.value
  }

  /** Each passed byte is paid for: 10 MiB by a mid turn, 15 MiB more by a large one. */
  lemma {:induction false} BytesPaid(midRun: Run, largeRun: Run, delay: nat, passes: seq<Pass>, bucket: Bucket,
                                     from: int, to: int)
    requires Passes(midRun, largeRun, delay, passes)
    ensures PassedBytes(midRun, passes, bucket, from, to)
         <= Tiers.Allowance(|Mids(midRun, passes, bucket, from, to)|, |Larges(midRun, passes, bucket, from, to)|)
  {
    if passes != [] {
      var before, last := passes[..|passes| - 1], passes[|passes| - 1];
      BytesPaid(midRun, largeRun, delay, before, bucket, from, to);
      TurnsAdded(midRun, largeRun, delay, passes, bucket, from, to);
      assert last in passes && Paid(midRun, largeRun, delay, last);
    }
  }

  lemma {:induction false} TurnsAdded(midRun: Run, largeRun: Run, delay: nat, passes: seq<Pass>, bucket: Bucket,
                                      from: int, to: int)
    requires Passes(midRun, largeRun, delay, passes) && passes != []
    ensures var before, last := passes[..|passes| - 1], passes[|passes| - 1];
            var counts := Counts(midRun, last, bucket, from, to);
            && |Mids(midRun, passes, bucket, from, to)|
               == |Mids(midRun, before, bucket, from, to)| + (if counts then 1 else 0)
            && |Larges(midRun, passes, bucket, from, to)|
               == |Larges(midRun, before, bucket, from, to)| + (if counts && last.large.Some? then 1 else 0)
  {
    var before, last := passes[..|passes| - 1], passes[|passes| - 1];
    TurnsJoin(midRun, before, last, bucket, from, to);
    assert passes == before + [last];
    OwnTurns(midRun, largeRun, delay, before, last);
    assert last.mid !in Mids(midRun, before, bucket, from, to);
    assert last.large.Some? ==> last.large.value !in Larges(midRun, before, bucket, from, to);
  }

  lemma {:induction false} OwnTurns(midRun: Run, largeRun: Run, delay: nat, before: seq<Pass>, last: Pass)
    requires Passes(midRun, largeRun, delay, before + [last])
    ensures forall p | p in before :: p.mid != last.mid && (last.large.Some? ==> p.large != last.large)
  {
    var passes := before + [last];
    assert passes[|before|] == last;
    forall p | p in before ensures p.mid != last.mid && (last.large.Some? ==> p.large != last.large) {
      var i :| 0 <= i < |before| && before[i] == p;
      assert passes[i] == p;
    }
  }

  lemma {:induction false} TurnsJoin(midRun: Run, before: seq<Pass>, last: Pass, bucket: Bucket, from: int, to: int)
    ensures var counts := Counts(midRun, last, bucket, from, to);
            && Mids(midRun, before + [last], bucket, from, to)
               == Mids(midRun, before, bucket, from, to) + (if counts then {last.mid} else {})
            && Larges(midRun, before + [last], bucket, from, to)
               == Larges(midRun, before, bucket, from, to)
                  + (if counts && last.large.Some? then {last.large.value} else {})
  {
    assert forall p | p in before + [last] :: p in before || p == last;
    assert forall p | p in before :: p in before + [last];
    assert last in before + [last];
  }

  /** However sends overlap, the messages over 1 MiB that one sender gets past the tiers in
      `length` nanoseconds total at most 10 MiB * ceil((length + 10 s) / (10 s - lag)) and
      15 MiB * ceil((length + delay + 30 s) / (30 s - lag)). */
  lemma {:induction false} ConcurrentThroughput(midRun: Run, largeRun: Run, lag: nat, delay: nat, passes: seq<Pass>,
                                                bucket: Bucket, from: int, length: nat)
    requires Timely(midRun, lag) && Timely(largeRun, lag) && lag < Seconds(10)
    requires Passes(midRun, largeRun, delay, passes)
    ensures PassedBytes(midRun, passes, bucket, from, from + length)
         <= Tiers.Allowance(CeilDiv(length + Seconds(10), Seconds(10) - lag),
                            CeilDiv(length + delay + Seconds(30), Seconds(30) - lag))
  {
    MidTurns(midRun, largeRun, lag, delay, passes, bucket, from, length);
    LargeTurns(midRun, largeRun, lag, delay, passes, bucket, from, length);
    BytesWithin(midRun, largeRun, delay, passes, bucket, from, from + length,
                CeilDiv(length + Seconds(10), Seconds(10) - lag),
                CeilDiv(length + delay + Seconds(30), Seconds(30) - lag));
  }

  lemma {:induction false} BytesWithin(midRun: Run, largeRun: Run, delay: nat, passes: seq<Pass>, bucket: Bucket,
                                       from: int, to: int, mids: nat, larges: nat)
    requires Passes(midRun, largeRun, delay, passes)
    requires |Mids(midRun, passes, bucket, from, to)| <= mids && |Larges(midRun, passes, bucket, from, to)| <= larges
    ensures PassedBytes(midRun, passes, bucket, from, to) <= Tiers.Allowance(mids, larges)
  {
    BytesPaid(midRun, largeRun, delay, passes, bucket, from, to);
    Tiers.AllowanceMonotone(|Mids(midRun, passes, bucket, from, to)|, |Larges(midRun, passes, bucket, from, to)|,
                            mids, larges);
  }

  lemma {:induction false} MidPositions(midRun: Run, largeRun: Run, delay: nat, passes: seq<Pass>, bucket: Bucket,
                                        from: int, to: int)
    requires Passes(midRun, largeRun, delay, passes)
    ensures var mids := Mids(midRun, passes, bucket, from, to);
            && mids <= AdmittedAt(MID_MESSAGE, midRun, bucket)
            && forall i | i in mids :: i < |midRun| && from <= midRun[i].at < to
  {
    forall i | i in Mids(midRun, passes, bucket, from, to)
      ensures i in AdmittedAt(MID_MESSAGE, midRun, bucket) && i < |midRun| && from <= midRun[i].at < to
    {
      var p :| p in passes && Counts(midRun, p, bucket, from, to) && p.mid == i;
      assert Paid(midRun, largeRun, delay, p);
    }
  }

  lemma {:induction false} LargePositions(midRun: Run, largeRun: Run, delay: nat, passes: seq<Pass>, bucket: Bucket,
                                          from: int, to: int)
    requires Passes(midRun, largeRun, delay, passes)
    ensures var larges := Larges(midRun, passes, bucket, from, to);
            && larges <= AdmittedAt(LARGE_MESSAGE, largeRun, bucket)
            && forall i | i in larges :: i < |largeRun| && from - delay <= largeRun[i].at < to
  {
    forall i | i in Larges(midRun, passes, bucket, from, to)
      ensures i in AdmittedAt(LARGE_MESSAGE, largeRun, bucket)
      ensures i < |largeRun| && from - delay <= largeRun[i].at < to
    {
      var p :| p in passes && Counts(midRun, p, bucket, from, to) && p.large.Some? && p.large.value == i;
      assert Paid(midRun, largeRun, delay, p);
    }
  }

  lemma {:induction false} MidTurns(midRun: Run, largeRun: Run, lag: nat, delay: nat, passes: seq<Pass>, bucket: Bucket,
                                    from: int, length: nat)
    requires Timely(midRun, lag) && lag < Seconds(10) && Passes(midRun, largeRun, delay, passes)
    ensures |Mids(midRun, passes, bucket, from, from + length)| <= CeilDiv(length + Seconds(10), Seconds(10) - lag)
  {
    MidPositions(midRun, largeRun, delay, passes, bucket, from, from + length);
    PositionsBounded(MID_MESSAGE, lag, midRun, bucket, Mids(midRun, passes, bucket, from, from + length), from, length);
  }

  lemma {:induction false} LargeTurns(midRun: Run, largeRun: Run, lag: nat, delay: nat, passes: seq<Pass>,
                                      bucket: Bucket, from: int, length: nat)
    requires Timely(largeRun, lag) && lag < Seconds(30) && Passes(midRun, largeRun, delay, passes)
    ensures |Larges(midRun, passes, bucket, from, from + length)|
         <= CeilDiv(length + delay + Seconds(30), Seconds(30) - lag)
  {
    LargePositions(midRun, largeRun, delay, passes, bucket, from, from + length);
    PositionsBounded(LARGE_MESSAGE, lag, largeRun, bucket, Larges(midRun, passes, bucket, from, from + length),
                     from - delay, length + delay);
  }
}
