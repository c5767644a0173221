/** The size tiers of `send_message`: content over 1 MiB spends a slot of the mid
    limiter, content over 10 MiB first spends one of the large limiter as well. */
module MessageTiers {
  import opened Prelude
  import opened RateLimit
  import opened RateLimitBound

  const MEBIBYTE: nat := 1024 * 1024
  const MID_THRESHOLD: nat := MEBIBYTE
  const LARGE_THRESHOLD: nat := 10 * MEBIBYTE
  const MAX_THRESHOLD: nat := 25 * MEBIBYTE

  datatype Verdict = TooLarge | LargeRefused | MidRefused | Passed

  datatype Tables = Tables(mid: Table, large: Table)

  function Check(tables: Tables, sender: Bytes, size: nat, at: Instant): (Tables, Verdict) {
    if size > MAX_THRESHOLD then
      (tables, TooLarge)
    else
      var (large, largeOk) :=
        if size > LARGE_THRESHOLD then Decide(LARGE_MESSAGE, tables.large, sender, at, at) else (tables.large, true);
      if !largeOk then
        (tables.(large := large), LargeRefused)
      else
        var (mid, midOk) :=
          if size > MID_THRESHOLD then Decide(MID_MESSAGE, tables.mid, sender, at, at) else (tables.mid, true);
        (Tables(mid, large), if midOk then Passed else MidRefused)
  }

  function Cleaned(tables: Tables, at: Instant): Tables {
    Tables(Retained(MID_MESSAGE, tables.mid, at), Retained(LARGE_MESSAGE, tables.large, at))
  }

  class TierGate {
    const mid: KeyRateLimiter
    const large: KeyRateLimiter

    ghost predicate Valid() {
      mid != large && mid.limits == MID_MESSAGE && large.limits == LARGE_MESSAGE
    }

    ghost function Contents(): Tables
      reads mid, large
    {
      Tables(mid.entries, large.entries)
    }

    constructor ()
      ensures Valid() && fresh(mid) && fresh(large)
      ensures Contents() == Tables(map[], map[])
    {
      mid := new KeyRateLimiter(MID_MESSAGE);
      large := new KeyRateLimiter(LARGE_MESSAGE);
    }

    method CheckSize(sender: Bytes, size: nat, at: Instant) returns (verdict: Verdict)
      requires Valid()
      modifies mid, large
      ensures (Contents(), verdict) == Check(old(Contents()), sender, size, at)
    {
      if size > MAX_THRESHOLD {
        return TooLarge;
      }
      if size > LARGE_THRESHOLD {
        var ok := large.IsAllowed(sender, at, at);
        if !ok {
          return LargeRefused;
        }
      }
      if size > MID_THRESHOLD {
        var ok := mid.IsAllowed(sender, at, at);
        if !ok {
          return MidRefused;
        }
      }
      verdict := Passed;
    }

    method Cleanup(at: Instant)
      requires Valid()
      modifies mid, large
      ensures Contents() == Cleaned(old(Contents()), at)
    {
      mid.Cleanup(at);
      large.Cleanup(at);
    }
  }

  // ---------------------------------------------------------------------------
  // Runs
  // ---------------------------------------------------------------------------

  datatype Event =
    | Send(sender: Bytes, size: nat, at: Instant)
    | Cleanup(at: Instant)

  ghost predicate Ordered(run: seq<Event>) {
    forall i, j | 0 <= i < j < |run| :: run[i].at <= run[j].at
  }

  function Step(tables: Tables, event: Event): Tables {
    match event
    case Send(sender, size, at) => Check(tables, sender, size, at).0
    case Cleanup(at) => Cleaned(tables, at)
  }

  function TablesAfter(run: seq<Event>): Tables {
    if run == [] then Tables(map[], map[]) else Step(TablesAfter(run[..|run| - 1]), run[|run| - 1])
  }

  function VerdictOf(tables: Tables, event: Event): Option<Verdict> {
    if event.Send? then Some(Check(tables, event.sender, event.size, event.at).1) else None
  }

  predicate Passes(tables: Tables, event: Event, bucket: Bucket, threshold: nat, from: int, to: int) {
    && VerdictOf(tables, event) == Some(Passed)
    && event.size > threshold && BucketOf(event.sender) == bucket && from <= event.at < to
  }

  /** Bytes of the messages over 1 MiB that passed the tiers in `[from, to)`, for the
      senders of one bucket. */
  function PassedBytes(run: seq<Event>, bucket: Bucket, from: int, to: int): nat {
    if run == [] then 0
    else
      var before, last := run[..|run| - 1], run[|run| - 1];
      PassedBytes(before, bucket, from, to) +
      if Passes(TablesAfter(before), last, bucket, MID_THRESHOLD, from, to) then last.size else 0
  }

  /** How many messages larger than `threshold` passed in `[from, to)`. */
  function PassedCount(run: seq<Event>, bucket: Bucket, threshold: nat, from: int, to: int): nat {
    if run == [] then 0
    else
      var before, last := run[..|run| - 1], run[|run| - 1];
      PassedCount(before, bucket, threshold, from, to) +
      if Passes(TablesAfter(before), last, bucket, threshold, from, to) then 1 else 0
  }

  // ---------------------------------------------------------------------------
  // What each limiter sees of a run
  // ---------------------------------------------------------------------------

  function LargeEvent(event: Event): Option<RateLimit.Event> {
    match event
    case Cleanup(at) => Some(RateLimit.Cleanup(at))
    case Send(sender, size, at) =>
      if LARGE_THRESHOLD < size <= MAX_THRESHOLD then Some(Request(sender, at, at)) else None
  }

  /** The mid limiter only sees what the large limiter let through. */
  function MidEvent(tables: Tables, event: Event): Option<RateLimit.Event> {
    match event
    case Cleanup(at) => Some(RateLimit.Cleanup(at))
    case Send(sender, size, at) =>
      if MID_THRESHOLD < size <= MAX_THRESHOLD && VerdictOf(tables, event) != Some(LargeRefused)
      then Some(Request(sender, at, at)) else None
  }

  function LargeRun(run: seq<Event>): Run {
    if run == [] then [] else Extend(LargeRun(run[..|run| - 1]), LargeEvent(run[|run| - 1]))
  }

  function MidRun(run: seq<Event>): Run {
    if run == [] then []
    else Extend(MidRun(run[..|run| - 1]), MidEvent(TablesAfter(run[..|run| - 1]), run[|run| - 1]))
  }

  lemma {:induction false} StepProjects(tables: Tables, event: Event)
    ensures var mid := MidEvent(tables, event);
            var large := LargeEvent(event);
            && Step(tables, event).mid
               == (if mid.Some? then RateLimit.Step(MID_MESSAGE, tables.mid, mid.value) else tables.mid)
            && Step(tables, event).large
               == (if large.Some? then RateLimit.Step(LARGE_MESSAGE, tables.large, large.value) else tables.large)
  {
  }

  lemma {:induction false} Projections(run: seq<Event>)
    ensures TablesAfter(run) == Tables(After(MID_MESSAGE, MidRun(run)), After(LARGE_MESSAGE, LargeRun(run)))
  {
    if run != [] {
      var before, last := run[..|run| - 1], run[|run| - 1];
      Projections(before);
      ExtendedAfter(MID_MESSAGE, MidRun(before), MidEvent(TablesAfter(before), last));
      ExtendedAfter(LARGE_MESSAGE, LargeRun(before), LargeEvent(last));
      StepProjects(TablesAfter(before), last);
    }
  }

  function Latest(run: seq<Event>): Instant {
    if run == [] then 0 else run[|run| - 1].at
  }

  lemma {:induction false} OrderedBefore(run: seq<Event>)
    requires Ordered(run) && run != []
    ensures Ordered(run[..|run| - 1]) && Latest(run[..|run| - 1]) <= run[|run| - 1].at
  {
  }

  lemma {:induction false} MidTimely(run: seq<Event>)
    requires Ordered(run)
    ensures Timely(MidRun(run), 0) && LastInstant(MidRun(run)) <= Latest(run)
  {
    if run != [] {
      var before, last := run[..|run| - 1], run[|run| - 1];
      OrderedBefore(run);
      MidTimely(before);
      ExtendedTimely(MidRun(before), MidEvent(TablesAfter(before), last), 0);
    }
  }

  lemma {:induction false} LargeTimely(run: seq<Event>)
    requires Ordered(run)
    ensures Timely(LargeRun(run), 0) && LastInstant(LargeRun(run)) <= Latest(run)
  {
    if run != [] {
      var before, last := run[..|run| - 1], run[|run| - 1];
      OrderedBefore(run);
      LargeTimely(before);
      ExtendedTimely(LargeRun(before), LargeEvent(last), 0);
    }
  }

  // ---------------------------------------------------------------------------
  // Throughput
  // ---------------------------------------------------------------------------

  /** 10 MiB for each mid slot and 15 MiB more for each large one. */
  function Allowance(mid: nat, large: nat): nat {
    10_485_760 * mid + 15_728_640 * large
  }

  lemma {:induction false} AllowanceMonotone(mid: nat, large: nat, mid': nat, large': nat)
    requires mid <= mid' && large <= large'
    ensures Allowance(mid, large) <= Allowance(mid', large')
  {
  }

  lemma {:induction false} AllowanceAdds(bytes: nat, mid: nat, large: nat, bytes': nat, mid': nat, large': nat)
    requires bytes <= Allowance(mid, large) && bytes' <= Allowance(mid', large')
    ensures bytes + bytes' <= Allowance(mid + mid', large + large')
  {
  }

  /** A message that passes spent a mid slot, and a large one too if it is over 10 MiB. */
  lemma {:induction false} PassSpendsSlots(tables: Tables, event: Event, bucket: Bucket, from: int, to: int)
    ensures var mid := Slot(MID_MESSAGE, tables.mid, MidEvent(tables, event), bucket, from, to);
            var large := Slot(LARGE_MESSAGE, tables.large, LargeEvent(event), bucket, from, to);
            && (Passes(tables, event, bucket, MID_THRESHOLD, from, to) ==>
                  mid == 1 && event.size <= Allowance(mid, large))
            && (Passes(tables, event, bucket, LARGE_THRESHOLD, from, to) ==> large == 1)
  {
  }

  lemma {:induction false} SlotsAdd(run: seq<Event>, bucket: Bucket, from: int, to: int)
    requires run != []
    ensures var before, last := run[..|run| - 1], run[|run| - 1];
            var tables := TablesAfter(before);
            && Admitted(MID_MESSAGE, MidRun(run), bucket, from, to)
               == Admitted(MID_MESSAGE, MidRun(before), bucket, from, to)
                  + Slot(MID_MESSAGE, tables.mid, MidEvent(tables, last), bucket, from, to)
            && Admitted(LARGE_MESSAGE, LargeRun(run), bucket, from, to)
               == Admitted(LARGE_MESSAGE, LargeRun(before), bucket, from, to)
                  + Slot(LARGE_MESSAGE, tables.large, LargeEvent(last), bucket, from, to)
  {
    var before, last := run[..|run| - 1], run[|run| - 1];
    Projections(before);
    ExtendedAdmitted(MID_MESSAGE, MidRun(before), MidEvent(TablesAfter(before), last), bucket, from, to);
    ExtendedAdmitted(LARGE_MESSAGE, LargeRun(before), LargeEvent(last), bucket, from, to);
  }

  /** Every passed byte was paid for by slots; those spent on refused messages are
      only wasted. */
  lemma {:induction false} PaidFor(run: seq<Event>, bucket: Bucket, from: int, to: int)
    ensures PassedBytes(run, bucket, from, to)
         <= Allowance(Admitted(MID_MESSAGE, MidRun(run), bucket, from, to),
                      Admitted(LARGE_MESSAGE, LargeRun(run), bucket, from, to))
  {
    if run != [] {
      var before, last := run[..|run| - 1], run[|run| - 1];
      PaidFor(before, bucket, from, to);
      SlotsAdd(run, bucket, from, to);
      var tables := TablesAfter(before);
      PassSpendsSlots(tables, last, bucket, from, to);
      AllowanceAdds(PassedBytes(before, bucket, from, to),
                    Admitted(MID_MESSAGE, MidRun(before), bucket, from, to),
                    Admitted(LARGE_MESSAGE, LargeRun(before), bucket, from, to),
                    if Passes(tables, last, bucket, MID_THRESHOLD, from, to) then last.size else 0,
                    Slot(MID_MESSAGE, tables.mid, MidEvent(tables, last), bucket, from, to),
                    Slot(LARGE_MESSAGE, tables.large, LargeEvent(last), bucket, from, to));
    }
  }

  lemma {:induction false} PassesCounted(run: seq<Event>, bucket: Bucket, from: int, to: int)
    ensures PassedCount(run, bucket, MID_THRESHOLD, from, to) <= Admitted(MID_MESSAGE, MidRun(run), bucket, from, to)
    ensures PassedCount(run, bucket, LARGE_THRESHOLD, from, to)
         <= Admitted(LARGE_MESSAGE, LargeRun(run), bucket, from, to)
  {
    if run != [] {
      PassesCounted(run[..|run| - 1], bucket, from, to);
      SlotsAdd(run, bucket, from, to);
      PassSpendsSlots(TablesAfter(run[..|run| - 1]), run[|run| - 1], bucket, from, to);
    }
  }

  lemma {:induction false} SlotsIn(run: seq<Event>, bucket: Bucket, from: int, secs: nat)
    requires Ordered(run)
    ensures Admitted(MID_MESSAGE, MidRun(run), bucket, from, from + Seconds(secs)) <= CeilDiv(secs, 10)
    ensures Admitted(LARGE_MESSAGE, LargeRun(run), bucket, from, from + Seconds(secs)) <= CeilDiv(secs, 30)
  {
    MidTimely(run);
    LargeTimely(run);
    SpacingBound(MID_MESSAGE, MidRun(run), bucket, from, Seconds(secs));
    SpacingBound(LARGE_MESSAGE, LargeRun(run), bucket, from, Seconds(secs));
    CeilDivScale(secs, 10, 1_000_000_000);
    CeilDivScale(secs, 30, 1_000_000_000);
  }

  /** The tiers as one throughput bound, for every interval of `secs` seconds. */
  lemma {:induction false} TieredThroughput(run: seq<Event>, bucket: Bucket, from: int, secs: nat)
    requires Ordered(run)
    ensures PassedBytes(run, bucket, from, from + Seconds(secs))
         <= Allowance(CeilDiv(secs, 10), CeilDiv(secs, 30))
  {
    var to := from + Seconds(secs);
    PaidFor(run, bucket, from, to);
    SlotsIn(run, bucket, from, secs);
    AllowanceMonotone(Admitted(MID_MESSAGE, MidRun(run), bucket, from, to),
                      Admitted(LARGE_MESSAGE, LargeRun(run), bucket, from, to),
                      CeilDiv(secs, 10), CeilDiv(secs, 30));
  }

  /** No two passed messages over 1 MiB lie within 10 s of each other, and no two over
      10 MiB within 30 s. */
  lemma {:induction false} PassesSpacedOut(run: seq<Event>, bucket: Bucket, from: int)
    requires Ordered(run)
    ensures PassedCount(run, bucket, MID_THRESHOLD, from, from + Seconds(10)) <= 1
    ensures PassedCount(run, bucket, LARGE_THRESHOLD, from, from + Seconds(30)) <= 1
  {
    PassesCounted(run, bucket, from, from + Seconds(10));
    PassesCounted(run, bucket, from, from + Seconds(30));
    SlotsIn(run, bucket, from, 10);
    SlotsIn(run, bucket, from, 30);
  }
}
