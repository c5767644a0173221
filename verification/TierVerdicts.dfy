/** The verdict on a message, told from the verdicts on earlier ones. */
module TierVerdicts {
  import opened Prelude
  import opened RateLimit
  import opened RateLimitFairness
  import opened MessageTiers

  /** A message over 10 MiB that got past the large limiter, whatever came of it. */
  predicate SpendsLarge(tables: Tables, event: MessageTiers.Event, bucket: Bucket, from: int, to: int) {
    && event.Send? && event.size > LARGE_THRESHOLD && BucketOf(event.sender) == bucket && from <= event.at < to
    && (VerdictOf(tables, event) == Some(Passed) || VerdictOf(tables, event) == Some(MidRefused))
  }

  function LargeSpent(run: seq<MessageTiers.Event>, bucket: Bucket, from: int, to: int): nat {
    if run == [] then 0
    else
      var before, last := run[..|run| - 1], run[|run| - 1];
      LargeSpent(before, bucket, from, to) + if SpendsLarge(TablesAfter(before), last, bucket, from, to) then 1 else 0
  }

  lemma {:induction false} SlotsSpent(tables: Tables, event: MessageTiers.Event, bucket: Bucket, from: int, to: int)
    ensures Slot(MID_MESSAGE, tables.mid, MidEvent(tables, event), bucket, from, to)
         == if Passes(tables, event, bucket, MID_THRESHOLD, from, to) then 1 else 0
    ensures Slot(LARGE_MESSAGE, tables.large, LargeEvent(event), bucket, from, to)
         == if SpendsLarge(tables, event, bucket, from, to) then 1 else 0
  {
  }

  lemma {:induction false} CountsAdd(run: seq<MessageTiers.Event>, bucket: Bucket, from: int, to: int)
    requires run != []
    ensures var before, last := run[..|run| - 1], run[|run| - 1];
            var tables := TablesAfter(before);
            && PassedCount(run, bucket, MID_THRESHOLD, from, to)
               == PassedCount(before, bucket, MID_THRESHOLD, from, to)
                  + Slot(MID_MESSAGE, tables.mid, MidEvent(tables, last), bucket, from, to)
            && LargeSpent(run, bucket, from, to)
               == LargeSpent(before, bucket, from, to)
                  + Slot(LARGE_MESSAGE, tables.large, LargeEvent(last), bucket, from, to)
  {
    SlotsSpent(TablesAfter(run[..|run| - 1]), run[|run| - 1], bucket, from, to);
  }

  /** The slots of the mid limiter are the passed messages over 1 MiB; those of the
      large one, the messages over 10 MiB that got past it. */
  lemma {:induction false} SlotsCounted(run: seq<MessageTiers.Event>, bucket: Bucket, from: int, to: int)
    ensures Admitted(MID_MESSAGE, MidRun(run), bucket, from, to) == PassedCount(run, bucket, MID_THRESHOLD, from, to)
    ensures Admitted(LARGE_MESSAGE, LargeRun(run), bucket, from, to) == LargeSpent(run, bucket, from, to)
  {
    if run != [] {
      var before := run[..|run| - 1];
      SlotsCounted(before, bucket, from, to);
      SlotsAdd(run, bucket, from, to);
      CountsAdd(run, bucket, from, to);
    }
  }

  /** What the tiers are to say of a message of `size` bytes. */
  function Judged(run: seq<MessageTiers.Event>, bucket: Bucket, size: nat, at: Instant): Verdict {
    if size > 26_214_400 then TooLarge
    else if size > 10_485_760 && LargeSpent(run, bucket, at - Seconds(30) + 1, at + 1) > 0 then LargeRefused
    else if size > 1_048_576 && PassedCount(run, bucket, 1_048_576, at - Seconds(10) + 1, at + 1) > 0
    then MidRefused
    else Passed
  }

  lemma {:induction false} MidDecision(run: seq<MessageTiers.Event>, sender: Bytes, at: Instant)
    requires Ordered(run) && (run != [] ==> run[|run| - 1].at <= at) && sender != []
    ensures Decide(MID_MESSAGE, TablesAfter(run).mid, sender, at, at).1
       <==> PassedCount(run, BucketOf(sender), MID_THRESHOLD, at - Seconds(10) + 1, at + 1) == 0
  {
    Projections(run);
    MidTimely(run);
    SpacedExactly(MID_MESSAGE, MidRun(run), sender, at);
    SlotsCounted(run, BucketOf(sender), at - Seconds(10) + 1, at + 1);
  }

  lemma {:induction false} LargeDecision(run: seq<MessageTiers.Event>, sender: Bytes, at: Instant)
    requires Ordered(run) && (run != [] ==> run[|run| - 1].at <= at) && sender != []
    ensures Decide(LARGE_MESSAGE, TablesAfter(run).large, sender, at, at).1
       <==> LargeSpent(run, BucketOf(sender), at - Seconds(30) + 1, at + 1) == 0
  {
    Projections(run);
    LargeTimely(run);
    SpacedExactly(LARGE_MESSAGE, LargeRun(run), sender, at);
    SlotsCounted(run, BucketOf(sender), at - Seconds(30) + 1, at + 1);
  }

  /** Over every run, cleanups included: a message over 10 MiB is refused by the large
      tier exactly when another got past it in the last 30 s, and one over 1 MiB by the
      mid tier exactly when another passed in the last 10 s. */
  lemma {:induction false} VerdictExactly(run: seq<MessageTiers.Event>, sender: Bytes, size: nat, at: Instant)
    requires Ordered(run) && (run != [] ==> run[|run| - 1].at <= at) && sender != []
    ensures Check(TablesAfter(run), sender, size, at).1 == Judged(run, BucketOf(sender), size, at)
  {
    MidDecision(run, sender, at);
    LargeDecision(run, sender, at);
  }

  lemma {:induction false} LargeSpentNext(run: seq<MessageTiers.Event>, bucket: Bucket, from: int, to: int)
    requires run != []
    ensures LargeSpent(run[..|run| - 1], bucket, from, to) <= LargeSpent(run, bucket, from, to)
  {
  }

  lemma {:induction false} LargeSpentGrows(run: seq<MessageTiers.Event>, more: seq<MessageTiers.Event>, bucket: Bucket,
                                           from: int, to: int)
    ensures LargeSpent(run, bucket, from, to) <= LargeSpent(run + more, bucket, from, to)
  {
    if more == [] {
      assert run + more == run;
    } else {
      LargeSpentGrows(run, more[..|more| - 1], bucket, from, to);
      LargeSpentNext(run + more, bucket, from, to);
      assert (run + more)[..|run + more| - 1] == run + more[..|more| - 1];
    }
  }

  /** A message over 10 MiB refused by the mid limiter has still spent its sender's large
      slot: whatever happens in between, every other such message is refused for 30 s
      although none was stored. */
  lemma {:induction false} MidRefusalSpendsLargeSlot(run: seq<MessageTiers.Event>, sender: Bytes, size: nat,
                                                     at: Instant, between: seq<MessageTiers.Event>, other: Bytes,
                                                     otherSize: nat, later: Instant)
    requires Check(TablesAfter(run), sender, size, at).1 == MidRefused && size > LARGE_THRESHOLD
    requires Ordered(run + [Send(sender, size, at)] + between)
    requires forall e | e in between :: e.at <= later
    requires at <= later < at + Seconds(30)
    requires other != [] && BucketOf(other) == BucketOf(sender) && LARGE_THRESHOLD < otherSize <= MAX_THRESHOLD
    ensures Check(TablesAfter(run + [Send(sender, size, at)] + between), other, otherSize, later).1 == LargeRefused
  {
    var refused := Send(sender, size, at);
    MidRefusedSpends(TablesAfter(run), sender, size, at, later - Seconds(30) + 1, later + 1);
    SlotStaysSpent(run, refused, between, BucketOf(sender), later - Seconds(30) + 1, later + 1);
    LastInBetween(run, refused, between, later);
    RefusedWhenSpent(run + [refused] + between, other, otherSize, later);
  }

  lemma {:induction false} MidRefusedSpends(tables: Tables, sender: Bytes, size: nat, at: Instant, from: int, to: int)
    requires Check(tables, sender, size, at).1 == MidRefused && size > LARGE_THRESHOLD && from <= at < to
    ensures SpendsLarge(tables, Send(sender, size, at), BucketOf(sender), from, to)
  {
  }

  lemma {:induction false} RefusedWhenSpent(run: seq<MessageTiers.Event>, sender: Bytes, size: nat, at: Instant)
    requires Ordered(run) && (run != [] ==> run[|run| - 1].at <= at) && sender != []
    requires LARGE_THRESHOLD < size <= MAX_THRESHOLD
    requires LargeSpent(run, BucketOf(sender), at - Seconds(30) + 1, at + 1) > 0
    ensures Check(TablesAfter(run), sender, size, at).1 == LargeRefused
  {
    VerdictExactly(run, sender, size, at);
  }

  lemma {:induction false} SlotStaysSpent(run: seq<MessageTiers.Event>, event: MessageTiers.Event,
                                          between: seq<MessageTiers.Event>, bucket: Bucket, from: int, to: int)
    requires SpendsLarge(TablesAfter(run), event, bucket, from, to)
    ensures LargeSpent(run + [event] + between, bucket, from, to) > 0
  {
    assert (run + [event])[..|run|] == run;
    LargeSpentGrows(run + [event], between, bucket, from, to);
  }

  lemma {:induction false} LastInBetween(run: seq<MessageTiers.Event>, event: MessageTiers.Event,
                                         between: seq<MessageTiers.Event>, later: Instant)
    requires event.at <= later && forall e | e in between :: e.at <= later
    ensures var all := run + [event] + between;
            all != [] && all[|all| - 1].at <= later
  {
    if between != [] {
      assert (run + [event] + between)[|run| + |between|] == between[|between| - 1];
    }
  }

  /** It does happen: 2 MiB, then 11 MiB a second later. */
  lemma {:induction false} MidRefusalHappens(sender: Bytes)
    requires sender != []
    ensures Check(TablesAfter([Send(sender, 2 * MEBIBYTE, 0)]), sender, 11 * MEBIBYTE, 1_000_000_000).1 == MidRefused
  {
    var run := [Send(sender, 2 * MEBIBYTE, 0)];
    assert run[..0] == [];
    assert TablesAfter(run) == MessageTiers.Step(TablesAfter([]), run[0]);
  }
}
