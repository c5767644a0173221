/** How many relay rows of one sender key can be alive at once: the push limiter
    composed with the clamp on the time to live. */
module MailboxQuota {
  import opened Prelude
  import opened Mailbox
  import Ordering
  import RateLimit
  import RateLimitBound

  /** Ids stored for the senders of one bucket. */
  function StoredBy(run: Run, bucket: RateLimit.Bucket): set<nat> {
    if run == [] then {}
    else
      var before, last := run[..|run| - 1], run[|run| - 1];
      StoredBy(before, bucket) + NewlyStored(After(before), last, bucket)
  }

  function NewlyStored(s: State, event: Event, bucket: RateLimit.Bucket): set<nat> {
    if event.op.PushRelay? && RateLimit.BucketOf(event.op.sender) == bucket then
      var response := Execute(s, event.op, event.at).1;
      if response.Pushed? then {response.id} else {}
    else {}
  }

  /** Rows of those senders that are still in the table and unexpired at `instant`. */
  function Alive(run: Run, bucket: RateLimit.Bucket, instant: Instant): set<nat> {
    var rows := After(run).rows;
    set id | id in rows && id in StoredBy(run, bucket) && rows[id].expiresAt > instant
  }

  // ---------------------------------------------------------------------------
  // What the push limiter sees
  // ---------------------------------------------------------------------------

  function LimiterEvent(event: Event): Option<RateLimit.Event> {
    match event.op
    case PushRelay(_, _, _, sender, _, _, _, _) =>
      if PushRefusal(event.op, event.at) == None then Some(RateLimit.Request(sender, event.at, event.at)) else None
    case CleanLimiters => Some(RateLimit.Cleanup(event.at))
    case _ => None
  }

  function LimiterRun(run: Run): RateLimit.Run {
    if run == [] then []
    else RateLimit.Extend(LimiterRun(run[..|run| - 1]), LimiterEvent(run[|run| - 1]))
  }

  lemma {:induction false} StepProjects(s: State, event: Event)
    ensures var seen := LimiterEvent(event);
            Execute(s, event.op, event.at).0.pushTable
            == if seen.Some? then RateLimit.Step(RateLimit.RELAY_PUSH, s.pushTable, seen.value) else s.pushTable
  {
    if event.op.PushRelay? {
      assert Execute(s, event.op, event.at) == Pushing(s, event.op, event.at);
    } else if event.op.CleanLimiters? {
      assert Execute(s, event.op, event.at).0 == LimitersCleaned(s, event.at);
    }
  }

  lemma {:induction false} LimiterProjects(run: Run)
    ensures After(run).pushTable == RateLimit.After(RateLimit.RELAY_PUSH, LimiterRun(run))
  {
    if run != [] {
      var before, last := run[..|run| - 1], run[|run| - 1];
      LimiterProjects(before);
      StepProjects(After(before), last);
      RateLimit.ExtendedAfter(RateLimit.RELAY_PUSH, LimiterRun(before), LimiterEvent(last));
    }
  }

  lemma {:induction false} LimiterRunTimely(run: Run)
    requires Ordered(run)
    ensures RateLimit.Timely(LimiterRun(run), 0)
    ensures if run == [] then LimiterRun(run) == [] else RateLimit.LastInstant(LimiterRun(run)) <= run[|run| - 1].at
  {
    if run != [] {
      var before, last := run[..|run| - 1], run[|run| - 1];
      LimiterRunTimely(before);
      RateLimit.ExtendedTimely(LimiterRun(before), LimiterEvent(last), 0);
    }
  }

  // ---------------------------------------------------------------------------
  // The quota
  // ---------------------------------------------------------------------------

  /** A pushed row has a fresh id, spends a slot of its sender, and lives for a day
      at most. */
  lemma {:induction false} PushSpendsSlot(s: State, event: Event, bucket: RateLimit.Bucket, instant: Instant)
    requires event.at <= instant
    ensures var stored := NewlyStored(s, event, bucket);
            var rows := Execute(s, event.op, event.at).0.rows;
            && stored <= {s.nextId}
            && (s.nextId in stored && rows[s.nextId].expiresAt > instant ==>
                  RateLimit.Slot(RateLimit.RELAY_PUSH, s.pushTable, LimiterEvent(event), bucket,
                                 instant - Seconds(DAY) + 1, instant + 1) == 1)
  {
  }

  ghost predicate Leads(s: State, s': State) {
    && (forall id | id in s'.rows && id < s.nextId :: id in s.rows && s'.rows[id] == s.rows[id])
    && (forall id | id in s'.rows :: id < s'.nextId)
    && s.nextId <= s'.nextId
  }

  lemma {:induction false} PushLeads(s: State, op: Operation, now: Instant)
    requires op.PushRelay? && forall id | id in s.rows :: id < s.nextId
    ensures Leads(s, Pushing(s, op, now).0)
  {
  }

  /** Only a push adds a row, and no row is ever changed. */
  lemma {:induction false} RowsOnlyLeave(s: State, event: Event)
    requires forall id | id in s.rows :: id < s.nextId
    ensures Leads(s, Execute(s, event.op, event.at).0)
  {
    var op, now := event.op, event.at;
    match op {
      case PushRelay(_, _, _, _, _, _, _, _) => PushLeads(s, op, now);
      case AckRelay(_, _, _, _, _) => assert Execute(s, op, now).0.nextId == s.nextId;
      case PurgeExpired => assert Execute(s, op, now).0 == Purged(s, now);
      case _ => assert Execute(s, op, now).0.rows == s.rows;
    }
  }

  lemma {:induction false} IdsInSequence(run: Run, bucket: RateLimit.Bucket)
    ensures forall id | id in After(run).rows :: id < After(run).nextId
    ensures forall id | id in StoredBy(run, bucket) :: id < After(run).nextId
  {
    if run != [] {
      var before, last := run[..|run| - 1], run[|run| - 1];
      IdsInSequence(before, bucket);
      RowsOnlyLeave(After(before), last);
      PushSpendsSlot(After(before), last, bucket, last.at);
    }
  }

  /** One step adds to the alive rows at most the row it stored. */
  lemma {:induction false} AliveGrows(run: Run, bucket: RateLimit.Bucket, instant: Instant)
    requires run != [] && run[|run| - 1].at <= instant
    ensures var before, last := run[..|run| - 1], run[|run| - 1];
            |Alive(run, bucket, instant)|
            <= |Alive(before, bucket, instant)|
               + RateLimit.Slot(RateLimit.RELAY_PUSH, After(before).pushTable, LimiterEvent(last), bucket,
                                instant - Seconds(DAY) + 1, instant + 1)
  {
    var before, last := run[..|run| - 1], run[|run| - 1];
    IdsInSequence(before, bucket);
    RowsOnlyLeave(After(before), last);
    PushSpendsSlot(After(before), last, bucket, instant);
    var alive, alive' := Alive(before, bucket, instant), Alive(run, bucket, instant);
    var id := After(before).nextId;
    assert alive' <= alive + {id};
    if id in alive' {
      Ordering.SubsetSize(alive', alive + {id});
    } else {
      assert alive' <= alive;
      Ordering.SubsetSize(alive', alive);
    }
  }

  lemma {:induction false} AliveWithinSlots(run: Run, bucket: RateLimit.Bucket, instant: Instant)
    requires Ordered(run) && (run != [] ==> run[|run| - 1].at <= instant)
    ensures |Alive(run, bucket, instant)|
         <= RateLimit.Admitted(RateLimit.RELAY_PUSH, LimiterRun(run), bucket, instant - Seconds(DAY) + 1, instant + 1)
  {
    if run != [] {
      var before, last := run[..|run| - 1], run[|run| - 1];
      AliveWithinSlots(before, bucket, instant);
      LimiterProjects(before);
      AliveGrows(run, bucket, instant);
      RateLimit.ExtendedAdmitted(RateLimit.RELAY_PUSH, LimiterRun(before), LimiterEvent(last), bucket,
                                 instant - Seconds(DAY) + 1, instant + 1);
    }
  }

  /** At any instant of any run, the unexpired rows of one sender key number at most
      60 * (86400 / 60 + 1) = 86460. */
  lemma {:induction false} RelayQuota(run: Run, sender: Bytes, instant: Instant)
    requires Ordered(run) && (run != [] ==> run[|run| - 1].at <= instant)
    ensures |Alive(run, RateLimit.BucketOf(sender), instant)| <= 86_460
  {
    var bucket := RateLimit.BucketOf(sender);
    AliveWithinSlots(run, bucket, instant);
    LimiterRunTimely(run);
    RateLimitBound.SlidingBoundAtomic(RateLimit.RELAY_PUSH, LimiterRun(run), bucket,
                                      instant - Seconds(DAY) + 1, Seconds(DAY));
    CeilDivScale(DAY, 60, 1_000_000_000);
    assert CeilDiv(DAY, 60) == 1_440;
  }
}
