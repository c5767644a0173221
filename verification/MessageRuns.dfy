/** Whole runs of the message store, and what holds in every reachable one. */
module MessageRuns {
  import opened Prelude
  import opened Schema
  import opened Messages
  import MessageTiers

  datatype Operation =
    | Send(envelope: Envelope)
    | Acknowledge(ack: Ack)
    | DeleteExpired
    | CleanTiers
    | EraseUser(user: Hash)

  /** `users` are those registered at the time. */
  datatype Step = Step(op: Operation, users: set<Hash>, at: Instant)

  function Execute(s: Store, step: Step): Store {
    match step.op
    case Send(e) => Sending(step.users, s, e, step.at).0
    case Acknowledge(a) => s.(mail := Acking(step.users, s.mail, a))
    case DeleteExpired => s.(mail := Purged(s.mail, step.at))
    case CleanTiers => s.(tiers := MessageTiers.Cleaned(s.tiers, step.at))
    case EraseUser(user) => s.(mail := Erased(s.mail, user))
  }

  ghost predicate Leads(s: Store, step: Step, s': Store) {
    s' == Execute(s, step)
  }

  ghost predicate Behaviour(states: seq<Store>, steps: seq<Step>) {
    && |states| == |steps| + 1
    && states[0] == EMPTY_STORE
    && (forall i | 0 <= i < |steps| :: Leads(states[i], steps[i], states[i + 1]))
    && (forall i, j | 0 <= i < j < |steps| :: steps[i].at <= steps[j].at)
  }

  // ---------------------------------------------------------------------------
  // The invariant
  // ---------------------------------------------------------------------------

  ghost predicate PositiveTimes(mail: Mail) {
    forall id | id in mail :: mail[id].serverTimestamp > 0
  }

  ghost predicate Sound(s: Store) {
    UniqueIds(s.mail) && Below(s.mail, s.next)
  }

  lemma {:induction false} InsertingSound(s: Store, m: Message)
    requires Sound(s)
    ensures Sound(Inserting(s, m).0)
    ensures PositiveTimes(s.mail) && m.serverTimestamp > 0 ==> PositiveTimes(Inserting(s, m).0.mail)
  {
  }

  /** Sending inserts the message, or leaves the stored messages as they are. */
  lemma {:induction false} SendingInserts(users: set<Hash>, s: Store, e: Envelope, now: Instant)
    ensures var (s', outcome) := Sending(users, s, e, now);
            && (outcome.Stored? || outcome == NotStored ==>
                  var charged := s.(tiers := s'.tiers);
                  (s', outcome) == Inserting(charged, MessageOf(e, now)))
            && (!outcome.Stored? && outcome != NotStored ==> s' == s.(tiers := s'.tiers))
  {
  }

  lemma {:induction false} StepKeepsSound(s: Store, step: Step)
    requires Sound(s)
    ensures Sound(Execute(s, step))
    ensures PositiveTimes(s.mail) && step.at >= 1_000_000 ==> PositiveTimes(Execute(s, step).mail)
  {
    if step.op.Send? {
      var (s', outcome) := Sending(step.users, s, step.op.envelope, step.at);
      SendingInserts(step.users, s, step.op.envelope, step.at);
      InsertingSound(s.(tiers := s'.tiers), MessageOf(step.op.envelope, step.at));
    }
  }

  lemma {:induction false} RunKeepsSound(states: seq<Store>, steps: seq<Step>, i: nat)
    requires Behaviour(states, steps) && i < |states|
    ensures Sound(states[i])
  {
    if i > 0 {
      RunKeepsSound(states, steps, i - 1);
      assert Leads(states[i - 1], steps[i - 1], states[i - 1 + 1]);
      StepKeepsSound(states[i - 1], steps[i - 1]);
    }
  }

  lemma {:induction false} RunKeepsPositive(states: seq<Store>, steps: seq<Step>, i: nat)
    requires Behaviour(states, steps) && i < |states| && forall j | 0 <= j < i :: steps[j].at >= 1_000_000
    ensures PositiveTimes(states[i].mail)
  {
    if i > 0 {
      RunKeepsPositive(states, steps, i - 1);
      RunKeepsSound(states, steps, i - 1);
      assert Leads(states[i - 1], steps[i - 1], states[i - 1 + 1]);
      StepKeepsSound(states[i - 1], steps[i - 1]);
    }
  }

  /** On a server whose clock is past the first millisecond of the epoch and whose row
      ids fit their column, the page and the remaining count always add up to the
      waiting messages after the cursor, zero included. */
  lemma {:induction false} PageAccounts(states: seq<Store>, steps: seq<Step>, i: nat, user: Hash, since: u64,
                                        now: Instant, requested: u32, page: seq<nat>)
    requires Behaviour(states, steps) && i < |states| && states[i].next <= 0x8000_0000
    requires forall j | 0 <= j < i :: steps[j].at >= 1_000_000
    requires IsPage(states[i].mail, Selected(states[i].mail, user, since, now), Limit(requested), page)
    ensures |page| + Remaining(|Counted(states[i].mail, user, since, now)|, |page|)
            == |Selected(states[i].mail, user, since, now)|
  {
    RunKeepsSound(states, steps, i);
    RunKeepsPositive(states, steps, i);
    PageAndRemaining(states[i].mail, user, since, now, requested, page);
  }
}
