/** What a send is answered, told from the earlier sends and the stored message ids. */
module SendAnswers {
  import opened Prelude
  import opened Schema
  import opened Messages
  import opened MessageRuns
  import opened MessageTiers
  import RL = RateLimit
  import RH = RateLimitHistory

  ghost function Outcome(states: seq<Store>, steps: seq<MessageRuns.Step>, i: nat): SendOutcome
    requires |states| == |steps| + 1 && i < |steps| && steps[i].op.Send?
  {
    Sending(steps[i].users, states[i], steps[i].op.envelope, steps[i].at).1
  }

  /** A send that gets as far as the size tiers. */
  predicate SendInOrder(step: MessageRuns.Step) {
    && step.op.Send? && step.op.envelope.sender in step.users && step.op.envelope.verified
    && step.op.envelope.recipient in step.users
  }

  // ---------------------------------------------------------------------------
  // What the two limiters see
  // ---------------------------------------------------------------------------

  function LargeSeen(step: MessageRuns.Step): Option<RL.Event> {
    if SendInOrder(step) && 10_485_760 < |step.op.envelope.content| <= 26_214_400
    then Some(RL.Request(step.op.envelope.sender, step.at, step.at))
    else if step.op.CleanTiers? then Some(RL.Cleanup(step.at))
    else None
  }

  function LargeLog(steps: seq<MessageRuns.Step>): RH.Log {
    seq(|steps|, i requires 0 <= i < |steps| => LargeSeen(steps[i]))
  }

  /** Content of at most 10 MiB, or one of the limiter of one per 30 s. */
  ghost predicate PastLarge(steps: seq<MessageRuns.Step>, i: nat)
    requires i < |steps| && steps[i].op.Send?
  {
    |steps[i].op.envelope.content| <= 10_485_760 || RH.Admits(RL.Limits(1, 30), LargeLog(steps), i)
  }

  /** The mid limiter only sees what got past the large one. */
  ghost function MidSeen(steps: seq<MessageRuns.Step>, i: nat): Option<RL.Event>
    requires i < |steps|
  {
    var step := steps[i];
    if SendInOrder(step) && 1_048_576 < |step.op.envelope.content| <= 26_214_400 && PastLarge(steps, i)
    then Some(RL.Request(step.op.envelope.sender, step.at, step.at))
    else if step.op.CleanTiers? then Some(RL.Cleanup(step.at))
    else None
  }

  ghost function MidLog(steps: seq<MessageRuns.Step>): RH.Log {
    seq(|steps|, i requires 0 <= i < |steps| => MidSeen(steps, i))
  }

  /** Content of at most 1 MiB, or one of the limiter of one per 10 s. */
  ghost predicate PastMid(steps: seq<MessageRuns.Step>, i: nat)
    requires i < |steps| && steps[i].op.Send?
  {
    |steps[i].op.envelope.content| <= 1_048_576 || RH.Admits(RL.Limits(1, 10), MidLog(steps), i)
  }

  ghost predicate PassesTiers(steps: seq<MessageRuns.Step>, i: nat)
    requires i < |steps| && steps[i].op.Send?
  {
    |steps[i].op.envelope.content| <= 26_214_400 && PastLarge(steps, i) && PastMid(steps, i)
  }

  // ---------------------------------------------------------------------------
  // The limiters along a run
  // ---------------------------------------------------------------------------

  lemma {:induction false} SendCharges(users: set<Hash>, s: Store, e: Envelope, now: Instant)
    ensures Sending(users, s, e, now).0.tiers
         == if e.sender in users && e.verified && e.recipient in users
            then Check(s.tiers, e.sender, |e.content|, now).0 else s.tiers
  {
  }

  lemma {:induction false} LargeFollows(s: Store, step: MessageRuns.Step)
    ensures RH.Follows(RL.Limits(1, 30), s.tiers.large, LargeSeen(step), Execute(s, step).tiers.large)
  {
    if step.op.Send? {
      SendCharges(step.users, s, step.op.envelope, step.at);
    }
  }

  lemma {:induction false} LargeDecided(states: seq<Store>, steps: seq<MessageRuns.Step>, i: nat)
    requires Behaviour(states, steps) && i < |steps| && SendInOrder(steps[i])
    requires 10_485_760 < |steps[i].op.envelope.content| <= 26_214_400
    ensures RL.Decide(RL.LARGE_MESSAGE, states[i].tiers.large, steps[i].op.envelope.sender, steps[i].at, steps[i].at).1
       <==> PastLarge(steps, i)
  {
    var tables := seq(|states|, j requires 0 <= j < |states| => states[j].tiers.large);
    forall j | 0 <= j < |steps|
      ensures RH.Follows(RL.Limits(1, 30), tables[j], LargeLog(steps)[j], tables[j + 1])
    {
      assert Leads(states[j], steps[j], states[j + 1]);
      LargeFollows(states[j], steps[j]);
    }
    RH.AdmittedExactly(RL.Limits(1, 30), tables, LargeLog(steps), 0, i);
  }

  lemma {:induction false} MidFollows(states: seq<Store>, steps: seq<MessageRuns.Step>, i: nat)
    requires Behaviour(states, steps) && i < |steps|
    ensures RH.Follows(RL.Limits(1, 10), states[i].tiers.mid, MidSeen(steps, i), states[i + 1].tiers.mid)
  {
    assert Leads(states[i], steps[i], states[i + 1]);
    if steps[i].op.Send? {
      SendCharges(steps[i].users, states[i], steps[i].op.envelope, steps[i].at);
      if SendInOrder(steps[i]) && 10_485_760 < |steps[i].op.envelope.content| <= 26_214_400 {
        LargeDecided(states, steps, i);
      }
    }
  }

  lemma {:induction false} MidDecided(states: seq<Store>, steps: seq<MessageRuns.Step>, i: nat)
    requires Behaviour(states, steps) && i < |steps| && SendInOrder(steps[i]) && PastLarge(steps, i)
    requires 1_048_576 < |steps[i].op.envelope.content| <= 26_214_400
    ensures RL.Decide(RL.MID_MESSAGE, states[i].tiers.mid, steps[i].op.envelope.sender, steps[i].at, steps[i].at).1
       <==> PastMid(steps, i)
  {
    var tables := seq(|states|, j requires 0 <= j < |states| => states[j].tiers.mid);
    forall j | 0 <= j < |steps|
      ensures RH.Follows(RL.Limits(1, 10), tables[j], MidLog(steps)[j], tables[j + 1])
    {
      MidFollows(states, steps, j);
    }
    RH.AdmittedExactly(RL.Limits(1, 10), tables, MidLog(steps), 0, i);
  }

  lemma {:induction false} TiersDecided(states: seq<Store>, steps: seq<MessageRuns.Step>, i: nat)
    requires Behaviour(states, steps) && i < |steps| && SendInOrder(steps[i])
    ensures var size := |steps[i].op.envelope.content|;
            var verdict := Check(states[i].tiers, steps[i].op.envelope.sender, size, steps[i].at).1;
            && (verdict == TooLarge <==> size > 26_214_400)
            && (verdict == LargeRefused <==> size <= 26_214_400 && !PastLarge(steps, i))
            && (verdict == MidRefused <==> size <= 26_214_400 && PastLarge(steps, i) && !PastMid(steps, i))
            && (verdict == Passed <==> PassesTiers(steps, i))
  {
    var size := |steps[i].op.envelope.content|;
    if 10_485_760 < size <= 26_214_400 {
      LargeDecided(states, steps, i);
    }
    if 1_048_576 < size <= 26_214_400 && PastLarge(steps, i) {
      MidDecided(states, steps, i);
    }
  }

  // ---------------------------------------------------------------------------
  // The answers
  // ---------------------------------------------------------------------------

  ghost predicate FreshId(mail: Mail, messageId: Bytes) {
    forall id | id in mail :: mail[id].messageId != messageId
  }

  /** Step `i` is a send that is stored. */
  ghost predicate Accepted(states: seq<Store>, steps: seq<MessageRuns.Step>, i: nat)
    requires |states| == |steps| + 1
  {
    && i < |steps| && SendInOrder(steps[i]) && PassesTiers(steps, i)
    && FreshId(states[i].mail, steps[i].op.envelope.messageId)
  }

  /** Over every run, what each send is answered: it is stored, under its own id and with the
      server's time in milliseconds, if and only if both users are known, it is signed, its
      size passes the tiers and its id is not taken; each refusal tells the first thing wrong
      with it. */
  lemma {:induction false} SendAnsweredExactly(states: seq<Store>, steps: seq<MessageRuns.Step>, i: nat,
                                               messageId: Bytes, serverTimestamp: int)
    requires Behaviour(states, steps) && i < |steps| && steps[i].op.Send?
    ensures var e, users, outcome := steps[i].op.envelope, steps[i].users, Outcome(states, steps, i);
            && (outcome == SenderNotFound <==> e.sender !in users)
            && (outcome == InvalidSignature <==> e.sender in users && !e.verified)
            && (outcome == RecipientNotFound <==> e.sender in users && e.verified && e.recipient !in users)
            && (outcome == TierRefused(TooLarge) <==> SendInOrder(steps[i]) && |e.content| > 26_214_400)
            && (outcome == TierRefused(LargeRefused)
                <==> SendInOrder(steps[i]) && |e.content| <= 26_214_400 && !PastLarge(steps, i))
            && (outcome == TierRefused(MidRefused)
                <==> && SendInOrder(steps[i]) && |e.content| <= 26_214_400
                     && PastLarge(steps, i) && !PastMid(steps, i))
            && (outcome == NotStored
                <==> SendInOrder(steps[i]) && PassesTiers(steps, i) && !FreshId(states[i].mail, e.messageId))
            && (outcome == Stored(messageId, serverTimestamp)
                <==> && Accepted(states, steps, i)
                     && messageId == e.messageId && serverTimestamp == steps[i].at / 1_000_000)
  {
    if SendInOrder(steps[i]) {
      TiersDecided(states, steps, i);
    }
  }
}
