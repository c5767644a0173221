/** What the message store holds and what a fetch returns, told from the history alone. */
module MessageHistory {
  import opened Prelude
  import opened Schema
  import opened Messages
  import opened MessageRuns
  import opened SendAnswers
  import opened Latches

  ghost predicate HasMessage(mail: Mail, m: Message) {
    exists id | id in mail :: mail[id] == m
  }

  /** Step `k` stored `m`: what was sent, the server's time in milliseconds, and the expiry
      asked for in hours, or that of the last second of the year 9999. */
  ghost predicate Stores(states: seq<Store>, steps: seq<Step>, k: nat, m: Message)
    requires |states| == |steps| + 1
  {
    && Accepted(states, steps, k)
    && m.messageId == steps[k].op.envelope.messageId && m.content == steps[k].op.envelope.content
    && m.sender == steps[k].op.envelope.sender && m.recipient == steps[k].op.envelope.recipient
    && m.serverTimestamp == steps[k].at / 1_000_000
    && m.expiresAt == if steps[k].op.envelope.sequenceNumber == 0 then Seconds(253_402_300_799)
                      else steps[k].at + Seconds(steps[k].op.envelope.sequenceNumber * 3_600)
  }

  /** The step acknowledges messages of that id and recipient. */
  predicate AcknowledgesAs(step: Step, messageId: Bytes, recipient: Hash) {
    && step.op.Acknowledge? && step.op.ack.messageId == messageId != [] && step.op.ack.recipient == recipient != []
    && step.op.ack.signature != [] && recipient in step.users && step.op.ack.verified
  }

  /** The step acknowledged `m`, or erased one of its users. */
  predicate Withdraws(step: Step, m: Message) {
    || AcknowledgesAs(step, m.messageId, m.recipient)
    || (step.op.EraseUser? && (m.sender == step.op.user || m.recipient == step.op.user))
  }

  predicate Removes(step: Step, m: Message) {
    Withdraws(step, m) || (step.op.DeleteExpired? && m.expiresAt < step.at)
  }

  /** In any store: an acknowledgement is refused for the first thing wrong with it. */
  lemma {:induction false} AckAnsweredExactly(users: set<Hash>, a: Ack)
    ensures var outcome, given := AckResult(users, a), a.messageId != [] && a.recipient != [];
            && (outcome == IdsRequired <==> !given)
            && (outcome == SignatureRequired <==> given && a.signature == [])
            && (outcome == UnknownRecipient <==> given && a.signature != [] && a.recipient !in users)
            && (outcome == BadSignature <==> given && a.signature != [] && a.recipient in users && !a.verified)
            && (outcome == Acked <==> given && a.signature != [] && a.recipient in users && a.verified)
  {
  }

  // ---------------------------------------------------------------------------
  // One step
  // ---------------------------------------------------------------------------

  ghost predicate MailFollows(states: seq<Store>, steps: seq<Step>, j: nat, m: Message)
    requires |states| == |steps| + 1 && j < |steps|
  {
    HasMessage(states[j + 1].mail, m)
    <==> Stores(states, steps, j, m) || (HasMessage(states[j].mail, m) && !Removes(steps[j], m))
  }

  lemma {:induction false} InsertingMessage(s: Store, n: Message, m: Message)
    requires MessageRuns.Sound(s)
    ensures var (s', outcome) := Inserting(s, n);
            HasMessage(s'.mail, m) <==> HasMessage(s.mail, m) || (outcome.Stored? && m == n)
  {
    var (s', outcome) := Inserting(s, n);
    if outcome.Stored? {
      assert s'.mail[s.next] == n;
      if HasMessage(s.mail, m) {
        var id :| id in s.mail && s.mail[id] == m;
        assert s'.mail[id] == m;
      }
    }
  }

  lemma {:induction false} SendingMessage(users: set<Hash>, s: Store, e: Envelope, now: Instant, m: Message)
    requires MessageRuns.Sound(s)
    ensures var (s', outcome) := Sending(users, s, e, now);
            HasMessage(s'.mail, m) <==> HasMessage(s.mail, m) || (outcome.Stored? && m == MessageOf(e, now))
  {
    SendingInserts(users, s, e, now);
    InsertingMessage(s.(tiers := Sending(users, s, e, now).0.tiers), MessageOf(e, now), m);
  }

  lemma {:induction false} KeptMessage(mail: Mail, mail': Mail, m: Message, removed: bool)
    requires forall id | id in mail' :: id in mail && mail'[id] == mail[id]
    requires forall id | id in mail && mail[id] == m :: id in mail' <==> !removed
    ensures HasMessage(mail', m) <==> HasMessage(mail, m) && !removed
  {
    if HasMessage(mail, m) && !removed {
      var id :| id in mail && mail[id] == m;
      assert mail'[id] == m;
    }
  }

  lemma {:induction false} MailNext(states: seq<Store>, steps: seq<Step>, j: nat, m: Message)
    requires Behaviour(states, steps) && j < |steps|
    ensures MailFollows(states, steps, j, m)
  {
    RunKeepsSound(states, steps, j);
    assert Leads(states[j], steps[j], states[j + 1]);
    if steps[j].op.Send? {
      SendAnsweredExactly(states, steps, j, m.messageId, m.serverTimestamp);
      SendingMessage(steps[j].users, states[j], steps[j].op.envelope, steps[j].at, m);
    } else {
      KeptMessage(states[j].mail, states[j + 1].mail, m, Removes(steps[j], m));
    }
  }

  // ---------------------------------------------------------------------------
  // Runs
  // ---------------------------------------------------------------------------

  ghost predicate StoredAndKept(states: seq<Store>, steps: seq<Step>, i: nat, k: nat, m: Message)
    requires |states| == |steps| + 1 && i < |states|
  {
    k < i && Stores(states, steps, k, m) && forall j | k < j < i :: !Removes(steps[j], m)
  }

  /** Step `k` stored `m`, and nobody acknowledged it or erased its users since. */
  ghost predicate SentAndKept(states: seq<Store>, steps: seq<Step>, i: nat, k: nat, m: Message)
    requires |states| == |steps| + 1 && i < |states|
  {
    k < i && Stores(states, steps, k, m) && forall j | k < j < i :: !Withdraws(steps[j], m)
  }

  lemma {:induction false} MailLatch(states: seq<Store>, steps: seq<Step>, i: nat, m: Message)
    requires |states| == |steps| + 1 && i < |states| && states[0].mail == map[]
    requires forall j: nat | j < i :: MailFollows(states, steps, j, m)
    ensures HasMessage(states[i].mail, m) <==> exists k: nat :: StoredAndKept(states, steps, i, k, m)
  {
    ghost var has := (j: nat) => j < |states| && HasMessage(states[j].mail, m);
    ghost var gained := (j: nat) => Stores(states, steps, j, m);
    ghost var lost := (j: nat) => j < |steps| && Removes(steps[j], m);
    forall j: nat | j < i ensures has(j + 1) <==> gained(j) || (has(j) && !lost(j)) {
      assert MailFollows(states, steps, j, m);
    }
    LatchHolds(has, gained, lost, i);
    forall k: nat ensures Stands(gained, lost, i, k) <==> StoredAndKept(states, steps, i, k, m) {
      assert forall j: nat | j < i :: lost(j) <==> Removes(steps[j], m);
    }
  }

  /** A message waits for its recipient exactly when it was stored, has not been
      acknowledged nor had a user erased since, and has not expired; when expired rows
      are deleted makes no difference. */
  lemma {:induction false} WaitingExactly(states: seq<Store>, steps: seq<Step>, i: nat, m: Message, now: Instant)
    requires Behaviour(states, steps) && i < |states| && forall j | 0 <= j < i :: steps[j].at <= now
    requires m.expiresAt > now
    ensures HasMessage(states[i].mail, m) <==> exists k: nat :: SentAndKept(states, steps, i, k, m)
  {
    forall j: nat | j < i ensures MailFollows(states, steps, j, m) {
      MailNext(states, steps, j, m);
    }
    MailLatch(states, steps, i, m);
    assert forall j | 0 <= j < i :: Removes(steps[j], m) <==> Withdraws(steps[j], m);
    assert forall k: nat :: StoredAndKept(states, steps, i, k, m) <==> SentAndKept(states, steps, i, k, m);
  }
}
