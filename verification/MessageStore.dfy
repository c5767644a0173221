/** The message store as the server runs it. */
module MessageStore {
  import opened Prelude
  import opened Schema
  import opened MessageTiers
  import opened Messages

  datatype Fetch = Fetch(user: Hash, since: u64, limit: u32, verified: bool)

  datatype Reply = Reply(messages: seq<Message>, remaining: nat)

  function Rows(mail: Mail, ids: seq<nat>): seq<Message>
    requires forall id | id in ids :: id in mail
  {
    seq(|ids|, i requires 0 <= i < |ids| => mail[ids[i]])
  }

  ghost predicate AreRows(mail: Mail, ids: seq<nat>, messages: seq<Message>) {
    (forall id | id in ids :: id in mail) && messages == Rows(mail, ids)
  }

  /** The reply to an authorised fetch: a page of what waits after the cursor, and how
      much the page leaves. */
  ghost predicate Answers(mail: Mail, f: Fetch, now: Instant, reply: Reply, page: seq<nat>) {
    && IsPage(mail, Selected(mail, f.user, f.since, now), Limit(f.limit), page)
    && AreRows(mail, page, reply.messages)
    && reply.remaining == Remaining(|Counted(mail, f.user, f.since, now)|, |page|)
  }

  class Server {
    var mail: Mail
    var next: nat
    const gate: TierGate

    ghost predicate Valid() {
      gate.Valid()
    }

    ghost function Contents(): Store
      reads this, gate.mid, gate.large
    {
      Store(mail, next, gate.Contents())
    }

    constructor ()
      ensures Valid() && fresh(gate.mid) && fresh(gate.large)
      ensures Contents() == EMPTY_STORE
    {
      mail, next := map[], 1;
      gate := new TierGate();
    }

    method SendMessage(users: set<Hash>, e: Envelope, now: Instant) returns (outcome: SendOutcome)
      requires Valid()
      modifies this, gate.mid, gate.large
      ensures (Contents(), outcome) == Sending(users, old(Contents()), e, now)
    {
      if e.sender !in users {
        return SenderNotFound;
      }
      if !e.verified {
        return InvalidSignature;
      }
      if e.recipient !in users {
        return RecipientNotFound;
      }
      var verdict := gate.CheckSize(e.sender, |e.content|, now);
      if verdict != Passed {
        return TierRefused(verdict);
      }
      outcome := Insert(MessageOf(e, now));
    }

    method Insert(m: Message) returns (outcome: SendOutcome)
      modifies this
      ensures (Contents(), outcome) == Inserting(old(Contents()), m)
    {
      if Duplicate(mail, m.messageId) {
        outcome := NotStored;
      } else {
        mail := mail[next := m];
        outcome := Stored(m.messageId, m.serverTimestamp);
      }
      next := next + 1;
    }

    method FetchMessages(users: set<Hash>, f: Fetch, now: Instant) returns (reply: Reply)
      ensures f.user in users && f.verified ==> exists page :: Answers(mail, f, now, reply, page)
      ensures !(f.user in users && f.verified) ==> reply == Reply([], 0)
    {
      if f.user !in users || !f.verified {
        return Reply([], 0);
      }
      var selected := Selected(mail, f.user, f.since, now);
      var total := |Counted(mail, f.user, f.since, now)|;
      var listing := Listing(mail, selected);
      ListingOrders(mail, selected);
      var page := listing[..Min(Limit(f.limit), |listing|)];
      assert forall i | 0 <= i < |page| :: page[i] == listing[i] && listing[i] in selected;
      reply := Reply(Rows(mail, page), Remaining(total, |page|));
      assert Answers(mail, f, now, reply, page);
    }

    method AckMessage(users: set<Hash>, a: Ack) returns (outcome: AckOutcome)
      modifies this`mail
      ensures outcome == AckResult(users, a) && mail == Acking(users, old(mail), a)
    {
      outcome := AckResult(users, a);
      if outcome == Acked {
        mail := map id | id in mail && !Acknowledges(a, mail[id]) :: mail[id];
      }
    }

    method DeleteExpired(now: Instant)
      modifies this`mail
      ensures mail == Purged(old(mail), now)
    {
      mail := map id | id in mail && !(mail[id].expiresAt < now) :: mail[id];
    }
  }

  lemma {:induction false} RowsConcat(mail: Mail, p: seq<nat>, q: seq<nat>)
    requires forall id | id in p + q :: id in mail
    ensures (forall id | id in p :: id in mail) && (forall id | id in q :: id in mail)
    ensures Rows(mail, p + q) == Rows(mail, p) + Rows(mail, q)
  {
    assert forall id | id in p || id in q :: id in p + q;
  }
}
