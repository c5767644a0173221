/** What a fetch of messages returns, told from the history alone. */
module MessageFetches {
  import opened Prelude
  import opened Ordering
  import opened Schema
  import opened Messages
  import opened MessageRuns
  import opened MessageHistory
  import opened MessageStore

  /** After the cursor, which is cast to a signed number; zero stands for no cursor. */
  predicate AfterCursor(m: Message, since: u64) {
    since == 0
    || m.serverTimestamp > if since < 0x8000_0000_0000_0000 then since else since - 0x1_0000_0000_0000_0000
  }

  predicate WaitsFor(m: Message, f: Fetch, now: Instant) {
    m.recipient == f.user && m.expiresAt > now && AfterCursor(m, f.since)
  }

  /** The message was sent to the user and kept, has not expired and comes after the cursor. */
  ghost predicate Waits(states: seq<Store>, steps: seq<Step>, i: nat, m: Message, f: Fetch, now: Instant)
    requires |states| == |steps| + 1 && i < |states|
  {
    WaitsFor(m, f, now) && exists k: nat :: SentAndKept(states, steps, i, k, m)
  }

  lemma {:induction false} WaitsExactly(states: seq<Store>, steps: seq<Step>, i: nat, m: Message, f: Fetch,
                                        now: Instant)
    requires Behaviour(states, steps) && i < |states| && forall j | 0 <= j < i :: steps[j].at <= now
    ensures Waits(states, steps, i, m, f, now) <==> WaitsFor(m, f, now) && HasMessage(states[i].mail, m)
  {
    if WaitsFor(m, f, now) {
      WaitingExactly(states, steps, i, m, now);
    }
  }

  /** Oldest first, each once, and never more than the limit. */
  ghost predicate InTimeOrder(messages: seq<Message>, limit: nat) {
    && |messages| <= limit
    && forall a, b | 0 <= a < b < |messages| ::
         messages[a].serverTimestamp <= messages[b].serverTimestamp && messages[a].messageId != messages[b].messageId
  }

  /** The page was full before it came to `m`. */
  ghost predicate Beyond(messages: seq<Message>, limit: nat, m: Message) {
    |messages| == limit && forall n | 0 <= n < |messages| :: messages[n].serverTimestamp <= m.serverTimestamp
  }

  lemma {:induction false} RowsInTimeOrder(mail: Mail, s: set<nat>, limit: nat, page: seq<nat>, messages: seq<Message>)
    requires UniqueIds(mail) && Fits(mail, s, limit, page) && AreRows(mail, page, messages)
    ensures InTimeOrder(messages, limit)
  {
    forall a, b | 0 <= a < b < |messages|
      ensures messages[a].serverTimestamp <= messages[b].serverTimestamp
              && messages[a].messageId != messages[b].messageId
    {
      assert page[a] in page && page[b] in page;
      assert Time(mail, page[a]) <= Time(mail, page[b]);
    }
  }

  lemma {:induction false} RowInOrBeyond(mail: Mail, s: set<nat>, limit: nat, page: seq<nat>, messages: seq<Message>,
                                         id: nat)
    requires Fits(mail, s, limit, page) && AreRows(mail, page, messages) && id in s && id in mail
    ensures mail[id] in messages || Beyond(messages, limit, mail[id])
  {
    if id in page {
      var n :| 0 <= n < |page| && page[n] == id;
      assert messages[n] == mail[id];
    } else {
      NotWhole(mail, s, limit, page, id);
      forall n | 0 <= n < |messages| ensures messages[n].serverTimestamp <= mail[id].serverTimestamp {
        assert page[n] in page;
        assert Time(mail, page[n]) <= Time(mail, id);
      }
    }
  }

  lemma {:induction false} NotWhole(mail: Mail, s: set<nat>, limit: nat, page: seq<nat>, id: nat)
    requires Fits(mail, s, limit, page) && id in s && id !in page
    ensures |page| == limit
  {
    DistinctSize(page, Ids(page));
    SubsetSize(Ids(page), s);
    assert id !in Ids(page);
  }

  /** Over every run and whatever order of ties: what an authorised fetch returns. Oldest first
      and none twice, the messages that wait for the user after the cursor; or the first 100 of
      them if no limit is given, and never more than 200. */
  lemma {:induction false} FetchedExactly(states: seq<Store>, steps: seq<Step>, i: nat, f: Fetch, now: Instant,
                                          reply: Reply, page: seq<nat>)
    requires Behaviour(states, steps) && i < |states| && forall j | 0 <= j < i :: steps[j].at <= now
    requires Answers(states[i].mail, f, now, reply, page)
    ensures var limit := if f.limit == 0 then 100 else Min(f.limit, 200);
            && InTimeOrder(reply.messages, limit)
            && (forall m | m in reply.messages :: Waits(states, steps, i, m, f, now))
            && forall m | Waits(states, steps, i, m, f, now) ::
                 m in reply.messages || Beyond(reply.messages, limit, m)
  {
    var mail, selected, limit := states[i].mail, Selected(states[i].mail, f.user, f.since, now), Limit(f.limit);
    RunKeepsSound(states, steps, i);
    PageExactly(mail, selected, limit, page);
    RowsInTimeOrder(mail, selected, limit, page, reply.messages);
    forall m | m in reply.messages ensures Waits(states, steps, i, m, f, now) {
      var n :| 0 <= n < |page| && mail[page[n]] == m;
      assert page[n] in Ids(page);
      WaitsExactly(states, steps, i, m, f, now);
    }
    forall m | Waits(states, steps, i, m, f, now) ensures m in reply.messages || Beyond(reply.messages, limit, m) {
      WaitsExactly(states, steps, i, m, f, now);
      var id :| id in mail && mail[id] == m;
      RowInOrBeyond(mail, selected, limit, page, reply.messages, id);
    }
  }

  /** The rows that wait for the user after the cursor. */
  ghost function WaitingRows(mail: Mail, f: Fetch, now: Instant): set<nat> {
    set id | id in mail && WaitsFor(mail[id], f, now)
  }

  /** On every reachable store, if the clock is past the first millisecond of 1970: the reply
      tells how many of the waiting messages its page leaves. */
  lemma {:induction false} RemainingExactly(states: seq<Store>, steps: seq<Step>, i: nat, f: Fetch, now: Instant,
                                            reply: Reply, page: seq<nat>)
    requires Behaviour(states, steps) && i < |states| && states[i].next <= 0x8000_0000
    requires forall j | 0 <= j < i :: steps[j].at >= 1_000_000
    requires Answers(states[i].mail, f, now, reply, page)
    ensures |reply.messages| + reply.remaining == |WaitingRows(states[i].mail, f, now)|
  {
    PageAccounts(states, steps, i, f.user, f.since, now, f.limit, page);
    assert WaitingRows(states[i].mail, f, now) == Selected(states[i].mail, f.user, f.since, now);
  }
}
