/** A client that fetches and acknowledges what it fetched, until a page comes back
    empty: what that delivers, and when it ends. */
module MessageDrain {
  import opened Prelude
  import opened Ordering
  import opened Schema
  import opened Messages
  import opened MessageStore

  // ---------------------------------------------------------------------------
  // Acknowledging
  // ---------------------------------------------------------------------------

  /** A recipient's own acknowledgement removes its message and nothing else. */
  lemma {:induction false} AckRemovesOne(users: set<Hash>, mail: Mail, id: nat, a: Ack)
    requires UniqueIds(mail) && id in mail && mail[id].messageId != [] && Acknowledges(a, mail[id])
    requires a.recipient in users && a.recipient != [] && a.signature != [] && a.verified
    ensures Acking(users, mail, a) == mail - {id}
  {
  }

  /** A stored message can be acknowledged exactly when its id is not empty and its
      recipient is still a user. */
  lemma {:induction false} Acknowledgeable(users: set<Hash>, mail: Mail, id: nat)
    requires id in mail
    ensures (exists a :: id !in Acking(users, mail, a))
       <==> mail[id].messageId != [] && mail[id].recipient != [] && mail[id].recipient in users
  {
    assert id !in Acking(users, mail, Ack(mail[id].messageId, mail[id].recipient, [0], true))
      <==> mail[id].messageId != [] && mail[id].recipient != [] && mail[id].recipient in users;
  }

  /** Sending does not demand an id: a message without one is stored like any other. */
  lemma {:induction false} EmptyIdIsStored(sender: Hash, recipient: Hash, now: Instant)
    ensures var unnamed := Envelope([], sender, recipient, [], 0, true);
            var (s, outcome) := Sending({sender, recipient}, EMPTY_STORE, unnamed, now);
            && outcome == Stored([], Millis(now))
            && 1 in s.mail && s.mail[1].messageId == [] && s.mail[1].recipient == recipient
            && s.mail[1].expiresAt == Seconds(END_OF_9999)
  {
  }

  /** The acknowledgements of the messages, one after the other. */
  function AckingAll(users: set<Hash>, mail: Mail, user: Hash, signature: Bytes, messages: seq<Message>): Mail {
    if messages == [] then mail
    else
      var mail' := Acking(users, mail, Ack(messages[0].messageId, user, signature, true));
      AckingAll(users, mail', user, signature, messages[1..])
  }

  /** `user` can sign acknowledgements. */
  predicate Signs(users: set<Hash>, user: Hash, signature: Bytes) {
    user in users && user != [] && signature != []
  }

  ghost predicate AreOwn(mail: Mail, user: Hash, page: seq<nat>) {
    Distinct(page) && forall id | id in page :: id in mail && mail[id].recipient == user
  }

  /** Acknowledging its messages removes a page and nothing else, if none has an empty id. */
  lemma {:induction false} AckingAllRemoves(users: set<Hash>, mail: Mail, user: Hash, signature: Bytes, page: seq<nat>)
    requires UniqueIds(mail) && Signs(users, user, signature) && AreOwn(mail, user, page)
    requires forall id | id in page :: mail[id].messageId != []
    ensures AckingAll(users, mail, user, signature, Rows(mail, page)) == mail - Ids(page)
  {
    if page == [] {
      assert mail - Ids(page) == mail;
    } else {
      var messages, rest := Rows(mail, page), page[1..];
      assert page[0] in page;
      AckRemovesOne(users, mail, page[0], Ack(messages[0].messageId, user, signature, true));
      var mail' := mail - {page[0]};
      assert forall id | id in rest :: id in page && id != page[0];
      assert Rows(mail', rest) == messages[1..];
      AckingAllRemoves(users, mail', user, signature, rest);
      assert Ids(page) == {page[0]} + Ids(rest);
      assert mail' - Ids(rest) == mail - Ids(page);
    }
  }

  /** Rows only leave, and those with an empty id do not. */
  lemma {:induction false} AckingAllKeeps(users: set<Hash>, mail: Mail, user: Hash, signature: Bytes,
                                          messages: seq<Message>)
    ensures var mail' := AckingAll(users, mail, user, signature, messages);
            && (forall id | id in mail' :: id in mail && mail'[id] == mail[id])
            && (forall id | id in mail && mail[id].messageId == [] :: id in mail')
  {
    if messages != [] {
      AckingAllKeeps(users, Acking(users, mail, Ack(messages[0].messageId, user, signature, true)), user, signature,
                     messages[1..]);
    }
  }

  method AckPage(server: Server, users: set<Hash>, user: Hash, signature: Bytes, messages: seq<Message>)
    modifies server`mail
    ensures server.mail == AckingAll(users, old(server.mail), user, signature, messages)
  {
    for i := 0 to |messages|
      invariant AckingAll(users, server.mail, user, signature, messages[i..])
             == AckingAll(users, old(server.mail), user, signature, messages)
    {
      assert messages[i..][1..] == messages[i + 1..];
      var _ := server.AckMessage(users, Ack(messages[i].messageId, user, signature, true));
    }
  }

  // ---------------------------------------------------------------------------
  // The loop
  // ---------------------------------------------------------------------------

  /** No message waiting for `user` has an empty id. */
  ghost predicate Named(mail: Mail, user: Hash, now: Instant) {
    forall id | id in mail && Waiting(mail[id], user, now) :: mail[id].messageId != []
  }

  /** The state of draining `original`: the listed rows have been received and removed,
      and are earlier than all that is left. */
  ghost predicate Drained(original: Mail, mail: Mail, user: Hash, start: Instant, now: Instant,
                          rows: seq<nat>, received: seq<Message>) {
    && mail == original - Ids(rows)
    && Distinct(rows) && InTime(original, rows)
    && Ids(rows) <= Selected(original, user, 0, start)
    && AreRows(original, rows, received)
    && forall x, y | x in rows && y in Selected(mail, user, 0, now) :: Time(original, x) <= Time(original, y)
  }

  lemma {:induction false} LaterSelectsLess(mail: Mail, user: Hash, now: Instant, now': Instant)
    requires now <= now'
    ensures Selected(mail, user, 0, now') <= Selected(mail, user, 0, now)
  {
  }

  /** A page of what is left extends what was received. */
  lemma {:induction false} OrderExtends(original: Mail, mail: Mail, user: Hash, start: Instant, now: Instant,
                                        rows: seq<nat>, received: seq<Message>, page: seq<nat>, limit: nat)
    requires Drained(original, mail, user, start, now, rows, received) && start <= now
    requires Fits(mail, Selected(mail, user, 0, now), limit, page)
    ensures Orders(original, Ids(rows) + Ids(page), rows + page)
    ensures Ids(page) <= Selected(original, user, 0, start)
  {
    forall i, j | 0 <= i < j < |page| ensures Time(original, page[i]) <= Time(original, page[j]) {
      assert page[i] in Ids(page) && page[j] in Ids(page);
      assert Time(mail, page[i]) <= Time(mail, page[j]);
    }
    OrdersConcat(original, Ids(rows), Ids(page), rows, page);
  }

  lemma {:induction false} Separated(original: Mail, mail: Mail, mail': Mail, user: Hash, start: Instant, now: Instant,
                                     now': Instant, rows: seq<nat>, received: seq<Message>, page: seq<nat>, limit: nat)
    requires Drained(original, mail, user, start, now, rows, received) && start <= now <= now'
    requires Fits(mail, Selected(mail, user, 0, now), limit, page) && mail' == mail - Ids(page)
    ensures forall x, y | x in rows + page && y in Selected(mail', user, 0, now') ::
              Time(original, x) <= Time(original, y)
  {
    LaterSelectsLess(mail, user, now, now');
    forall x, y | x in rows + page && y in Selected(mail', user, 0, now')
      ensures Time(original, x) <= Time(original, y)
    {
      assert y in Selected(mail, user, 0, now) - Ids(page);
      assert x in page ==> Time(mail, x) <= Time(mail, y);
    }
  }

  lemma {:induction false} DrainRound(original: Mail, mail: Mail, mail': Mail, user: Hash, start: Instant, now: Instant,
                                      now': Instant, rows: seq<nat>, received: seq<Message>, page: seq<nat>, limit: nat)
    requires Drained(original, mail, user, start, now, rows, received) && start <= now <= now'
    requires Fits(mail, Selected(mail, user, 0, now), limit, page) && mail' == mail - Ids(page)
    ensures (forall id | id in page :: id in mail)
    ensures Drained(original, mail', user, start, now', rows + page, received + Rows(mail, page))
  {
    OrderExtends(original, mail, user, start, now, rows, received, page, limit);
    Separated(original, mail, mail', user, start, now, now', rows, received, page, limit);
    assert Ids(rows + page) == Ids(rows) + Ids(page);
    assert forall id | id in page :: id in Ids(page);
    RowsConcat(original, rows, page);
    assert Rows(original, page) == Rows(mail, page);
  }

  lemma {:induction false} SelectsLess(mail: Mail, mail': Mail, user: Hash, start: Instant, now: Instant,
                                       page: seq<nat>)
    requires mail' == mail - Ids(page) && page != [] && Ids(page) <= Selected(mail, user, 0, now) && start <= now
    ensures |Selected(mail', user, 0, start)| < |Selected(mail, user, 0, start)|
  {
    var before, after := Selected(mail, user, 0, start), Selected(mail', user, 0, start);
    assert page[0] in Ids(page);
    assert page[0] in before - after;
    SubsetSize(after, before);
  }

  /** The messages of a page can all be acknowledged. */
  lemma {:induction false} PageAcknowledged(users: set<Hash>, mail: Mail, user: Hash, signature: Bytes, start: Instant,
                                            now: Instant, page: seq<nat>, limit: nat)
    requires UniqueIds(mail) && Named(mail, user, start) && Signs(users, user, signature) && start <= now
    requires Fits(mail, Selected(mail, user, 0, now), limit, page)
    ensures (forall id | id in page :: id in mail)
    ensures AckingAll(users, mail, user, signature, Rows(mail, page)) == mail - Ids(page)
    ensures UniqueIds(mail - Ids(page)) && Named(mail - Ids(page), user, start)
  {
    assert forall id | id in page :: id in Ids(page);
    AckingAllRemoves(users, mail, user, signature, page);
  }

  /** One round of fetching and acknowledging. */
  method FetchAndAck(server: Server, users: set<Hash>, user: Hash, limit: u32, signature: Bytes,
                     ghost original: Mail, ghost start: Instant, now: Instant, ghost now': Instant,
                     ghost rows: seq<nat>, ghost received: seq<Message>)
    returns (messages: seq<Message>, ghost page: seq<nat>)
    requires UniqueIds(server.mail) && Named(server.mail, user, start) && Signs(users, user, signature)
    requires start <= now <= now' && Drained(original, server.mail, user, start, now, rows, received)
    modifies server`mail
    ensures UniqueIds(server.mail) && Named(server.mail, user, start)
    ensures messages == [] ==> server.mail == old(server.mail) && Selected(server.mail, user, 0, now) == {}
    ensures messages != [] ==>
              && Drained(original, server.mail, user, start, now', rows + page, received + messages)
              && |Selected(server.mail, user, 0, start)| < |Selected(old(server.mail), user, 0, start)|
  {
    ghost var mail := server.mail;
    var reply := server.FetchMessages(users, Fetch(user, 0, limit, true), now);
    page :| Answers(mail, Fetch(user, 0, limit, true), now, reply, page);
    messages := reply.messages;
    PageExactly(mail, Selected(mail, user, 0, now), Limit(limit), page);
    if messages == [] {
      assert |page| == 0;
      return;
    }
    PageAcknowledged(users, mail, user, signature, start, now, page, Limit(limit));
    AckPage(server, users, user, signature, messages);
    DrainRound(original, mail, server.mail, user, start, now, now', rows, received, page, Limit(limit));
    SelectsLess(mail, server.mail, user, start, now, page);
  }

  lemma {:induction false} DrainEnds(original: Mail, mail: Mail, user: Hash, start: Instant, now: Instant,
                                     rows: seq<nat>, received: seq<Message>, id: nat)
    requires Drained(original, mail, user, start, now, rows, received) && Selected(mail, user, 0, now) == {}
    requires id in Selected(original, user, 0, start) && id !in rows
    ensures original[id].expiresAt <= now
  {
    assert id !in Selected(mail, user, 0, now);
  }

  /** If no message waiting for the user at the start has an empty id, fetching and
      acknowledging until a page comes back empty ends, while the clock moves on: it
      receives every message once, oldest first, but for those that expired on the way,
      and leaves the rest of the store alone. */
  method DrainByAck(server: Server, users: set<Hash>, user: Hash, clock: nat -> Instant, limit: u32, signature: Bytes)
    returns (received: seq<Message>, ghost rows: seq<nat>, ghost rounds: nat)
    requires UniqueIds(server.mail) && Named(server.mail, user, clock(0)) && Signs(users, user, signature)
    requires forall i: nat, j: nat | i <= j :: clock(i) <= clock(j)
    modifies server`mail
    ensures Distinct(rows) && InTime(old(server.mail), rows)
    ensures forall id | id in rows :: id in old(server.mail) && id in Selected(old(server.mail), user, 0, clock(0))
    ensures received == Rows(old(server.mail), rows)
    ensures forall id | id in Selected(old(server.mail), user, 0, clock(0)) && id !in rows ::
              old(server.mail)[id].expiresAt <= clock(rounds)
    ensures server.mail == old(server.mail) - Ids(rows)
  {
    ghost var original := server.mail;
    received, rows, rounds := [], [], 0;
    var round := 0;
    assert original - Ids([]) == original;
    while true
      invariant round == rounds
      invariant UniqueIds(server.mail) && Named(server.mail, user, clock(0))
      invariant Drained(original, server.mail, user, clock(0), clock(round), rows, received)
      decreases |Selected(server.mail, user, 0, clock(0))|
    {
      var messages, page := FetchAndAck(server, users, user, limit, signature, original, clock(0),
                                        clock(round), clock(round + 1), rows, received);
      if messages == [] {
        forall id | id in Selected(original, user, 0, clock(0)) && id !in rows
          ensures original[id].expiresAt <= clock(round)
        {
          DrainEnds(original, server.mail, user, clock(0), clock(round), rows, received, id);
        }
        break;
      }
      received, rows := received + messages, rows + page;
      round, rounds := round + 1, rounds + 1;
    }
  }

  // ---------------------------------------------------------------------------
  // When it ends
  // ---------------------------------------------------------------------------

  /** What the client is up against, whoever breaks the ties of the pages. */
  datatype Session = Session(users: set<Hash>, user: Hash, signature: Bytes, limit: u32)

  ghost predicate Round(x: Session, now: Instant, mail: Mail, page: seq<nat>, mail': Mail) {
    && IsPage(mail, Selected(mail, x.user, 0, now), Limit(x.limit), page)
    && (forall id | id in page :: id in mail)
    && mail' == AckingAll(x.users, mail, x.user, x.signature, Rows(mail, page))
  }

  /** Rounds of fetching and acknowledging, gone on with whatever the pages hold. */
  ghost predicate Rounds(x: Session, clock: seq<Instant>, mails: seq<Mail>, pages: seq<seq<nat>>) {
    && |mails| == |pages| + 1 && |clock| == |pages|
    && forall i | 0 <= i < |pages| :: Round(x, clock[i], mails[i], pages[i], mails[i + 1])
  }

  /** All of them at one instant. */
  ghost predicate RoundsAt(x: Session, now: Instant, mails: seq<Mail>, pages: seq<seq<nat>>) {
    |mails| == |pages| + 1 && forall i | 0 <= i < |pages| :: Round(x, now, mails[i], pages[i], mails[i + 1])
  }

  lemma {:induction false} EmptyIdKept(x: Session, clock: seq<Instant>, mails: seq<Mail>, pages: seq<seq<nat>>, i: nat,
                                       id: nat)
    requires Rounds(x, clock, mails, pages) && i < |mails| && id in mails[0] && mails[0][id].messageId == []
    ensures id in mails[i] && mails[i][id] == mails[0][id]
  {
    if i > 0 {
      EmptyIdKept(x, clock, mails, pages, i - 1, id);
      assert Round(x, clock[i - 1], mails[i - 1], pages[i - 1], mails[i - 1 + 1]);
      AckingAllKeeps(x.users, mails[i - 1], x.user, x.signature, Rows(mails[i - 1], pages[i - 1]));
    }
  }

  lemma {:induction false} PageNotEmpty(x: Session, now: Instant, mail: Mail, page: seq<nat>, mail': Mail, id: nat)
    requires Round(x, now, mail, page, mail') && id in mail && Waiting(mail[id], x.user, now)
    ensures page != []
  {
    PageExactly(mail, Selected(mail, x.user, 0, now), Limit(x.limit), page);
    assert id in Selected(mail, x.user, 0, now);
    assert |Selected(mail, x.user, 0, now)| > 0;
  }

  /** While a message with an empty id waits unexpired, no round gets an empty page,
      however many there are. */
  lemma {:induction false} EmptyIdNeverEnds(x: Session, clock: seq<Instant>, mails: seq<Mail>, pages: seq<seq<nat>>,
                                            i: nat, id: nat)
    requires Rounds(x, clock, mails, pages) && i < |pages|
    requires id in mails[0] && mails[0][id].messageId == [] && Waiting(mails[0][id], x.user, clock[i])
    ensures pages[i] != []
  {
    EmptyIdKept(x, clock, mails, pages, i, id);
    assert Round(x, clock[i], mails[i], pages[i], mails[i + 1]);
    PageNotEmpty(x, clock[i], mails[i], pages[i], mails[i + 1], id);
  }

  function Left(x: Session, now: Instant, mail: Mail): nat {
    |Selected(mail, x.user, 0, now)|
  }

  /** A round, no waiting message having an empty id: the page and nothing else goes, and less
      is left to select if there was anything. */
  lemma {:induction false} NamedRound(x: Session, now: Instant, mail: Mail, page: seq<nat>, mail': Mail)
    requires Round(x, now, mail, page, mail') && Signs(x.users, x.user, x.signature)
    requires UniqueIds(mail) && Named(mail, x.user, now)
    ensures UniqueIds(mail') && Named(mail', x.user, now)
    ensures Left(x, now, mail') == 0 || Left(x, now, mail') < Left(x, now, mail)
  {
    PageExactly(mail, Selected(mail, x.user, 0, now), Limit(x.limit), page);
    PageAcknowledged(x.users, mail, x.user, x.signature, now, now, page, Limit(x.limit));
    if page == [] {
      assert Selected(mail, x.user, 0, now) == {};
      assert Selected(mail', x.user, 0, now) <= Selected(mail, x.user, 0, now);
    } else {
      SelectsLess(mail, mail', x.user, now, now, page);
    }
  }

  lemma {:induction false} NamedRoundsShrink(x: Session, now: Instant, mails: seq<Mail>, pages: seq<seq<nat>>, i: nat)
    requires RoundsAt(x, now, mails, pages) && i < |mails| && Signs(x.users, x.user, x.signature)
    requires UniqueIds(mails[0]) && Named(mails[0], x.user, now)
    ensures Left(x, now, mails[i]) == 0 || Left(x, now, mails[i]) + i <= Left(x, now, mails[0])
  {
    if i > 0 {
      assert Round(x, now, mails[0], pages[0], mails[0 + 1]);
      NamedRound(x, now, mails[0], pages[0], mails[1]);
      LaterRounds(x, now, mails, pages);
      NamedRoundsShrink(x, now, mails[1..], pages[1..], i - 1);
      assert mails[1..][i - 1] == mails[i];
    }
  }

  lemma {:induction false} LaterRounds(x: Session, now: Instant, mails: seq<Mail>, pages: seq<seq<nat>>)
    requires RoundsAt(x, now, mails, pages) && pages != []
    ensures RoundsAt(x, now, mails[1..], pages[1..])
  {
    forall i | 0 <= i < |pages[1..]| ensures Round(x, now, mails[1..][i], pages[1..][i], mails[1..][i + 1]) {
      assert Round(x, now, mails[i + 1], pages[i + 1], mails[i + 1 + 1]);
    }
  }

  lemma {:induction false} NothingLeft(x: Session, now: Instant, mail: Mail, page: seq<nat>, mail': Mail)
    requires Round(x, now, mail, page, mail') && Left(x, now, mail) == 0
    ensures page == []
  {
    PageExactly(mail, Selected(mail, x.user, 0, now), Limit(x.limit), page);
    assert |page| == 0;
  }

  /** At a fixed instant, with as many rounds as messages wait, the next page is empty if
      and only if none of those messages has an empty id; otherwise no page ever is. */
  lemma {:induction false} DrainEndsExactly(x: Session, now: Instant, mails: seq<Mail>, pages: seq<seq<nat>>)
    requires RoundsAt(x, now, mails, pages) && Signs(x.users, x.user, x.signature) && UniqueIds(mails[0])
    requires |pages| > Left(x, now, mails[0])
    ensures pages[Left(x, now, mails[0])] == [] <==> Named(mails[0], x.user, now)
    ensures !Named(mails[0], x.user, now) ==> forall i | 0 <= i < |pages| :: pages[i] != []
  {
    var n := Left(x, now, mails[0]);
    if Named(mails[0], x.user, now) {
      NamedRoundsShrink(x, now, mails, pages, n);
      assert Round(x, now, mails[n], pages[n], mails[n + 1]);
      NothingLeft(x, now, mails[n], pages[n], mails[n + 1]);
    } else {
      var id :| id in mails[0] && Waiting(mails[0][id], x.user, now) && mails[0][id].messageId == [];
      var clock := seq(|pages|, _ => now);
      assert Rounds(x, clock, mails, pages);
      forall i | 0 <= i < |pages| ensures pages[i] != [] {
        EmptyIdNeverEnds(x, clock, mails, pages, i, id);
      }
    }
  }
}
