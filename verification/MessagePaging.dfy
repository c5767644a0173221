/** A client that moves a cursor over the message store, acknowledging nothing: each
    request goes on from the server time of the last message received. */
module MessagePaging {
  import opened Prelude
  import opened Ordering
  import opened Schema
  import opened Messages
  import opened MessageStore

  // ---------------------------------------------------------------------------
  // Listings agree on times
  // ---------------------------------------------------------------------------

  lemma {:induction false} IdsSize(q: seq<nat>)
    requires Distinct(q)
    ensures |Ids(q)| == |q|
  {
    DistinctSize(q, Ids(q));
  }

  /** The rows before position `i` are fewer than those up to position `i`. */
  lemma {:induction false} TimeNotLess(mail: Mail, s: set<nat>, p: seq<nat>, q: seq<nat>, i: nat)
    requires Orders(mail, s, p) && Orders(mail, s, q) && i < |p| && i < |q|
    ensures Time(mail, p[i]) >= Time(mail, q[i])
  {
    if Time(mail, p[i]) < Time(mail, q[i]) {
      var upTo, before := p[..i + 1], q[..i];
      forall x | x in upTo ensures x in Ids(before) {
        var j :| 0 <= j <= i && p[j] == x;
        assert x in s && Time(mail, x) <= Time(mail, p[i]);
        var k :| 0 <= k < |q| && q[k] == x;
        assert k < i;
        assert before[k] == x;
      }
      IdsSize(upTo);
      IdsSize(before);
      SubsetSize(Ids(upTo), Ids(before));
      assert false;
    }
  }

  /** All listings in server-time order show the same times. */
  lemma {:induction false} TimesAgree(mail: Mail, s: set<nat>, p: seq<nat>, q: seq<nat>)
    requires Orders(mail, s, p) && Orders(mail, s, q)
    ensures |p| == |q| && forall i | 0 <= i < |p| :: Time(mail, p[i]) == Time(mail, q[i])
  {
    DistinctSize(p, s);
    DistinctSize(q, s);
    forall i | 0 <= i < |p| ensures Time(mail, p[i]) == Time(mail, q[i]) {
      TimeNotLess(mail, s, p, q, i);
      TimeNotLess(mail, s, q, p, i);
    }
  }

  // ---------------------------------------------------------------------------
  // Page boundaries
  // ---------------------------------------------------------------------------

  /** Two messages of one time stand on either side of position `i`. */
  ghost predicate TiesAt(mail: Mail, q: seq<nat>, i: nat) {
    0 < i < |q| && Time(mail, q[i - 1]) == Time(mail, q[i])
  }

  /** No tie straddles a boundary between full pages. */
  ghost predicate Unbroken(mail: Mail, q: seq<nat>, limit: nat)
    requires limit > 0
  {
    forall i: nat | i % limit == 0 :: !TiesAt(mail, q, i)
  }

  lemma {:induction false} UnbrokenAlike(mail: Mail, s: set<nat>, p: seq<nat>, q: seq<nat>, limit: nat)
    requires Orders(mail, s, p) && Orders(mail, s, q) && limit > 0
    ensures Unbroken(mail, p, limit) <==> Unbroken(mail, q, limit)
  {
    TimesAgree(mail, s, p, q);
    assert forall i: nat :: TiesAt(mail, p, i) <==> TiesAt(mail, q, i);
  }

  lemma {:induction false} NoMultipleWithin(a: nat, i: nat, limit: nat)
    requires limit > 0 && a % limit == 0 && a < i < a + limit
    ensures i % limit != 0
  {
    assert a == (a / limit) * limit;
    DivUnique(i, limit, a / limit, i - a);
  }

  lemma {:induction false} NextMultiple(a: nat, limit: nat)
    requires limit > 0 && a % limit == 0
    ensures (a + limit) % limit == 0
  {
    DivShift(a, limit);
  }

  // ---------------------------------------------------------------------------
  // The state of the walk
  // ---------------------------------------------------------------------------

  /** What waits for the client beyond the cursor. */
  function Later(mail: Mail, all: set<nat>, cursor: int): set<nat> {
    set id | id in all && Time(mail, id) > cursor
  }

  ghost predicate Walked(mail: Mail, all: set<nat>, rows: seq<nat>, cursor: int) {
    Orders(mail, Ids(rows), rows) && Ids(rows) <= all && forall id | id in rows :: Time(mail, id) <= cursor
  }

  /** Nothing has been missed so far, and no tie was on a boundary. */
  ghost predicate Whole(mail: Mail, all: set<nat>, rows: seq<nat>, cursor: int, limit: nat)
    requires limit > 0
  {
    && Ids(rows) == all - Later(mail, all, cursor)
    && (|rows| % limit == 0 || Later(mail, all, cursor) == {})
    && Unbroken(mail, rows, limit)
  }

  /** A message has been missed for good, and a tie is on a boundary of every listing. */
  ghost predicate Lost(mail: Mail, all: set<nat>, rows: seq<nat>, cursor: int, limit: nat)
    requires limit > 0
  {
    && (exists id :: id in all && id !in rows && Time(mail, id) <= cursor)
    && forall q | Orders(mail, all, q) :: !Unbroken(mail, q, limit)
  }

  ghost predicate Walking(mail: Mail, all: set<nat>, rows: seq<nat>, cursor: int, limit: nat)
    requires limit > 0
  {
    Walked(mail, all, rows, cursor) && (Whole(mail, all, rows, cursor, limit) || Lost(mail, all, rows, cursor, limit))
  }

  lemma {:induction false} WalkStarts(mail: Mail, all: set<nat>, limit: nat)
    requires limit > 0 && forall id | id in all :: Time(mail, id) > 0
    ensures Walking(mail, all, [], 0, limit)
  {
    assert Later(mail, all, 0) == all;
  }

  /** A page goes on in order, and moves the cursor. */
  lemma {:induction false} WalkOn(mail: Mail, all: set<nat>, rows: seq<nat>, cursor: int, limit: nat, page: seq<nat>)
    requires Walked(mail, all, rows, cursor) && Fits(mail, Later(mail, all, cursor), limit, page) && page != []
    ensures var cursor' := Time(mail, page[|page| - 1]);
            && cursor' > cursor
            && Walked(mail, all, rows + page, cursor')
            && Ids(rows + page) == Ids(rows) + Ids(page)
            && Later(mail, all, cursor') <= Later(mail, all, cursor) - Ids(page)
            && |Later(mail, all, cursor')| < |Later(mail, all, cursor)|
  {
    var cursor' := Time(mail, page[|page| - 1]);
    assert page[|page| - 1] in Ids(page);
    LastIsLatest(mail, page);
    OrdersConcat(mail, Ids(rows), Ids(page), rows, page);
    assert Ids(rows + page) == Ids(rows) + Ids(page);
    assert page[|page| - 1] in Later(mail, all, cursor) - Later(mail, all, cursor');
    SubsetSize(Later(mail, all, cursor'), Later(mail, all, cursor));
  }

  /** What was missed stays missed. */
  lemma {:induction false} LostForGood(mail: Mail, all: set<nat>, rows: seq<nat>, cursor: int, limit: nat,
                                       page: seq<nat>, cursor': int)
    requires limit > 0 && Lost(mail, all, rows, cursor, limit)
    requires Ids(page) <= Later(mail, all, cursor) && cursor <= cursor'
    ensures Lost(mail, all, rows + page, cursor', limit)
  {
    var id :| id in all && id !in rows && Time(mail, id) <= cursor;
    assert id !in Later(mail, all, cursor);
    assert id in page ==> id in Ids(page);
    assert id !in rows + page;
  }

  /** Full pages put boundaries only between them, and the last one is not tied with the next. */
  lemma {:induction false} StillUnbroken(mail: Mail, all: set<nat>, rows: seq<nat>, cursor: int, limit: nat,
                                         page: seq<nat>)
    requires limit > 0 && Walked(mail, all, rows, cursor) && Unbroken(mail, rows, limit) && |rows| % limit == 0
    requires Ids(page) <= Later(mail, all, cursor) && |page| <= limit
    ensures Unbroken(mail, rows + page, limit)
  {
    var q := rows + page;
    forall i: nat | i % limit == 0 ensures !TiesAt(mail, q, i) {
      if 0 < i < |rows| {
        assert !TiesAt(mail, rows, i);
      } else if 0 < i == |rows| < |q| {
        assert rows[i - 1] in rows && page[0] in Ids(page);
        assert Time(mail, q[i]) > cursor >= Time(mail, q[i - 1]);
      } else if |rows| < i < |q| {
        NoMultipleWithin(|rows|, i, limit);
        assert false;
      }
    }
  }

  /** If a row left out ties with the last of a full page, that tie is on a boundary. */
  lemma {:induction false} TieOnBoundary(mail: Mail, all: set<nat>, rows: seq<nat>, cursor: int, limit: nat,
                                         page: seq<nat>, tied: nat)
    requires limit > 0 && Walked(mail, all, rows, cursor) && Ids(rows) == all - Later(mail, all, cursor)
    requires Fits(mail, Later(mail, all, cursor), limit, page) && page != [] && |rows + page| % limit == 0
    requires tied in Later(mail, all, cursor) - Ids(page) && Time(mail, tied) == Time(mail, page[|page| - 1])
    ensures forall q | Orders(mail, all, q) :: !Unbroken(mail, q, limit)
  {
    var rest := Later(mail, all, cursor) - Ids(page);
    var tail := SomeListing(mail, rest);
    RestFollows(mail, all, rows, cursor, limit, page, tail);
    TailStartsEarly(mail, rest, tail, tied);
    assert tail[0] in rest && page[|page| - 1] in Ids(page);
    var q0, i := rows + page + tail, |rows + page|;
    assert q0[i] == tail[0] && q0[i - 1] == page[|page| - 1];
    assert TiesAt(mail, q0, i) && !Unbroken(mail, q0, limit);
    forall q | Orders(mail, all, q) ensures !Unbroken(mail, q, limit) {
      UnbrokenAlike(mail, all, q0, q, limit);
    }
  }

  /** Whatever was left out can be listed behind the page. */
  lemma {:induction false} RestFollows(mail: Mail, all: set<nat>, rows: seq<nat>, cursor: int, limit: nat,
                                       page: seq<nat>, tail: seq<nat>)
    requires Walked(mail, all, rows, cursor) && Ids(rows) == all - Later(mail, all, cursor)
    requires Fits(mail, Later(mail, all, cursor), limit, page) && page != []
    requires Orders(mail, Later(mail, all, cursor) - Ids(page), tail)
    ensures Orders(mail, all, rows + page + tail)
  {
    WalkOn(mail, all, rows, cursor, limit, page);
    BeforeTheRest(mail, all, rows, cursor, limit, page);
    OrdersConcat(mail, Ids(rows + page), Later(mail, all, cursor) - Ids(page), rows + page, tail);
    NothingMissed(all, Later(mail, all, cursor), Ids(rows), Ids(page));
    assert Ids(rows + page) + (Later(mail, all, cursor) - Ids(page)) == all;
  }

  lemma {:induction false} BeforeTheRest(mail: Mail, all: set<nat>, rows: seq<nat>, cursor: int, limit: nat,
                                         page: seq<nat>)
    requires Walked(mail, all, rows, cursor) && Fits(mail, Later(mail, all, cursor), limit, page)
    ensures forall x, y | x in Ids(rows + page) && y in Later(mail, all, cursor) - Ids(page) ::
              Time(mail, x) <= Time(mail, y)
  {
  }

  lemma {:induction false} TailStartsEarly(mail: Mail, s: set<nat>, q: seq<nat>, id: nat)
    requires Orders(mail, s, q) && id in s
    ensures q != [] && Time(mail, q[0]) <= Time(mail, id)
  {
    var k :| 0 <= k < |q| && q[k] == id;
  }

  /** One page keeps the walk going: it stays whole unless a tie is on the boundary. */
  lemma {:induction false} WalkRound(mail: Mail, all: set<nat>, rows: seq<nat>, cursor: int, limit: nat, page: seq<nat>)
    requires limit > 0 && Walking(mail, all, rows, cursor, limit)
    requires Fits(mail, Later(mail, all, cursor), limit, page) && page != []
    ensures Walking(mail, all, rows + page, Time(mail, page[|page| - 1]), limit)
  {
    var cursor' := Time(mail, page[|page| - 1]);
    WalkOn(mail, all, rows, cursor, limit, page);
    if Lost(mail, all, rows, cursor, limit) {
      LostForGood(mail, all, rows, cursor, limit, page, cursor');
    } else {
      WholeRound(mail, all, rows, cursor, limit, page);
    }
  }

  /** A page that leaves something behind is full, and ends on a boundary. */
  lemma {:induction false} FullOrLast(mail: Mail, left: set<nat>, rows: seq<nat>, limit: nat, page: seq<nat>)
    requires limit > 0 && (|rows| % limit == 0 || left == {}) && Fits(mail, left, limit, page)
    ensures |rows + page| % limit == 0 || left - Ids(page) == {}
  {
    IdsSize(page);
    SubsetSize(Ids(page), left);
    if |rows| % limit == 0 && |page| == limit {
      NextMultiple(|rows|, limit);
    }
  }

  lemma {:induction false} WholeStays(mail: Mail, all: set<nat>, rows: seq<nat>, cursor: int, limit: nat,
                                      page: seq<nat>)
    requires limit > 0 && Walked(mail, all, rows, cursor) && Whole(mail, all, rows, cursor, limit)
    requires Fits(mail, Later(mail, all, cursor), limit, page) && page != []
    requires forall id | id in Later(mail, all, cursor) - Ids(page) :: Time(mail, id) != Time(mail, page[|page| - 1])
    ensures Whole(mail, all, rows + page, Time(mail, page[|page| - 1]), limit)
  {
    assert page[0] in Ids(page);
    WalkOn(mail, all, rows, cursor, limit, page);
    StillUnbroken(mail, all, rows, cursor, limit, page);
    RestIsLater(mail, all, cursor, limit, page);
    NothingMissed(all, Later(mail, all, cursor), Ids(rows), Ids(page));
    FullOrLast(mail, Later(mail, all, cursor), rows, limit, page);
  }

  lemma {:induction false} NothingMissed(all: set<nat>, left: set<nat>, received: set<nat>, page: set<nat>)
    requires left <= all && received == all - left && page <= left
    ensures received + page == all - (left - page)
  {
  }

  lemma {:induction false} WholeRound(mail: Mail, all: set<nat>, rows: seq<nat>, cursor: int, limit: nat,
                                      page: seq<nat>)
    requires limit > 0 && Walked(mail, all, rows, cursor) && Whole(mail, all, rows, cursor, limit)
    requires Fits(mail, Later(mail, all, cursor), limit, page) && page != []
    ensures var cursor' := Time(mail, page[|page| - 1]);
            Whole(mail, all, rows + page, cursor', limit) || Lost(mail, all, rows + page, cursor', limit)
  {
    var rest, cursor' := Later(mail, all, cursor) - Ids(page), Time(mail, page[|page| - 1]);
    if tied :| tied in rest && Time(mail, tied) == cursor' {
      assert page[0] in Ids(page);
      FullOrLast(mail, Later(mail, all, cursor), rows, limit, page);
      TieOnBoundary(mail, all, rows, cursor, limit, page, tied);
      assert tied in all && tied !in rows + page;
    } else {
      WholeStays(mail, all, rows, cursor, limit, page);
    }
  }

  lemma {:induction false} RestIsLater(mail: Mail, all: set<nat>, cursor: int, limit: nat, page: seq<nat>)
    requires Fits(mail, Later(mail, all, cursor), limit, page) && page != []
    requires var rest := Later(mail, all, cursor) - Ids(page);
             forall id | id in rest :: Time(mail, id) != Time(mail, page[|page| - 1])
    ensures Later(mail, all, Time(mail, page[|page| - 1])) == Later(mail, all, cursor) - Ids(page)
  {
    var cursor' := Time(mail, page[|page| - 1]);
    assert page[|page| - 1] in page && page[|page| - 1] in Ids(page);
    LastIsLatest(mail, page);
  }

  /** When nothing is left beyond the cursor, everything was received if and only if no
      tie is on a boundary. */
  lemma {:induction false} WalkEnds(mail: Mail, all: set<nat>, rows: seq<nat>, cursor: int, limit: nat, q: seq<nat>)
    requires limit > 0 && Walking(mail, all, rows, cursor, limit) && Later(mail, all, cursor) == {}
    requires Orders(mail, all, q)
    ensures Ids(rows) == all <==> Unbroken(mail, q, limit)
  {
    if Whole(mail, all, rows, cursor, limit) {
      assert Ids(rows) == all;
      UnbrokenAlike(mail, all, rows, q, limit);
    } else {
      var id :| id in all && id !in rows;
      assert id !in Ids(rows);
    }
  }

  // ---------------------------------------------------------------------------
  // The loop
  // ---------------------------------------------------------------------------

  /** Positive server times that `i64` can hold, as on every reachable store. */
  ghost predicate ProperTimes(mail: Mail, s: set<nat>) {
    forall id | id in s :: 0 < Time(mail, id) < 0x8000_0000_0000_0000
  }

  lemma {:induction false} SelectedIsLater(mail: Mail, user: Hash, now: Instant, cursor: u64)
    requires ProperTimes(mail, Selected(mail, user, 0, now)) && cursor < 0x8000_0000_0000_0000
    ensures Selected(mail, user, cursor, now) == Later(mail, Selected(mail, user, 0, now), cursor)
  {
    if cursor > 0 {
      SelectedAfter(mail, user, 0, cursor, now);
    }
  }

  lemma {:induction false} PageWalked(mail: Mail, f: Fetch, now: Instant, reply: Reply, all: set<nat>, rows: seq<nat>,
                                      page: seq<nat>)
    requires Answers(mail, f, now, reply, page) && all == Selected(mail, f.user, 0, now) && ProperTimes(mail, all)
    requires f.since < 0x8000_0000_0000_0000 && Walking(mail, all, rows, f.since, Limit(f.limit))
    ensures page == [] ==> Later(mail, all, f.since) == {}
    ensures page != [] ==>
              var cursor := Time(mail, page[|page| - 1]);
              && cursor == reply.messages[|reply.messages| - 1].serverTimestamp
              && 0 < cursor < 0x8000_0000_0000_0000
              && Walking(mail, all, rows + page, cursor, Limit(f.limit))
              && |Later(mail, all, cursor)| < |Later(mail, all, f.since)|
  {
    SelectedIsLater(mail, f.user, now, f.since);
    PageExactly(mail, Selected(mail, f.user, f.since, now), Limit(f.limit), page);
    if page != [] {
      WalkRound(mail, all, rows, f.since, Limit(f.limit), page);
      WalkOn(mail, all, rows, f.since, Limit(f.limit), page);
      assert page[|page| - 1] in page && page[|page| - 1] in Ids(page);
    }
  }

  method FetchAfter(server: Server, users: set<Hash>, user: Hash, now: Instant, limit: u32, cursor: u64,
                    ghost all: set<nat>, ghost rows: seq<nat>)
    returns (messages: seq<Message>, cursor': u64, ghost page: seq<nat>)
    requires user in users && all == Selected(server.mail, user, 0, now) && ProperTimes(server.mail, all)
    requires cursor < 0x8000_0000_0000_0000 && Walking(server.mail, all, rows, cursor, Limit(limit))
    ensures AreRows(server.mail, page, messages) && cursor' < 0x8000_0000_0000_0000
    ensures messages == [] ==> Later(server.mail, all, cursor) == {}
    ensures messages != [] ==>
              && Walking(server.mail, all, rows + page, cursor', Limit(limit))
              && |Later(server.mail, all, cursor')| < |Later(server.mail, all, cursor)|
  {
    var f := Fetch(user, cursor, limit, true);
    var reply := server.FetchMessages(users, f, now);
    page :| Answers(server.mail, f, now, reply, page);
    PageWalked(server.mail, f, now, reply, all, rows, page);
    messages, cursor' := reply.messages, cursor;
    assert |page| == |messages|;
    if messages != [] {
      cursor' := messages[|messages| - 1].serverTimestamp;
    }
  }

  /** What was received are the rows listed: waiting rows in order, none twice, and all of
      them if and only if no listing in server-time order has a tie across a boundary between
      full pages. */
  ghost predicate ReadThrough(mail: Mail, all: set<nat>, limit: nat, rows: seq<nat>, received: seq<Message>)
    requires limit > 0
  {
    && AreRows(mail, rows, received)
    && Orders(mail, Ids(rows), rows) && Ids(rows) <= all
    && forall q | Orders(mail, all, q) :: Ids(rows) == all <==> Unbroken(mail, q, limit)
  }

  /** Moving the cursor until a page comes back empty ends and receives messages in order,
      none twice; all that wait, if and only if no tie straddles a page boundary. */
  method PageThrough(server: Server, users: set<Hash>, user: Hash, now: Instant, limit: u32)
    returns (received: seq<Message>)
    requires user in users && ProperTimes(server.mail, Selected(server.mail, user, 0, now))
    ensures exists rows ::
              ReadThrough(server.mail, Selected(server.mail, user, 0, now), Limit(limit), rows, received)
  {
    ghost var mail := server.mail;
    ghost var all := Selected(mail, user, 0, now);
    received := [];
    ghost var rows: seq<nat> := [];
    var cursor: u64 := 0;
    WalkStarts(mail, all, Limit(limit));
    while true
      invariant cursor < 0x8000_0000_0000_0000 && Walking(mail, all, rows, cursor, Limit(limit))
      invariant AreRows(mail, rows, received)
      decreases |Later(mail, all, cursor)|
    {
      var messages, cursor', page := FetchAfter(server, users, user, now, limit, cursor, all, rows);
      if messages == [] {
        forall q | Orders(mail, all, q) ensures Ids(rows) == all <==> Unbroken(mail, q, Limit(limit)) {
          WalkEnds(mail, all, rows, cursor, Limit(limit), q);
        }
        assert ReadThrough(mail, all, Limit(limit), rows, received);
        break;
      }
      RowsConcat(mail, rows, page);
      received, rows, cursor := received + messages, rows + page, cursor';
    }
  }

  /** With distinct server times there is no tie at all. */
  lemma {:induction false} DistinctUnbroken(mail: Mail, s: set<nat>, q: seq<nat>, limit: nat)
    requires Orders(mail, s, q) && limit > 0
    requires forall id, id' | id in s && id' in s && Time(mail, id) == Time(mail, id') :: id == id'
    ensures Unbroken(mail, q, limit)
  {
    forall i: nat | i % limit == 0 ensures !TiesAt(mail, q, i) {
      if 0 < i < |q| {
        assert q[i - 1] in q && q[i] in q;
      }
    }
  }
}
