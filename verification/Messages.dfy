/** The message store: sending, fetching by pages, acknowledging. `ORDER BY
    server_timestamp` leaves the order of ties open, so a page is any first part of any
    listing in server-time order. */
module Messages {
  import opened Prelude
  import opened Ordering
  import opened Schema
  import opened MessageTiers

  type Mail = map<nat, Message>

  const END_OF_9999: nat := 253_402_300_799
  const MAX_LIMIT: nat := 200
  const DEFAULT_LIMIT: nat := 100

  // ---------------------------------------------------------------------------
  // send_message
  // ---------------------------------------------------------------------------

  /** The sequence number carries the lifetime in hours, zero meaning for ever. */
  datatype Envelope = Envelope(messageId: Bytes, sender: Hash, recipient: Hash, content: Bytes,
                               sequenceNumber: nat, verified: bool)

  datatype SendOutcome =
    | SenderNotFound | InvalidSignature | RecipientNotFound | TierRefused(verdict: Verdict) | NotStored
    | Stored(messageId: Bytes, serverTimestamp: int)

  datatype Store = Store(mail: Mail, next: nat, tiers: Tables)

  const EMPTY_STORE := Store(map[], 1, Tables(map[], map[]))

  function Millis(now: Instant): nat {
    now / 1_000_000
  }

  function ExpiryOf(sequenceNumber: nat, now: Instant): Instant {
    if sequenceNumber == 0 then Seconds(END_OF_9999) else now + Seconds(sequenceNumber * 3600)
  }

  function MessageOf(e: Envelope, now: Instant): Message {
    Message(e.messageId, e.sender, e.recipient, e.content, Millis(now), ExpiryOf(e.sequenceNumber, now))
  }

  predicate Duplicate(mail: Mail, messageId: Bytes) {
    exists id | id in mail :: mail[id].messageId == messageId
  }

  /** The UNIQUE constraint on message ids. */
  ghost predicate UniqueIds(mail: Mail) {
    forall id, id' | id in mail && id' in mail && mail[id].messageId == mail[id'].messageId :: id == id'
  }

  /** A refused insert still uses up a row id, as sequences do. */
  function Inserting(s: Store, m: Message): (Store, SendOutcome) {
    var s' := s.(next := s.next + 1);
    if Duplicate(s.mail, m.messageId) then (s', NotStored)
    else (s'.(mail := s.mail[s.next := m]), Stored(m.messageId, m.serverTimestamp))
  }

  function Sending(users: set<Hash>, s: Store, e: Envelope, now: Instant): (Store, SendOutcome) {
    if e.sender !in users then (s, SenderNotFound)
    else if !e.verified then (s, InvalidSignature)
    else if e.recipient !in users then (s, RecipientNotFound)
    else
      var (tiers, verdict) := Check(s.tiers, e.sender, |e.content|, now);
      var charged := s.(tiers := tiers);
      if verdict != Passed then (charged, TierRefused(verdict)) else Inserting(charged, MessageOf(e, now))
  }

  // ---------------------------------------------------------------------------
  // ack_message
  // ---------------------------------------------------------------------------

  datatype Ack = Ack(messageId: Bytes, recipient: Hash, signature: Bytes, verified: bool)

  datatype AckOutcome = IdsRequired | SignatureRequired | UnknownRecipient | BadSignature | Acked

  function AckResult(users: set<Hash>, a: Ack): AckOutcome {
    if a.messageId == [] || a.recipient == [] then IdsRequired
    else if a.signature == [] then SignatureRequired
    else if a.recipient !in users then UnknownRecipient
    else if !a.verified then BadSignature
    else Acked
  }

  predicate Acknowledges(a: Ack, m: Message) {
    m.messageId == a.messageId && m.recipient == a.recipient
  }

  function Acking(users: set<Hash>, mail: Mail, a: Ack): Mail {
    if AckResult(users, a) != Acked then mail
    else map id | id in mail && !Acknowledges(a, mail[id]) :: mail[id]
  }

  // ---------------------------------------------------------------------------
  // Expiry cleanup, and erasure of an account
  // ---------------------------------------------------------------------------

  function Purged(mail: Mail, now: Instant): Mail {
    map id | id in mail && !(mail[id].expiresAt < now) :: mail[id]
  }

  function Erased(mail: Mail, user: Hash): Mail {
    map id | id in mail && !MessageMentions(mail[id], user) :: mail[id]
  }

  // ---------------------------------------------------------------------------
  // fetch_messages
  // ---------------------------------------------------------------------------

  /** `n as i64`. */
  function AsI64(n: u64): int {
    if n < 0x8000_0000_0000_0000 then n else n - 0x1_0000_0000_0000_0000
  }

  predicate Waiting(m: Message, user: Hash, now: Instant) {
    m.recipient == user && m.expiresAt > now
  }

  /** The rows the page is taken from: a cursor of zero filters nothing. */
  function Selected(mail: Mail, user: Hash, since: u64, now: Instant): set<nat> {
    set id | id in mail && Waiting(mail[id], user, now) && (since > 0 ==> mail[id].serverTimestamp > AsI64(since))
  }

  /** The rows that are counted: a cursor of zero filters like any other. */
  function Counted(mail: Mail, user: Hash, since: u64, now: Instant): set<nat> {
    set id | id in mail && Waiting(mail[id], user, now) && mail[id].serverTimestamp > AsI64(since)
  }

  function Limit(requested: u32): (limit: nat)
    ensures 1 <= limit <= 200
  {
    if requested == 0 then DEFAULT_LIMIT else Min(requested, MAX_LIMIT)
  }

  function Time(mail: Mail, id: nat): int {
    if id in mail then mail[id].serverTimestamp else 0
  }

  ghost predicate InTime(mail: Mail, q: seq<nat>) {
    forall i, j | 0 <= i < j < |q| :: Time(mail, q[i]) <= Time(mail, q[j])
  }

  /** `q` lists the rows of `s` once each, in server-time order. */
  ghost predicate Orders(mail: Mail, s: set<nat>, q: seq<nat>) {
    Distinct(q) && Lists(q, s) && InTime(mail, q)
  }

  ghost predicate IsPage(mail: Mail, s: set<nat>, limit: nat, page: seq<nat>) {
    exists q :: Orders(mail, s, q) && page == q[..Min(limit, |q|)]
  }

  /** `(total_count - len).max(0) as u32` */
  function Remaining(total: nat, length: nat): nat {
    Max(total - length, 0) % 0x1_0000_0000
  }

  // ---------------------------------------------------------------------------
  // One listing, so that there are pages
  // ---------------------------------------------------------------------------

  predicate Before(mail: Mail, x: nat, y: nat) {
    Time(mail, x) < Time(mail, y) || (Time(mail, x) == Time(mail, y) && x <= y)
  }

  predicate IsEarliest(mail: Mail, m: nat, s: set<nat>) {
    m in s && forall x | x in s :: Before(mail, m, x)
  }

  lemma {:induction false} EarliestExists(mail: Mail, s: set<nat>) returns (m: nat)
    requires s != {}
    ensures IsEarliest(mail, m, s)
  {
    var y :| y in s;
    m := y;
    if s != {y} {
      var rest := s - {y};
      assert s == rest + {y};
      var m' := EarliestExists(mail, rest);
      m := if Before(mail, m', y) then m' else y;
    }
  }

  function Earliest(mail: Mail, s: set<nat>): (m: nat)
    requires s != {}
    ensures IsEarliest(mail, m, s)
  {
    assert exists m :: IsEarliest(mail, m, s) by {
      var m := EarliestExists(mail, s);
    }
    var m :| m in s && IsEarliest(mail, m, s);
    m
  }

  function Listing(mail: Mail, s: set<nat>): (q: seq<nat>)
    ensures |q| == |s|
    ensures forall x | x in q :: x in s
    ensures forall x | x in s :: x in q
  {
    if s == {} then [] else [Earliest(mail, s)] + Listing(mail, s - {Earliest(mail, s)})
  }

  lemma {:induction false} ListingOrders(mail: Mail, s: set<nat>)
    ensures Orders(mail, s, Listing(mail, s))
  {
    if s != {} {
      var m, rest := Earliest(mail, s), s - {Earliest(mail, s)};
      ListingOrders(mail, rest);
      var q := Listing(mail, rest);
      forall i, j | 0 <= i < j < |q| + 1
        ensures ([m] + q)[i] != ([m] + q)[j] && Time(mail, ([m] + q)[i]) <= Time(mail, ([m] + q)[j])
      {
        assert ([m] + q)[j] == q[j - 1];
        assert q[j - 1] in rest;
        assert Before(mail, m, q[j - 1]);
        assert i > 0 ==> ([m] + q)[i] == q[i - 1];
      }
    }
  }

  // ---------------------------------------------------------------------------
  // What a page is
  // ---------------------------------------------------------------------------

  function Ids(page: seq<nat>): set<nat> {
    set id | id in page
  }

  /** A page tells without any listing: as many rows as asked for, in order, with
      nothing left out that is earlier. */
  ghost predicate Fits(mail: Mail, s: set<nat>, limit: nat, page: seq<nat>) {
    && Distinct(page) && InTime(mail, page) && Ids(page) <= s
    && |page| == Min(limit, |s|)
    && forall x, y | x in page && y in s - Ids(page) :: Time(mail, x) <= Time(mail, y)
  }

  lemma {:induction false} PageFits(mail: Mail, s: set<nat>, limit: nat, q: seq<nat>)
    requires Orders(mail, s, q)
    ensures Fits(mail, s, limit, q[..Min(limit, |q|)])
  {
    DistinctSize(q, s);
    var n := Min(limit, |q|);
    var page := q[..n];
    assert forall i | 0 <= i < n :: q[i] == page[i] && page[i] in Ids(page);
    forall x, y | x in page && y in s - Ids(page) ensures Time(mail, x) <= Time(mail, y) {
      var i :| 0 <= i < n && page[i] == x;
      var j :| 0 <= j < |q| && q[j] == y;
      assert q[i] == x && i < j;
    }
  }

  lemma {:induction false} OrdersConcat(mail: Mail, s: set<nat>, t: set<nat>, p: seq<nat>, q: seq<nat>)
    requires Orders(mail, s, p) && Orders(mail, t, q) && s !! t
    requires forall x, y | x in s && y in t :: Time(mail, x) <= Time(mail, y)
    ensures Orders(mail, s + t, p + q)
  {
    forall i, j | 0 <= i < j < |p + q|
      ensures (p + q)[i] != (p + q)[j] && Time(mail, (p + q)[i]) <= Time(mail, (p + q)[j])
    {
      assert i < |p| ==> (p + q)[i] == p[i] && p[i] in s;
      assert i >= |p| ==> (p + q)[i] == q[i - |p|];
      assert j >= |p| ==> (p + q)[j] == q[j - |p|] && q[j - |p|] in t;
    }
  }

  lemma {:induction false} FittingIsPage(mail: Mail, s: set<nat>, limit: nat, page: seq<nat>)
    requires Fits(mail, s, limit, page)
    ensures IsPage(mail, s, limit, page)
  {
    var rest := s - Ids(page);
    var tail := SomeListing(mail, rest);
    OrdersConcat(mail, Ids(page), rest, page, tail);
    assert Ids(page) + rest == s;
    FirstPart(mail, s, limit, page, tail);
  }

  lemma {:induction false} SomeListing(mail: Mail, s: set<nat>) returns (q: seq<nat>)
    ensures Orders(mail, s, q)
  {
    q := Listing(mail, s);
    ListingOrders(mail, s);
  }

  lemma {:induction false} FirstPart(mail: Mail, s: set<nat>, limit: nat, page: seq<nat>, tail: seq<nat>)
    requires Orders(mail, s, page + tail) && |page| == Min(limit, |s|)
    ensures IsPage(mail, s, limit, page)
  {
    var q := page + tail;
    DistinctSize(q, s);
    assert q[..|page|] == page;
  }

  lemma {:induction false} PageExactly(mail: Mail, s: set<nat>, limit: nat, page: seq<nat>)
    ensures IsPage(mail, s, limit, page) <==> Fits(mail, s, limit, page)
  {
    if q :| Orders(mail, s, q) && page == q[..Min(limit, |q|)] {
      PageFits(mail, s, limit, q);
    }
    if Fits(mail, s, limit, page) {
      FittingIsPage(mail, s, limit, page);
    }
  }

  /** Row ids fit the serial column. */
  ghost predicate SerialIds(mail: Mail) {
    forall id | id in mail :: id < 0x8000_0000
  }

  /** The page and the remaining count add up to the waiting messages after the cursor,
      except when the cursor is zero, the page is full and some waiting message does not
      have a positive server time. */
  lemma {:induction false} PageAndRemaining(mail: Mail, user: Hash, since: u64, now: Instant, requested: u32,
                                            page: seq<nat>)
    requires SerialIds(mail) && IsPage(mail, Selected(mail, user, since, now), Limit(requested), page)
    ensures |page| + Remaining(|Counted(mail, user, since, now)|, |page|) == |Selected(mail, user, since, now)|
       <==> || since > 0
            || |Selected(mail, user, since, now)| <= Limit(requested)
            || forall id | id in Selected(mail, user, since, now) :: mail[id].serverTimestamp > 0
  {
    var selected, counted := Selected(mail, user, since, now), Counted(mail, user, since, now);
    PageExactly(mail, selected, Limit(requested), page);
    CountedExactly(mail, user, since, now);
    BoundedSize(selected, 0x8000_0000);
    SubsetSize(counted, selected);
    SumOfCounts(|selected|, |counted|, Limit(requested));
  }

  lemma {:induction false} CountedExactly(mail: Mail, user: Hash, since: u64, now: Instant)
    ensures Counted(mail, user, since, now) <= Selected(mail, user, since, now)
    ensures Counted(mail, user, since, now) == Selected(mail, user, since, now)
       <==> since > 0 || forall id | id in Selected(mail, user, since, now) :: mail[id].serverTimestamp > 0
  {
    var selected, counted := Selected(mail, user, since, now), Counted(mail, user, since, now);
    assert since == 0 ==> forall id | id in selected :: id in counted <==> mail[id].serverTimestamp > 0;
  }

  lemma {:induction false} SumOfCounts(selected: nat, counted: nat, limit: nat)
    requires counted <= selected <= 0x8000_0000
    ensures Min(limit, selected) + Remaining(counted, Min(limit, selected)) == selected
       <==> counted == selected || selected <= limit
  {
  }

  /** Going on from the server time of the last row of a page leaves nothing out, and
      repeats nothing, exactly when no row left out of the page ties with that row. */
  lemma {:induction false} CursorStep(mail: Mail, user: Hash, since: u64, now: Instant, limit: nat, page: seq<nat>)
    requires IsPage(mail, Selected(mail, user, since, now), limit, page) && page != []
    requires 0 < Time(mail, page[|page| - 1]) < 0x8000_0000_0000_0000
    ensures var cursor := Time(mail, page[|page| - 1]);
            var left := Selected(mail, user, since, now) - Ids(page);
            && Selected(mail, user, cursor, now) <= left
            && (Selected(mail, user, cursor, now) == left <==> forall id | id in left :: Time(mail, id) != cursor)
  {
    var selected := Selected(mail, user, since, now);
    PageExactly(mail, selected, limit, page);
    var last := page[|page| - 1];
    assert last in Ids(page);
    LastIsLatest(mail, page);
    var cursor := Time(mail, last);
    SelectedAfter(mail, user, since, cursor, now);
    var after, left := Selected(mail, user, cursor, now), selected - Ids(page);
    assert forall id | id in left :: Time(mail, last) <= Time(mail, id);
  }

  lemma {:induction false} LastIsLatest(mail: Mail, page: seq<nat>)
    requires InTime(mail, page) && page != []
    ensures forall id | id in page :: Time(mail, id) <= Time(mail, page[|page| - 1])
  {
  }

  /** A later cursor selects, of the rows selected before, those after it. */
  lemma {:induction false} SelectedAfter(mail: Mail, user: Hash, since: u64, cursor: u64, now: Instant)
    requires 0 < cursor < 0x8000_0000_0000_0000 && (since > 0 ==> AsI64(since) < cursor)
    ensures Selected(mail, user, cursor, now)
            == set id | id in Selected(mail, user, since, now) && Time(mail, id) > cursor
  {
  }

  /** Ties do lose messages: of two messages of one millisecond, a page of one row returns
      either, and the cursor after it selects neither. */
  lemma {:induction false} TieLosesMessage(m: Message, m': Message, now: Instant, since: u64)
    returns (mail: Mail, page: seq<nat>)
    requires m.recipient == m'.recipient && m.expiresAt > now && m'.expiresAt > now
    requires 0 < m.serverTimestamp == m'.serverTimestamp < 0x8000_0000_0000_0000 && since == m.serverTimestamp
    ensures mail == map[1 := m, 2 := m'] && page == [1]
    ensures IsPage(mail, Selected(mail, m.recipient, 0, now), 1, page)
    ensures 2 in Selected(mail, m.recipient, 0, now) && Selected(mail, m.recipient, since, now) == {}
  {
    mail, page := map[1 := m, 2 := m'], [1];
    var selected := Selected(mail, m.recipient, 0, now);
    assert selected == {1, 2};
    assert [1, 2][..1] == page;
    assert Orders(mail, selected, [1, 2]);
  }
}
