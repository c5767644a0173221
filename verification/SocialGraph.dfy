/** Friend requests and responses: one request per ordered pair, one response per
    request, and the two ends' views of the accepted ones. */
module SocialGraph {
  import opened Prelude
  import opened Schema
  import opened Ordering
  import Erasure

  datatype Refusal =
    | HashRequired | InvalidHash | ToYourself | SignatureRequired | BundleRequired
    | UserNotFound | TargetNotFound | RequestNotFound | InvalidSignature

  /** `notify` is set when the row is new: updates are silent. */
  datatype Outcome = Refused(reason: Refusal) | Accepted(notify: bool)

  function Optional(bytes: Bytes): Option<Bytes> {
    if bytes == [] then None else Some(bytes)
  }

  // ---------------------------------------------------------------------------
  // contact
  // ---------------------------------------------------------------------------

  datatype Contact = Contact(requester: Hash, target: Hash, bundle: Bytes, signature: Bytes, message: Bytes,
                             timestamp: int, verified: bool)

  function ContactRefusal(db: Db, c: Contact): Option<Refusal> {
    if c.requester == [] || c.target == [] then Some(HashRequired)
    else if |c.requester| != HASH_SIZE || |c.target| != HASH_SIZE then Some(InvalidHash)
    else if c.requester == c.target then Some(ToYourself)
    else if c.signature == [] then Some(SignatureRequired)
    else if c.bundle == [] then Some(BundleRequired)
    else if c.requester !in db.users then Some(UserNotFound)
    else if c.target !in db.users then Some(TargetNotFound)
    else if !c.verified then Some(InvalidSignature)
    else None
  }

  function Between(requests: Requests, requester: Hash, target: Hash): set<nat> {
    set id | id in requests && requests[id].requester == requester && requests[id].target == target
  }

  function Refreshed(r: Request, c: Contact): Request {
    r.(bundle := c.bundle, signature := c.signature, message := Optional(c.message), timestamp := c.timestamp)
  }

  function Refreshing(db: Db, ids: set<nat>, c: Contact): Db {
    db.(requests := map id | id in db.requests :: if id in ids then Refreshed(db.requests[id], c) else db.requests[id])
  }

  function RequestOf(c: Contact): Request {
    Request(c.requester, c.target, c.bundle, c.signature, Optional(c.message), c.timestamp)
  }

  function RequestInserted(db: Db, q: Request): Db {
    db.(requests := db.requests[db.nextRequest := q], nextRequest := db.nextRequest + 1)
  }

  function Contacting(db: Db, c: Contact): (Db, Outcome) {
    var refusal := ContactRefusal(db, c);
    if refusal.Some? then (db, Refused(refusal.value))
    else
      var existing := Between(db.requests, c.requester, c.target);
      if existing != {} then
        (Refreshing(db, existing, c), Accepted(false))
      else
        (RequestInserted(db, RequestOf(c)), Accepted(true))
  }

  // ---------------------------------------------------------------------------
  // respond_friend_request
  // ---------------------------------------------------------------------------

  datatype Reply = Reply(responder: Hash, requester: Hash, accepted: bool, bundle: Bytes, signature: Bytes,
                         verified: bool)

  function ReplyRefusal(db: Db, r: Reply): Option<Refusal> {
    if r.responder == [] || r.requester == [] then Some(HashRequired)
    else if |r.responder| != HASH_SIZE || |r.requester| != HASH_SIZE then Some(InvalidHash)
    else if r.signature == [] then Some(SignatureRequired)
    else if r.accepted && r.bundle == [] then Some(BundleRequired)
    else if r.responder !in db.users then Some(UserNotFound)
    else if !r.verified then Some(InvalidSignature)
    else if Between(db.requests, r.requester, r.responder) == {} then Some(RequestNotFound)
    else None
  }

  function ResponsesTo(responses: Responses, requestId: nat): set<nat> {
    set id | id in responses && responses[id].requestId == requestId
  }

  function Revised(s: Response, r: Reply): Response {
    s.(accepted := r.accepted, bundle := Optional(r.bundle), signature := r.signature, delivered := false)
  }

  function Revising(db: Db, ids: set<nat>, r: Reply): Db {
    db.(responses := map id | id in db.responses ::
          if id in ids then Revised(db.responses[id], r) else db.responses[id])
  }

  function ResponseOf(r: Reply, requestId: nat, now: Instant): Response {
    Response(requestId, r.responder, r.requester, r.accepted, Optional(r.bundle), r.signature, false, now)
  }

  function ResponseInserted(db: Db, s: Response): Db {
    db.(responses := db.responses[db.nextResponse := s], nextResponse := db.nextResponse + 1)
  }

  function Answered(db: Db, r: Reply, requestId: nat, now: Instant): (Db, Outcome) {
    var existing := ResponsesTo(db.responses, requestId);
    if existing != {} then
      (Revising(db, existing, r), Accepted(false))
    else
      (ResponseInserted(db, ResponseOf(r, requestId, now)), Accepted(true))
  }

  /** `first()` is the only request there is between two users. */
  function Responding(db: Db, r: Reply, now: Instant): (Db, Outcome) {
    var refusal := ReplyRefusal(db, r);
    if refusal.Some? then (db, Refused(refusal.value))
    else Answered(db, r, Least(Between(db.requests, r.requester, r.responder)), now)
  }

  // ---------------------------------------------------------------------------
  // The invariant
  // ---------------------------------------------------------------------------

  /** At most one request per ordered pair, and none to oneself. */
  ghost predicate RequestsSound(requests: Requests) {
    && (forall id | id in requests :: requests[id].requester != requests[id].target)
    && (forall id, id' | id in requests && id' in requests && requests[id].requester == requests[id'].requester
                         && requests[id].target == requests[id'].target :: id == id')
  }

  /** A response that its request vouches for: by the target, to the requester, and
      with a bundle if it accepts. None is ever marked as delivered. */
  ghost predicate Vouched(requests: Requests, s: Response) {
    && s.requestId in requests && s.responder == requests[s.requestId].target
    && s.requester == requests[s.requestId].requester && (s.accepted ==> s.bundle.Some?) && !s.delivered
  }

  /** At most one response per request, each vouched for. */
  ghost predicate ResponsesSound(requests: Requests, responses: Responses) {
    && (forall id | id in responses :: Vouched(requests, responses[id]))
    && (forall id, id' | id in responses && id' in responses && responses[id].requestId == responses[id'].requestId ::
          id == id')
  }

  ghost predicate GraphSound(db: Db) {
    RequestsSound(db.requests) && ResponsesSound(db.requests, db.responses)
  }

  ghost predicate Sound(db: Db) {
    GraphSound(db) && ForeignKeys(db) && Serials(db)
  }

  /** Requests keep their ids and users. */
  ghost predicate Extends(requests: Requests, requests': Requests) {
    forall id | id in requests ::
      && id in requests'
      && requests'[id].requester == requests[id].requester && requests'[id].target == requests[id].target
  }

  lemma {:induction false} ResponsesStillSound(requests: Requests, requests': Requests, responses: Responses)
    requires ResponsesSound(requests, responses) && Extends(requests, requests')
    ensures ResponsesSound(requests', responses) && ResponseKeys(requests', responses)
  {
  }

  lemma {:induction false} RefreshedSound(users: Users, requests: Requests, requests': Requests)
    requires RequestsSound(requests) && RequestKeys(users, requests)
    requires Extends(requests, requests') && requests'.Keys == requests.Keys
    ensures RequestsSound(requests') && RequestKeys(users, requests')
  {
    assert forall id | id in requests' :: id in requests;
  }

  lemma {:induction false} RefreshingSound(db: Db, ids: set<nat>, c: Contact)
    requires Sound(db)
    ensures Sound(Refreshing(db, ids, c))
  {
    var requests := Refreshing(db, ids, c).requests;
    RefreshedSound(db.users, db.requests, requests);
    ResponsesStillSound(db.requests, requests, db.responses);
  }

  lemma {:induction false} InsertedSound(users: Users, requests: Requests, id: nat, q: Request)
    requires RequestsSound(requests) && RequestKeys(users, requests) && id !in requests
    requires q.requester in users && q.target in users && q.requester != q.target
    requires Between(requests, q.requester, q.target) == {}
    ensures RequestsSound(requests[id := q]) && RequestKeys(users, requests[id := q])
  {
    assert forall i | i in requests && requests[i].requester == q.requester && requests[i].target == q.target ::
        i in Between(requests, q.requester, q.target);
  }

  lemma {:induction false} RequestInsertedSound(db: Db, q: Request)
    requires Sound(db) && q.requester in db.users && q.target in db.users
    requires q.requester != q.target && Between(db.requests, q.requester, q.target) == {}
    ensures Sound(RequestInserted(db, q))
  {
    InsertedSound(db.users, db.requests, db.nextRequest, q);
    ResponsesStillSound(db.requests, db.requests[db.nextRequest := q], db.responses);
  }

  lemma {:induction false} ContactKeepsSound(db: Db, c: Contact)
    requires Sound(db)
    ensures Sound(Contacting(db, c).0)
  {
    if ContactRefusal(db, c) == None {
      if Between(db.requests, c.requester, c.target) != {} {
        RefreshingSound(db, Between(db.requests, c.requester, c.target), c);
      } else {
        RequestInsertedSound(db, RequestOf(c));
      }
    }
  }

  lemma {:induction false} RevisedSound(requests: Requests, responses: Responses, responses': Responses, ids: set<nat>,
                                        r: Reply)
    requires ResponsesSound(requests, responses) && (r.accepted ==> r.bundle != [])
    requires responses' == map id | id in responses :: if id in ids then Revised(responses[id], r) else responses[id]
    ensures ResponsesSound(requests, responses') && ResponseKeys(requests, responses')
  {
  }

  lemma {:induction false} RevisingSound(db: Db, ids: set<nat>, r: Reply)
    requires Sound(db) && (r.accepted ==> r.bundle != [])
    ensures Sound(Revising(db, ids, r))
  {
    RevisedSound(db.requests, db.responses, Revising(db, ids, r).responses, ids, r);
  }

  lemma {:induction false} AnswerSound(requests: Requests, responses: Responses, id: nat, s: Response)
    requires ResponsesSound(requests, responses) && id !in responses
    requires Vouched(requests, s) && ResponsesTo(responses, s.requestId) == {}
    ensures ResponsesSound(requests, responses[id := s]) && ResponseKeys(requests, responses[id := s])
  {
    assert forall i | i in responses && responses[i].requestId == s.requestId ::
        i in ResponsesTo(responses, s.requestId);
  }

  lemma {:induction false} ReplyKeepsSound(db: Db, r: Reply, now: Instant)
    requires Sound(db)
    ensures Sound(Responding(db, r, now).0)
  {
    if ReplyRefusal(db, r) == None {
      var requestId := Least(Between(db.requests, r.requester, r.responder));
      assert requestId in Between(db.requests, r.requester, r.responder);
      if ResponsesTo(db.responses, requestId) != {} {
        RevisingSound(db, ResponsesTo(db.responses, requestId), r);
      } else {
        AnswerSound(db.requests, db.responses, db.nextResponse, ResponseOf(r, requestId, now));
      }
    }
  }

  /** Erasing a user keeps the graph sound. */
  lemma {:induction false} ScrubbedSound(db: Db, user: Hash)
    requires Sound(db)
    ensures GraphSound(Erasure.Scrubbed(db, user)) && Serials(Erasure.Scrubbed(db, user))
  {
  }

  /** With the invariant, responses concern exactly the users of their request. */
  lemma {:induction false} GraphAgrees(db: Db, user: Hash)
    requires GraphSound(db)
    ensures Erasure.ResponsesAgree(db, user)
  {
  }

  // ---------------------------------------------------------------------------
  // The two views
  // ---------------------------------------------------------------------------

  datatype FriendResponse = FriendResponse(responder: Hash, requester: Hash, accepted: bool, bundle: Bytes,
                                           signature: Bytes, timestamp: nat)

  predicate Since(createdAt: Instant, cutoff: Option<Instant>) {
    cutoff.Some? ==> createdAt > cutoff.value
  }

  predicate Accepting(db: Db, user: Hash, cutoff: Option<Instant>, id: nat) {
    && id in db.responses && db.responses[id].requestId in db.requests
    && db.responses[id].responder == user && db.responses[id].accepted && Since(db.responses[id].createdAt, cutoff)
  }

  function AcceptedEntry(q: Request, s: Response, user: Hash): FriendResponse {
    FriendResponse(user, q.requester, true, q.bundle, s.signature, s.createdAt / 1_000_000_000)
  }

  /** What `user` has accepted, joined with the requests: the requester's bundle. */
  function MyAccepted(db: Db, user: Hash, cutoff: Option<Instant>): set<FriendResponse> {
    set id | id in db.responses && Accepting(db, user, cutoff, id)
      :: AcceptedEntry(db.requests[db.responses[id].requestId], db.responses[id], user)
  }

  function AnsweredEntry(s: Response): FriendResponse {
    FriendResponse(s.responder, s.requester, s.accepted, if s.bundle.Some? then s.bundle.value else [], s.signature,
                   s.createdAt / 1_000_000_000)
  }

  /** What has been answered to `user`: the responder's bundle. */
  function MyResponses(db: Db, user: Hash, cutoff: Option<Instant>): set<FriendResponse> {
    set id | id in db.responses && db.responses[id].requester == user && Since(db.responses[id].createdAt, cutoff)
      :: AnsweredEntry(db.responses[id])
  }

  /** Nobody appears twice in a list of accepted requests: the list has one entry per
      row that accepts, and two such rows concern different requesters. */
  lemma {:induction false} AcceptedOnce(db: Db, user: Hash, cutoff: Option<Instant>, id: nat, id': nat)
    requires GraphSound(db) && Accepting(db, user, cutoff, id) && Accepting(db, user, cutoff, id')
    requires db.requests[db.responses[id].requestId].requester == db.requests[db.responses[id'].requestId].requester
    ensures id == id'
  {
    assert Vouched(db.requests, db.responses[id]) && Vouched(db.requests, db.responses[id']);
    assert db.responses[id].requestId == db.responses[id'].requestId;
  }

  /** So is the list of acceptances seen from the other side. */
  lemma {:induction false} AnsweredOnce(db: Db, user: Hash, id: nat, id': nat)
    requires GraphSound(db) && id in db.responses && id' in db.responses
    requires db.responses[id].requester == user == db.responses[id'].requester
    requires db.responses[id].responder == db.responses[id'].responder
    ensures id == id'
  {
    assert Vouched(db.requests, db.responses[id]) && Vouched(db.requests, db.responses[id']);
    assert db.responses[id].requestId == db.responses[id'].requestId;
  }

  /** Signatures and times of what `user` sees itself to have accepted from `other`. */
  function AcceptedFrom(db: Db, user: Hash, other: Hash, cutoff: Option<Instant>): set<(Bytes, nat)> {
    set f | f in MyAccepted(db, user, cutoff) && f.requester == other :: (f.signature, f.timestamp)
  }

  /** Signatures and times of the acceptances `user` sees from `other`. */
  function AcceptedBy(db: Db, user: Hash, other: Hash, cutoff: Option<Instant>): set<(Bytes, nat)> {
    set f | f in MyResponses(db, user, cutoff) && f.responder == other && f.accepted :: (f.signature, f.timestamp)
  }

  /** The views are dual: `u` sees that it accepted `r` exactly when `r` sees that `u`
      accepted it, with the same signatures and times. */
  lemma {:induction false} AcceptedBothWays(db: Db, u: Hash, r: Hash, cutoff: Option<Instant>)
    requires GraphSound(db)
    ensures AcceptedFrom(db, u, r, cutoff) == AcceptedBy(db, r, u, cutoff)
  {
    forall x | x in AcceptedFrom(db, u, r, cutoff) ensures x in AcceptedBy(db, r, u, cutoff) {
      var f :| f in MyAccepted(db, u, cutoff) && f.requester == r && x == (f.signature, f.timestamp);
    }
    forall x | x in AcceptedBy(db, r, u, cutoff) ensures x in AcceptedFrom(db, u, r, cutoff) {
      var f :| f in MyResponses(db, r, cutoff) && f.responder == u && f.accepted && x == (f.signature, f.timestamp);
    }
  }
}
