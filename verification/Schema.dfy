/** The tables linked to users, their constraints, and cascading deletes. */
module Schema {
  import opened Prelude
  import Prekeys

  type Hash = Bytes

  const HASH_SIZE: nat := 32

  /** The key, its signature and the pre-key bundle, replaced together. */
  datatype Identity = Identity(key: Bytes, signature: Bytes, bundle: Bytes)

  datatype User = User(identity: Identity, recoveryKey: Option<Bytes>)

  datatype Challenge = Challenge(user: Hash, nonce: Bytes, expiresAt: Instant)

  datatype Session = Session(user: Hash, expiresAt: Instant)

  datatype Request = Request(requester: Hash, target: Hash, bundle: Bytes, signature: Bytes,
                             message: Option<Bytes>, timestamp: int)

  datatype Response = Response(requestId: nat, responder: Hash, requester: Hash, accepted: bool,
                               bundle: Option<Bytes>, signature: Bytes, delivered: bool, createdAt: Instant)

  datatype Message = Message(messageId: Bytes, sender: Hash, recipient: Hash, content: Bytes,
                             serverTimestamp: int, expiresAt: Instant)

  datatype Db = Db(
    users: Users,
    challenges: Challenges,
    sessions: Sessions,
    requests: Requests,
    responses: Responses,
    messages: map<nat, Message>,
    prekeys: map<nat, Prekeys.Row>,
    nextRequest: nat, nextResponse: nat, nextMessage: nat, nextPrekey: nat)

  const EMPTY := Db(map[], map[], map[], map[], map[], map[], map[], 1, 1, 1, 1)

  // ---------------------------------------------------------------------------
  // Constraints
  // ---------------------------------------------------------------------------

  type Users = map<Hash, User>
  type Challenges = map<Bytes, Challenge>
  type Sessions = map<Bytes, Session>
  type Requests = map<nat, Request>
  type Responses = map<nat, Response>

  ghost predicate LoginKeys(users: Users, challenges: Challenges, sessions: Sessions) {
    && (forall id | id in challenges :: challenges[id].user in users)
    && (forall token | token in sessions :: sessions[token].user in users)
  }

  ghost predicate RequestKeys(users: Users, requests: Requests) {
    forall id | id in requests :: requests[id].requester in users && requests[id].target in users
  }

  ghost predicate ResponseKeys(requests: Requests, responses: Responses) {
    forall id | id in responses :: responses[id].requestId in requests
  }

  ghost predicate PrekeyKeys(users: Users, prekeys: map<nat, Prekeys.Row>) {
    forall id | id in prekeys :: prekeys[id].user in users
  }

  /** Every REFERENCES clause of the schema. */
  ghost predicate ForeignKeys(db: Db) {
    && LoginKeys(db.users, db.challenges, db.sessions)
    && RequestKeys(db.users, db.requests)
    && ResponseKeys(db.requests, db.responses)
    && PrekeyKeys(db.users, db.prekeys)
  }

  /** Serial ids are below their sequence. */
  ghost predicate Below<T>(rows: map<nat, T>, next: nat) {
    forall id | id in rows :: id < next
  }

  ghost predicate Serials(db: Db) {
    Below(db.requests, db.nextRequest) && Below(db.responses, db.nextResponse)
  }

  // ---------------------------------------------------------------------------
  // Rows that mention a user
  // ---------------------------------------------------------------------------

  predicate RequestMentions(r: Request, user: Hash) {
    r.requester == user || r.target == user
  }

  predicate ResponseMentions(r: Response, user: Hash) {
    r.requester == user || r.responder == user
  }

  predicate MessageMentions(m: Message, user: Hash) {
    m.sender == user || m.recipient == user
  }

  function RequestsMentioning(db: Db, user: Hash): set<nat> {
    set id | id in db.requests && RequestMentions(db.requests[id], user)
  }

  // ---------------------------------------------------------------------------
  // Deletes, with ON DELETE CASCADE
  // ---------------------------------------------------------------------------

  function ResponsesDeleted(db: Db, requestIds: set<nat>): Db {
    db.(responses := map id | id in db.responses && db.responses[id].requestId !in requestIds :: db.responses[id])
  }

  function RequestsDeleted(db: Db, requestIds: set<nat>): Db {
    ResponsesDeleted(db, requestIds).(requests := db.requests - requestIds)
  }

  function MessagesDeleted(db: Db, user: Hash): Db {
    db.(messages := map id | id in db.messages && !MessageMentions(db.messages[id], user) :: db.messages[id])
  }

  function SessionsDeleted(db: Db, user: Hash): Db {
    db.(sessions := map token | token in db.sessions && db.sessions[token].user != user :: db.sessions[token])
  }

  function ChallengesDeleted(db: Db, user: Hash): Db {
    db.(challenges := map id | id in db.challenges && db.challenges[id].user != user :: db.challenges[id])
  }

  /** Deleting a user row takes with it whatever references it. */
  function UserDeleted(db: Db, user: Hash): Db {
    var db' := RequestsDeleted(SessionsDeleted(ChallengesDeleted(db, user), user), RequestsMentioning(db, user));
    db'.(users := db.users - {user},
         prekeys := map id | id in db.prekeys && db.prekeys[id].user != user :: db.prekeys[id])
  }
}
