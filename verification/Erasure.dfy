/** `delete_user_data`: six statements that together erase an account. */
module Erasure {
  import opened Prelude
  import opened Schema

  const STEPS: nat := 6

  /** A fresh request by a registered user, signed. */
  predicate Authorised(db: Db, user: Hash, signature: Bytes, timely: bool, verified: bool) {
    |user| == HASH_SIZE && signature != [] && timely && user in db.users && verified
  }

  /** The `k`-th statement of the erasure of `user`. */
  function Statement(db: Db, user: Hash, k: nat): Db
    requires 1 <= k <= STEPS
  {
    match k
    case 1 => ResponsesDeleted(db, RequestsMentioning(db, user))
    case 2 => RequestsDeleted(db, RequestsMentioning(db, user))
    case 3 => MessagesDeleted(db, user)
    case 4 => SessionsDeleted(db, user)
    case 5 => ChallengesDeleted(db, user)
    case _ => UserDeleted(db, user)
  }

  /** The database after the first `k` statements. */
  function Erasing(db: Db, user: Hash, k: nat): Db
    requires k <= STEPS
  {
    if k == 0 then db else Statement(Erasing(db, user, k - 1), user, k)
  }

  function Erased(db: Db, user: Hash): Db {
    Erasing(db, user, STEPS)
  }

  /** The database without the rows that mention `user`, table by table. */
  function Scrubbed(db: Db, user: Hash): Db {
    db.(users := db.users - {user},
        challenges := map id | id in db.challenges && db.challenges[id].user != user :: db.challenges[id],
        sessions := map token | token in db.sessions && db.sessions[token].user != user :: db.sessions[token],
        requests := map id | id in db.requests && !RequestMentions(db.requests[id], user) :: db.requests[id],
        responses := map id | id in db.responses && !ResponseMentions(db.responses[id], user) :: db.responses[id],
        messages := map id | id in db.messages && !MessageMentions(db.messages[id], user) :: db.messages[id],
        prekeys := map id | id in db.prekeys && db.prekeys[id].user != user :: db.prekeys[id])
  }

  lemma {:induction false} RequestsDeletedKeys(db: Db, ids: set<nat>)
    requires ForeignKeys(db)
    ensures ForeignKeys(ResponsesDeleted(db, ids)) && ForeignKeys(RequestsDeleted(db, ids))
  {
  }

  lemma {:induction false} LoginDeletedKeys(db: Db, user: Hash)
    requires ForeignKeys(db)
    ensures ForeignKeys(SessionsDeleted(db, user)) && ForeignKeys(ChallengesDeleted(db, user))
  {
  }

  lemma {:induction false} UserDeletedKeys(db: Db, user: Hash)
    requires ForeignKeys(db)
    ensures ForeignKeys(UserDeleted(db, user))
  {
    LoginDeletedKeys(db, user);
    LoginDeletedKeys(ChallengesDeleted(db, user), user);
    RequestsDeletedKeys(db, RequestsMentioning(db, user));
    var db' := UserDeleted(db, user);
    assert db'.requests == db.requests - RequestsMentioning(db, user);
    assert RequestKeys(db'.users, db'.requests);
  }

  /** Foreign keys hold after each of the six statements. */
  lemma {:induction false} ForeignKeysThroughout(db: Db, user: Hash, k: nat)
    requires ForeignKeys(db) && k <= STEPS
    ensures ForeignKeys(Erasing(db, user, k))
  {
    if k > 0 {
      ForeignKeysThroughout(db, user, k - 1);
      var before := Erasing(db, user, k - 1);
      match k {
        case 1 => RequestsDeletedKeys(before, RequestsMentioning(before, user));
        case 2 => RequestsDeletedKeys(before, RequestsMentioning(before, user));
        case 3 =>
        case 4 => LoginDeletedKeys(before, user);
        case 5 => LoginDeletedKeys(before, user);
        case _ => UserDeletedKeys(before, user);
      }
    }
  }

  /** The responses that survive are those whose request does not mention the user. */
  function ResponsesKept(db: Db, user: Hash): map<nat, Response> {
    map id | id in db.responses && db.responses[id].requestId !in RequestsMentioning(db, user) :: db.responses[id]
  }

  /** The first two statements remove the requests and what answers them. */
  lemma {:induction false} RequestStatements(db: Db, user: Hash)
    ensures Statement(Statement(db, user, 1), user, 2)
            == db.(requests := Scrubbed(db, user).requests, responses := ResponsesKept(db, user))
  {
    var db1 := Statement(db, user, 1);
    assert RequestsMentioning(db1, user) == RequestsMentioning(db, user);
    assert db1.responses == ResponsesKept(db, user);
    var db2 := Statement(db1, user, 2);
    assert db2.requests == Scrubbed(db, user).requests;
    assert db2.responses == db1.responses;
  }

  /** The next three remove messages, sessions and challenges. */
  lemma {:induction false} DirectStatements(db: Db, user: Hash)
    ensures var scrubbed := Scrubbed(db, user);
            Statement(Statement(Statement(db, user, 3), user, 4), user, 5)
            == db.(messages := scrubbed.messages, sessions := scrubbed.sessions, challenges := scrubbed.challenges)
  {
    var scrubbed := Scrubbed(db, user);
    var db3 := Statement(db, user, 3);
    assert db3.messages == scrubbed.messages;
    var db4 := Statement(db3, user, 4);
    assert db4.sessions == scrubbed.sessions;
    var db5 := Statement(db4, user, 5);
    assert db5.challenges == scrubbed.challenges;
  }

  /** By the time the user row goes, only prekeys are left to cascade. */
  lemma {:induction false} LastStatement(db: Db, user: Hash)
    requires RequestsMentioning(db, user) == {}
    requires ChallengesDeleted(SessionsDeleted(db, user), user) == db
    ensures UserDeleted(db, user)
            == db.(users := db.users - {user}, prekeys := Scrubbed(db, user).prekeys)
  {
    assert UserDeleted(db, user).responses == db.responses;
    assert UserDeleted(db, user).requests == db.requests;
    assert UserDeleted(db, user).sessions == db.sessions;
    assert UserDeleted(db, user).challenges == db.challenges;
  }

  lemma {:induction false} ErasedAlmostScrubbed(db: Db, user: Hash)
    ensures Erased(db, user) == Scrubbed(db, user).(responses := ResponsesKept(db, user))
  {
    RequestStatements(db, user);
    var db2 := db.(requests := Scrubbed(db, user).requests, responses := ResponsesKept(db, user));
    DirectStatements(db2, user);
    var scrubbed := Scrubbed(db2, user);
    var db5 := db2.(messages := scrubbed.messages, sessions := scrubbed.sessions, challenges := scrubbed.challenges);
    assert SessionsDeleted(db5, user).sessions == db5.sessions;
    assert ChallengesDeleted(db5, user).challenges == db5.challenges;
    LastStatement(db5, user);
    StatementsCompose(db, user);
    assert db5.sessions == Scrubbed(db, user).sessions;
    assert db5.challenges == Scrubbed(db, user).challenges;
    assert db5.messages == Scrubbed(db, user).messages;
    assert db5.prekeys == db.prekeys;
  }

  lemma {:induction false} StatementsCompose(db: Db, user: Hash)
    ensures var db2 := Statement(Statement(db, user, 1), user, 2);
            Erased(db, user) == Statement(Statement(Statement(Statement(db2, user, 3), user, 4), user, 5), user, 6)
  {
    assert Erasing(db, user, 1) == Statement(db, user, 1);
    assert Erasing(db, user, 2) == Statement(Erasing(db, user, 1), user, 2);
    assert Erasing(db, user, 3) == Statement(Erasing(db, user, 2), user, 3);
    assert Erasing(db, user, 4) == Statement(Erasing(db, user, 3), user, 4);
    assert Erasing(db, user, 5) == Statement(Erasing(db, user, 4), user, 5);
  }

  /** A response agrees with its request on whether it concerns the user. */
  ghost predicate ResponsesAgree(db: Db, user: Hash) {
    forall id | id in db.responses ::
      ResponseMentions(db.responses[id], user) <==> db.responses[id].requestId in RequestsMentioning(db, user)
  }

  /** Erasure leaves precisely the rows that do not mention the user if and only if
      responses and requests agree on whom they concern; the schema does not enforce
      that, since the user columns of a response reference nothing. */
  lemma {:induction false} ErasureExactly(db: Db, user: Hash)
    ensures Erased(db, user) == Scrubbed(db, user) <==> ResponsesAgree(db, user)
  {
    ErasedAlmostScrubbed(db, user);
    var kept, wanted := ResponsesKept(db, user), Scrubbed(db, user).responses;
    if ResponsesAgree(db, user) {
      assert kept == wanted;
    } else {
      var id :| id in db.responses &&
                !(ResponseMentions(db.responses[id], user)
                  <==> db.responses[id].requestId in RequestsMentioning(db, user));
      assert (id in kept) != (id in wanted);
    }
  }

  /** The schema does allow a response that disagrees with its request: erasing its
      responder leaves it behind, and erasing the requester of its request removes it. */
  lemma {:induction false} SchemaAllowsDisagreement(u: Hash, v: Hash, w: Hash) returns (db: Db)
    requires u != v && v != w && u != w
    ensures ForeignKeys(db) && !ResponsesAgree(db, w) && !ResponsesAgree(db, u)
    ensures 1 in Erased(db, w).responses && ResponseMentions(Erased(db, w).responses[1], w)
    ensures 1 in db.responses && !ResponseMentions(db.responses[1], u) && 1 !in Erased(db, u).responses
  {
    var someone := User(Identity([0], [0], [0]), None);
    var asked := Request(u, v, [0], [0], None, 0);
    var answered := Response(1, w, v, false, None, [0], false, 0);
    db := EMPTY.(users := map[u := someone, v := someone, w := someone],
                 requests := map[1 := asked], responses := map[1 := answered]);
    LeftBehind(db, w, 1);
    WronglyRemoved(db, u, 1);
  }

  /** A response that mentions the user, to a request that does not, stays. */
  lemma {:induction false} LeftBehind(db: Db, user: Hash, id: nat)
    requires id in db.responses && ResponseMentions(db.responses[id], user)
    requires db.responses[id].requestId !in RequestsMentioning(db, user)
    ensures !ResponsesAgree(db, user) && id in Erased(db, user).responses
    ensures Erased(db, user).responses[id] == db.responses[id]
  {
    ErasedAlmostScrubbed(db, user);
    assert id in ResponsesKept(db, user);
  }

  /** A response that does not mention the user, to a request that does, goes. */
  lemma {:induction false} WronglyRemoved(db: Db, user: Hash, id: nat)
    requires id in db.responses && !ResponseMentions(db.responses[id], user)
    requires db.responses[id].requestId in RequestsMentioning(db, user)
    ensures !ResponsesAgree(db, user) && id !in Erased(db, user).responses
  {
    ErasedAlmostScrubbed(db, user);
    assert id !in ResponsesKept(db, user);
  }
}
