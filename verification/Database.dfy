/** The handlers as the server runs them: statement after statement on the tables. Each
    method is proved against the function that the run theorems are about. */
module Database {
  import opened Prelude
  import opened Schema
  import Login
  import SocialGraph
  import Erasure
  import Ordering
  import Prekeys

  class Tables {
    var users: Users
    var challenges: Challenges
    var sessions: Sessions
    var requests: Requests
    var responses: Responses
    var messages: map<nat, Message>
    var prekeys: map<nat, Prekeys.Row>
    var nextRequest: nat
    var nextResponse: nat
    var nextMessage: nat
    var nextPrekey: nat

    function Contents(): Db
      reads this
    {
      Db(users, challenges, sessions, requests, responses, messages, prekeys,
         nextRequest, nextResponse, nextMessage, nextPrekey)
    }

    constructor ()
      ensures Contents() == EMPTY
    {
      users, challenges, sessions := map[], map[], map[];
      requests, responses, messages, prekeys := map[], map[], map[], map[];
      nextRequest, nextResponse, nextMessage, nextPrekey := 1, 1, 1, 1;
    }

    // -------------------------------------------------------------------------
    // Single statements
    // -------------------------------------------------------------------------

    method DeleteChallenges(user: Hash)
      modifies this`challenges
      ensures Contents() == ChallengesDeleted(old(Contents()), user)
    {
      challenges := map id | id in challenges && challenges[id].user != user :: challenges[id];
    }

    method DeleteChallenge(id: Bytes)
      modifies this`challenges
      ensures Contents() == Login.ChallengeConsumed(old(Contents()), id)
    {
      challenges := challenges - {id};
    }

    method InsertSession(user: Hash, token: Bytes, expiresAt: Instant) returns (outcome: Login.Outcome)
      modifies this`sessions
      ensures (Contents(), outcome) == Login.Granting(old(Contents()), user, token, expiresAt)
    {
      if token in sessions {
        outcome := Login.Refused(Login.SessionNotStored);
      } else {
        sessions := sessions[token := Session(user, expiresAt)];
        outcome := Login.SessionGranted(token, expiresAt);
      }
    }

    // -------------------------------------------------------------------------
    // login
    // -------------------------------------------------------------------------

    method HandleChallengeRequest(user: Hash, random: Login.Random, now: Instant) returns (outcome: Login.Outcome)
      modifies this`challenges
      ensures (Contents(), outcome) == Login.Challenging(old(Contents()), user, random, now)
    {
      DeleteChallenges(user);
      if random.challengeId in challenges {
        outcome := Login.Refused(Login.ChallengeNotStored);
      } else {
        var challenge := Challenge(user, random.nonce, now + Seconds(Login.CHALLENGE_EXPIRY_SECONDS));
        challenges := challenges[random.challengeId := challenge];
        outcome := Login.Challenged(random.challengeId, random.nonce);
      }
    }

    method HandleProofVerification(user: Hash, proof: Login.Proof, token: Bytes, now: Instant)
      returns (outcome: Login.Outcome)
      modifies this`challenges, this`sessions
      ensures (Contents(), outcome) == Login.Proving(old(Contents()), user, proof, token, now)
    {
      if proof.challengeId !in challenges || challenges[proof.challengeId].user != user {
        return Login.Refused(Login.InvalidChallenge);
      }
      if now > challenges[proof.challengeId].expiresAt {
        DeleteChallenge(proof.challengeId);
        return Login.Refused(Login.ChallengeExpired);
      }
      if !proof.verified {
        return Login.Refused(Login.InvalidProof);
      }
      DeleteChallenge(proof.challengeId);
      outcome := InsertSession(user, token, now + Seconds(Login.LOGIN_SESSION_SECONDS));
    }

    method LogIn(a: Login.Attempt, random: Login.Random, now: Instant) returns (outcome: Login.Outcome)
      modifies this`challenges, this`sessions
      ensures (Contents(), outcome) == Login.LoggingIn(old(Contents()), a, random, now)
    {
      var refusal := Login.AttemptRefusal(Contents(), a);
      if refusal.Some? {
        outcome := Login.Refused(refusal.value);
      } else if a.wantsChallenge {
        outcome := HandleChallengeRequest(a.user, random, now);
      } else {
        outcome := HandleProofVerification(a.user, a.proof.value, random.token, now);
      }
    }

    // -------------------------------------------------------------------------
    // recovery
    // -------------------------------------------------------------------------

    method PublishRecoveryKey(k: Login.KeyRequest) returns (outcome: Login.Outcome)
      modifies this`users
      ensures (Contents(), outcome) == Login.Publishing(old(Contents()), k)
    {
      var refusal := Login.KeyRefusal(Contents(), k.user, k.key, k.signature, k.timely);
      if refusal.Some? {
        return Login.Refused(refusal.value);
      }
      if !k.verified {
        return Login.Refused(Login.InvalidSignature);
      }
      users := users[k.user := users[k.user].(recoveryKey := Some(k.key))];
      outcome := Login.KeyPublished;
    }

    method RecoveryClaim(c: Login.Claim, token: Bytes, now: Instant) returns (outcome: Login.Outcome)
      modifies this`users, this`sessions
      ensures (Contents(), outcome) == Login.Claiming(old(Contents()), c, token, now)
    {
      var refusal := Login.KeyRefusal(Contents(), c.user, c.identity.key, c.signature, c.timely);
      if refusal.Some? {
        return Login.Refused(refusal.value);
      }
      var user := users[c.user];
      if user.recoveryKey == None || user.recoveryKey.value == [] {
        return Login.Refused(Login.NoRecoveryKey);
      }
      if !c.verified {
        return Login.Refused(Login.InvalidSignature);
      }
      users := users[c.user := user.(identity := c.identity)];
      outcome := InsertSession(c.user, token, now + Seconds(Login.RECOVERY_SESSION_SECONDS));
    }

    // -------------------------------------------------------------------------
    // contact and respond_friend_request
    // -------------------------------------------------------------------------

    method Contact(c: SocialGraph.Contact) returns (outcome: SocialGraph.Outcome)
      modifies this`requests, this`nextRequest
      ensures (Contents(), outcome) == SocialGraph.Contacting(old(Contents()), c)
    {
      var refusal := SocialGraph.ContactRefusal(Contents(), c);
      if refusal.Some? {
        return SocialGraph.Refused(refusal.value);
      }
      var existing := SocialGraph.Between(requests, c.requester, c.target);
      if existing != {} {
        requests := map id | id in requests ::
          if id in existing then SocialGraph.Refreshed(requests[id], c) else requests[id];
      } else {
        requests := requests[nextRequest := SocialGraph.RequestOf(c)];
        nextRequest := nextRequest + 1;
      }
      outcome := SocialGraph.Accepted(existing == {});
    }

    method RespondFriendRequest(r: SocialGraph.Reply, now: Instant) returns (outcome: SocialGraph.Outcome)
      modifies this`responses, this`nextResponse
      ensures (Contents(), outcome) == SocialGraph.Responding(old(Contents()), r, now)
    {
      var refusal := SocialGraph.ReplyRefusal(Contents(), r);
      if refusal.Some? {
        return SocialGraph.Refused(refusal.value);
      }
      var requestId := Ordering.Least(SocialGraph.Between(requests, r.requester, r.responder));
      var existing := SocialGraph.ResponsesTo(responses, requestId);
      if existing != {} {
        responses := map id | id in responses ::
          if id in existing then SocialGraph.Revised(responses[id], r) else responses[id];
      } else {
        responses := responses[nextResponse := SocialGraph.ResponseOf(r, requestId, now)];
        nextResponse := nextResponse + 1;
      }
      outcome := SocialGraph.Accepted(existing == {});
    }

    // -------------------------------------------------------------------------
    // delete_user_data
    // -------------------------------------------------------------------------

    method DeleteResponses(requestIds: set<nat>)
      modifies this`responses
      ensures Contents() == ResponsesDeleted(old(Contents()), requestIds)
    {
      responses := map id | id in responses && responses[id].requestId !in requestIds :: responses[id];
    }

    method DeleteRequests(user: Hash)
      modifies this`requests, this`responses
      ensures Contents() == RequestsDeleted(old(Contents()), RequestsMentioning(old(Contents()), user))
    {
      var requestIds := RequestsMentioning(Contents(), user);
      DeleteResponses(requestIds);
      requests := requests - requestIds;
    }

    method DeleteMessages(user: Hash)
      modifies this`messages
      ensures Contents() == MessagesDeleted(old(Contents()), user)
    {
      messages := map id | id in messages && !MessageMentions(messages[id], user) :: messages[id];
    }

    method DeleteSessions(user: Hash)
      modifies this`sessions
      ensures Contents() == SessionsDeleted(old(Contents()), user)
    {
      sessions := map token | token in sessions && sessions[token].user != user :: sessions[token];
    }

    /** The delete and its cascades. */
    method DeleteUser(user: Hash)
      modifies this
      ensures Contents() == UserDeleted(old(Contents()), user)
    {
      ghost var db := Contents();
      DeleteChallenges(user);
      DeleteSessions(user);
      assert RequestsMentioning(Contents(), user) == RequestsMentioning(db, user);
      DeleteRequests(user);
      prekeys := map id | id in prekeys && prekeys[id].user != user :: prekeys[id];
      users := users - {user};
    }

    /** All six statements, and, when responses agree with their requests, nothing of the
        user left and nothing else gone. */
    method DeleteUserData(user: Hash)
      modifies this
      ensures Contents() == Erasure.Erased(old(Contents()), user)
      ensures Erasure.ResponsesAgree(old(Contents()), user) ==> Contents() == Erasure.Scrubbed(old(Contents()), user)
    {
      ghost var db := Contents();
      var requestIds := RequestsMentioning(Contents(), user);
      if requestIds != {} {
        DeleteResponses(requestIds);
      }
      assert Contents().responses == Erasure.Erasing(db, user, 1).responses;
      assert Contents() == Erasure.Erasing(db, user, 1);
      DeleteRequests(user);
      assert Contents() == Erasure.Erasing(db, user, 2);
      DeleteMessages(user);
      assert Contents() == Erasure.Erasing(db, user, 3);
      DeleteSessions(user);
      assert Contents() == Erasure.Erasing(db, user, 4);
      DeleteChallenges(user);
      assert Contents() == Erasure.Erasing(db, user, 5);
      DeleteUser(user);
      assert Contents() == Erasure.Erasing(db, user, 6);
      Erasure.ErasureExactly(db, user);
    }

    method DeleteAccount(user: Hash, signature: Bytes, timely: bool, verified: bool) returns (success: bool)
      modifies this
      ensures success <==> |user| == 32 && signature != [] && timely && user in old(users) && verified
      ensures success <==> Erasure.Authorised(old(Contents()), user, signature, timely, verified)
      ensures Contents() == if success then Erasure.Erased(old(Contents()), user) else old(Contents())
    {
      if |user| != HASH_SIZE || signature == [] || !timely || user !in users || !verified {
        return false;
      }
      DeleteUserData(user);
      success := true;
    }
  }
}
