/** What the account handlers answer, in any database. */
module AccountAnswers {
  import opened Prelude
  import opened Schema
  import Login
  import Ordering
  import SG = SocialGraph

  /** A registered user, by its 32-byte hash. */
  predicate Known(db: Db, user: Hash) {
    |user| == 32 && user in db.users
  }

  // ---------------------------------------------------------------------------
  // login
  // ---------------------------------------------------------------------------

  predicate AsksChallenge(db: Db, a: Login.Attempt) {
    a.currentVersion && Known(db, a.user) && a.wantsChallenge
  }

  predicate OffersProof(db: Db, a: Login.Attempt) {
    a.currentVersion && Known(db, a.user) && !a.wantsChallenge && a.proof.Some?
  }

  predicate Holds(db: Db, user: Hash, challengeId: Bytes) {
    challengeId in db.challenges && db.challenges[challengeId].user == user
  }

  predicate HeldByOther(db: Db, user: Hash, challengeId: Bytes) {
    challengeId in db.challenges && db.challenges[challengeId].user != user
  }

  /** The proof is right, and of a challenge of the user that has not expired. */
  predicate Proves(db: Db, a: Login.Attempt, now: Instant) {
    && OffersProof(db, a) && Holds(db, a.user, a.proof.value.challengeId)
    && now <= db.challenges[a.proof.value.challengeId].expiresAt && a.proof.value.verified
  }

  /** An attempt is challenged, with the random id and nonce, if and only if it is of the
      current version, by a known user who wants a challenge, and no other user's challenge
      goes by that id; it is granted a session of 24 hours if and only if it proves a challenge
      and the random token is new; each refusal tells the first thing wrong with it. */
  lemma {:induction false} LoginAnsweredExactly(db: Db, a: Login.Attempt, random: Login.Random, now: Instant, x: Bytes,
                                                y: Bytes, expiresAt: Instant)
    ensures var outcome := Login.LoggingIn(db, a, random, now).1;
            && (outcome == Login.Refused(Login.VersionOutdated) <==> !a.currentVersion)
            && (outcome == Login.Refused(Login.HashRequired) <==> a.currentVersion && a.user == [])
            && (outcome == Login.Refused(Login.InvalidHash) <==> a.currentVersion && a.user != [] && |a.user| != 32)
            && (outcome == Login.Refused(Login.UserNotFound)
                <==> a.currentVersion && |a.user| == 32 && a.user !in db.users)
            && (outcome == Login.Refused(Login.NothingAsked)
                <==> a.currentVersion && Known(db, a.user) && !a.wantsChallenge && a.proof == None)
            && (outcome == Login.Refused(Login.ChallengeNotStored)
                <==> AsksChallenge(db, a) && HeldByOther(db, a.user, random.challengeId))
            && (outcome == Login.Challenged(x, y)
                <==> && AsksChallenge(db, a) && !HeldByOther(db, a.user, random.challengeId)
                     && x == random.challengeId && y == random.nonce)
    ensures var outcome := Login.LoggingIn(db, a, random, now).1;
            && (outcome == Login.Refused(Login.InvalidChallenge)
                <==> OffersProof(db, a) && !Holds(db, a.user, a.proof.value.challengeId))
            && (outcome == Login.Refused(Login.ChallengeExpired)
                <==> && OffersProof(db, a) && Holds(db, a.user, a.proof.value.challengeId)
                     && now > db.challenges[a.proof.value.challengeId].expiresAt)
            && (outcome == Login.Refused(Login.InvalidProof)
                <==> && OffersProof(db, a) && Holds(db, a.user, a.proof.value.challengeId)
                     && now <= db.challenges[a.proof.value.challengeId].expiresAt && !a.proof.value.verified)
            && (outcome == Login.Refused(Login.SessionNotStored)
                <==> Proves(db, a, now) && random.token in db.sessions)
            && (outcome == Login.SessionGranted(x, expiresAt)
                <==> && Proves(db, a, now) && random.token !in db.sessions
                     && x == random.token && expiresAt == now + Seconds(86_400))
  {
    if AsksChallenge(db, a) {
      assert Login.LoggingIn(db, a, random, now) == Login.Challenging(db, a.user, random, now);
    } else if OffersProof(db, a) {
      assert Login.LoggingIn(db, a, random, now) == Login.Proving(db, a.user, a.proof.value, random.token, now);
    }
  }

  // ---------------------------------------------------------------------------
  // recovery
  // ---------------------------------------------------------------------------

  /** The request names a known user and carries a key and a fresh signature. */
  predicate KeyInOrder(db: Db, user: Hash, key: Bytes, signature: Bytes, timely: bool) {
    Known(db, user) && key != [] && signature != [] && timely
  }

  /** The user has published a key that can be claimed with. */
  predicate Recoverable(db: Db, user: Hash) {
    user in db.users && db.users[user].recoveryKey.Some? && db.users[user].recoveryKey.value != []
  }

  /** The request signs the recovery key. */
  predicate Publishes(db: Db, k: Login.KeyRequest) {
    KeyInOrder(db, k.user, k.key, k.signature, k.timely) && k.verified
  }

  /** The claim is signed with the recovery key of its user. */
  predicate Claims(db: Db, c: Login.Claim) {
    KeyInOrder(db, c.user, c.identity.key, c.signature, c.timely) && Recoverable(db, c.user) && c.verified
  }

  /** What both refuse. */
  ghost predicate KeyRefused(db: Db, user: Hash, key: Bytes, signature: Bytes, timely: bool, outcome: Login.Outcome) {
    && (outcome == Login.Refused(Login.InvalidHash) <==> |user| != 32)
    && (outcome == Login.Refused(Login.KeyRequired) <==> |user| == 32 && key == [])
    && (outcome == Login.Refused(Login.SignatureRequired) <==> |user| == 32 && key != [] && signature == [])
    && (outcome == Login.Refused(Login.StaleTimestamp)
        <==> |user| == 32 && key != [] && signature != [] && !timely)
    && (outcome == Login.Refused(Login.UserNotFound)
        <==> |user| == 32 && key != [] && signature != [] && timely && user !in db.users)
  }

  lemma {:induction false} PublishAnsweredExactly(db: Db, k: Login.KeyRequest)
    ensures var outcome := Login.Publishing(db, k).1;
            && KeyRefused(db, k.user, k.key, k.signature, k.timely, outcome)
            && (outcome == Login.Refused(Login.InvalidSignature)
                <==> KeyInOrder(db, k.user, k.key, k.signature, k.timely) && !k.verified)
            && (outcome == Login.KeyPublished <==> Publishes(db, k))
  {
  }

  /** A claim is granted a session of 30 days if and only if it is in order, its user has a
      recovery key, it is signed with it, and the random token is new. */
  lemma {:induction false} ClaimAnsweredExactly(db: Db, c: Login.Claim, token: Bytes, now: Instant, t: Bytes,
                                                expiresAt: Instant)
    ensures var outcome := Login.Claiming(db, c, token, now).1;
            var inOrder := KeyInOrder(db, c.user, c.identity.key, c.signature, c.timely);
            && KeyRefused(db, c.user, c.identity.key, c.signature, c.timely, outcome)
            && (outcome == Login.Refused(Login.NoRecoveryKey) <==> inOrder && !Recoverable(db, c.user))
            && (outcome == Login.Refused(Login.InvalidSignature)
                <==> inOrder && Recoverable(db, c.user) && !c.verified)
            && (outcome == Login.Refused(Login.SessionNotStored) <==> Claims(db, c) && token in db.sessions)
            && (outcome == Login.SessionGranted(t, expiresAt)
                <==> Claims(db, c) && token !in db.sessions && t == token && expiresAt == now + Seconds(2_592_000))
  {
  }

  // ---------------------------------------------------------------------------
  // contact and respond_friend_request
  // ---------------------------------------------------------------------------

  /** Hashes of 32 bytes. */
  predicate Hashes(u: Hash, v: Hash) {
    |u| == 32 && |v| == 32
  }

  /** A request is stored from the one user to the other. */
  predicate Asked(db: Db, requester: Hash, target: Hash) {
    exists id | id in db.requests :: db.requests[id].requester == requester && db.requests[id].target == target
  }

  /** A request by a known user to another, with a bundle and a signature that is right. */
  predicate Contacts(db: Db, c: SG.Contact) {
    && Known(db, c.requester) && Known(db, c.target) && c.requester != c.target
    && c.signature != [] && c.bundle != [] && c.verified
  }

  /** A contact is accepted if and only if it is in order, and is notified of if and only if
      no request of the pair was stored before; each refusal tells the first thing wrong. */
  lemma {:induction false} ContactAnsweredExactly(db: Db, c: SG.Contact, notify: bool)
    ensures var outcome := SG.Contacting(db, c).1;
            var given := Hashes(c.requester, c.target) && c.requester != c.target;
            && (outcome == SG.Refused(SG.HashRequired) <==> c.requester == [] || c.target == [])
            && (outcome == SG.Refused(SG.InvalidHash)
                <==> c.requester != [] && c.target != [] && !Hashes(c.requester, c.target))
            && (outcome == SG.Refused(SG.ToYourself) <==> |c.target| == 32 && c.requester == c.target)
            && (outcome == SG.Refused(SG.SignatureRequired) <==> given && c.signature == [])
            && (outcome == SG.Refused(SG.BundleRequired) <==> given && c.signature != [] && c.bundle == [])
            && (outcome == SG.Refused(SG.UserNotFound)
                <==> given && c.signature != [] && c.bundle != [] && c.requester !in db.users)
            && (outcome == SG.Refused(SG.TargetNotFound)
                <==> && given && c.signature != [] && c.bundle != []
                     && c.requester in db.users && c.target !in db.users)
            && (outcome == SG.Refused(SG.InvalidSignature)
                <==> && given && c.signature != [] && c.bundle != []
                     && c.requester in db.users && c.target in db.users && !c.verified)
            && (outcome == SG.Accepted(notify)
                <==> Contacts(db, c) && (notify <==> !Asked(db, c.requester, c.target)))
  {
    AskedBetween(db, c.requester, c.target);
  }

  lemma {:induction false} AskedBetween(db: Db, requester: Hash, target: Hash)
    ensures Asked(db, requester, target) <==> SG.Between(db.requests, requester, target) != {}
  {
    if Asked(db, requester, target) {
      var id :| id in db.requests && db.requests[id].requester == requester && db.requests[id].target == target;
      assert id in SG.Between(db.requests, requester, target);
    }
    if SG.Between(db.requests, requester, target) != {} {
      var id :| id in SG.Between(db.requests, requester, target);
    }
  }

  /** A reply by a known user to a stored request, with a signature that is right, and with a
      bundle if it accepts. */
  predicate Answers(db: Db, r: SG.Reply) {
    && Known(db, r.responder) && |r.requester| == 32
    && r.signature != [] && (r.accepted ==> r.bundle != []) && r.verified && Asked(db, r.requester, r.responder)
  }

  /** A response is stored to the request between the two users. */
  predicate Responded(db: Db, responder: Hash, requester: Hash) {
    exists id | id in db.responses ::
      db.responses[id].responder == responder && db.responses[id].requester == requester
  }

  /** A reply is accepted if and only if it is in order; each refusal tells the first thing
      wrong. On a sound graph, it is notified of if and only if it is the first of the pair. */
  lemma {:induction false} ReplyAnsweredExactly(db: Db, r: SG.Reply, now: Instant, notify: bool)
    ensures var outcome := SG.Responding(db, r, now).1;
            var given := && Hashes(r.responder, r.requester) && r.signature != []
                         && (r.accepted ==> r.bundle != []);
            && (outcome == SG.Refused(SG.HashRequired) <==> r.responder == [] || r.requester == [])
            && (outcome == SG.Refused(SG.InvalidHash)
                <==> r.responder != [] && r.requester != [] && !Hashes(r.responder, r.requester))
            && (outcome == SG.Refused(SG.SignatureRequired) <==> Hashes(r.responder, r.requester) && r.signature == [])
            && (outcome == SG.Refused(SG.BundleRequired)
                <==> Hashes(r.responder, r.requester) && r.signature != [] && r.accepted && r.bundle == [])
            && (outcome == SG.Refused(SG.UserNotFound) <==> given && r.responder !in db.users)
            && (outcome == SG.Refused(SG.InvalidSignature) <==> given && r.responder in db.users && !r.verified)
            && (outcome == SG.Refused(SG.RequestNotFound)
                <==> && given && r.responder in db.users && r.verified
                     && !Asked(db, r.requester, r.responder))
            && (outcome.Accepted? <==> Answers(db, r))
            && (SG.GraphSound(db) ==>
                  (outcome == SG.Accepted(notify)
                   <==> Answers(db, r) && (notify <==> !Responded(db, r.responder, r.requester))))
  {
    AskedBetween(db, r.requester, r.responder);
    if Answers(db, r) && SG.GraphSound(db) {
      RespondedTo(db, r);
    }
  }

  lemma {:induction false} RespondedTo(db: Db, r: SG.Reply)
    requires SG.GraphSound(db) && SG.Between(db.requests, r.requester, r.responder) != {}
    ensures var requestId := Ordering.Least(SG.Between(db.requests, r.requester, r.responder));
            SG.ResponsesTo(db.responses, requestId) != {} <==> Responded(db, r.responder, r.requester)
  {
    var requestId := Ordering.Least(SG.Between(db.requests, r.requester, r.responder));
    if Responded(db, r.responder, r.requester) {
      var id :| && id in db.responses && db.responses[id].responder == r.responder
                && db.responses[id].requester == r.requester;
      assert SG.Vouched(db.requests, db.responses[id]);
      assert id in SG.ResponsesTo(db.responses, requestId);
    }
    if SG.ResponsesTo(db.responses, requestId) != {} {
      var id :| id in SG.ResponsesTo(db.responses, requestId);
      assert SG.Vouched(db.requests, db.responses[id]);
    }
  }
}
