/** The two-step login, and account recovery: the two ways to get a session. Random
    bytes are arguments, and so are the results of signature checks. */
module Login {
  import opened Prelude
  import opened Schema

  const CHALLENGE_EXPIRY_SECONDS: nat := 300
  const LOGIN_SESSION_SECONDS: nat := 24 * 3600
  const RECOVERY_SESSION_SECONDS: nat := 30 * 24 * 3600

  datatype Refusal =
    | VersionOutdated | HashRequired | InvalidHash | UserNotFound | NothingAsked | ChallengeNotStored
    | InvalidChallenge | ChallengeExpired | InvalidProof | SessionNotStored
    | KeyRequired | SignatureRequired | StaleTimestamp | NoRecoveryKey | InvalidSignature

  datatype Outcome =
    | Refused(reason: Refusal)
    | Challenged(challengeId: Bytes, nonce: Bytes)
    | SessionGranted(token: Bytes, expiresAt: Instant)
    | KeyPublished

  datatype Proof = Proof(challengeId: Bytes, verified: bool)

  datatype Attempt = Attempt(user: Hash, currentVersion: bool, wantsChallenge: bool, proof: Option<Proof>)

  datatype Random = Random(challengeId: Bytes, nonce: Bytes, token: Bytes)

  // ---------------------------------------------------------------------------
  // login
  // ---------------------------------------------------------------------------

  function AttemptRefusal(db: Db, a: Attempt): Option<Refusal> {
    if !a.currentVersion then Some(VersionOutdated)
    else if a.user == [] then Some(HashRequired)
    else if |a.user| != HASH_SIZE then Some(InvalidHash)
    else if a.user !in db.users then Some(UserNotFound)
    else if !a.wantsChallenge && a.proof == None then Some(NothingAsked)
    else None
  }

  /** A new challenge replaces whatever challenge the user had, even if storing it fails. */
  function Challenging(db: Db, user: Hash, random: Random, now: Instant): (Db, Outcome) {
    var cleared := ChallengesDeleted(db, user);
    if random.challengeId in cleared.challenges then (cleared, Refused(ChallengeNotStored))
    else
      var challenge := Challenge(user, random.nonce, now + Seconds(CHALLENGE_EXPIRY_SECONDS));
      (cleared.(challenges := cleared.challenges[random.challengeId := challenge]),
       Challenged(random.challengeId, random.nonce))
  }

  /** The insert into `sessions`, whose token is a primary key. */
  function Granting(db: Db, user: Hash, token: Bytes, expiresAt: Instant): (Db, Outcome) {
    if token in db.sessions then (db, Refused(SessionNotStored))
    else (db.(sessions := db.sessions[token := Session(user, expiresAt)]), SessionGranted(token, expiresAt))
  }

  function ChallengeConsumed(db: Db, challengeId: Bytes): Db {
    db.(challenges := db.challenges - {challengeId})
  }

  function Proving(db: Db, user: Hash, proof: Proof, token: Bytes, now: Instant): (Db, Outcome) {
    if proof.challengeId !in db.challenges || db.challenges[proof.challengeId].user != user then
      (db, Refused(InvalidChallenge))
    else if now > db.challenges[proof.challengeId].expiresAt then
      (ChallengeConsumed(db, proof.challengeId), Refused(ChallengeExpired))
    else if !proof.verified then
      (db, Refused(InvalidProof))
    else
      Granting(ChallengeConsumed(db, proof.challengeId), user, token, now + Seconds(LOGIN_SESSION_SECONDS))
  }

  function LoggingIn(db: Db, a: Attempt, random: Random, now: Instant): (Db, Outcome) {
    var refusal := AttemptRefusal(db, a);
    if refusal.Some? then (db, Refused(refusal.value))
    else if a.wantsChallenge then Challenging(db, a.user, random, now)
    else Proving(db, a.user, a.proof.value, random.token, now)
  }

  // ---------------------------------------------------------------------------
  // recovery
  // ---------------------------------------------------------------------------

  datatype KeyRequest = KeyRequest(user: Hash, key: Bytes, signature: Bytes, timely: bool, verified: bool)

  datatype Claim = Claim(user: Hash, identity: Identity, signature: Bytes, timely: bool, verified: bool)

  function KeyRefusal(db: Db, user: Hash, key: Bytes, signature: Bytes, timely: bool): Option<Refusal> {
    if |user| != HASH_SIZE then Some(InvalidHash)
    else if key == [] then Some(KeyRequired)
    else if signature == [] then Some(SignatureRequired)
    else if !timely then Some(StaleTimestamp)
    else if user !in db.users then Some(UserNotFound)
    else None
  }

  function Publishing(db: Db, k: KeyRequest): (Db, Outcome) {
    var refusal := KeyRefusal(db, k.user, k.key, k.signature, k.timely);
    if refusal.Some? then (db, Refused(refusal.value))
    else if !k.verified then (db, Refused(InvalidSignature))
    else (db.(users := db.users[k.user := db.users[k.user].(recoveryKey := Some(k.key))]), KeyPublished)
  }

  /** The new identity stays even if no session can be stored. */
  function Claiming(db: Db, c: Claim, token: Bytes, now: Instant): (Db, Outcome) {
    var refusal := KeyRefusal(db, c.user, c.identity.key, c.signature, c.timely);
    if refusal.Some? then (db, Refused(refusal.value))
    else
      var user := db.users[c.user];
      if user.recoveryKey == None || user.recoveryKey.value == [] then (db, Refused(NoRecoveryKey))
      else if !c.verified then (db, Refused(InvalidSignature))
      else
        var rekeyed := db.(users := db.users[c.user := user.(identity := c.identity)]);
        Granting(rekeyed, c.user, token, now + Seconds(RECOVERY_SESSION_SECONDS))
  }

  /** Logging in touches challenges and sessions only, and keeps their references. */
  ghost predicate LoginOnly(db: Db, db': Db) {
    && db' == db.(challenges := db'.challenges, sessions := db'.sessions)
    && LoginKeys(db.users, db'.challenges, db'.sessions)
  }

  lemma {:induction false} ChallengingOnly(db: Db, user: Hash, random: Random, now: Instant)
    requires LoginKeys(db.users, db.challenges, db.sessions) && user in db.users
    ensures LoginOnly(db, Challenging(db, user, random, now).0)
  {
  }

  lemma {:induction false} GrantingOnly(db: Db, user: Hash, token: Bytes, expiresAt: Instant)
    requires LoginKeys(db.users, db.challenges, db.sessions) && user in db.users
    ensures LoginOnly(db, Granting(db, user, token, expiresAt).0)
  {
  }

  lemma {:induction false} ProvingOnly(db: Db, user: Hash, proof: Proof, token: Bytes, now: Instant)
    requires LoginKeys(db.users, db.challenges, db.sessions) && user in db.users
    ensures LoginOnly(db, Proving(db, user, proof, token, now).0)
  {
    GrantingOnly(ChallengeConsumed(db, proof.challengeId), user, token, now + Seconds(LOGIN_SESSION_SECONDS));
  }

  lemma {:induction false} LoggingInOnly(db: Db, a: Attempt, random: Random, now: Instant)
    requires LoginKeys(db.users, db.challenges, db.sessions)
    ensures LoginOnly(db, LoggingIn(db, a, random, now).0)
  {
    if AttemptRefusal(db, a) == None {
      if a.wantsChallenge {
        ChallengingOnly(db, a.user, random, now);
      } else {
        ProvingOnly(db, a.user, a.proof.value, random.token, now);
      }
    }
  }

  /** `verify_session_token`. */
  predicate Accepts(db: Db, user: Hash, token: Bytes, now: Instant) {
    token in db.sessions && db.sessions[token].user == user && db.sessions[token].expiresAt > now
  }
}
