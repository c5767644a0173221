/** Sessions and challenges, told from the history of a run alone. */
module SessionRuns {
  import opened Prelude
  import opened Schema
  import opened AccountRuns
  import opened AccountAnswers
  import opened Latches
  import Login
  import Erasure

  // ---------------------------------------------------------------------------
  // Sessions
  // ---------------------------------------------------------------------------

  ghost predicate HasSession(sessions: Sessions, user: Hash, token: Bytes, expiresAt: Instant) {
    token in sessions && sessions[token] == Session(user, expiresAt)
  }

  /** The step grants a new `token` to `user`: for 24 hours by a login that proves a challenge,
      for 30 days by a recovery claim. */
  predicate Grants(db: Db, step: Step, user: Hash, token: Bytes, expiresAt: Instant) {
    match step.op
    case LogIn(attempt, random) =>
      && attempt.user == user && Proves(db, attempt, step.at) && expiresAt == step.at + Seconds(86_400)
      && token == random.token && token !in db.sessions
    case ClaimRecovery(claim, t) =>
      && claim.user == user && Claims(db, claim) && expiresAt == step.at + Seconds(2_592_000)
      && token == t && token !in db.sessions
    case _ => false
  }

  /** The handlers that leave sessions and challenges alone. */
  ghost predicate LeavesLogin(db: Db, db': Db) {
    db'.sessions == db.sessions && db'.challenges == db.challenges
  }

  lemma {:induction false} PublishingStep(db: Db, op: Operation, now: Instant)
    requires op.PublishRecoveryKey?
    ensures LeavesLogin(db, Execute(db, op, now))
  {
  }

  lemma {:induction false} ContactStep(db: Db, op: Operation, now: Instant)
    requires op.Contact?
    ensures LeavesLogin(db, Execute(db, op, now))
  {
  }

  lemma {:induction false} RespondStep(db: Db, op: Operation, now: Instant)
    requires op.Respond?
    ensures LeavesLogin(db, Execute(db, op, now))
  {
  }

  lemma {:induction false} ContentStep(db: Db, op: Operation, now: Instant)
    requires op.Register? || op.SendMessage? || op.RemoveMessages? || op.UploadPrekeys? || op.MarkPrekey?
    ensures LeavesLogin(db, Execute(db, op, now))
  {
  }

  predicate TouchesLogin(op: Operation) {
    op.LogIn? || op.ClaimRecovery? || op.DeleteAccount?
  }

  lemma {:induction false} OtherStep(db: Db, op: Operation, now: Instant)
    requires !TouchesLogin(op)
    ensures LeavesLogin(db, Execute(db, op, now))
  {
    if op.PublishRecoveryKey? {
      PublishingStep(db, op, now);
    } else if op.Contact? {
      ContactStep(db, op, now);
    } else if op.Respond? {
      RespondStep(db, op, now);
    } else {
      ContentStep(db, op, now);
    }
  }

  lemma {:induction false} LoginStep(db: Db, op: Operation, now: Instant)
    requires op.LogIn?
    ensures Execute(db, op, now) == Login.LoggingIn(db, op.attempt, op.random, now).0
  {
  }

  lemma {:induction false} ClaimStep(db: Db, op: Operation, now: Instant)
    requires op.ClaimRecovery?
    ensures Execute(db, op, now) == Login.Claiming(db, op.claim, op.token, now).0
  {
  }

  lemma {:induction false} DeletionStep(db: Db, op: Operation, now: Instant)
    requires op.DeleteAccount?
    ensures Execute(db, op, now) == Deleting(db, op)
  {
  }

  lemma {:induction false} GrantingSessions(db: Db, u: Hash, t: Bytes, e: Instant, user: Hash, token: Bytes,
                                            expiresAt: Instant)
    ensures var (db', outcome) := Login.Granting(db, u, t, e);
            && (HasSession(db'.sessions, user, token, expiresAt)
                <==> HasSession(db.sessions, user, token, expiresAt)
                     || (u == user && outcome == Login.SessionGranted(token, expiresAt)))
            && (outcome.SessionGranted? ==> outcome.expiresAt == e)
  {
  }

  lemma {:induction false} LoginSessions(db: Db, a: Login.Attempt, random: Login.Random, now: Instant, user: Hash,
                                         token: Bytes, expiresAt: Instant)
    ensures var (db', outcome) := Login.LoggingIn(db, a, random, now);
            && (HasSession(db'.sessions, user, token, expiresAt)
                <==> HasSession(db.sessions, user, token, expiresAt)
                     || (a.user == user && outcome == Login.SessionGranted(token, expiresAt)))
            && (outcome.SessionGranted? ==> outcome.expiresAt == now + Seconds(86_400))
  {
    if a.proof.Some? {
      var consumed := Login.ChallengeConsumed(db, a.proof.value.challengeId);
      GrantingSessions(consumed, a.user, random.token, now + Seconds(86_400),
                       user, token, expiresAt);
    }
  }

  lemma {:induction false} ClaimSessions(db: Db, claim: Login.Claim, t: Bytes, now: Instant, user: Hash, token: Bytes,
                                         expiresAt: Instant)
    ensures var (db', outcome) := Login.Claiming(db, claim, t, now);
            && (HasSession(db'.sessions, user, token, expiresAt)
                <==> HasSession(db.sessions, user, token, expiresAt)
                     || (claim.user == user && outcome == Login.SessionGranted(token, expiresAt)))
            && (outcome.SessionGranted? ==> outcome.expiresAt == now + Seconds(2_592_000))
  {
    if claim.user in db.users {
      var rekeyed := db.(users := db.users[claim.user := db.users[claim.user].(identity := claim.identity)]);
      GrantingSessions(rekeyed, claim.user, t, now + Seconds(2_592_000), user, token, expiresAt);
    }
  }

  lemma {:induction false} DeletionSessions(db: Db, step: Step, user: Hash, token: Bytes, expiresAt: Instant)
    requires step.op.DeleteAccount?
    ensures HasSession(Deleting(db, step.op).sessions, user, token, expiresAt)
       <==> HasSession(db.sessions, user, token, expiresAt) && !Deletes(db, step.op, user)
  {
    Erasure.ErasedAlmostScrubbed(db, step.op.user);
  }

  /** A session is there after a step if the step granted it, or if it was there and
      the step did not delete the account. */
  ghost predicate SessionsFollow(db: Db, step: Step, db': Db, user: Hash, token: Bytes, expiresAt: Instant) {
    HasSession(db'.sessions, user, token, expiresAt)
    <==> Grants(db, step, user, token, expiresAt)
         || (HasSession(db.sessions, user, token, expiresAt) && !Deletes(db, step.op, user))
  }

  lemma {:induction false} GrantingStep(db: Db, step: Step, user: Hash, token: Bytes, expiresAt: Instant)
    requires step.op.LogIn? || step.op.ClaimRecovery?
    ensures SessionsFollow(db, step, Execute(db, step.op, step.at), user, token, expiresAt)
  {
    if step.op.LogIn? {
      LoginStep(db, step.op, step.at);
      LoginSessions(db, step.op.attempt, step.op.random, step.at, user, token, expiresAt);
      LoginAnsweredExactly(db, step.op.attempt, step.op.random, step.at, token, [], expiresAt);
    } else {
      ClaimStep(db, step.op, step.at);
      ClaimSessions(db, step.op.claim, step.op.token, step.at, user, token, expiresAt);
      ClaimAnsweredExactly(db, step.op.claim, step.op.token, step.at, token, expiresAt);
    }
  }

  lemma {:induction false} SessionStep(db: Db, step: Step, user: Hash, token: Bytes, expiresAt: Instant)
    ensures SessionsFollow(db, step, Execute(db, step.op, step.at), user, token, expiresAt)
  {
    if !TouchesLogin(step.op) {
      OtherStep(db, step.op, step.at);
    } else if step.op.DeleteAccount? {
      DeletionStep(db, step.op, step.at);
      DeletionSessions(db, step, user, token, expiresAt);
    } else {
      GrantingStep(db, step, user, token, expiresAt);
    }
  }

  /** Step `k` granted the session, and the account was not deleted since. */
  ghost predicate GrantStands(states: seq<Db>, steps: seq<Step>, i: nat, k: nat,
                              user: Hash, token: Bytes, expiresAt: Instant)
    requires |states| == |steps| + 1 && i < |states|
  {
    && k < i && Grants(states[k], steps[k], user, token, expiresAt)
    && forall j | k < j < i :: !Deletes(states[j], steps[j].op, user)
  }

  lemma {:induction false} SessionExactly(states: seq<Db>, steps: seq<Step>, i: nat, user: Hash, token: Bytes,
                                          expiresAt: Instant)
    requires Behaviour(states, steps) && i < |states|
    ensures HasSession(states[i].sessions, user, token, expiresAt)
       <==> exists k: nat :: GrantStands(states, steps, i, k, user, token, expiresAt)
  {
    ghost var has := (j: nat) => j < |states| && HasSession(states[j].sessions, user, token, expiresAt);
    ghost var gained := (j: nat) => j < |steps| && Grants(states[j], steps[j], user, token, expiresAt);
    ghost var lost := (j: nat) => j < |steps| && Deletes(states[j], steps[j].op, user);
    forall j: nat | j < i ensures has(j + 1) <==> gained(j) || (has(j) && !lost(j)) {
      assert Leads(states[j], steps[j], states[j + 1]);
      SessionStep(states[j], steps[j], user, token, expiresAt);
    }
    LatchHolds(has, gained, lost, i);
    forall k: nat ensures Stands(gained, lost, i, k) <==> GrantStands(states, steps, i, k, user, token, expiresAt) {
      assert forall j: nat | j < i :: lost(j) <==> Deletes(states[j], steps[j].op, user);
    }
  }

  /** A token is accepted for a user at an instant exactly when the history grants it:
      by a login less than 24 hours or a recovery claim less than 30 days before, with
      no deletion of the account in between. */
  lemma {:induction false} AcceptedExactly(states: seq<Db>, steps: seq<Step>, i: nat, user: Hash, token: Bytes,
                                           now: Instant)
    requires Behaviour(states, steps) && i < |states|
    ensures Login.Accepts(states[i], user, token, now)
       <==> exists k: nat, expiresAt: Instant ::
              GrantStands(states, steps, i, k, user, token, expiresAt) && now < expiresAt
  {
    if Login.Accepts(states[i], user, token, now) {
      var expiresAt := states[i].sessions[token].expiresAt;
      SessionExactly(states, steps, i, user, token, expiresAt);
      var k: nat :| GrantStands(states, steps, i, k, user, token, expiresAt);
    }
    if k: nat, expiresAt: Instant :| GrantStands(states, steps, i, k, user, token, expiresAt) && now < expiresAt {
      SessionExactly(states, steps, i, user, token, expiresAt);
    }
  }

  // ---------------------------------------------------------------------------
  // Challenges
  // ---------------------------------------------------------------------------

  ghost predicate HasChallenge(challenges: Challenges, user: Hash, id: Bytes, nonce: Bytes, expiresAt: Instant) {
    id in challenges && challenges[id] == Challenge(user, nonce, expiresAt)
  }

  /** The step issues a challenge to `user`, for five minutes. */
  predicate Issues(db: Db, step: Step, user: Hash, id: Bytes, nonce: Bytes, expiresAt: Instant) {
    && IssuesTo(db, step, user) && id == step.op.random.challengeId && nonce == step.op.random.nonce
    && expiresAt == step.at + Seconds(300)
  }

  predicate IssuesTo(db: Db, step: Step, user: Hash) {
    && step.op.LogIn? && step.op.attempt.user == user && AsksChallenge(db, step.op.attempt)
    && !HeldByOther(db, user, step.op.random.challengeId)
  }

  /** The step spends or voids the challenge `id` of `user`: by asking for another one, by
      proving it, by a proof that comes too late, or with the account. */
  ghost predicate Withdraws(db: Db, step: Step, user: Hash, id: Bytes, expiresAt: Instant) {
    || Deletes(db, step.op, user)
    || (step.op.LogIn? && step.op.attempt.user == user && AttemptWithdraws(db, step.op.attempt, step.at, id, expiresAt))
  }

  ghost predicate AttemptWithdraws(db: Db, a: Login.Attempt, now: Instant, id: Bytes, expiresAt: Instant) {
    || AsksChallenge(db, a)
    || (OffersProof(db, a) && a.proof.value.challengeId == id && (now > expiresAt || a.proof.value.verified))
  }

  lemma {:induction false} ChallengingChallenges(db: Db, u: Hash, random: Login.Random, now: Instant, user: Hash,
                                                 id: Bytes, nonce: Bytes, expiresAt: Instant)
    ensures var (db', outcome) := Login.Challenging(db, u, random, now);
            HasChallenge(db'.challenges, user, id, nonce, expiresAt)
            <==> || (u != user && HasChallenge(db.challenges, user, id, nonce, expiresAt))
                 || (u == user && outcome == Login.Challenged(id, nonce)
                     && expiresAt == now + Seconds(300))
  {
  }

  lemma {:induction false} ProvingChallenges(db: Db, u: Hash, proof: Login.Proof, token: Bytes, now: Instant,
                                             user: Hash, id: Bytes, nonce: Bytes, expiresAt: Instant)
    ensures var (db', outcome) := Login.Proving(db, u, proof, token, now);
            && !outcome.Challenged?
            && (HasChallenge(db'.challenges, user, id, nonce, expiresAt)
                <==> && HasChallenge(db.challenges, user, id, nonce, expiresAt)
                     && !(u == user && proof.challengeId == id && (now > expiresAt || proof.verified)))
  {
  }

  lemma {:induction false} LoginChallenges(db: Db, a: Login.Attempt, random: Login.Random, now: Instant, user: Hash,
                                           id: Bytes, nonce: Bytes, expiresAt: Instant)
    ensures var (db', outcome) := Login.LoggingIn(db, a, random, now);
            HasChallenge(db'.challenges, user, id, nonce, expiresAt)
            <==> || (a.user == user && outcome == Login.Challenged(id, nonce)
                     && expiresAt == now + Seconds(300))
                 || (HasChallenge(db.challenges, user, id, nonce, expiresAt)
                     && !(a.user == user && AttemptWithdraws(db, a, now, id, expiresAt)))
  {
    if AsksChallenge(db, a) {
      assert Login.LoggingIn(db, a, random, now) == Login.Challenging(db, a.user, random, now);
      ChallengingChallenges(db, a.user, random, now, user, id, nonce, expiresAt);
    } else if OffersProof(db, a) {
      assert Login.LoggingIn(db, a, random, now) == Login.Proving(db, a.user, a.proof.value, random.token, now);
      ProvingChallenges(db, a.user, a.proof.value, random.token, now, user, id, nonce, expiresAt);
    }
  }

  lemma {:induction false} DeletionChallenges(db: Db, step: Step, user: Hash, id: Bytes, nonce: Bytes,
                                              expiresAt: Instant)
    requires step.op.DeleteAccount?
    ensures HasChallenge(Deleting(db, step.op).challenges, user, id, nonce, expiresAt)
       <==> HasChallenge(db.challenges, user, id, nonce, expiresAt) && !Deletes(db, step.op, user)
  {
    Erasure.ErasedAlmostScrubbed(db, step.op.user);
  }

  lemma {:induction false} ClaimChallenges(db: Db, claim: Login.Claim, t: Bytes, now: Instant)
    ensures Login.Claiming(db, claim, t, now).0.challenges == db.challenges
  {
  }

  ghost predicate ChallengesFollow(db: Db, step: Step, db': Db, user: Hash, id: Bytes, nonce: Bytes,
                                   expiresAt: Instant)
  {
    HasChallenge(db'.challenges, user, id, nonce, expiresAt)
    <==> Issues(db, step, user, id, nonce, expiresAt)
         || (HasChallenge(db.challenges, user, id, nonce, expiresAt) && !Withdraws(db, step, user, id, expiresAt))
  }

  lemma {:induction false} ChallengeStep(db: Db, step: Step, user: Hash, id: Bytes, nonce: Bytes, expiresAt: Instant)
    ensures ChallengesFollow(db, step, Execute(db, step.op, step.at), user, id, nonce, expiresAt)
  {
    if !TouchesLogin(step.op) {
      OtherStep(db, step.op, step.at);
    } else if step.op.DeleteAccount? {
      DeletionStep(db, step.op, step.at);
      DeletionChallenges(db, step, user, id, nonce, expiresAt);
    } else if step.op.ClaimRecovery? {
      ClaimStep(db, step.op, step.at);
      ClaimChallenges(db, step.op.claim, step.op.token, step.at);
    } else {
      LoginStep(db, step.op, step.at);
      LoginChallenges(db, step.op.attempt, step.op.random, step.at, user, id, nonce, expiresAt);
      LoginAnsweredExactly(db, step.op.attempt, step.op.random, step.at, id, nonce, expiresAt);
    }
  }

  /** Step `k` issued the challenge, and no later step withdrew it. */
  ghost predicate ChallengeStands(states: seq<Db>, steps: seq<Step>, i: nat, k: nat,
                                  user: Hash, id: Bytes, nonce: Bytes, expiresAt: Instant)
    requires |states| == |steps| + 1 && i < |states|
  {
    && k < i && Issues(states[k], steps[k], user, id, nonce, expiresAt)
    && forall j | k < j < i :: !Withdraws(states[j], steps[j], user, id, expiresAt)
  }

  /** The challenge table is exactly the challenges that stand. */
  lemma {:induction false} StoredExactly(states: seq<Db>, steps: seq<Step>, i: nat, user: Hash, id: Bytes, nonce: Bytes,
                                         expiresAt: Instant)
    requires Behaviour(states, steps) && i < |states|
    ensures HasChallenge(states[i].challenges, user, id, nonce, expiresAt)
       <==> exists k: nat :: ChallengeStands(states, steps, i, k, user, id, nonce, expiresAt)
  {
    ghost var has := (j: nat) => j < |states| && HasChallenge(states[j].challenges, user, id, nonce, expiresAt);
    ghost var gained := (j: nat) => j < |steps| && Issues(states[j], steps[j], user, id, nonce, expiresAt);
    ghost var lost := (j: nat) => j < |steps| && Withdraws(states[j], steps[j], user, id, expiresAt);
    forall j: nat | j < i ensures has(j + 1) <==> gained(j) || (has(j) && !lost(j)) {
      assert Leads(states[j], steps[j], states[j + 1]);
      ChallengeStep(states[j], steps[j], user, id, nonce, expiresAt);
    }
    LatchHolds(has, gained, lost, i);
    forall k: nat
      ensures Stands(gained, lost, i, k) <==> ChallengeStands(states, steps, i, k, user, id, nonce, expiresAt)
    {
      assert forall j: nat | j < i :: lost(j) <==> Withdraws(states[j], steps[j], user, id, expiresAt);
    }
  }

  /** At most one challenge is stored per user. */
  lemma {:induction false} OneChallengePerUser(states: seq<Db>, steps: seq<Step>, i: nat, id: Bytes, id': Bytes)
    requires Behaviour(states, steps) && i < |states|
    requires id in states[i].challenges && id' in states[i].challenges
    requires states[i].challenges[id].user == states[i].challenges[id'].user
    ensures id == id'
  {
    var c, c' := states[i].challenges[id], states[i].challenges[id'];
    StoredExactly(states, steps, i, c.user, id, c.nonce, c.expiresAt);
    StoredExactly(states, steps, i, c'.user, id', c'.nonce, c'.expiresAt);
    var k: nat :| ChallengeStands(states, steps, i, k, c.user, id, c.nonce, c.expiresAt);
    var k': nat :| ChallengeStands(states, steps, i, k', c'.user, id', c'.nonce, c'.expiresAt);
    IssueWithdraws(states[k], steps[k], c.user, id, c.nonce, c.expiresAt, id', c'.expiresAt);
    IssueWithdraws(states[k'], steps[k'], c'.user, id', c'.nonce, c'.expiresAt, id, c.expiresAt);
  }

  /** Issuing a challenge voids every other one of the user. */
  lemma {:induction false} IssueWithdraws(db: Db, step: Step, user: Hash, id: Bytes, nonce: Bytes, expiresAt: Instant,
                                          other: Bytes, otherExpiresAt: Instant)
    requires Issues(db, step, user, id, nonce, expiresAt)
    ensures Withdraws(db, step, user, other, otherExpiresAt)
  {
  }

  /** The step is a login of `user` that gets a session. */
  predicate LogsIn(db: Db, step: Step, user: Hash) {
    && step.op.LogIn? && step.op.attempt.user == user && Proves(db, step.op.attempt, step.at)
    && step.op.random.token !in db.sessions
  }

  /** Every login consumed the latest challenge issued to the user, no more than five minutes old:
      since its issue nothing withdrew it, and the login itself does. */
  lemma {:induction false} LoginConsumesLatest(states: seq<Db>, steps: seq<Step>, j: nat, user: Hash)
    returns (k: nat, id: Bytes, nonce: Bytes)
    requires Behaviour(states, steps) && j < |steps| && LogsIn(states[j], steps[j], user)
    ensures k < j && steps[k].at <= steps[j].at <= steps[k].at + Seconds(300)
    ensures var expiresAt := steps[k].at + Seconds(300);
            && ChallengeStands(states, steps, j, k, user, id, nonce, expiresAt)
            && Withdraws(states[j], steps[j], user, id, expiresAt)
            && id !in states[j + 1].challenges
  {
    id := steps[j].op.attempt.proof.value.challengeId;
    LoginProves(states[j], steps[j].op.attempt, steps[j].op.random, steps[j].at);
    nonce := states[j].challenges[id].nonce;
    StoredExactly(states, steps, j, user, id, nonce, states[j].challenges[id].expiresAt);
    k :| ChallengeStands(states, steps, j, k, user, id, nonce, states[j].challenges[id].expiresAt);
    assert Leads(states[j], steps[j], states[j + 1]);
  }

  /** A login that succeeds removes the challenge it proves, and no other. */
  lemma {:induction false} LoginProves(db: Db, a: Login.Attempt, random: Login.Random, now: Instant)
    requires Proves(db, a, now)
    ensures Login.LoggingIn(db, a, random, now).0.challenges == db.challenges - {a.proof.value.challengeId}
  {
    assert Login.LoggingIn(db, a, random, now) == Login.Proving(db, a.user, a.proof.value, random.token, now);
  }

  // ---------------------------------------------------------------------------
  // Counting
  // ---------------------------------------------------------------------------

  function CountIssued(states: seq<Db>, steps: seq<Step>, n: nat, user: Hash): nat
    requires n <= |steps| < |states|
  {
    if n == 0 then 0
    else CountIssued(states, steps, n - 1, user) + if IssuesTo(states[n - 1], steps[n - 1], user) then 1 else 0
  }

  function CountLogins(states: seq<Db>, steps: seq<Step>, n: nat, user: Hash): nat
    requires n <= |steps| < |states|
  {
    if n == 0 then 0
    else CountLogins(states, steps, n - 1, user) + if LogsIn(states[n - 1], steps[n - 1], user) then 1 else 0
  }

  predicate Pending(db: Db, user: Hash) {
    exists id | id in db.challenges :: db.challenges[id].user == user
  }

  /** A login uses up the pending challenge; only an issue makes one pending. */
  lemma {:induction false} PendingStep(states: seq<Db>, steps: seq<Step>, n: nat, user: Hash)
    requires Behaviour(states, steps) && n < |steps|
    ensures LogsIn(states[n], steps[n], user) ==> Pending(states[n], user) && !Pending(states[n + 1], user)
    ensures Pending(states[n + 1], user) ==> Pending(states[n], user) || IssuesTo(states[n], steps[n], user)
  {
    assert Leads(states[n], steps[n], states[n + 1]);
    var db, db' := states[n], states[n + 1];
    if LogsIn(db, steps[n], user) {
      var id := steps[n].op.attempt.proof.value.challengeId;
      LoginProves(db, steps[n].op.attempt, steps[n].op.random, steps[n].at);
      assert id in db.challenges && db.challenges[id].user == user;
      forall id' | id' in db'.challenges ensures db'.challenges[id'].user != user {
        if db'.challenges[id'].user == user {
          assert id' in db.challenges && db.challenges[id'].user == user && id' != id;
          OneChallengePerUser(states, steps, n, id, id');
          assert false;
        }
      }
    }
    if Pending(db', user) {
      var id :| id in db'.challenges && db'.challenges[id].user == user;
      var c := db'.challenges[id];
      ChallengeStep(db, steps[n], user, id, c.nonce, c.expiresAt);
    }
  }

  lemma {:induction false} CountsNext(states: seq<Db>, steps: seq<Step>, n: nat, user: Hash)
    requires n < |steps| < |states|
    ensures CountIssued(states, steps, n + 1, user)
         == CountIssued(states, steps, n, user) + if IssuesTo(states[n], steps[n], user) then 1 else 0
    ensures CountLogins(states, steps, n + 1, user)
         == CountLogins(states, steps, n, user) + if LogsIn(states[n], steps[n], user) then 1 else 0
  {
  }

  /** One step keeps the balance of challenges issued, logins, and a pending challenge. */
  lemma {:induction false} BalanceKept(issued: nat, logins: nat, pending: bool, issues: bool, logsIn: bool,
                                       pending': bool)
    requires logins + (if pending then 1 else 0) <= issued
    requires (logsIn ==> pending && !pending') && (pending' ==> pending || issues)
    ensures logins + (if logsIn then 1 else 0) + (if pending' then 1 else 0) <= issued + if issues then 1 else 0
  {
  }

  /** No challenge yields two sessions: logins never outnumber the challenges issued,
      even counting the pending challenge as one to come. */
  lemma {:induction false} LoginsWithinIssued(states: seq<Db>, steps: seq<Step>, n: nat, user: Hash)
    requires Behaviour(states, steps) && n <= |steps|
    ensures CountLogins(states, steps, n, user) + (if Pending(states[n], user) then 1 else 0)
         <= CountIssued(states, steps, n, user)
  {
    if n > 0 {
      LoginsWithinIssued(states, steps, n - 1, user);
      PendingStep(states, steps, n - 1, user);
      CountsNext(states, steps, n - 1, user);
      BalanceKept(CountIssued(states, steps, n - 1, user), CountLogins(states, steps, n - 1, user),
                  Pending(states[n - 1], user), IssuesTo(states[n - 1], steps[n - 1], user),
                  LogsIn(states[n - 1], steps[n - 1], user), Pending(states[n], user));
    }
  }
}
