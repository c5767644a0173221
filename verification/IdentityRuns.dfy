/** Identities and recovery keys, told from the history of a run alone. */
module IdentityRuns {
  import opened Prelude
  import opened Schema
  import opened AccountRuns
  import AccountAnswers
  import opened Latches
  import Login
  import Erasure

  // ---------------------------------------------------------------------------
  // What sets them
  // ---------------------------------------------------------------------------

  ghost predicate Registers(db: Db, op: Operation, user: Hash, identity: Identity) {
    && op.Register? && op.user == user && op.identity == identity
    && |user| == 32 && identity.bundle != [] && op.commitment != [] && identity.key != [] && identity.signature != []
    && user !in db.users
  }

  predicate Claims(db: Db, op: Operation, user: Hash) {
    op.ClaimRecovery? && op.claim.user == user && AccountAnswers.Claims(db, op.claim)
  }

  predicate Publishes(db: Db, op: Operation, user: Hash) {
    op.PublishRecoveryKey? && op.request.user == user && AccountAnswers.Publishes(db, op.request)
  }

  ghost predicate HasIdentity(users: Users, user: Hash, identity: Identity) {
    user in users && users[user].identity == identity
  }

  ghost predicate HasRecoveryKey(users: Users, user: Hash, key: Bytes) {
    user in users && users[user].recoveryKey == Some(key)
  }

  ghost predicate SetsIdentity(db: Db, op: Operation, user: Hash, identity: Identity) {
    Registers(db, op, user, identity) || (Claims(db, op, user) && op.claim.identity == identity)
  }

  ghost predicate ResetsIdentity(db: Db, op: Operation, user: Hash) {
    Claims(db, op, user) || Deletes(db, op, user)
  }

  ghost predicate SetsKey(db: Db, op: Operation, user: Hash, key: Bytes) {
    Publishes(db, op, user) && op.request.key == key
  }

  ghost predicate ResetsKey(db: Db, op: Operation, user: Hash) {
    Publishes(db, op, user) || Deletes(db, op, user)
  }

  // ---------------------------------------------------------------------------
  // One step
  // ---------------------------------------------------------------------------

  ghost predicate UsersFollow(db: Db, op: Operation, users: Users, user: Hash, identity: Identity, key: Bytes) {
    && (HasIdentity(users, user, identity)
        <==> SetsIdentity(db, op, user, identity)
             || (HasIdentity(db.users, user, identity) && !ResetsIdentity(db, op, user)))
    && (HasRecoveryKey(users, user, key)
        <==> SetsKey(db, op, user, key) || (HasRecoveryKey(db.users, user, key) && !ResetsKey(db, op, user)))
  }

  predicate TouchesUsers(op: Operation) {
    op.Register? || op.PublishRecoveryKey? || op.ClaimRecovery? || op.DeleteAccount?
  }

  // What each handler does to the table of users.

  lemma {:induction false} RegisteringEffect(db: Db, op: Operation)
    requires op.Register?
    ensures Registering(db, op.user, op.identity, op.commitment).users
         == if Registers(db, op, op.user, op.identity) then db.users[op.user := User(op.identity, None)] else db.users
  {
  }

  lemma {:induction false} PublishingEffect(db: Db, op: Operation)
    requires op.PublishRecoveryKey?
    ensures Login.Publishing(db, op.request).0.users
         == if Publishes(db, op, op.request.user)
            then db.users[op.request.user := User(db.users[op.request.user].identity, Some(op.request.key))]
            else db.users
  {
  }

  lemma {:induction false} ClaimingEffect(db: Db, op: Operation, now: Instant)
    requires op.ClaimRecovery?
    ensures Login.Claiming(db, op.claim, op.token, now).0.users
         == if Claims(db, op, op.claim.user)
            then db.users[op.claim.user := User(op.claim.identity, db.users[op.claim.user].recoveryKey)]
            else db.users
  {
  }

  lemma {:induction false} RegisteringUsers(db: Db, op: Operation, users: Users, user: Hash, identity: Identity,
                                            key: Bytes)
    requires op.Register?
    requires users == if Registers(db, op, op.user, op.identity) then db.users[op.user := User(op.identity, None)]
                      else db.users
    ensures UsersFollow(db, op, users, user, identity, key)
  {
  }

  lemma {:induction false} PublishingUsers(db: Db, op: Operation, users: Users, user: Hash, identity: Identity,
                                           key: Bytes)
    requires op.PublishRecoveryKey?
    requires users == if Publishes(db, op, op.request.user)
                      then db.users[op.request.user := User(db.users[op.request.user].identity, Some(op.request.key))]
                      else db.users
    ensures UsersFollow(db, op, users, user, identity, key)
  {
  }

  lemma {:induction false} ClaimingUsers(db: Db, op: Operation, users: Users, user: Hash, identity: Identity,
                                         key: Bytes)
    requires op.ClaimRecovery?
    requires users == if Claims(db, op, op.claim.user)
                      then db.users[op.claim.user := User(op.claim.identity, db.users[op.claim.user].recoveryKey)]
                      else db.users
    ensures UsersFollow(db, op, users, user, identity, key)
  {
  }

  lemma {:induction false} DeletingUsers(db: Db, op: Operation, user: Hash, identity: Identity, key: Bytes)
    requires op.DeleteAccount?
    ensures UsersFollow(db, op, Deleting(db, op).users, user, identity, key)
  {
    Erasure.ErasedAlmostScrubbed(db, op.user);
  }

  lemma {:induction false} SameUsers(db: Db, op: Operation, now: Instant)
    requires !TouchesUsers(op) && !op.LogIn? && !op.Contact? && !op.Respond?
    ensures Execute(db, op, now).users == db.users
  {
  }

  lemma {:induction false} LoginUsers(db: Db, a: Login.Attempt, random: Login.Random, now: Instant)
    ensures Login.LoggingIn(db, a, random, now).0.users == db.users
  {
  }

  lemma {:induction false} UsersStep(db: Db, op: Operation, now: Instant, user: Hash, identity: Identity, key: Bytes)
    ensures UsersFollow(db, op, Execute(db, op, now).users, user, identity, key)
  {
    if op.Register? {
      RegisteringEffect(db, op);
      RegisteringUsers(db, op, Execute(db, op, now).users, user, identity, key);
    } else if op.PublishRecoveryKey? {
      PublishingEffect(db, op);
      PublishingUsers(db, op, Execute(db, op, now).users, user, identity, key);
    } else if op.ClaimRecovery? {
      ClaimingEffect(db, op, now);
      ClaimingUsers(db, op, Execute(db, op, now).users, user, identity, key);
    } else if op.DeleteAccount? {
      DeletingUsers(db, op, user, identity, key);
    } else if op.LogIn? {
      LoginUsers(db, op.attempt, op.random, now);
    } else if op.Contact? {
      ContactFrame(db, op.contact);
    } else if op.Respond? {
      ReplyFrame(db, op.reply, now);
    } else {
      SameUsers(db, op, now);
    }
  }

  // ---------------------------------------------------------------------------
  // Runs
  // ---------------------------------------------------------------------------

  ghost predicate IdentityStands(states: seq<Db>, steps: seq<Step>, i: nat, k: nat, user: Hash, identity: Identity)
    requires |states| == |steps| + 1 && i < |states|
  {
    && k < i && SetsIdentity(states[k], steps[k].op, user, identity)
    && forall j | k < j < i :: !ResetsIdentity(states[j], steps[j].op, user)
  }

  ghost predicate KeyStands(states: seq<Db>, steps: seq<Step>, i: nat, k: nat, user: Hash, key: Bytes)
    requires |states| == |steps| + 1 && i < |states|
  {
    && k < i && SetsKey(states[k], steps[k].op, user, key)
    && forall j | k < j < i :: !ResetsKey(states[j], steps[j].op, user)
  }

  lemma {:induction false} UsersNext(states: seq<Db>, steps: seq<Step>, j: nat, user: Hash, identity: Identity,
                                     key: Bytes)
    requires Behaviour(states, steps) && j < |steps|
    ensures UsersFollow(states[j], steps[j].op, states[j + 1].users, user, identity, key)
  {
    assert Leads(states[j], steps[j], states[j + 1]);
    UsersStep(states[j], steps[j].op, steps[j].at, user, identity, key);
  }

  lemma {:induction false} IdentityLatch(states: seq<Db>, steps: seq<Step>, i: nat, user: Hash, identity: Identity)
    requires |states| == |steps| + 1 && i < |states| && !HasIdentity(states[0].users, user, identity)
    requires forall j: nat | j < i :: UsersFollow(states[j], steps[j].op, states[j + 1].users, user, identity, [])
    ensures HasIdentity(states[i].users, user, identity)
       <==> exists k: nat :: IdentityStands(states, steps, i, k, user, identity)
  {
    ghost var has := (j: nat) => j < |states| && HasIdentity(states[j].users, user, identity);
    ghost var gained := (j: nat) => j < |steps| && SetsIdentity(states[j], steps[j].op, user, identity);
    ghost var lost := (j: nat) => j < |steps| && ResetsIdentity(states[j], steps[j].op, user);
    LatchHolds(has, gained, lost, i);
    forall k: nat ensures Stands(gained, lost, i, k) <==> IdentityStands(states, steps, i, k, user, identity) {
      assert forall j: nat | j < i :: lost(j) <==> ResetsIdentity(states[j], steps[j].op, user);
    }
  }

  lemma {:induction false} KeyLatch(states: seq<Db>, steps: seq<Step>, i: nat, user: Hash, key: Bytes)
    requires |states| == |steps| + 1 && i < |states| && !HasRecoveryKey(states[0].users, user, key)
    requires forall j: nat | j < i :: UsersFollow(states[j], steps[j].op, states[j + 1].users, user, NO_IDENTITY, key)
    ensures HasRecoveryKey(states[i].users, user, key)
       <==> exists k: nat :: KeyStands(states, steps, i, k, user, key)
  {
    ghost var has := (j: nat) => j < |states| && HasRecoveryKey(states[j].users, user, key);
    ghost var gained := (j: nat) => j < |steps| && SetsKey(states[j], steps[j].op, user, key);
    ghost var lost := (j: nat) => j < |steps| && ResetsKey(states[j], steps[j].op, user);
    LatchHolds(has, gained, lost, i);
    forall k: nat ensures Stands(gained, lost, i, k) <==> KeyStands(states, steps, i, k, user, key) {
      assert forall j: nat | j < i :: lost(j) <==> ResetsKey(states[j], steps[j].op, user);
    }
  }

  const NO_IDENTITY := Identity([], [], [])

  /** A user's identity is exactly the one of the last registration or effective recovery claim,
      with no deletion of the account since. */
  lemma {:induction false} IdentityExactly(states: seq<Db>, steps: seq<Step>, i: nat, user: Hash, identity: Identity)
    requires Behaviour(states, steps) && i < |states|
    ensures HasIdentity(states[i].users, user, identity)
       <==> exists k: nat :: IdentityStands(states, steps, i, k, user, identity)
  {
    forall j: nat | j < i ensures UsersFollow(states[j], steps[j].op, states[j + 1].users, user, identity, []) {
      UsersNext(states, steps, j, user, identity, []);
    }
    IdentityLatch(states, steps, i, user, identity);
  }

  /** A user's recovery key is exactly the last one published, with no deletion since. */
  lemma {:induction false} RecoveryKeyExactly(states: seq<Db>, steps: seq<Step>, i: nat, user: Hash, key: Bytes)
    requires Behaviour(states, steps) && i < |states|
    ensures HasRecoveryKey(states[i].users, user, key)
       <==> exists k: nat :: KeyStands(states, steps, i, k, user, key)
  {
    forall j: nat | j < i ensures UsersFollow(states[j], steps[j].op, states[j + 1].users, user, NO_IDENTITY, key) {
      UsersNext(states, steps, j, user, NO_IDENTITY, key);
    }
    KeyLatch(states, steps, i, user, key);
  }

  /** No identity is replaced unless its user published a recovery key beforehand, the
      account living on in between. */
  lemma {:induction false} ClaimNeedsPublication(states: seq<Db>, steps: seq<Step>, j: nat, user: Hash)
    requires Behaviour(states, steps) && j < |steps| && Claims(states[j], steps[j].op, user)
    ensures exists k: nat :: KeyStands(states, steps, j, k, user, states[j].users[user].recoveryKey.value)
  {
    RecoveryKeyExactly(states, steps, j, user, states[j].users[user].recoveryKey.value);
  }
}
