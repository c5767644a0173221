/** Whole runs of the handlers that read and write the user tables, one handler at a
    time. */
module AccountRuns {
  import opened Prelude
  import opened Schema
  import Login
  import SocialGraph
  import Erasure
  import Prekeys

  datatype Operation =
    | Register(user: Hash, identity: Identity, commitment: Bytes)
    | LogIn(attempt: Login.Attempt, random: Login.Random)
    | PublishRecoveryKey(request: Login.KeyRequest)
    | ClaimRecovery(claim: Login.Claim, token: Bytes)
    | Contact(contact: SocialGraph.Contact)
    | Respond(reply: SocialGraph.Reply)
    | SendMessage(message: Message, allowed: bool)
    | RemoveMessages(ids: set<nat>)
    | UploadPrekeys(user: Hash, batch: seq<Prekeys.Prekey>, allowed: bool)
    | MarkPrekey(id: nat)
    | DeleteAccount(user: Hash, signature: Bytes, timely: bool, verified: bool)

  datatype Step = Step(op: Operation, at: Instant)

  // ---------------------------------------------------------------------------
  // Handlers on values
  // ---------------------------------------------------------------------------

  function Registering(db: Db, user: Hash, identity: Identity, commitment: Bytes): Db {
    if || |user| != HASH_SIZE || identity.bundle == [] || commitment == [] || identity.key == []
       || identity.signature == [] || user in db.users
    then db
    else db.(users := db.users[user := User(identity, None)])
  }

  /** `allowed` stands for the signature and the size tiers; message ids are unique. */
  function Sending(db: Db, message: Message, allowed: bool): Db {
    if && allowed && message.sender in db.users && message.recipient in db.users
       && (forall id | id in db.messages :: db.messages[id].messageId != message.messageId)
    then db.(messages := db.messages[db.nextMessage := message], nextMessage := db.nextMessage + 1)
    else db
  }

  function Uploading(db: Db, user: Hash, batch: seq<Prekeys.Prekey>, allowed: bool): Db {
    if allowed && user in db.users then
      var t := Prekeys.InsertAll(Prekeys.Table(db.prekeys, db.nextPrekey), user, batch);
      db.(prekeys := t.rows, nextPrekey := t.nextId)
    else db
  }

  predicate Deletes(db: Db, op: Operation, user: Hash) {
    op.DeleteAccount? && op.user == user && Erasure.Authorised(db, user, op.signature, op.timely, op.verified)
  }

  function Deleting(db: Db, op: Operation): Db
    requires op.DeleteAccount?
  {
    if Deletes(db, op, op.user) then Erasure.Erased(db, op.user) else db
  }

  function Execute(db: Db, op: Operation, now: Instant): Db {
    match op
    case Register(user, identity, commitment) => Registering(db, user, identity, commitment)
    case LogIn(attempt, random) => Login.LoggingIn(db, attempt, random, now).0
    case PublishRecoveryKey(request) => Login.Publishing(db, request).0
    case ClaimRecovery(claim, token) => Login.Claiming(db, claim, token, now).0
    case Contact(contact) => SocialGraph.Contacting(db, contact).0
    case Respond(reply) => SocialGraph.Responding(db, reply, now).0
    case SendMessage(message, allowed) => Sending(db, message, allowed)
    case RemoveMessages(ids) => db.(messages := db.messages - ids)
    case UploadPrekeys(user, batch, allowed) => Uploading(db, user, batch, allowed)
    case MarkPrekey(id) => db.(prekeys := Prekeys.MarkUsed(db.prekeys, id))
    case DeleteAccount(_, _, _, _) => Deleting(db, op)
  }

  /** A run from the empty database along a clock that never goes back. */
  ghost predicate Behaviour(states: seq<Db>, steps: seq<Step>) {
    && |states| == |steps| + 1
    && states[0] == EMPTY
    && (forall i | 0 <= i < |steps| :: Leads(states[i], steps[i], states[i + 1]))
    && (forall i, j | 0 <= i < j < |steps| :: steps[i].at <= steps[j].at)
  }

  ghost predicate Leads(db: Db, step: Step, db': Db) {
    db' == Execute(db, step.op, step.at)
  }

  // ---------------------------------------------------------------------------
  // What every step keeps
  // ---------------------------------------------------------------------------

  ghost predicate MessagesKnown(db: Db) {
    forall id | id in db.messages :: db.messages[id].sender in db.users && db.messages[id].recipient in db.users
  }

  ghost predicate Sound(db: Db) {
    SocialGraph.Sound(db) && MessagesKnown(db)
  }

  /** Users are only added. */
  lemma {:induction false} MoreUsers(db: Db, users: Users)
    requires Sound(db) && forall u | u in db.users :: u in users
    ensures Sound(db.(users := users))
  {
  }

  lemma {:induction false} LoginOnlyKeepsSound(db: Db, db': Db)
    requires Sound(db) && Login.LoginOnly(db, db')
    ensures Sound(db')
  {
  }

  lemma {:induction false} LoginKeepsSound(db: Db, attempt: Login.Attempt, random: Login.Random, now: Instant)
    requires Sound(db)
    ensures Sound(Login.LoggingIn(db, attempt, random, now).0)
  {
    Login.LoggingInOnly(db, attempt, random, now);
    LoginOnlyKeepsSound(db, Login.LoggingIn(db, attempt, random, now).0);
  }

  lemma {:induction false} PublishingKeepsSound(db: Db, request: Login.KeyRequest)
    requires Sound(db)
    ensures Sound(Login.Publishing(db, request).0)
  {
    MoreUsers(db, Login.Publishing(db, request).0.users);
  }

  lemma {:induction false} ClaimKeepsSound(db: Db, claim: Login.Claim, token: Bytes, now: Instant)
    requires Sound(db)
    ensures Sound(Login.Claiming(db, claim, token, now).0)
  {
    if claim.user in db.users {
      var rekeyed := db.(users := db.users[claim.user := db.users[claim.user].(identity := claim.identity)]);
      MoreUsers(db, rekeyed.users);
      var expiresAt := now + Seconds(Login.RECOVERY_SESSION_SECONDS);
      Login.GrantingOnly(rekeyed, claim.user, token, expiresAt);
      LoginOnlyKeepsSound(rekeyed, Login.Granting(rekeyed, claim.user, token, expiresAt).0);
    }
  }

  lemma {:induction false} InsertAllKeys(t: Prekeys.Table, user: Hash, batch: seq<Prekeys.Prekey>, users: Users)
    requires PrekeyKeys(users, t.rows) && user in users
    ensures PrekeyKeys(users, Prekeys.InsertAll(t, user, batch).rows)
  {
    if batch != [] {
      InsertAllKeys(t, user, batch[..|batch| - 1], users);
    }
  }

  lemma {:induction false} PrekeysKeepSound(db: Db, prekeys: map<nat, Prekeys.Row>, nextPrekey: nat)
    requires Sound(db) && PrekeyKeys(db.users, prekeys)
    ensures Sound(db.(prekeys := prekeys, nextPrekey := nextPrekey))
  {
  }

  lemma {:induction false} MessagesKeepSound(db: Db, messages: map<nat, Message>, nextMessage: nat)
    requires Sound(db)
    requires forall id | id in messages :: messages[id].sender in db.users && messages[id].recipient in db.users
    ensures Sound(db.(messages := messages, nextMessage := nextMessage))
  {
  }

  /** Erasing an account keeps everything sound, and leaves no row of it. */
  lemma {:induction false} ErasureKeepsSound(db: Db, user: Hash)
    requires Sound(db)
    ensures Erasure.Erased(db, user) == Erasure.Scrubbed(db, user)
    ensures Sound(Erasure.Scrubbed(db, user))
  {
    SocialGraph.GraphAgrees(db, user);
    Erasure.ErasureExactly(db, user);
    Erasure.ForeignKeysThroughout(db, user, Erasure.STEPS);
    SocialGraph.ScrubbedSound(db, user);
  }

  lemma {:induction false} AccountStepKeepsSound(db: Db, op: Operation, now: Instant)
    requires Sound(db)
    requires op.Register? || op.LogIn? || op.PublishRecoveryKey? || op.ClaimRecovery? || op.DeleteAccount?
    ensures Sound(Execute(db, op, now))
  {
    match op {
      case Register(user, identity, commitment) => MoreUsers(db, Registering(db, user, identity, commitment).users);
      case LogIn(attempt, random) => LoginKeepsSound(db, attempt, random, now);
      case PublishRecoveryKey(request) => PublishingKeepsSound(db, request);
      case ClaimRecovery(claim, token) => ClaimKeepsSound(db, claim, token, now);
      case DeleteAccount(user, _, _, _) => ErasureKeepsSound(db, user);
    }
  }

  lemma {:induction false} ContentStepKeepsSound(db: Db, op: Operation, now: Instant)
    requires Sound(db)
    requires op.SendMessage? || op.RemoveMessages? || op.UploadPrekeys? || op.MarkPrekey?
    ensures Sound(Execute(db, op, now))
  {
    match op {
      case SendMessage(message, allowed) =>
        var db' := Sending(db, message, allowed);
        MessagesKeepSound(db, db'.messages, db'.nextMessage);
      case RemoveMessages(ids) => MessagesKeepSound(db, db.messages - ids, db.nextMessage);
      case UploadPrekeys(user, batch, allowed) =>
        if user in db.users {
          InsertAllKeys(Prekeys.Table(db.prekeys, db.nextPrekey), user, batch, db.users);
          var db' := Uploading(db, user, batch, allowed);
          PrekeysKeepSound(db, db'.prekeys, db'.nextPrekey);
        }
      case MarkPrekey(id) => PrekeysKeepSound(db, Prekeys.MarkUsed(db.prekeys, id), db.nextPrekey);
    }
  }

  lemma {:induction false} SocialKeepsSound(db: Db, db': Db)
    requires Sound(db) && SocialGraph.Sound(db') && db'.users == db.users && db'.messages == db.messages
    ensures Sound(db')
  {
  }

  lemma {:induction false} ContactFrame(db: Db, c: SocialGraph.Contact)
    ensures var db' := SocialGraph.Contacting(db, c).0;
            db'.users == db.users && db'.messages == db.messages
  {
  }

  lemma {:induction false} ReplyFrame(db: Db, r: SocialGraph.Reply, now: Instant)
    ensures var db' := SocialGraph.Responding(db, r, now).0;
            db'.users == db.users && db'.messages == db.messages
  {
  }

  lemma {:induction false} ContactStepKeepsSound(db: Db, c: SocialGraph.Contact)
    requires Sound(db)
    ensures Sound(SocialGraph.Contacting(db, c).0)
  {
    SocialGraph.ContactKeepsSound(db, c);
    ContactFrame(db, c);
    SocialKeepsSound(db, SocialGraph.Contacting(db, c).0);
  }

  lemma {:induction false} ReplyStepKeepsSound(db: Db, r: SocialGraph.Reply, now: Instant)
    requires Sound(db)
    ensures Sound(SocialGraph.Responding(db, r, now).0)
  {
    SocialGraph.ReplyKeepsSound(db, r, now);
    ReplyFrame(db, r, now);
    SocialKeepsSound(db, SocialGraph.Responding(db, r, now).0);
  }

  lemma {:induction false} StepKeepsSound(db: Db, op: Operation, now: Instant)
    requires Sound(db)
    ensures Sound(Execute(db, op, now))
  {
    if op.Contact? {
      ContactStepKeepsSound(db, op.contact);
    } else if op.Respond? {
      ReplyStepKeepsSound(db, op.reply, now);
    } else if op.SendMessage? || op.RemoveMessages? || op.UploadPrekeys? || op.MarkPrekey? {
      ContentStepKeepsSound(db, op, now);
    } else {
      AccountStepKeepsSound(db, op, now);
    }
  }

  lemma {:induction false} RunKeepsSound(states: seq<Db>, steps: seq<Step>, i: nat)
    requires Behaviour(states, steps) && i < |states|
    ensures Sound(states[i])
  {
    if i > 0 {
      RunKeepsSound(states, steps, i - 1);
      assert Leads(states[i - 1], steps[i - 1], states[i - 1 + 1]);
      StepKeepsSound(states[i - 1], steps[i - 1].op, steps[i - 1].at);
    }
  }

  /** From any reachable state, deleting an account leaves exactly the rows of every
      table that do not mention its user. */
  lemma {:induction false} DeletionIsExact(states: seq<Db>, steps: seq<Step>, i: nat, user: Hash)
    requires Behaviour(states, steps) && i < |steps| && Deletes(states[i], steps[i].op, user)
    ensures states[i + 1] == Erasure.Scrubbed(states[i], user)
  {
    RunKeepsSound(states, steps, i);
    assert Leads(states[i], steps[i], states[i + 1]);
    ErasureKeepsSound(states[i], user);
  }

  /** In any reachable state the two views of accepted requests agree. */
  lemma {:induction false} ViewsAgree(states: seq<Db>, steps: seq<Step>, i: nat, u: Hash, r: Hash,
                                      cutoff: Option<Instant>)
    requires Behaviour(states, steps) && i < |states|
    ensures SocialGraph.AcceptedFrom(states[i], u, r, cutoff) == SocialGraph.AcceptedBy(states[i], r, u, cutoff)
  {
    RunKeepsSound(states, steps, i);
    SocialGraph.AcceptedBothWays(states[i], u, r, cutoff);
  }
}
