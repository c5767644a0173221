/** The machines that take a handler statement by statement do what the handler does when
    nothing comes in between. */
module Uninterrupted {
  import opened Prelude
  import opened Schema
  import AccountRuns
  import Erasure
  import Login
  import Messages
  import MessageTiers
  import Ordering
  import OrphanRuns
  import PrekeyRuns
  import Prekeys
  import PR = ProofRuns
  import RR = ReplyRuns
  import SG = SocialGraph

  // ---------------------------------------------------------------------------
  // login
  // ---------------------------------------------------------------------------

  /** The statements of a challenge request, one after the other. */
  function RequestAlone(sys: PR.System, user: Hash, id: Bytes, nonce: Bytes, at: Instant): PR.System
    requires id !in sys.issued
  {
    PR.Next(PR.Next(sys, PR.Clear(user)), PR.Issue(user, id, nonce, at))
  }

  lemma {:induction false} RequestUninterrupted(sys: PR.System, db: Db, user: Hash, random: Login.Random, at: Instant)
    requires sys.challenges == db.challenges && random.challengeId !in sys.issued
    requires forall id | id in sys.challenges :: id in sys.issued
    ensures RequestAlone(sys, user, random.challengeId, random.nonce, at).challenges
         == Login.Challenging(db, user, random, at).0.challenges
    ensures Login.Challenging(db, user, random, at).1.Challenged?
  {
    assert PR.Next(sys, PR.Clear(user)).challenges == ChallengesDeleted(db, user).challenges;
  }

  /** The statements of a proof, one after the other. */
  function ProofAlone(sys: PR.System, p: PR.Proof, user: Hash, id: Bytes, verified: bool, token: Bytes, at: Instant)
    : PR.System
    requires p !in sys.held
  {
    var selected := PR.Next(sys, PR.Select(p, user, id));
    if p in selected.held then HeldAlone(selected, p, verified, token, at) else selected
  }

  /** Those after the first. */
  function HeldAlone(sys: PR.System, p: PR.Proof, verified: bool, token: Bytes, at: Instant): PR.System
    requires PR.Holds(sys, p)
  {
    if PR.Enabled(sys, PR.Expire(p, at)) then PR.Next(sys, PR.Expire(p, at))
    else if !verified then PR.Next(sys, PR.Reject(p))
    else
      var spent := PR.Next(sys, PR.Spend(p, at));
      if PR.Enabled(spent, PR.Grant(p, token)) then PR.Next(spent, PR.Grant(p, token)) else spent
  }

  ghost predicate Matches(sys: PR.System, db: Db) {
    sys.challenges == db.challenges && sys.sessions.Keys == db.sessions.Keys
  }

  /** The machine and the tables agree on the challenges, on the tokens and the user of a new
      one, and on whether the challenge was spent. */
  ghost predicate Follows(sys: PR.System, db: Db, p: PR.Proof, user: Hash, id: Bytes, token: Bytes, sys': PR.System,
                          after: (Db, Login.Outcome))
  {
    && Matches(sys', after.0)
    && (after.1.SessionGranted? ==>
          token in sys'.sessions && token in after.0.sessions
          && sys'.sessions[token].user == after.0.sessions[token].user == user)
    && (after.1.SessionGranted? || after.1 == Login.Refused(Login.SessionNotStored)
        <==> sys'.spent == sys.spent + [PR.Spent(user, id)])
    && (after.1 != Login.Refused(Login.SessionNotStored) ==> sys'.held == sys.held - {p})
  }

  /** The last statement of a proof. */
  lemma {:induction false} GrantUninterrupted(sys: PR.System, db: Db, p: PR.Proof, token: Bytes, expiresAt: Instant)
    requires Matches(sys, db) && p in sys.held && sys.held[p].turn.Some?
    ensures var (db', outcome) := Login.Granting(db, sys.held[p].user, token, expiresAt);
            if PR.Enabled(sys, PR.Grant(p, token)) then
              var sys' := PR.Next(sys, PR.Grant(p, token));
              && outcome.SessionGranted? && Matches(sys', db') && sys'.held == sys.held - {p} && sys'.spent == sys.spent
              && sys'.sessions[token].user == db'.sessions[token].user == sys.held[p].user
            else outcome == Login.Refused(Login.SessionNotStored) && db' == db
  {
  }

  lemma {:induction false} SpendUninterrupted(sys: PR.System, db: Db, p: PR.Proof, at: Instant)
    requires Matches(sys, db) && PR.Enabled(sys, PR.Spend(p, at))
    ensures var spent, h := PR.Next(sys, PR.Spend(p, at)), sys.held[p];
            && Matches(spent, Login.ChallengeConsumed(db, h.challengeId))
            && spent.spent == sys.spent + [PR.Spent(h.user, h.challengeId)] && spent.held - {p} == sys.held - {p}
            && p in spent.held && spent.held[p].turn.Some? && spent.held[p].user == h.user
  {
  }

  ghost predicate Selected(sys: PR.System, db: Db, p: PR.Proof, user: Hash, id: Bytes) {
    && Matches(sys, db) && id in db.challenges && db.challenges[id].user == user
    && p in sys.held && sys.held[p] == PR.Held(user, id, db.challenges[id].expiresAt, None)
  }

  lemma {:induction false} RightUninterrupted(sys: PR.System, db: Db, p: PR.Proof, user: Hash, id: Bytes,
                                              token: Bytes, at: Instant)
    requires Selected(sys, db, p, user, id) && at <= db.challenges[id].expiresAt
    ensures Follows(sys, db, p, user, id, token, HeldAlone(sys, p, true, token, at),
                    Login.Proving(db, user, Login.Proof(id, true), token, at))
  {
    var spent, consumed := PR.Next(sys, PR.Spend(p, at)), Login.ChallengeConsumed(db, id);
    SpendUninterrupted(sys, db, p, at);
    GrantUninterrupted(spent, consumed, p, token, at + Seconds(86_400));
    assert Login.Proving(db, user, Login.Proof(id, true), token, at)
        == Login.Granting(consumed, user, token, at + Seconds(86_400));
  }

  lemma {:induction false} WrongUninterrupted(sys: PR.System, db: Db, p: PR.Proof, user: Hash, id: Bytes,
                                              verified: bool, token: Bytes, at: Instant)
    requires Selected(sys, db, p, user, id) && (at > db.challenges[id].expiresAt || !verified)
    ensures Follows(sys, db, p, user, id, token, HeldAlone(sys, p, verified, token, at),
                    Login.Proving(db, user, Login.Proof(id, verified), token, at))
  {
  }

  lemma {:induction false} NoneUninterrupted(sys: PR.System, db: Db, p: PR.Proof, user: Hash, id: Bytes,
                                             verified: bool, token: Bytes, at: Instant)
    requires Matches(sys, db) && p !in sys.held && !(id in db.challenges && db.challenges[id].user == user)
    ensures Follows(sys, db, p, user, id, token, sys, Login.Proving(db, user, Login.Proof(id, verified), token, at))
  {
    assert sys.held - {p} == sys.held;
  }

  /** A proof without interruption is the one that the handler verifies. */
  lemma {:induction false} ProofUninterrupted(sys: PR.System, db: Db, p: PR.Proof, user: Hash, id: Bytes,
                                              verified: bool, token: Bytes, at: Instant)
    requires p !in sys.held && Matches(sys, db)
    ensures Follows(sys, db, p, user, id, token, ProofAlone(sys, p, user, id, verified, token, at),
                    Login.Proving(db, user, Login.Proof(id, verified), token, at))
  {
    var selected := PR.Next(sys, PR.Select(p, user, id));
    if id in db.challenges && db.challenges[id].user == user {
      assert Selected(selected, db, p, user, id) && selected.held - {p} == sys.held - {p};
      if verified && at <= db.challenges[id].expiresAt {
        RightUninterrupted(selected, db, p, user, id, token, at);
      } else {
        WrongUninterrupted(selected, db, p, user, id, verified, token, at);
      }
    } else {
      NoneUninterrupted(sys, db, p, user, id, verified, token, at);
    }
  }

  // ---------------------------------------------------------------------------
  // respond_friend_request
  // ---------------------------------------------------------------------------

  lemma {:induction false} WrittenAlike(sys: RR.System, db: Db, requestId: nat, r: SG.Reply, at: Instant)
    requires sys.responses == db.responses && sys.next == db.nextResponse
    ensures var answered := SG.ResponsesTo(db.responses, requestId) != {};
            var sys' := RR.Written(sys, RR.Counted(requestId, answered), r, at);
            var db' := SG.Answered(db, r, requestId, at).0;
            sys'.responses == db'.responses && sys'.next == db'.nextResponse && sys'.counted == sys.counted
  {
    var existing := SG.ResponsesTo(db.responses, requestId);
    if existing != {} {
      assert forall id | id in db.responses :: id in existing <==> db.responses[id].requestId == requestId;
      assert SG.Answered(db, r, requestId, at).0 == SG.Revising(db, existing, r);
    }
  }

  lemma {:induction false} ReplyUninterrupted(sys: RR.System, db: Db, handler: RR.Handler, r: SG.Reply,
                                              requestId: nat, at: Instant)
    requires handler !in sys.counted && sys.responses == db.responses && sys.next == db.nextResponse
    ensures var counted := RR.Next(sys, RR.Count(handler, requestId));
            && RR.Enabled(counted, RR.Write(handler, r, at))
            && var sys' := RR.Next(counted, RR.Write(handler, r, at));
               var db' := SG.Answered(db, r, requestId, at).0;
               sys'.responses == db'.responses && sys'.next == db'.nextResponse && sys'.counted == sys.counted
  {
    var counted := RR.Next(sys, RR.Count(handler, requestId));
    assert counted.counted - {handler} == sys.counted;
    WrittenAlike(counted, db, requestId, r, at);
  }

  // ---------------------------------------------------------------------------
  // fetch_prekey_bundle
  // ---------------------------------------------------------------------------

  /** The oldest key goes, is handed out as it is stored, and is unused no longer. */
  lemma {:induction false} FetchUninterrupted(sys: PrekeyRuns.System, fetch: PrekeyRuns.Fetch, user: Hash)
    requires fetch !in sys.pending
    ensures var selected := PrekeyRuns.Next(sys, PrekeyRuns.Select(fetch, user));
            var unused := Prekeys.Unused(sys.table.rows, user);
            if unused == {} then selected == sys
            else
              && PrekeyRuns.Enabled(selected, PrekeyRuns.Mark(fetch))
              && var sys' := PrekeyRuns.Next(selected, PrekeyRuns.Mark(fetch));
                 var id := Ordering.Least(unused);
                 var row := sys.table.rows[id];
                 && Prekeys.Unused(sys'.table.rows, user) == unused - {id} && sys'.pending == sys.pending
                 && sys'.handed == sys.handed + [PrekeyRuns.Handout(user, id, row.prekeyId, row.publicKey)]
  {
    var selected := PrekeyRuns.Next(sys, PrekeyRuns.Select(fetch, user));
    if fetch in selected.pending {
      assert selected.pending - {fetch} == sys.pending;
    }
  }

  // ---------------------------------------------------------------------------
  // delete and send_message
  // ---------------------------------------------------------------------------

  /** The two statements of an erasure that matter to messages are its third and its last. */
  lemma {:induction false} ErasureUninterrupted(sys: OrphanRuns.System, db: Db, user: Hash)
    requires sys.messages == db.messages && sys.users == db.users.Keys
    ensures var third := OrphanRuns.Next(sys, OrphanRuns.EraseMessages(user));
            && third.messages == Erasure.Statement(db, user, 3).messages && third.users == sys.users
            && OrphanRuns.Enabled(third, OrphanRuns.EraseUser(user))
            && var last := OrphanRuns.Next(third, OrphanRuns.EraseUser(user));
               last.users == Erasure.Statement(db, user, 6).users.Keys && last.messages == third.messages
  {
  }

  /** The two statements of a send store what the handler on all tables stores, if the id is not
      taken; and that is what the message store inserts. */
  lemma {:induction false} SendUninterrupted(sys: OrphanRuns.System, db: Db, handler: OrphanRuns.Handler, m: Message,
                                             tiers: MessageTiers.Tables, at: Instant)
    requires sys.messages == db.messages && sys.users == db.users.Keys && sys.next == db.nextMessage
    requires handler !in sys.sending && !Messages.Duplicate(db.messages, m.messageId)
    ensures var check := OrphanRuns.Check(handler, m);
            var messages := AccountRuns.Execute(db, AccountRuns.SendMessage(m, true), at).messages;
            if OrphanRuns.Enabled(sys, check) then
              && OrphanRuns.Next(OrphanRuns.Next(sys, check), OrphanRuns.Insert(handler)).messages == messages
              && Messages.Inserting(Messages.Store(db.messages, db.nextMessage, tiers), m).0.mail == messages
            else messages == db.messages
  {
  }

  /** An upload on all tables is the one of the prekey table. */
  lemma {:induction false} UploadAlike(db: Db, user: Hash, batch: seq<Prekeys.Prekey>, at: Instant)
    requires user in db.users
    ensures var db' := AccountRuns.Execute(db, AccountRuns.UploadPrekeys(user, batch, true), at);
            Prekeys.Table(db'.prekeys, db'.nextPrekey)
            == Prekeys.InsertAll(Prekeys.Table(db.prekeys, db.nextPrekey), user, batch)
  {
  }
}
