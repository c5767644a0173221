/** What the two lists of accepted requests and of responses show, told from the history of
    a run alone. */
module FriendViews {
  import opened Prelude
  import opened Schema
  import opened AccountRuns
  import opened GraphRuns
  import PollRuns
  import SG = SocialGraph

  /** Created after the cutoff, if there is one. */
  predicate After(at: Instant, cutoff: Option<Instant>) {
    cutoff == None || at > cutoff.value
  }

  // ---------------------------------------------------------------------------
  // In one database
  // ---------------------------------------------------------------------------

  /** What an acceptance is shown as to the one who accepted: the other's bundle, one's own
      signature. */
  predicate AcceptedAs(q: Request, a: Answer, at: Instant, f: SG.FriendResponse) {
    && q.target == a.responder == f.responder && q.requester == a.requester == f.requester && a.accepted && f.accepted
    && f.bundle == q.bundle && f.signature == a.signature && f.timestamp == at / 1_000_000_000
  }

  /** What an answer is shown as to the one who asked. */
  predicate AnsweredAs(a: Answer, at: Instant, f: SG.FriendResponse) {
    && a.responder == f.responder && a.requester == f.requester && a.accepted == f.accepted
    && f.bundle == (if a.bundle.Some? then a.bundle.value else []) && f.signature == a.signature
    && f.timestamp == at / 1_000_000_000
  }

  ghost predicate HasAccepted(db: Db, q: Request, a: Answer, at: Instant) {
    && HasRequest(db.requests, q) && HasAnswer(db.responses, a)
    && PollRuns.Dated(db.responses, a.responder, a.requester, at)
  }

  ghost predicate HasAnswered(db: Db, a: Answer, at: Instant) {
    HasAnswer(db.responses, a) && PollRuns.Dated(db.responses, a.responder, a.requester, at)
  }

  /** Answer and date are those of one row. */
  lemma {:induction false} OneRow(db: Db, a: Answer, at: Instant) returns (id: nat)
    requires SG.GraphSound(db) && HasAnswered(db, a, at)
    ensures id in db.responses && AnswerIn(db.responses[id]) == a && db.responses[id].createdAt == at
  {
    id :| id in db.responses && AnswerIn(db.responses[id]) == a;
    var id' :| && id' in db.responses && PollRuns.Between(db.responses[id'], a.responder, a.requester)
               && db.responses[id'].createdAt == at;
    SG.AnsweredOnce(db, a.requester, id, id');
  }

  lemma {:induction false} ShownAccepted(db: Db, user: Hash, cutoff: Option<Instant>, f: SG.FriendResponse)
    returns (q: Request, a: Answer, at: Instant)
    requires SG.GraphSound(db) && f in SG.MyAccepted(db, user, cutoff)
    ensures HasAccepted(db, q, a, at) && AcceptedAs(q, a, at, f) && f.responder == user && After(at, cutoff)
  {
    var id :| && id in db.responses && SG.Accepting(db, user, cutoff, id)
              && f == SG.AcceptedEntry(db.requests[db.responses[id].requestId], db.responses[id], user);
    assert SG.Vouched(db.requests, db.responses[id]);
    q, a, at := db.requests[db.responses[id].requestId], AnswerIn(db.responses[id]), db.responses[id].createdAt;
    assert PollRuns.Between(db.responses[id], a.responder, a.requester);
  }

  lemma {:induction false} AcceptedShown(db: Db, user: Hash, cutoff: Option<Instant>, f: SG.FriendResponse, q: Request,
                                         a: Answer, at: Instant)
    requires SG.GraphSound(db) && HasAccepted(db, q, a, at) && AcceptedAs(q, a, at, f)
    requires f.responder == user && After(at, cutoff)
    ensures f in SG.MyAccepted(db, user, cutoff)
  {
    var id := OneRow(db, a, at);
    assert SG.Vouched(db.requests, db.responses[id]);
    var requestId :| requestId in db.requests && db.requests[requestId] == q;
    assert requestId == db.responses[id].requestId;
    assert SG.Accepting(db, user, cutoff, id);
    assert f == SG.AcceptedEntry(q, db.responses[id], user);
  }

  lemma {:induction false} ShownAnswered(db: Db, user: Hash, cutoff: Option<Instant>, f: SG.FriendResponse)
    returns (a: Answer, at: Instant)
    requires f in SG.MyResponses(db, user, cutoff)
    ensures HasAnswered(db, a, at) && AnsweredAs(a, at, f) && f.requester == user && After(at, cutoff)
  {
    var id :| && id in db.responses && db.responses[id].requester == user
              && SG.Since(db.responses[id].createdAt, cutoff) && f == SG.AnsweredEntry(db.responses[id]);
    a, at := AnswerIn(db.responses[id]), db.responses[id].createdAt;
    assert PollRuns.Between(db.responses[id], a.responder, a.requester);
  }

  lemma {:induction false} AnsweredShown(db: Db, user: Hash, cutoff: Option<Instant>, f: SG.FriendResponse, a: Answer,
                                         at: Instant)
    requires SG.GraphSound(db) && HasAnswered(db, a, at) && AnsweredAs(a, at, f)
    requires f.requester == user && After(at, cutoff)
    ensures f in SG.MyResponses(db, user, cutoff)
  {
    var id := OneRow(db, a, at);
    assert f == SG.AnsweredEntry(db.responses[id]);
  }

  // ---------------------------------------------------------------------------
  // Over runs
  // ---------------------------------------------------------------------------

  /** The request `q` and the answer `a` to it are the last between their two users, and the
      first answer came at `at`; neither user was deleted since. */
  ghost predicate LastAccepted(states: seq<Db>, steps: seq<Step>, i: nat, q: Request, a: Answer, at: Instant)
    requires |states| == |steps| + 1 && i < |states|
  {
    (exists k: nat :: RequestStands(states, steps, i, k, q)) && LastAnswered(states, steps, i, a, at)
  }

  ghost predicate LastAnswered(states: seq<Db>, steps: seq<Step>, i: nat, a: Answer, at: Instant)
    requires |states| == |steps| + 1 && i < |states|
  {
    && (exists k: nat :: AnswerStands(states, steps, i, k, a))
    && (exists k: nat :: PollRuns.FirstStands(states, steps, i, k, a.responder, a.requester, at))
  }

  lemma {:induction false} LastAcceptedStored(states: seq<Db>, steps: seq<Step>, i: nat, q: Request, a: Answer,
                                              at: Instant)
    requires Behaviour(states, steps) && i < |states|
    ensures LastAccepted(states, steps, i, q, a, at) <==> HasAccepted(states[i], q, a, at)
    ensures LastAnswered(states, steps, i, a, at) <==> HasAnswered(states[i], a, at)
  {
    RequestExactly(states, steps, i, q);
    AnswerExactly(states, steps, i, a);
    PollRuns.DatedExactly(states, steps, i, a.responder, a.requester, at);
  }

  /** Over every run, the list of what a user has accepted shows exactly the last accepting
      answers it gave, each with the bundle of the last request it answers, its own last
      signature and the time of its first answer. */
  lemma {:induction false} MyAcceptedExactly(states: seq<Db>, steps: seq<Step>, i: nat, user: Hash,
                                             cutoff: Option<Instant>, f: SG.FriendResponse)
    requires Behaviour(states, steps) && i < |states|
    ensures f in SG.MyAccepted(states[i], user, cutoff)
       <==> && f.responder == user
            && exists q, a, at ::
                 LastAccepted(states, steps, i, q, a, at) && AcceptedAs(q, a, at, f) && After(at, cutoff)
  {
    RunKeepsSound(states, steps, i);
    if f in SG.MyAccepted(states[i], user, cutoff) {
      var q, a, at := ShownAccepted(states[i], user, cutoff, f);
      LastAcceptedStored(states, steps, i, q, a, at);
    }
    if q, a, at :| LastAccepted(states, steps, i, q, a, at) && AcceptedAs(q, a, at, f) && After(at, cutoff) {
      if f.responder == user {
        LastAcceptedStored(states, steps, i, q, a, at);
        AcceptedShown(states[i], user, cutoff, f, q, a, at);
      }
    }
  }

  /** And the list of responses to a user shows exactly the last answers given to it. */
  lemma {:induction false} MyResponsesExactly(states: seq<Db>, steps: seq<Step>, i: nat, user: Hash,
                                              cutoff: Option<Instant>, f: SG.FriendResponse)
    requires Behaviour(states, steps) && i < |states|
    ensures f in SG.MyResponses(states[i], user, cutoff)
       <==> && f.requester == user
            && exists a, at :: LastAnswered(states, steps, i, a, at) && AnsweredAs(a, at, f) && After(at, cutoff)
  {
    RunKeepsSound(states, steps, i);
    if f in SG.MyResponses(states[i], user, cutoff) {
      var a, at := ShownAnswered(states[i], user, cutoff, f);
      LastAcceptedStored(states, steps, i, NO_REQUEST, a, at);
    }
    if a, at :| LastAnswered(states, steps, i, a, at) && AnsweredAs(a, at, f) && After(at, cutoff) {
      if f.requester == user {
        LastAcceptedStored(states, steps, i, NO_REQUEST, a, at);
        AnsweredShown(states[i], user, cutoff, f, a, at);
      }
    }
  }
}
