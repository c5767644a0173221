/** Friend requests and responses, told from the history of a run alone. */
module GraphRuns {
  import opened Prelude
  import opened Schema
  import opened Ordering
  import opened AccountRuns
  import AccountAnswers
  import opened Latches
  import SG = SocialGraph
  import Erasure
  import Login

  // ---------------------------------------------------------------------------
  // Requests
  // ---------------------------------------------------------------------------

  ghost predicate HasRequest(requests: Requests, q: Request) {
    exists id | id in requests :: requests[id] == q
  }

  predicate Asks(db: Db, op: Operation, requester: Hash, target: Hash) {
    && op.Contact? && op.contact.requester == requester && op.contact.target == target
    && AccountAnswers.Contacts(db, op.contact)
  }

  /** The step makes `q` the request between its two users. */
  ghost predicate SetsRequest(db: Db, op: Operation, q: Request) {
    && Asks(db, op, q.requester, q.target)
    && q.bundle == op.contact.bundle && q.signature == op.contact.signature && q.timestamp == op.contact.timestamp
    && q.message == if op.contact.message == [] then None else Some(op.contact.message)
  }

  ghost predicate ResetsRequest(db: Db, op: Operation, q: Request) {
    Asks(db, op, q.requester, q.target) || Deletes(db, op, q.requester) || Deletes(db, op, q.target)
  }

  ghost predicate RequestFollows(db: Db, op: Operation, requests: Requests, q: Request) {
    HasRequest(requests, q) <==> SetsRequest(db, op, q) || (HasRequest(db.requests, q) && !ResetsRequest(db, op, q))
  }

  /** A refreshed table holds the new request in place of the old one of the pair. */
  lemma {:induction false} RefreshedRequests(requests: Requests, requests': Requests, c: SG.Contact, q: Request)
    requires SG.RequestsSound(requests) && SG.Between(requests, c.requester, c.target) != {}
    requires requests' == map id | id in requests ::
               if id in SG.Between(requests, c.requester, c.target) then SG.Refreshed(requests[id], c) else requests[id]
    ensures HasRequest(requests', q)
       <==> q == SG.RequestOf(c)
            || (HasRequest(requests, q) && !(q.requester == c.requester && q.target == c.target))
  {
    var between := SG.Between(requests, c.requester, c.target);
    var earlier :| earlier in between;
    assert requests'[earlier] == SG.RequestOf(c);
    if HasRequest(requests, q) && !(q.requester == c.requester && q.target == c.target) {
      var id :| id in requests && requests[id] == q;
      assert requests'[id] == q;
    }
    if HasRequest(requests', q) {
      var id :| id in requests' && requests'[id] == q;
      assert id in between ==> q == SG.RequestOf(c);
      assert id !in between ==> requests[id] == q;
    }
  }

  lemma {:induction false} AddedRequest(requests: Requests, id: nat, c: SG.Contact, q: Request)
    requires id !in requests && SG.Between(requests, c.requester, c.target) == {}
    ensures HasRequest(requests[id := SG.RequestOf(c)], q)
       <==> q == SG.RequestOf(c)
            || (HasRequest(requests, q) && !(q.requester == c.requester && q.target == c.target))
  {
    var requests' := requests[id := SG.RequestOf(c)];
    assert requests'[id] == SG.RequestOf(c);
    if HasRequest(requests, q) {
      var i :| i in requests && requests[i] == q;
      assert requests'[i] == q;
      assert i !in SG.Between(requests, c.requester, c.target);
    }
  }

  /** The update of the existing request, or the insert of a new one. */
  ghost predicate RequestWritten(requests: Requests, requests': Requests, next: nat, c: SG.Contact) {
    var existing := SG.Between(requests, c.requester, c.target);
    requests' ==
    if existing != {}
    then map id | id in requests :: if id in existing then SG.Refreshed(requests[id], c) else requests[id]
    else requests[next := SG.RequestOf(c)]
  }

  lemma {:induction false} ContactWrites(db: Db, c: SG.Contact)
    requires SG.ContactRefusal(db, c) == None
    ensures RequestWritten(db.requests, SG.Contacting(db, c).0.requests, db.nextRequest, c)
  {
  }

  lemma {:induction false} WrittenRequests(requests: Requests, requests': Requests, next: nat, c: SG.Contact,
                                           q: Request)
    requires SG.RequestsSound(requests) && next !in requests && RequestWritten(requests, requests', next, c)
    ensures HasRequest(requests', q)
       <==> q == SG.RequestOf(c)
            || (HasRequest(requests, q) && !(q.requester == c.requester && q.target == c.target))
  {
    if SG.Between(requests, c.requester, c.target) != {} {
      RefreshedRequests(requests, requests', c, q);
    } else {
      AddedRequest(requests, next, c, q);
    }
  }

  lemma {:induction false} ContactRequests(db: Db, c: SG.Contact, q: Request)
    requires SG.RequestsSound(db.requests) && Below(db.requests, db.nextRequest)
    ensures HasRequest(SG.Contacting(db, c).0.requests, q)
       <==> if SG.ContactRefusal(db, c) != None then HasRequest(db.requests, q)
            else q == SG.RequestOf(c)
                 || (HasRequest(db.requests, q) && !(q.requester == c.requester && q.target == c.target))
  {
    if SG.ContactRefusal(db, c) == None {
      ContactWrites(db, c);
      WrittenRequests(db.requests, SG.Contacting(db, c).0.requests, db.nextRequest, c, q);
    }
  }

  lemma {:induction false} AskedRequest(db: Db, op: Operation, requests: Requests, q: Request)
    requires op.Contact?
    requires HasRequest(requests, q)
        <==> if SG.ContactRefusal(db, op.contact) != None then HasRequest(db.requests, q)
             else q == SG.RequestOf(op.contact)
                  || (&& HasRequest(db.requests, q)
                      && !(q.requester == op.contact.requester && q.target == op.contact.target))
    ensures RequestFollows(db, op, requests, q)
  {
    AccountAnswers.ContactAnsweredExactly(db, op.contact, true);
    AccountAnswers.ContactAnsweredExactly(db, op.contact, false);
  }

  /** Erasing a user keeps the requests that do not mention it. */
  lemma {:induction false} ErasedRequests(db: Db, user: Hash, q: Request)
    ensures HasRequest(Erasure.Scrubbed(db, user).requests, q)
       <==> HasRequest(db.requests, q) && !RequestMentions(q, user)
  {
    if HasRequest(db.requests, q) && !RequestMentions(q, user) {
      var id :| id in db.requests && db.requests[id] == q;
      assert Erasure.Scrubbed(db, user).requests[id] == q;
    }
  }

  lemma {:induction false} DeletedRequests(db: Db, op: Operation, q: Request)
    requires op.DeleteAccount?
    ensures RequestFollows(db, op, Deleting(db, op).requests, q)
  {
    if Deletes(db, op, op.user) {
      Erasure.ErasedAlmostScrubbed(db, op.user);
      ErasedRequests(db, op.user, q);
    }
  }

  // ---------------------------------------------------------------------------
  // Responses
  // ---------------------------------------------------------------------------

  /** What a response says, apart from its row and its time. */
  datatype Answer = Answer(responder: Hash, requester: Hash, accepted: bool, bundle: Option<Bytes>, signature: Bytes)

  function AnswerIn(s: Response): Answer {
    Answer(s.responder, s.requester, s.accepted, s.bundle, s.signature)
  }

  function AnswerOf(r: SG.Reply): Answer {
    Answer(r.responder, r.requester, r.accepted, if r.bundle == [] then None else Some(r.bundle), r.signature)
  }

  predicate SamePair(a: Answer, r: SG.Reply) {
    a.responder == r.responder && a.requester == r.requester
  }

  ghost predicate HasAnswer(responses: Responses, a: Answer) {
    exists id | id in responses :: AnswerIn(responses[id]) == a
  }

  predicate Replies(db: Db, op: Operation, a: Answer) {
    op.Respond? && SamePair(a, op.reply) && AccountAnswers.Answers(db, op.reply)
  }

  ghost predicate SetsAnswer(db: Db, op: Operation, a: Answer) {
    Replies(db, op, a) && a == AnswerOf(op.reply)
  }

  ghost predicate ResetsAnswer(db: Db, op: Operation, a: Answer) {
    Replies(db, op, a) || Deletes(db, op, a.responder) || Deletes(db, op, a.requester)
  }

  ghost predicate AnswerFollows(db: Db, op: Operation, responses: Responses, a: Answer) {
    HasAnswer(responses, a) <==> SetsAnswer(db, op, a) || (HasAnswer(db.responses, a) && !ResetsAnswer(db, op, a))
  }

  /** Among sound responses, those to a request are the ones between its two users. */
  ghost predicate AnswersRequest(responses: Responses, requestId: nat, r: SG.Reply) {
    forall id | id in responses :: responses[id].requestId == requestId <==> SamePair(AnswerIn(responses[id]), r)
  }

  lemma {:induction false} PairHasOneRequest(requests: Requests, responses: Responses, requestId: nat, r: SG.Reply)
    requires SG.RequestsSound(requests) && SG.ResponsesSound(requests, responses)
    requires requestId in SG.Between(requests, r.requester, r.responder)
    ensures AnswersRequest(responses, requestId, r)
  {
    forall id | id in responses
      ensures responses[id].requestId == requestId <==> SamePair(AnswerIn(responses[id]), r)
    {
      assert SG.Vouched(requests, responses[id]);
    }
  }

  lemma {:induction false} RevisedAnswers(responses: Responses, responses': Responses, requestId: nat, r: SG.Reply,
                                          a: Answer)
    requires AnswersRequest(responses, requestId, r) && SG.ResponsesTo(responses, requestId) != {}
    requires responses' == map id | id in responses ::
               if id in SG.ResponsesTo(responses, requestId) then SG.Revised(responses[id], r) else responses[id]
    ensures HasAnswer(responses', a)
       <==> a == AnswerOf(r) || (HasAnswer(responses, a) && !SamePair(a, r))
  {
    var existing := SG.ResponsesTo(responses, requestId);
    var earlier :| earlier in existing;
    assert AnswerIn(responses'[earlier]) == AnswerOf(r);
    if HasAnswer(responses, a) && !SamePair(a, r) {
      var id :| id in responses && AnswerIn(responses[id]) == a;
      assert AnswerIn(responses'[id]) == a;
    }
    if HasAnswer(responses', a) {
      var id :| id in responses' && AnswerIn(responses'[id]) == a;
      assert id in existing ==> a == AnswerOf(r);
      assert id !in existing ==> AnswerIn(responses[id]) == a && !SamePair(a, r);
    }
  }

  lemma {:induction false} AddedAnswer(responses: Responses, id: nat, s: Response, r: SG.Reply, a: Answer)
    requires AnswersRequest(responses, s.requestId, r) && SG.ResponsesTo(responses, s.requestId) == {}
    requires id !in responses && AnswerIn(s) == AnswerOf(r)
    ensures HasAnswer(responses[id := s], a) <==> a == AnswerOf(r) || (HasAnswer(responses, a) && !SamePair(a, r))
  {
    var responses' := responses[id := s];
    assert AnswerIn(responses'[id]) == AnswerOf(r);
    if HasAnswer(responses, a) {
      var i :| i in responses && AnswerIn(responses[i]) == a;
      assert AnswerIn(responses'[i]) == a;
      assert i !in SG.ResponsesTo(responses, s.requestId);
    }
  }

  /** The update of the existing responses, or the insert of a first one. */
  ghost predicate AnswerWritten(responses: Responses, responses': Responses, next: nat, r: SG.Reply, requestId: nat,
                                now: Instant)
  {
    var existing := SG.ResponsesTo(responses, requestId);
    responses' ==
    if existing != {}
    then map id | id in responses :: if id in existing then SG.Revised(responses[id], r) else responses[id]
    else responses[next := SG.ResponseOf(r, requestId, now)]
  }

  lemma {:induction false} ReplyWrites(db: Db, r: SG.Reply, now: Instant)
    requires SG.ReplyRefusal(db, r) == None
    ensures AnswerWritten(db.responses, SG.Responding(db, r, now).0.responses, db.nextResponse, r,
                          Least(SG.Between(db.requests, r.requester, r.responder)), now)
  {
  }

  lemma {:induction false} WrittenAnswers(responses: Responses, responses': Responses, next: nat, r: SG.Reply,
                                          requestId: nat, now: Instant, a: Answer)
    requires AnswersRequest(responses, requestId, r) && next !in responses
    requires AnswerWritten(responses, responses', next, r, requestId, now)
    ensures HasAnswer(responses', a) <==> a == AnswerOf(r) || (HasAnswer(responses, a) && !SamePair(a, r))
  {
    if SG.ResponsesTo(responses, requestId) != {} {
      RevisedAnswers(responses, responses', requestId, r, a);
    } else {
      AddedAnswer(responses, next, SG.ResponseOf(r, requestId, now), r, a);
    }
  }

  lemma {:induction false} ReplyAnswers(db: Db, r: SG.Reply, now: Instant, a: Answer)
    requires SG.GraphSound(db) && Below(db.responses, db.nextResponse)
    ensures HasAnswer(SG.Responding(db, r, now).0.responses, a)
       <==> if SG.ReplyRefusal(db, r) != None then HasAnswer(db.responses, a)
            else a == AnswerOf(r) || (HasAnswer(db.responses, a) && !SamePair(a, r))
  {
    if SG.ReplyRefusal(db, r) == None {
      var requestId := Least(SG.Between(db.requests, r.requester, r.responder));
      PairHasOneRequest(db.requests, db.responses, requestId, r);
      ReplyWrites(db, r, now);
      WrittenAnswers(db.responses, SG.Responding(db, r, now).0.responses, db.nextResponse, r, requestId, now, a);
    }
  }

  lemma {:induction false} RepliedAnswer(db: Db, op: Operation, responses: Responses, a: Answer)
    requires op.Respond?
    requires HasAnswer(responses, a)
        <==> if SG.ReplyRefusal(db, op.reply) != None then HasAnswer(db.responses, a)
             else a == AnswerOf(op.reply) || (HasAnswer(db.responses, a) && !SamePair(a, op.reply))
    ensures AnswerFollows(db, op, responses, a)
  {
    AccountAnswers.ReplyAnsweredExactly(db, op.reply, 0, true);
  }

  lemma {:induction false} ErasedAnswers(db: Db, user: Hash, a: Answer)
    ensures HasAnswer(Erasure.Scrubbed(db, user).responses, a)
       <==> HasAnswer(db.responses, a) && a.responder != user && a.requester != user
  {
    if HasAnswer(db.responses, a) && a.responder != user && a.requester != user {
      var id :| id in db.responses && AnswerIn(db.responses[id]) == a;
      assert Erasure.Scrubbed(db, user).responses[id] == db.responses[id];
    }
  }

  lemma {:induction false} DeletedAnswers(db: Db, op: Operation, a: Answer)
    requires op.DeleteAccount? && SG.GraphSound(db)
    ensures AnswerFollows(db, op, Deleting(db, op).responses, a)
  {
    if Deletes(db, op, op.user) {
      SG.GraphAgrees(db, op.user);
      Erasure.ErasureExactly(db, op.user);
      ErasedAnswers(db, op.user, a);
    }
  }

  // ---------------------------------------------------------------------------
  // One step
  // ---------------------------------------------------------------------------

  ghost predicate SameGraph(db: Db, db': Db) {
    db'.requests == db.requests && db'.responses == db.responses
  }

  lemma {:induction false} LoginGraph(db: Db, op: Operation, now: Instant)
    requires op.LogIn? && LoginKeys(db.users, db.challenges, db.sessions)
    ensures SameGraph(db, Login.LoggingIn(db, op.attempt, op.random, now).0)
  {
    Login.LoggingInOnly(db, op.attempt, op.random, now);
  }

  lemma {:induction false} PublishingGraph(db: Db, k: Login.KeyRequest)
    ensures SameGraph(db, Login.Publishing(db, k).0)
  {
  }

  lemma {:induction false} ClaimingGraph(db: Db, c: Login.Claim, token: Bytes, now: Instant)
    ensures SameGraph(db, Login.Claiming(db, c, token, now).0)
  {
  }

  lemma {:induction false} ContentGraph(db: Db, op: Operation, now: Instant)
    requires op.Register? || op.SendMessage? || op.RemoveMessages? || op.UploadPrekeys? || op.MarkPrekey?
    ensures SameGraph(db, Execute(db, op, now))
  {
  }

  lemma {:induction false} OtherGraph(db: Db, op: Operation, now: Instant)
    requires !op.Contact? && !op.Respond? && !op.DeleteAccount? && LoginKeys(db.users, db.challenges, db.sessions)
    ensures SameGraph(db, Execute(db, op, now))
  {
    match op {
      case LogIn(_, _) => LoginGraph(db, op, now);
      case PublishRecoveryKey(k) => PublishingGraph(db, k);
      case ClaimRecovery(c, token) => ClaimingGraph(db, c, token, now);
      case _ => ContentGraph(db, op, now);
    }
  }

  lemma {:induction false} ContactKeepsResponses(db: Db, c: SG.Contact)
    ensures SG.Contacting(db, c).0.responses == db.responses
  {
  }

  lemma {:induction false} ReplyKeepsRequests(db: Db, r: SG.Reply, now: Instant)
    ensures SG.Responding(db, r, now).0.requests == db.requests
  {
  }

  ghost predicate GraphFollows(db: Db, op: Operation, db': Db, q: Request, a: Answer) {
    RequestFollows(db, op, db'.requests, q) && AnswerFollows(db, op, db'.responses, a)
  }

  lemma {:induction false} ContactStep(db: Db, op: Operation, q: Request, a: Answer)
    requires op.Contact? && SG.RequestsSound(db.requests) && Below(db.requests, db.nextRequest)
    ensures GraphFollows(db, op, SG.Contacting(db, op.contact).0, q, a)
  {
    ContactRequests(db, op.contact, q);
    AskedRequest(db, op, SG.Contacting(db, op.contact).0.requests, q);
    ContactKeepsResponses(db, op.contact);
  }

  lemma {:induction false} ReplyStep(db: Db, op: Operation, now: Instant, q: Request, a: Answer)
    requires op.Respond? && SG.GraphSound(db) && Below(db.responses, db.nextResponse)
    ensures GraphFollows(db, op, SG.Responding(db, op.reply, now).0, q, a)
  {
    ReplyAnswers(db, op.reply, now, a);
    RepliedAnswer(db, op, SG.Responding(db, op.reply, now).0.responses, a);
    ReplyKeepsRequests(db, op.reply, now);
  }

  lemma {:induction false} DeletionStep(db: Db, op: Operation, q: Request, a: Answer)
    requires op.DeleteAccount? && SG.GraphSound(db)
    ensures GraphFollows(db, op, Deleting(db, op), q, a)
  {
    DeletedRequests(db, op, q);
    DeletedAnswers(db, op, a);
  }

  lemma {:induction false} SocialStep(db: Db, op: Operation, now: Instant, q: Request, a: Answer)
    requires (op.Contact? || op.Respond?) && SG.Sound(db)
    ensures GraphFollows(db, op, Execute(db, op, now), q, a)
  {
    if op.Contact? {
      ContactStep(db, op, q, a);
    } else {
      ReplyStep(db, op, now, q, a);
    }
  }

  lemma {:induction false} GraphStep(db: Db, op: Operation, now: Instant, q: Request, a: Answer)
    requires SG.Sound(db)
    ensures GraphFollows(db, op, Execute(db, op, now), q, a)
  {
    if op.Contact? || op.Respond? {
      SocialStep(db, op, now, q, a);
    } else if op.DeleteAccount? {
      DeletionStep(db, op, q, a);
    } else {
      OtherGraph(db, op, now);
      UntouchedFollows(db, op, Execute(db, op, now), q, a);
    }
  }

  lemma {:induction false} UntouchedFollows(db: Db, op: Operation, db': Db, q: Request, a: Answer)
    requires !op.Contact? && !op.Respond? && !op.DeleteAccount? && SameGraph(db, db')
    ensures GraphFollows(db, op, db', q, a)
  {
  }

  // ---------------------------------------------------------------------------
  // Runs
  // ---------------------------------------------------------------------------

  const NO_REQUEST := Request([], [], [], [], None, 0)
  const NO_ANSWER := Answer([], [], false, None, [])

  lemma {:induction false} GraphNext(states: seq<Db>, steps: seq<Step>, j: nat, q: Request, a: Answer)
    requires Behaviour(states, steps) && j < |steps|
    ensures GraphFollows(states[j], steps[j].op, states[j + 1], q, a)
  {
    RunKeepsSound(states, steps, j);
    assert Leads(states[j], steps[j], states[j + 1]);
    GraphStep(states[j], steps[j].op, steps[j].at, q, a);
  }

  ghost predicate RequestStands(states: seq<Db>, steps: seq<Step>, i: nat, k: nat, q: Request)
    requires |states| == |steps| + 1 && i < |states|
  {
    && k < i && SetsRequest(states[k], steps[k].op, q)
    && forall j | k < j < i :: !ResetsRequest(states[j], steps[j].op, q)
  }

  ghost predicate AnswerStands(states: seq<Db>, steps: seq<Step>, i: nat, k: nat, a: Answer)
    requires |states| == |steps| + 1 && i < |states|
  {
    && k < i && SetsAnswer(states[k], steps[k].op, a)
    && forall j | k < j < i :: !ResetsAnswer(states[j], steps[j].op, a)
  }

  lemma {:induction false} RequestLatch(states: seq<Db>, steps: seq<Step>, i: nat, q: Request)
    requires |states| == |steps| + 1 && i < |states| && !HasRequest(states[0].requests, q)
    requires forall j: nat | j < i :: RequestFollows(states[j], steps[j].op, states[j + 1].requests, q)
    ensures HasRequest(states[i].requests, q) <==> exists k: nat :: RequestStands(states, steps, i, k, q)
  {
    ghost var has := (j: nat) => j < |states| && HasRequest(states[j].requests, q);
    ghost var gained := (j: nat) => j < |steps| && SetsRequest(states[j], steps[j].op, q);
    ghost var lost := (j: nat) => j < |steps| && ResetsRequest(states[j], steps[j].op, q);
    LatchHolds(has, gained, lost, i);
    forall k: nat ensures Stands(gained, lost, i, k) <==> RequestStands(states, steps, i, k, q) {
      assert forall j: nat | j < i :: lost(j) <==> ResetsRequest(states[j], steps[j].op, q);
    }
  }

  lemma {:induction false} AnswerLatch(states: seq<Db>, steps: seq<Step>, i: nat, a: Answer)
    requires |states| == |steps| + 1 && i < |states| && !HasAnswer(states[0].responses, a)
    requires forall j: nat | j < i :: AnswerFollows(states[j], steps[j].op, states[j + 1].responses, a)
    ensures HasAnswer(states[i].responses, a) <==> exists k: nat :: AnswerStands(states, steps, i, k, a)
  {
    ghost var has := (j: nat) => j < |states| && HasAnswer(states[j].responses, a);
    ghost var gained := (j: nat) => j < |steps| && SetsAnswer(states[j], steps[j].op, a);
    ghost var lost := (j: nat) => j < |steps| && ResetsAnswer(states[j], steps[j].op, a);
    LatchHolds(has, gained, lost, i);
    forall k: nat ensures Stands(gained, lost, i, k) <==> AnswerStands(states, steps, i, k, a) {
      assert forall j: nat | j < i :: lost(j) <==> ResetsAnswer(states[j], steps[j].op, a);
    }
  }

  /** The stored request between two users is exactly the last one that was accepted
      from the one to the other, unless one of them was deleted since. */
  lemma {:induction false} RequestExactly(states: seq<Db>, steps: seq<Step>, i: nat, q: Request)
    requires Behaviour(states, steps) && i < |states|
    ensures HasRequest(states[i].requests, q) <==> exists k: nat :: RequestStands(states, steps, i, k, q)
  {
    forall j: nat | j < i ensures RequestFollows(states[j], steps[j].op, states[j + 1].requests, q) {
      GraphNext(states, steps, j, q, NO_ANSWER);
    }
    RequestLatch(states, steps, i, q);
  }

  /** The stored answer between two users is exactly the last one given, unless one of
      them was deleted since; asking again does not take it back. */
  lemma {:induction false} AnswerExactly(states: seq<Db>, steps: seq<Step>, i: nat, a: Answer)
    requires Behaviour(states, steps) && i < |states|
    ensures HasAnswer(states[i].responses, a) <==> exists k: nat :: AnswerStands(states, steps, i, k, a)
  {
    forall j: nat | j < i ensures AnswerFollows(states[j], steps[j].op, states[j + 1].responses, a) {
      GraphNext(states, steps, j, NO_REQUEST, a);
    }
    AnswerLatch(states, steps, i, a);
  }
}
