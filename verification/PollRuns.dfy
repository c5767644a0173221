/** Polling for answers with `since`: a revised answer keeps the time of the first one. */
module PollRuns {
  import opened Prelude
  import opened Schema
  import opened Ordering
  import opened AccountRuns
  import opened Latches
  import AccountAnswers
  import GraphRuns
  import SG = SocialGraph
  import Erasure

  ghost predicate Between(s: Response, responder: Hash, requester: Hash) {
    s.responder == responder && s.requester == requester
  }

  /** The answer between two users is dated `at`. */
  ghost predicate Dated(responses: Responses, responder: Hash, requester: Hash, at: Instant) {
    exists id | id in responses :: Between(responses[id], responder, requester) && responses[id].createdAt == at
  }

  ghost predicate Answered(responses: Responses, responder: Hash, requester: Hash) {
    exists id | id in responses :: Between(responses[id], responder, requester)
  }

  ghost predicate Replies(db: Db, op: Operation, responder: Hash, requester: Hash) {
    && op.Respond? && op.reply.responder == responder && op.reply.requester == requester
    && AccountAnswers.Answers(db, op.reply)
  }

  /** The step gives the first answer, not a revision. */
  ghost predicate FirstReply(db: Db, step: Step, responder: Hash, requester: Hash, at: Instant) {
    && Replies(db, step.op, responder, requester) && !Answered(db.responses, responder, requester) && step.at == at
  }

  ghost predicate Parts(db: Db, op: Operation, responder: Hash, requester: Hash) {
    Deletes(db, op, responder) || Deletes(db, op, requester)
  }

  ghost predicate DateFollows(db: Db, step: Step, responses: Responses, responder: Hash, requester: Hash, at: Instant) {
    Dated(responses, responder, requester, at)
    <==> FirstReply(db, step, responder, requester, at)
         || (Dated(db.responses, responder, requester, at) && !Parts(db, step.op, responder, requester))
  }

  // ---------------------------------------------------------------------------
  // One step
  // ---------------------------------------------------------------------------

  /** A revision changes no date. */
  lemma {:induction false} RevisedDates(responses: Responses, responses': Responses, ids: set<nat>, r: SG.Reply,
                                        responder: Hash, requester: Hash, at: Instant)
    requires responses' == map id | id in responses :: if id in ids then SG.Revised(responses[id], r) else responses[id]
    ensures Dated(responses', responder, requester, at) <==> Dated(responses, responder, requester, at)
  {
    if Dated(responses, responder, requester, at) {
      var id :| id in responses && Between(responses[id], responder, requester) && responses[id].createdAt == at;
      assert Between(responses'[id], responder, requester) && responses'[id].createdAt == at;
    }
    if Dated(responses', responder, requester, at) {
      var id :| id in responses' && Between(responses'[id], responder, requester) && responses'[id].createdAt == at;
      assert Between(responses[id], responder, requester) && responses[id].createdAt == at;
    }
  }

  lemma {:induction false} AddedDate(responses: Responses, id: nat, s: Response, responder: Hash, requester: Hash,
                                     at: Instant)
    requires id !in responses
    ensures Dated(responses[id := s], responder, requester, at)
       <==> Dated(responses, responder, requester, at) || (Between(s, responder, requester) && s.createdAt == at)
  {
    var responses' := responses[id := s];
    assert responses'[id] == s;
    if Dated(responses, responder, requester, at) {
      var i :| i in responses && Between(responses[i], responder, requester) && responses[i].createdAt == at;
      assert Between(responses'[i], responder, requester) && responses'[i].createdAt == at;
    }
  }

  /** A request has a response exactly when there is one between its two users. */
  lemma {:induction false} AnsweredRequest(responses: Responses, requestId: nat, r: SG.Reply)
    requires GraphRuns.AnswersRequest(responses, requestId, r)
    ensures SG.ResponsesTo(responses, requestId) == {} <==> !Answered(responses, r.responder, r.requester)
  {
    if Answered(responses, r.responder, r.requester) {
      var id :| id in responses && Between(responses[id], r.responder, r.requester);
      assert GraphRuns.SamePair(GraphRuns.AnswerIn(responses[id]), r);
      assert id in SG.ResponsesTo(responses, requestId);
    }
    if SG.ResponsesTo(responses, requestId) != {} {
      var id :| id in SG.ResponsesTo(responses, requestId);
      assert GraphRuns.SamePair(GraphRuns.AnswerIn(responses[id]), r);
      assert Between(responses[id], r.responder, r.requester);
    }
  }

  lemma {:induction false} AnswerDates(responses: Responses, responses': Responses, next: nat, r: SG.Reply,
                                       requestId: nat, now: Instant, responder: Hash, requester: Hash, at: Instant)
    requires GraphRuns.AnswersRequest(responses, requestId, r) && next !in responses
    requires GraphRuns.AnswerWritten(responses, responses', next, r, requestId, now)
    ensures Dated(responses', responder, requester, at)
       <==> || Dated(responses, responder, requester, at)
            || (&& !Answered(responses, r.responder, r.requester)
                && r.responder == responder && r.requester == requester && now == at)
  {
    AnsweredRequest(responses, requestId, r);
    var existing := SG.ResponsesTo(responses, requestId);
    if existing != {} {
      RevisedDates(responses, responses', existing, r, responder, requester, at);
    } else {
      AddedDate(responses, next, SG.ResponseOf(r, requestId, now), responder, requester, at);
    }
  }

  /** What an accepted reply does to the dates. */
  lemma {:induction false} ReplyDates(db: Db, r: SG.Reply, now: Instant, responder: Hash, requester: Hash, at: Instant)
    requires SG.GraphSound(db) && Below(db.responses, db.nextResponse) && SG.ReplyRefusal(db, r) == None
    ensures Dated(SG.Responding(db, r, now).0.responses, responder, requester, at)
       <==> || Dated(db.responses, responder, requester, at)
            || (&& !Answered(db.responses, r.responder, r.requester)
                && r.responder == responder && r.requester == requester && now == at)
  {
    var requestId := Least(SG.Between(db.requests, r.requester, r.responder));
    GraphRuns.PairHasOneRequest(db.requests, db.responses, requestId, r);
    GraphRuns.ReplyWrites(db, r, now);
    AnswerDates(db.responses, SG.Responding(db, r, now).0.responses, db.nextResponse, r, requestId, now,
                responder, requester, at);
  }

  lemma {:induction false} ReplyStep(db: Db, step: Step, responder: Hash, requester: Hash, at: Instant)
    requires step.op.Respond? && SG.GraphSound(db) && Below(db.responses, db.nextResponse)
    ensures DateFollows(db, step, SG.Responding(db, step.op.reply, step.at).0.responses, responder, requester, at)
  {
    AccountAnswers.ReplyAnsweredExactly(db, step.op.reply, step.at, true);
    if SG.ReplyRefusal(db, step.op.reply) == None {
      ReplyDates(db, step.op.reply, step.at, responder, requester, at);
    }
  }

  lemma {:induction false} ErasedDates(db: Db, user: Hash, responder: Hash, requester: Hash, at: Instant)
    ensures Dated(Erasure.Scrubbed(db, user).responses, responder, requester, at)
       <==> Dated(db.responses, responder, requester, at) && responder != user && requester != user
  {
    var responses' := Erasure.Scrubbed(db, user).responses;
    if Dated(db.responses, responder, requester, at) && responder != user && requester != user {
      var id :| && id in db.responses && Between(db.responses[id], responder, requester)
                && db.responses[id].createdAt == at;
      assert Between(responses'[id], responder, requester) && responses'[id].createdAt == at;
    }
    if Dated(responses', responder, requester, at) {
      var id :| id in responses' && Between(responses'[id], responder, requester) && responses'[id].createdAt == at;
      assert Between(db.responses[id], responder, requester) && db.responses[id].createdAt == at;
    }
  }

  lemma {:induction false} DeletionStep(db: Db, step: Step, responder: Hash, requester: Hash, at: Instant)
    requires step.op.DeleteAccount? && SG.GraphSound(db)
    ensures DateFollows(db, step, Deleting(db, step.op).responses, responder, requester, at)
  {
    if Deletes(db, step.op, step.op.user) {
      SG.GraphAgrees(db, step.op.user);
      Erasure.ErasureExactly(db, step.op.user);
      ErasedDates(db, step.op.user, responder, requester, at);
    }
  }

  lemma {:induction false} DateStep(db: Db, step: Step, responder: Hash, requester: Hash, at: Instant)
    requires SG.Sound(db)
    ensures DateFollows(db, step, Execute(db, step.op, step.at).responses, responder, requester, at)
  {
    if step.op.Respond? {
      ReplyStep(db, step, responder, requester, at);
    } else if step.op.DeleteAccount? {
      DeletionStep(db, step, responder, requester, at);
    } else if step.op.Contact? {
      GraphRuns.ContactKeepsResponses(db, step.op.contact);
    } else {
      GraphRuns.OtherGraph(db, step.op, step.at);
    }
  }

  // ---------------------------------------------------------------------------
  // Runs
  // ---------------------------------------------------------------------------

  /** Step `k` gave the first answer, and neither user was deleted since. */
  ghost predicate FirstStands(states: seq<Db>, steps: seq<Step>, i: nat, k: nat,
                              responder: Hash, requester: Hash, at: Instant)
    requires |states| == |steps| + 1 && i < |states|
  {
    && k < i && FirstReply(states[k], steps[k], responder, requester, at)
    && forall j | k < j < i :: !Parts(states[j], steps[j].op, responder, requester)
  }

  lemma {:induction false} DateLatch(states: seq<Db>, steps: seq<Step>, i: nat, responder: Hash, requester: Hash,
                                     at: Instant)
    requires |states| == |steps| + 1 && i < |states| && !Dated(states[0].responses, responder, requester, at)
    requires forall j: nat | j < i ::
               DateFollows(states[j], steps[j], states[j + 1].responses, responder, requester, at)
    ensures Dated(states[i].responses, responder, requester, at)
       <==> exists k: nat :: FirstStands(states, steps, i, k, responder, requester, at)
  {
    ghost var has := (j: nat) => j < |states| && Dated(states[j].responses, responder, requester, at);
    ghost var gained := (j: nat) => j < |steps| && FirstReply(states[j], steps[j], responder, requester, at);
    ghost var lost := (j: nat) => j < |steps| && Parts(states[j], steps[j].op, responder, requester);
    LatchHolds(has, gained, lost, i);
    forall k: nat
      ensures Stands(gained, lost, i, k) <==> FirstStands(states, steps, i, k, responder, requester, at)
    {
      assert forall j: nat | j < i :: lost(j) <==> Parts(states[j], steps[j].op, responder, requester);
    }
  }

  /** An answer is dated by the first reply, however often it was revised since. */
  lemma {:induction false} DatedExactly(states: seq<Db>, steps: seq<Step>, i: nat, responder: Hash, requester: Hash,
                                        at: Instant)
    requires Behaviour(states, steps) && i < |states|
    ensures Dated(states[i].responses, responder, requester, at)
       <==> exists k: nat :: FirstStands(states, steps, i, k, responder, requester, at)
  {
    forall j: nat | j < i
      ensures DateFollows(states[j], steps[j], states[j + 1].responses, responder, requester, at)
    {
      RunKeepsSound(states, steps, j);
      assert Leads(states[j], steps[j], states[j + 1]);
      DateStep(states[j], steps[j], responder, requester, at);
    }
    DateLatch(states, steps, i, responder, requester, at);
  }

  /** A poll of the requester shows something from the responder. */
  ghost predicate Shown(db: Db, responder: Hash, requester: Hash, cutoff: Option<Instant>) {
    exists f :: f in SG.MyResponses(db, requester, cutoff) && f.responder == responder
  }

  lemma {:induction false} ShownWhenDated(db: Db, responder: Hash, requester: Hash, cutoff: Option<Instant>)
    ensures Shown(db, responder, requester, cutoff)
       <==> exists at: Instant :: Dated(db.responses, responder, requester, at) && SG.Since(at, cutoff)
  {
    if Shown(db, responder, requester, cutoff) {
      var f :| f in SG.MyResponses(db, requester, cutoff) && f.responder == responder;
      var id :| && id in db.responses && db.responses[id].requester == requester
                && SG.Since(db.responses[id].createdAt, cutoff) && f.responder == db.responses[id].responder;
      assert Between(db.responses[id], responder, requester);
      assert Dated(db.responses, responder, requester, db.responses[id].createdAt);
    }
    if at: Instant :| Dated(db.responses, responder, requester, at) && SG.Since(at, cutoff) {
      var id :| && id in db.responses && Between(db.responses[id], responder, requester)
                && db.responses[id].createdAt == at;
      assert SG.AnsweredEntry(db.responses[id]) in SG.MyResponses(db, requester, cutoff);
    }
  }

  /** Over every run: a poll with a cutoff shows what a responder answered if and only if the
      first reply came after the cutoff, neither user having been deleted since; when it was
      revised plays no part. */
  lemma {:induction false} PollShowsExactly(states: seq<Db>, steps: seq<Step>, i: nat, responder: Hash, requester: Hash,
                                            cutoff: Option<Instant>)
    requires Behaviour(states, steps) && i < |states|
    ensures Shown(states[i], responder, requester, cutoff)
       <==> exists k: nat, at: Instant ::
              FirstStands(states, steps, i, k, responder, requester, at) && SG.Since(at, cutoff)
  {
    ShownWhenDated(states[i], responder, requester, cutoff);
    if at: Instant :| Dated(states[i].responses, responder, requester, at) && SG.Since(at, cutoff) {
      DatedExactly(states, steps, i, responder, requester, at);
    }
    if k: nat, at: Instant :| FirstStands(states, steps, i, k, responder, requester, at) && SG.Since(at, cutoff) {
      DatedExactly(states, steps, i, responder, requester, at);
    }
  }

  lemma {:induction false} DateUnique(db: Db, responder: Hash, requester: Hash, at: Instant, at': Instant)
    requires SG.GraphSound(db)
    requires Dated(db.responses, responder, requester, at) && Dated(db.responses, responder, requester, at')
    ensures at == at'
  {
    var id :| id in db.responses && Between(db.responses[id], responder, requester) && db.responses[id].createdAt == at;
    var id' :| && id' in db.responses && Between(db.responses[id'], responder, requester)
               && db.responses[id'].createdAt == at';
    SG.AnsweredOnce(db, requester, id, id');
  }

  /** So whoever polls from a time at or after the first reply never sees a revision. */
  lemma {:induction false} RevisionUnseen(states: seq<Db>, steps: seq<Step>, j: nat, i: nat, responder: Hash,
                                          requester: Hash, at: Instant, cutoff: Instant)
    requires Behaviour(states, steps) && j <= i < |states|
    requires Dated(states[j].responses, responder, requester, at) && at <= cutoff
    requires forall l | j <= l < i :: !Parts(states[l], steps[l].op, responder, requester)
    ensures !Shown(states[i], responder, requester, Some(cutoff))
  {
    DatedExactly(states, steps, j, responder, requester, at);
    var k: nat :| FirstStands(states, steps, j, k, responder, requester, at);
    assert FirstStands(states, steps, i, k, responder, requester, at);
    DatedExactly(states, steps, i, responder, requester, at);
    ShownWhenDated(states[i], responder, requester, Some(cutoff));
    RunKeepsSound(states, steps, i);
    forall at': Instant | Dated(states[i].responses, responder, requester, at') ensures at' <= cutoff {
      DateUnique(states[i], responder, requester, at, at');
    }
  }
}
