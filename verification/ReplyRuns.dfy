/** Replies to friend requests interleaved statement by statement: a reply first counts the
    responses there are to its request, and only then updates them or inserts one. Nothing
    in the schema makes the response to a request unique. */
module ReplyRuns {
  import opened Prelude
  import opened Schema
  import SG = SocialGraph

  type Handler = nat

  /** What a reply has counted: whether its request has a response. */
  datatype Counted = Counted(requestId: nat, answered: bool)

  datatype System = System(responses: Responses, next: nat, counted: map<Handler, Counted>)

  const START := System(map[], 1, map[])

  datatype Step =
    | Count(handler: Handler, requestId: nat)
    | Write(handler: Handler, reply: SG.Reply, at: Instant)

  predicate Enabled(sys: System, step: Step) {
    match step
    case Count(handler, _) => handler !in sys.counted
    case Write(handler, _, _) => handler in sys.counted
  }

  function Written(sys: System, c: Counted, r: SG.Reply, now: Instant): System {
    if c.answered then
      sys.(responses := map id | id in sys.responses ::
             if sys.responses[id].requestId == c.requestId then SG.Revised(sys.responses[id], r) else sys.responses[id])
    else
      sys.(responses := sys.responses[sys.next := SG.ResponseOf(r, c.requestId, now)], next := sys.next + 1)
  }

  function Next(sys: System, step: Step): System
    requires Enabled(sys, step)
  {
    match step
    case Count(handler, requestId) =>
      sys.(counted := sys.counted[handler := Counted(requestId, SG.ResponsesTo(sys.responses, requestId) != {})])
    case Write(handler, reply, at) =>
      Written(sys, sys.counted[handler], reply, at).(counted := sys.counted - {handler})
  }

  ghost predicate Leads(sys: System, step: Step, sys': System) {
    Enabled(sys, step) && sys' == Next(sys, step)
  }

  ghost predicate Behaviour(states: seq<System>, steps: seq<Step>) {
    && |states| == |steps| + 1
    && states[0] == START
    && forall i | 0 <= i < |steps| :: Leads(states[i], steps[i], states[i + 1])
  }

  // ---------------------------------------------------------------------------
  // The property, and the condition under which it holds
  // ---------------------------------------------------------------------------

  ghost predicate OnePerRequest(responses: Responses) {
    forall id, id' | id in responses && id' in responses && responses[id].requestId == responses[id'].requestId ::
      id == id'
  }

  /** The step inserts a response to the request. */
  ghost predicate Inserts(sys: System, step: Step, requestId: nat) {
    step.Write? && step.handler in sys.counted && sys.counted[step.handler] == Counted(requestId, false)
  }

  /** When step `i` inserts a first response, the handler of step `j`, which will insert
      another to the same request, has already counted none. */
  ghost predicate Overlap(states: seq<System>, steps: seq<Step>, i: nat, j: nat, requestId: nat)
    requires |states| == |steps| + 1
  {
    && i < j < |steps| && Inserts(states[i], steps[i], requestId) && Inserts(states[j], steps[j], requestId)
    && steps[j].handler in states[i].counted && states[i].counted[steps[j].handler] == Counted(requestId, false)
  }

  // ---------------------------------------------------------------------------
  // What every step keeps
  // ---------------------------------------------------------------------------

  ghost predicate Keeps(sys: System, sys': System) {
    && (forall id | id in sys.responses ::
          id in sys'.responses && sys'.responses[id].requestId == sys.responses[id].requestId)
    && sys.next <= sys'.next
  }

  lemma {:induction false} StepKeeps(sys: System, step: Step)
    requires Enabled(sys, step) && Below(sys.responses, sys.next)
    ensures Keeps(sys, Next(sys, step)) && Below(Next(sys, step).responses, Next(sys, step).next)
  {
  }

  lemma {:induction false} RunKeeps(states: seq<System>, steps: seq<Step>, i: nat, j: nat)
    requires Behaviour(states, steps) && i <= j < |states|
    ensures Below(states[j].responses, states[j].next) && Keeps(states[i], states[j])
    decreases j - i, i
  {
    if i < j {
      RunKeeps(states, steps, i, j - 1);
      assert Leads(states[j - 1], steps[j - 1], states[j - 1 + 1]);
      StepKeeps(states[j - 1], steps[j - 1]);
    } else if i > 0 {
      BelowThroughout(states, steps, i);
    }
  }

  lemma {:induction false} BelowThroughout(states: seq<System>, steps: seq<Step>, i: nat)
    requires Behaviour(states, steps) && i < |states|
    ensures Below(states[i].responses, states[i].next)
    decreases 0, i
  {
    if i > 0 {
      BelowThroughout(states, steps, i - 1);
      assert Leads(states[i - 1], steps[i - 1], states[i - 1 + 1]);
      StepKeeps(states[i - 1], steps[i - 1]);
    }
  }

  // ---------------------------------------------------------------------------
  // One response per request, exactly without overlap
  // ---------------------------------------------------------------------------

  /** Which step inserted a response. */
  lemma {:induction false} Writer(states: seq<System>, steps: seq<Step>, k: nat, id: nat) returns (i: nat)
    requires Behaviour(states, steps) && k < |states| && id in states[k].responses
    ensures i < k && Inserts(states[i], steps[i], states[k].responses[id].requestId) && states[i].next == id
  {
    assert Leads(states[k - 1], steps[k - 1], states[k - 1 + 1]);
    if id in states[k - 1].responses {
      RunKeeps(states, steps, k - 1, k);
      i := Writer(states, steps, k - 1, id);
    } else {
      i := k - 1;
    }
  }

  lemma {:induction false} Inserted(states: seq<System>, steps: seq<Step>, i: nat, k: nat, requestId: nat)
    requires Behaviour(states, steps) && i < k < |states| && Inserts(states[i], steps[i], requestId)
    ensures var id := states[i].next;
            id in states[k].responses && states[k].responses[id].requestId == requestId && id < states[k].next
  {
    assert Leads(states[i], steps[i], states[i + 1]);
    RunKeeps(states, steps, i + 1, k);
  }

  /** A handler can only come to count none while there is none. */
  lemma {:induction false} CountedSince(states: seq<System>, steps: seq<Step>, i: nat, j: nat, handler: Handler,
                                        id: nat)
    requires Behaviour(states, steps) && i <= j < |states| && id in states[i].responses
    requires handler in states[j].counted
    requires states[j].counted[handler] == Counted(states[i].responses[id].requestId, false)
    ensures handler in states[i].counted && states[i].counted[handler] == states[j].counted[handler]
  {
    if i < j {
      RunKeeps(states, steps, i, j - 1);
      assert Leads(states[j - 1], steps[j - 1], states[j - 1 + 1]);
      var requestId := states[i].responses[id].requestId;
      assert id in SG.ResponsesTo(states[j - 1].responses, requestId);
      CountedSince(states, steps, i, j - 1, handler, id);
    }
  }

  lemma {:induction false} TwoOverlap(states: seq<System>, steps: seq<Step>, id: nat, id': nat)
    returns (i: nat, j: nat, requestId: nat)
    requires Behaviour(states, steps)
    requires id in states[|steps|].responses && id' in states[|steps|].responses && id < id'
    requires states[|steps|].responses[id].requestId == states[|steps|].responses[id'].requestId
    ensures Overlap(states, steps, i, j, requestId)
  {
    requestId := states[|steps|].responses[id].requestId;
    i := Writer(states, steps, |steps|, id);
    j := Writer(states, steps, |steps|, id');
    if j < i {
      RunKeeps(states, steps, j, i);
    }
    assert i < j;
    Inserted(states, steps, i, i + 1, requestId);
    CountedSince(states, steps, i + 1, j, steps[j].handler, id);
    assert Leads(states[i], steps[i], states[i + 1]);
  }

  /** Over every run of interleaved replies: each request has at most one response if and only
      if no two first replies to it overlap, the second having counted none before the first
      is inserted. */
  lemma {:induction false} OneResponseExactly(states: seq<System>, steps: seq<Step>)
    requires Behaviour(states, steps)
    ensures OnePerRequest(states[|steps|].responses)
       <==> forall i: nat, j: nat, r: nat :: !Overlap(states, steps, i, j, r)
  {
    var n := |steps|;
    if i: nat, j: nat, r: nat :| Overlap(states, steps, i, j, r) {
      Inserted(states, steps, i, j, r);
      Inserted(states, steps, i, n, r);
      Inserted(states, steps, j, n, r);
      assert states[i].next < states[j].next;
    }
    if !OnePerRequest(states[n].responses) {
      var id, id' :| id in states[n].responses && id' in states[n].responses && id != id'
                     && states[n].responses[id].requestId == states[n].responses[id'].requestId;
      if id < id' {
        var i, j, r := TwoOverlap(states, steps, id, id');
      } else {
        var i, j, r := TwoOverlap(states, steps, id', id);
      }
    }
  }

  function RacingReplies(r: SG.Reply, r': SG.Reply): seq<Step> {
    [Count(1, 7), Count(2, 7), Write(1, r, 0), Write(2, r', 0)]
  }

  /** The race is real: two overlapping replies leave two responses to one request. */
  lemma {:induction false} RaceRepliesTwice(r: SG.Reply, r': SG.Reply) returns (states: seq<System>)
    ensures Behaviour(states, RacingReplies(r, r'))
    ensures SG.ResponsesTo(states[4].responses, 7) == {1, 2}
  {
    var steps := RacingReplies(r, r');
    var s1 := START.(counted := map[1 := Counted(7, false)]);
    var s2 := START.(counted := map[1 := Counted(7, false), 2 := Counted(7, false)]);
    var s3 := System(map[1 := SG.ResponseOf(r, 7, 0)], 2, map[2 := Counted(7, false)]);
    var s4 := System(map[1 := SG.ResponseOf(r, 7, 0), 2 := SG.ResponseOf(r', 7, 0)], 3, map[]);
    assert SG.ResponsesTo(map[], 7) == {};
    assert Leads(START, steps[0], s1) && Leads(s1, steps[1], s2);
    assert Leads(s2, steps[2], s3) && Leads(s3, steps[3], s4);
    states := [START, s1, s2, s3, s4];
  }
}
