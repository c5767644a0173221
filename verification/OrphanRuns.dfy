/** Sends and account deletions interleaved statement by statement. A send first selects its
    two users and later inserts its message; an erasure deletes the messages of its user in
    its third statement and the user in its last. No foreign key ties messages to users. */
module OrphanRuns {
  import opened Schema

  type Handler = nat

  /** `erasing` are the users between the third and the last statement of an erasure. */
  datatype System = System(users: set<Hash>, messages: map<nat, Message>, next: nat, sending: map<Handler, Message>,
                           erasing: set<Hash>)

  const START := System({}, map[], 1, map[], {})

  datatype Step =
    | Register(user: Hash)
    | Check(handler: Handler, message: Message)
    | Insert(handler: Handler)
    | Remove(id: nat)
    | EraseMessages(user: Hash)
    | EraseUser(user: Hash)

  predicate Enabled(sys: System, step: Step) {
    match step
    case Register(_) => true
    case Check(handler, m) => handler !in sys.sending && m.sender in sys.users && m.recipient in sys.users
    case Insert(handler) => handler in sys.sending
    case Remove(_) => true
    case EraseMessages(_) => true
    case EraseUser(user) => user in sys.erasing
  }

  function Next(sys: System, step: Step): System
    requires Enabled(sys, step)
  {
    match step
    case Register(user) => sys.(users := sys.users + {user})
    case Check(handler, m) => sys.(sending := sys.sending[handler := m])
    case Insert(handler) =>
      sys.(messages := sys.messages[sys.next := sys.sending[handler]], next := sys.next + 1,
           sending := sys.sending - {handler})
    case Remove(id) => sys.(messages := sys.messages - {id})
    case EraseMessages(user) =>
      sys.(messages := map id | id in sys.messages && !MessageMentions(sys.messages[id], user) :: sys.messages[id],
           erasing := sys.erasing + {user})
    case EraseUser(user) => sys.(users := sys.users - {user}, erasing := sys.erasing - {user})
  }

  ghost predicate Leads(sys: System, step: Step, sys': System) {
    Enabled(sys, step) && sys' == Next(sys, step)
  }

  ghost predicate Behaviour(states: seq<System>, steps: seq<Step>) {
    && |states| == |steps| + 1
    && states[0] == START
    && forall i | 0 <= i < |steps| :: Leads(states[i], steps[i], states[i + 1])
  }

  // ---------------------------------------------------------------------------
  // Orphans, and how they come about
  // ---------------------------------------------------------------------------

  /** A stored message mentions somebody who is no user. */
  ghost predicate Orphan(sys: System, id: nat, user: Hash) {
    id in sys.messages && MessageMentions(sys.messages[id], user) && user !in sys.users
  }

  ghost predicate NeverOrphans(states: seq<System>) {
    forall k, id, user | 0 <= k < |states| :: !Orphan(states[k], id, user)
  }

  predicate Removes(step: Step, id: nat, m: Message) {
    (step.Remove? && step.id == id) || (step.EraseMessages? && MessageMentions(m, step.user))
  }

  /** Step `i` inserts message `m` as row `id`. */
  ghost predicate Inserts(states: seq<System>, steps: seq<Step>, i: nat, id: nat, m: Message)
    requires |states| == |steps| + 1
  {
    && i < |steps| && steps[i].Insert? && steps[i].handler in states[i].sending
    && id == states[i].next && m == states[i].sending[steps[i].handler]
  }

  ghost predicate Kept(steps: seq<Step>, i: nat, k: nat, id: nat, m: Message)
    requires k <= |steps|
  {
    forall j | i < j < k :: !Removes(steps[j], id, m)
  }

  /** Step `i` inserts a message of `user` too late: the user is gone, or step `e` deletes it
      although its messages have already been deleted, and this one is not removed meanwhile. */
  ghost predicate TooLate(states: seq<System>, steps: seq<Step>, i: nat, id: nat, m: Message, user: Hash)
    requires |states| == |steps| + 1
  {
    && Inserts(states, steps, i, id, m) && MessageMentions(m, user)
    && (|| user !in states[i].users
        || (user in states[i].erasing
            && exists e: nat :: i < e < |steps| && steps[e] == EraseUser(user) && Kept(steps, i, e, id, m)))
  }

  // ---------------------------------------------------------------------------
  // Rows
  // ---------------------------------------------------------------------------

  lemma {:induction false} RunBelow(states: seq<System>, steps: seq<Step>, i: nat, j: nat)
    requires Behaviour(states, steps) && i <= j < |states|
    ensures Below(states[j].messages, states[j].next) && states[i].next <= states[j].next
  {
    if j > 0 {
      RunBelow(states, steps, if i < j then i else j - 1, j - 1);
      assert Leads(states[j - 1], steps[j - 1], states[j - 1 + 1]);
    }
  }

  lemma {:induction false} RowStays(states: seq<System>, steps: seq<Step>, i: nat, k: nat, id: nat, m: Message)
    requires Behaviour(states, steps) && i < k < |states|
    requires Inserts(states, steps, i, id, m) && Kept(steps, i, k, id, m)
    ensures id in states[k].messages && states[k].messages[id] == m
  {
    assert Leads(states[k - 1], steps[k - 1], states[k - 1 + 1]);
    if i < k - 1 {
      RowStays(states, steps, i, k - 1, id, m);
      RunBelow(states, steps, i, k - 1);
    }
  }

  lemma {:induction false} RowInserted(states: seq<System>, steps: seq<Step>, k: nat, id: nat) returns (i: nat)
    requires Behaviour(states, steps) && k < |states| && id in states[k].messages
    ensures i < k && Inserts(states, steps, i, id, states[k].messages[id])
    ensures Kept(steps, i, k, id, states[k].messages[id])
  {
    assert Leads(states[k - 1], steps[k - 1], states[k - 1 + 1]);
    RunBelow(states, steps, k - 1, k - 1);
    if id in states[k - 1].messages {
      i := RowInserted(states, steps, k - 1, id);
    } else {
      i := k - 1;
    }
  }

  // ---------------------------------------------------------------------------
  // Users
  // ---------------------------------------------------------------------------

  /** A user that is gone at `k` but was there at `i` was deleted in between. */
  lemma {:induction false} UserErased(states: seq<System>, steps: seq<Step>, i: nat, k: nat, user: Hash)
    returns (e: nat)
    requires Behaviour(states, steps) && i <= k < |states| && user in states[i].users && user !in states[k].users
    ensures i <= e < k && steps[e] == EraseUser(user)
  {
    assert Leads(states[k - 1], steps[k - 1], states[k - 1 + 1]);
    if user in states[k - 1].users {
      e := k - 1;
    } else {
      e := UserErased(states, steps, i, k - 1, user);
    }
  }

  /** If a user's messages are not deleted between `i` and `e`, an erasure that is past that
      statement at `e` was past it at `i`. */
  lemma {:induction false} ErasingSince(states: seq<System>, steps: seq<Step>, i: nat, e: nat, user: Hash)
    requires Behaviour(states, steps) && i <= e < |states| && user in states[e].erasing
    requires forall j | i <= j < e :: steps[j] != EraseMessages(user)
    ensures user in states[i].erasing
  {
    if i < e {
      assert Leads(states[e - 1], steps[e - 1], states[e - 1 + 1]);
      ErasingSince(states, steps, i, e - 1, user);
    }
  }

  // ---------------------------------------------------------------------------
  // The theorem
  // ---------------------------------------------------------------------------

  lemma {:induction false} OrphanTooLate(states: seq<System>, steps: seq<Step>, k: nat, id: nat, user: Hash)
    returns (i: nat)
    requires Behaviour(states, steps) && k < |states| && Orphan(states[k], id, user)
    ensures TooLate(states, steps, i, id, states[k].messages[id], user)
  {
    var m := states[k].messages[id];
    i := RowInserted(states, steps, k, id);
    if user in states[i].users {
      var e := UserErased(states, steps, i, k, user);
      assert Leads(states[e], steps[e], states[e + 1]);
      assert forall j | i <= j < e :: steps[j] != EraseMessages(user);
      ErasingSince(states, steps, i, e, user);
      assert i < e && Kept(steps, i, e, id, m);
    }
  }

  lemma {:induction false} TooLateOrphans(states: seq<System>, steps: seq<Step>, i: nat, id: nat, m: Message,
                                          user: Hash)
    returns (k: nat)
    requires Behaviour(states, steps) && TooLate(states, steps, i, id, m, user)
    ensures k < |states| && Orphan(states[k], id, user)
  {
    if user !in states[i].users {
      k := i + 1;
      assert Leads(states[i], steps[i], states[i + 1]);
    } else {
      var e: nat :| i < e < |steps| && steps[e] == EraseUser(user) && Kept(steps, i, e, id, m);
      k := e + 1;
      assert Leads(states[e], steps[e], states[e + 1]);
      RowStays(states, steps, i, e, id, m);
    }
  }

  /** Over every run of interleaved sends and erasures: a stored message never mentions a deleted
      account if and only if no insert comes too late, that is, after its user is gone, or
      after the statement that deletes the user's messages and before the one that deletes
      the user. */
  lemma {:induction false} NeverOrphansExactly(states: seq<System>, steps: seq<Step>)
    requires Behaviour(states, steps)
    ensures NeverOrphans(states)
       <==> forall i: nat, id: nat, m: Message, user: Hash :: !TooLate(states, steps, i, id, m, user)
  {
    if i: nat, id: nat, m: Message, user: Hash :| TooLate(states, steps, i, id, m, user) {
      var k := TooLateOrphans(states, steps, i, id, m, user);
    }
    if k, id, user :| 0 <= k < |states| && Orphan(states[k], id, user) {
      var i := OrphanTooLate(states, steps, k, id, user);
    }
  }

  /** A message from `v` to `u`, inserted while `u` is being erased. */
  function RacingErasure(u: Hash, v: Hash, m: Message): seq<Step> {
    [Register(u), Register(v), Check(1, m), EraseMessages(u), Insert(1), EraseUser(u)]
  }

  /** The race is real: the message survives its recipient. */
  lemma {:induction false} RaceOrphans(u: Hash, v: Hash, m: Message) returns (states: seq<System>)
    requires u != v && m.sender == v && m.recipient == u
    ensures Behaviour(states, RacingErasure(u, v, m)) && Orphan(states[6], 1, u)
  {
    var steps := RacingErasure(u, v, m);
    var s2 := START.(users := {u, v});
    var s3 := s2.(sending := map[1 := m]);
    var s4 := s3.(erasing := {u});
    var s5 := s4.(messages := map[1 := m], next := 2, sending := map[]);
    assert Leads(START, steps[0], START.(users := {u})) && Leads(START.(users := {u}), steps[1], s2);
    assert Leads(s2, steps[2], s3) && Leads(s3, steps[3], s4) && Leads(s4, steps[4], s5);
    states := [START, START.(users := {u}), s2, s3, s4, s5, Next(s5, steps[5])];
  }
}
