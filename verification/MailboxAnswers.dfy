/** What the relay and blob handlers answer, told from the requests of a run alone. */
module MailboxAnswers {
  import opened Prelude
  import opened Mailbox
  import RL = RateLimit
  import RH = RateLimitHistory

  // ---------------------------------------------------------------------------
  // Runs, state by state
  // ---------------------------------------------------------------------------

  ghost predicate Leads(s: State, e: Event, s': State) {
    s' == Execute(s, e.op, e.at).0
  }

  ghost predicate Behaviour(states: seq<State>, run: Run) {
    && |states| == |run| + 1
    && states[0] == INITIAL
    && (forall i | 0 <= i < |run| :: Leads(states[i], run[i], states[i + 1]))
    && Ordered(run)
  }

  /** What event `i` is answered. */
  ghost function Answer(states: seq<State>, run: Run, i: nat): Response
    requires |states| == |run| + 1 && i < |run|
  {
    Execute(states[i], run[i].op, run[i].at).1
  }

  // ---------------------------------------------------------------------------
  // Requests in order
  // ---------------------------------------------------------------------------

  /** The time stamp and the server's clock are at most 900 whole seconds apart. */
  predicate Timely(timestamp: nat, at: Instant) {
    -900 <= at / 1_000_000_000 - timestamp <= 900
  }

  /** A push that gets as far as the limiter. */
  predicate PushInOrder(e: Event) {
    && e.op.PushRelay? && e.op.device != [] && e.op.ciphertext != [] && |e.op.nonce| == 12
    && e.op.sender != [] && e.op.signature != [] && Timely(e.op.timestamp, e.at)
  }

  predicate BlobInOrder(e: Event) {
    && e.op.PushBlob? && e.op.device != [] && e.op.ciphertext != []
    && e.op.sender != [] && e.op.signature != [] && Timely(e.op.timestamp, e.at)
  }

  predicate IsOwners(op: Operation) {
    op.FetchRelay? || op.AckRelay? || op.FetchBlob? || op.DeleteBlob?
  }

  /** A request signed by the owner of the device key. */
  predicate ByOwner(e: Event) {
    && IsOwners(e.op) && e.op.device != [] && e.op.signature != [] && Timely(e.op.timestamp, e.at) && e.op.verified
  }

  // ---------------------------------------------------------------------------
  // What the limiters see
  // ---------------------------------------------------------------------------

  function PushSeen(e: Event): Option<RL.Event> {
    if PushInOrder(e) then Some(RL.Request(e.op.sender, e.at, e.at))
    else if e.op.CleanLimiters? then Some(RL.Cleanup(e.at))
    else None
  }

  function BlobSeen(e: Event): Option<RL.Event> {
    if BlobInOrder(e) then Some(RL.Request(e.op.sender, e.at, e.at))
    else if e.op.CleanLimiters? then Some(RL.Cleanup(e.at))
    else None
  }

  function PushLog(run: Run): RH.Log {
    seq(|run|, i requires 0 <= i < |run| => PushSeen(run[i]))
  }

  function BlobLog(run: Run): RH.Log {
    seq(|run|, i requires 0 <= i < |run| => BlobSeen(run[i]))
  }

  /** The limiter of 60 pushes per 60 s admits event `i`. */
  ghost predicate PushAdmitted(run: Run, i: nat) {
    RH.Admits(RL.Limits(60, 60), PushLog(run), i)
  }

  /** The limiter of 20 blobs per 60 s admits event `i`. */
  ghost predicate BlobAdmitted(run: Run, i: nat) {
    RH.Admits(RL.Limits(20, 60), BlobLog(run), i)
  }

  /** Event `i` is a push that is stored. */
  ghost predicate PushAccepted(run: Run, i: nat) {
    i < |run| && PushInOrder(run[i]) && PushAdmitted(run, i) && run[i].op.verified
  }

  ghost predicate BlobAccepted(run: Run, i: nat) {
    i < |run| && BlobInOrder(run[i]) && BlobAdmitted(run, i) && run[i].op.verified
  }

  /** How many of the first `i` events are pushes that are stored. */
  ghost function CountAccepted(run: Run, i: nat): nat {
    if i == 0 then 0 else CountAccepted(run, i - 1) + if PushAccepted(run, i - 1) then 1 else 0
  }

  // ---------------------------------------------------------------------------
  // The limiters along a run
  // ---------------------------------------------------------------------------

  lemma {:induction false} PushTableFollows(s: State, e: Event)
    ensures RH.Follows(RL.Limits(60, 60), s.pushTable, PushSeen(e), Execute(s, e.op, e.at).0.pushTable)
  {
    if e.op.PushRelay? {
      assert Execute(s, e.op, e.at) == Pushing(s, e.op, e.at);
    } else if e.op.CleanLimiters? {
      assert Execute(s, e.op, e.at).0 == LimitersCleaned(s, e.at);
    }
  }

  lemma {:induction false} BlobTableFollows(s: State, e: Event)
    ensures RH.Follows(RL.Limits(20, 60), s.blobTable, BlobSeen(e), Execute(s, e.op, e.at).0.blobTable)
  {
    if e.op.PushBlob? {
      assert Execute(s, e.op, e.at) == PushingBlob(s, e.op, e.at);
    } else if e.op.CleanLimiters? {
      assert Execute(s, e.op, e.at).0 == LimitersCleaned(s, e.at);
    }
  }

  lemma {:induction false} PushDecided(states: seq<State>, run: Run, i: nat)
    requires Behaviour(states, run) && i < |run| && PushInOrder(run[i])
    ensures RL.Decide(RL.RELAY_PUSH, states[i].pushTable, run[i].op.sender, run[i].at, run[i].at).1
       <==> PushAdmitted(run, i)
  {
    var tables := seq(|states|, j requires 0 <= j < |states| => states[j].pushTable);
    forall j | 0 <= j < |run|
      ensures RH.Follows(RL.Limits(60, 60), tables[j], PushLog(run)[j], tables[j + 1])
    {
      assert Leads(states[j], run[j], states[j + 1]);
      PushTableFollows(states[j], run[j]);
    }
    RH.AdmittedExactly(RL.Limits(60, 60), tables, PushLog(run), 0, i);
  }

  lemma {:induction false} BlobDecided(states: seq<State>, run: Run, i: nat)
    requires Behaviour(states, run) && i < |run| && BlobInOrder(run[i])
    ensures RL.Decide(RL.BLOB_PUSH, states[i].blobTable, run[i].op.sender, run[i].at, run[i].at).1
       <==> BlobAdmitted(run, i)
  {
    var tables := seq(|states|, j requires 0 <= j < |states| => states[j].blobTable);
    forall j | 0 <= j < |run|
      ensures RH.Follows(RL.Limits(20, 60), tables[j], BlobLog(run)[j], tables[j + 1])
    {
      assert Leads(states[j], run[j], states[j + 1]);
      BlobTableFollows(states[j], run[j]);
    }
    RH.AdmittedExactly(RL.Limits(20, 60), tables, BlobLog(run), 0, i);
  }

  // ---------------------------------------------------------------------------
  // Pushes
  // ---------------------------------------------------------------------------

  lemma {:induction false} PushedWhenAccepted(states: seq<State>, run: Run, i: nat)
    requires Behaviour(states, run) && i < |run|
    ensures Answer(states, run, i).Pushed? <==> PushAccepted(run, i)
    ensures PushAccepted(run, i) ==> Answer(states, run, i) == Pushed(states[i].nextId)
    ensures states[i + 1].nextId == states[i].nextId + if PushAccepted(run, i) then 1 else 0
  {
    assert Leads(states[i], run[i], states[i + 1]);
    if PushInOrder(run[i]) {
      PushDecided(states, run, i);
    }
    if run[i].op.PushRelay? {
      assert Execute(states[i], run[i].op, run[i].at) == Pushing(states[i], run[i].op, run[i].at);
    }
  }

  lemma {:induction false} NextIdCounts(states: seq<State>, run: Run, i: nat)
    requires Behaviour(states, run) && i < |states|
    ensures states[i].nextId == 1 + CountAccepted(run, i)
  {
    if i > 0 {
      NextIdCounts(states, run, i - 1);
      PushedWhenAccepted(states, run, i - 1);
      assert states[i - 1 + 1] == states[i];
    }
  }

  /** Over every run, what each push is answered. It is stored, with the number of pushes
      stored so far as its id, if and only if it is in order, among the 60 that its window
      admits, and signed; and each refusal tells the first thing wrong with it. */
  lemma {:induction false} PushAnsweredExactly(states: seq<State>, run: Run, i: nat, id: nat)
    requires Behaviour(states, run) && i < |run| && run[i].op.PushRelay?
    ensures var op, answer := run[i].op, Answer(states, run, i);
            && (answer == Pushed(id) <==> PushAccepted(run, i) && id == CountAccepted(run, i) + 1)
            && (answer == Refused(EmptyDevice) <==> op.device == [])
            && (answer == Refused(InvalidPayload) <==> op.device != [] && (op.ciphertext == [] || |op.nonce| != 12))
            && (answer == Refused(SenderRequired)
                <==> && op.device != [] && op.ciphertext != [] && |op.nonce| == 12
                     && (op.sender == [] || op.signature == []))
            && (answer == Refused(StaleTimestamp)
                <==> && op.device != [] && op.ciphertext != [] && |op.nonce| == 12
                     && op.sender != [] && op.signature != [] && !Timely(op.timestamp, run[i].at))
            && (answer == Refused(RateLimited) <==> PushInOrder(run[i]) && !PushAdmitted(run, i))
            && (answer == Refused(InvalidSignature) <==> PushInOrder(run[i]) && PushAdmitted(run, i) && !op.verified)
  {
    PushedWhenAccepted(states, run, i);
    NextIdCounts(states, run, i);
    if PushInOrder(run[i]) {
      PushDecided(states, run, i);
    }
    assert Answer(states, run, i) == Pushing(states[i], run[i].op, run[i].at).1;
  }

  // ---------------------------------------------------------------------------
  // Blobs
  // ---------------------------------------------------------------------------

  /** Over every run, what each upload of a blob is answered. */
  lemma {:induction false} BlobAnsweredExactly(states: seq<State>, run: Run, i: nat)
    requires Behaviour(states, run) && i < |run| && run[i].op.PushBlob?
    ensures var op, answer := run[i].op, Answer(states, run, i);
            && (answer == Done <==> BlobAccepted(run, i))
            && (answer == Refused(EmptyDevice) <==> op.device == [])
            && (answer == Refused(InvalidPayload) <==> op.device != [] && op.ciphertext == [])
            && (answer == Refused(SenderRequired)
                <==> op.device != [] && op.ciphertext != [] && (op.sender == [] || op.signature == []))
            && (answer == Refused(StaleTimestamp)
                <==> && op.device != [] && op.ciphertext != []
                     && op.sender != [] && op.signature != [] && !Timely(op.timestamp, run[i].at))
            && (answer == Refused(RateLimited) <==> BlobInOrder(run[i]) && !BlobAdmitted(run, i))
            && (answer == Refused(InvalidSignature) <==> BlobInOrder(run[i]) && BlobAdmitted(run, i) && !op.verified)
  {
    if BlobInOrder(run[i]) {
      BlobDecided(states, run, i);
    }
    assert Answer(states, run, i) == PushingBlob(states[i], run[i].op, run[i].at).1;
  }

  // ---------------------------------------------------------------------------
  // Requests of the owner
  // ---------------------------------------------------------------------------

  /** In any state: fetches, acknowledgements and deletions are refused for the first thing
      wrong with them, and otherwise served. */
  lemma {:induction false} OwnerAnsweredExactly(s: State, e: Event)
    requires IsOwners(e.op)
    ensures var op, answer := e.op, Execute(s, e.op, e.at).1;
            && (answer == Refused(EmptyDevice) <==> op.device == [])
            && (answer == Refused(SignatureRequired) <==> op.device != [] && op.signature == [])
            && (answer == Refused(StaleTimestamp)
                <==> op.device != [] && op.signature != [] && !Timely(op.timestamp, e.at))
            && (answer == Refused(InvalidSignature)
                <==> op.device != [] && op.signature != [] && Timely(op.timestamp, e.at) && !op.verified)
            && (ByOwner(e) <==> if op.FetchRelay? then answer.Entries?
                                else if op.FetchBlob? then answer.FetchedBlob? || answer == Refused(NotFound)
                                else answer == Done)
  {
    match e.op {
      case FetchRelay(_, _, _, _, _, _) => assert Execute(s, e.op, e.at).1 == Fetching(s, e.op, e.at);
      case AckRelay(_, _, _, _, _) => assert Execute(s, e.op, e.at) == Acking(s, e.op, e.at);
      case FetchBlob(_, _, _, _) => assert Execute(s, e.op, e.at).1 == FetchingBlob(s, e.op, e.at);
      case DeleteBlob(_, _, _, _) => assert Execute(s, e.op, e.at) == DeletingBlob(s, e.op, e.at);
    }
  }
}
