/** The message store and one recipient that fetches and acknowledges, while anyone
    sends, time passes, expired rows are deleted and accounts are erased. */
module MessageClient {
  import opened Prelude
  import opened Ordering
  import opened Schema
  import opened Messages
  import MessageRuns

  /** `log` remembers every row ever stored, and `erased` those that went with an account;
      `received` are the rows that came in, `pending` those of them still to be acknowledged. */
  datatype System = System(store: Store, now: Instant, log: Mail, erased: set<nat>,
                           received: seq<nat>, pending: set<nat>)

  datatype Step =
    | Tick(elapsed: nat)
    | Serve(op: MessageRuns.Operation, users: set<Hash>)
    | ClientFetch(limit: u32, page: seq<nat>)
    | ClientAck(id: nat, users: set<Hash>, signature: Bytes)

  const START := System(EMPTY_STORE, 0, map[], {}, [], {})

  /** Nobody else can acknowledge the recipient's messages: the signature check fails. The
      recipient fetches again only once it has acknowledged all it got. */
  ghost predicate Enabled(sys: System, user: Hash, step: Step) {
    match step
    case Tick(_) => true
    case Serve(op, _) => op.Acknowledge? && op.ack.recipient == user ==> !op.ack.verified
    case ClientFetch(limit, page) =>
      sys.pending == {} && IsPage(sys.store.mail, Selected(sys.store.mail, user, 0, sys.now), Limit(limit), page)
    case ClientAck(id, users, signature) =>
      id in sys.pending && id in sys.log && user in users && user != [] && signature != []
  }

  function Logged(log: Mail, s: Store, s': Store): Mail {
    if s.next in s'.mail then log[s.next := s'.mail[s.next]] else log
  }

  function ErasedWith(mail: Mail, op: MessageRuns.Operation): set<nat> {
    if op.EraseUser? then set id | id in mail && MessageMentions(mail[id], op.user) else {}
  }

  function Served(sys: System, op: MessageRuns.Operation, users: set<Hash>): System {
    var store := MessageRuns.Execute(sys.store, MessageRuns.Step(op, users, sys.now));
    sys.(store := store, log := Logged(sys.log, sys.store, store),
         erased := sys.erased + ErasedWith(sys.store.mail, op))
  }

  function Acknowledged(sys: System, user: Hash, id: nat, users: set<Hash>, signature: Bytes): System
    requires id in sys.log
  {
    sys.(store := sys.store.(mail := Acking(users, sys.store.mail, Ack(sys.log[id].messageId, user, signature, true))),
         pending := sys.pending - {id})
  }

  ghost function Next(sys: System, user: Hash, step: Step): System
    requires Enabled(sys, user, step)
  {
    match step
    case Tick(elapsed) => sys.(now := sys.now + elapsed)
    case Serve(op, users) => Served(sys, op, users)
    case ClientFetch(_, page) => sys.(received := sys.received + page, pending := Ids(page))
    case ClientAck(id, users, signature) => Acknowledged(sys, user, id, users, signature)
  }

  ghost predicate Leads(sys: System, user: Hash, step: Step, sys': System) {
    Enabled(sys, user, step) && sys' == Next(sys, user, step)
  }

  ghost predicate Behaviour(user: Hash, states: seq<System>, steps: seq<Step>) {
    && |states| == |steps| + 1
    && states[0] == START
    && forall i | 0 <= i < |steps| :: Leads(states[i], user, steps[i], states[i + 1])
  }

  // ---------------------------------------------------------------------------
  // The invariant
  // ---------------------------------------------------------------------------

  /** The table is what is left of the log. */
  ghost predicate LogKept(s: Store, log: Mail) {
    && MessageRuns.Sound(s)
    && (forall id | id in s.mail :: id in log && log[id] == s.mail[id])
    && Below(log, s.next)
  }

  ghost predicate OwnRows(log: Mail, user: Hash, received: seq<nat>) {
    forall id | id in received :: id in log && log[id].recipient == user
  }

  /** What was received and acknowledged is gone, unless its id is empty. */
  ghost predicate Gone(mail: Mail, log: Mail, received: seq<nat>, pending: set<nat>) {
    && (forall id | id in pending :: id in received)
    && forall id | id in received && id in log && id !in pending && id in mail :: log[id].messageId == []
  }

  /** Only a message with an empty id comes in twice. */
  ghost predicate NoDuplicates(log: Mail, received: seq<nat>) {
    forall i, j | 0 <= i < j < |received| && received[i] == received[j] && received[i] in log ::
      log[received[i]].messageId == []
  }

  /** What went with an account is gone. */
  ghost predicate ErasedGone(mail: Mail, log: Mail, erased: set<nat>) {
    forall id | id in erased :: id in log && id !in mail
  }

  /** A message of the recipient is gone unread, though it has not expired and did not go
      with an account. */
  ghost predicate Lost(sys: System, user: Hash, id: nat) {
    && id in sys.log && sys.log[id].recipient == user
    && id !in sys.store.mail && id !in sys.received
    && sys.log[id].expiresAt > sys.now && id !in sys.erased
  }

  /** Acknowledging `ack` would take away the unread message `r`, which goes by the same id. */
  ghost predicate Unread(sys: System, user: Hash, ack: nat, r: nat) {
    && ack in sys.log && sys.log[ack].messageId != []
    && r in sys.store.mail && sys.store.mail[r].recipient == user
    && sys.store.mail[r].messageId == sys.log[ack].messageId
    && r !in sys.received && sys.store.mail[r].expiresAt > sys.now
  }

  ghost predicate Sound(sys: System, user: Hash) {
    && LogKept(sys.store, sys.log)
    && OwnRows(sys.log, user, sys.received)
    && Gone(sys.store.mail, sys.log, sys.received, sys.pending)
    && NoDuplicates(sys.log, sys.received)
    && ErasedGone(sys.store.mail, sys.log, sys.erased)
  }

  // ---------------------------------------------------------------------------
  // The steps of others
  // ---------------------------------------------------------------------------

  /** The server adds at most the next row, and changes none. */
  ghost predicate Extends(s: Store, s': Store) {
    && s.next <= s'.next
    && (forall id | id in s'.mail && id != s.next :: id in s.mail && s'.mail[id] == s.mail[id])
    && (s.next in s'.mail ==> s.next < s'.next)
  }

  lemma {:induction false} ServeExtends(s: Store, step: MessageRuns.Step)
    requires MessageRuns.Sound(s)
    ensures Extends(s, MessageRuns.Execute(s, step))
  {
    if step.op.Send? {
      MessageRuns.SendingInserts(step.users, s, step.op.envelope, step.at);
    }
  }

  /** A row of the recipient leaves only by expiry or erasure. */
  lemma {:induction false} ServeKeeps(s: Store, user: Hash, step: MessageRuns.Step, id: nat)
    requires MessageRuns.Sound(s) && id in s.mail && s.mail[id].recipient == user
    requires step.op.Acknowledge? && step.op.ack.recipient == user ==> !step.op.ack.verified
    ensures || id in MessageRuns.Execute(s, step).mail
            || s.mail[id].expiresAt < step.at
            || (step.op.EraseUser? && MessageMentions(s.mail[id], step.op.user))
  {
    if step.op.Send? {
      MessageRuns.SendingInserts(step.users, s, step.op.envelope, step.at);
    }
  }

  lemma {:induction false} LogStillKept(s: Store, s': Store, log: Mail)
    requires LogKept(s, log) && Extends(s, s') && MessageRuns.Sound(s')
    ensures LogKept(s', Logged(log, s, s'))
    ensures forall id | id in log :: id in Logged(log, s, s') && Logged(log, s, s')[id] == log[id]
    ensures forall id | id in Logged(log, s, s') && id !in log :: id == s.next && id in s'.mail
  {
  }

  lemma {:induction false} StillGone(s: Store, s': Store, log: Mail, received: seq<nat>, pending: set<nat>)
    requires LogKept(s, log) && Extends(s, s') && Gone(s.mail, log, received, pending)
    requires forall id | id in received :: id in log
    ensures Gone(s'.mail, Logged(log, s, s'), received, pending)
  {
  }

  lemma {:induction false} StillNoDuplicates(log: Mail, log': Mail, received: seq<nat>)
    requires NoDuplicates(log, received) && forall id | id in received :: id in log
    requires forall id | id in log :: id in log' && log'[id] == log[id]
    ensures NoDuplicates(log', received)
  {
    forall i, j | 0 <= i < j < |received| && received[i] == received[j] && received[i] in log'
      ensures log'[received[i]].messageId == []
    {
      assert received[i] in received;
    }
  }

  lemma {:induction false} StillErased(s: Store, s': Store, log: Mail, erased: set<nat>, op: MessageRuns.Operation)
    requires LogKept(s, log) && Extends(s, s') && ErasedGone(s.mail, log, erased)
    requires op.EraseUser? ==> s'.mail == Erased(s.mail, op.user)
    ensures ErasedGone(s'.mail, Logged(log, s, s'), erased + ErasedWith(s.mail, op))
  {
  }

  lemma {:induction false} ServeKeepsSound(sys: System, user: Hash, op: MessageRuns.Operation, users: set<Hash>)
    requires Sound(sys, user)
    ensures Sound(Served(sys, op, users), user)
  {
    var sys', step := Served(sys, op, users), MessageRuns.Step(op, users, sys.now);
    ServeExtends(sys.store, step);
    MessageRuns.StepKeepsSound(sys.store, step);
    LogStillKept(sys.store, sys'.store, sys.log);
    StillGone(sys.store, sys'.store, sys.log, sys.received, sys.pending);
    StillNoDuplicates(sys.log, sys'.log, sys.received);
    StillErased(sys.store, sys'.store, sys.log, sys.erased, op);
  }

  /** Nobody but the client loses a message. */
  lemma {:induction false} ServeLosesNothing(sys: System, user: Hash, op: MessageRuns.Operation, users: set<Hash>,
                                             id: nat)
    requires Sound(sys, user) && Enabled(sys, user, Serve(op, users)) && Lost(Served(sys, op, users), user, id)
    ensures Lost(sys, user, id)
  {
    var sys', step := Served(sys, op, users), MessageRuns.Step(op, users, sys.now);
    ServeExtends(sys.store, step);
    MessageRuns.StepKeepsSound(sys.store, step);
    LogStillKept(sys.store, sys'.store, sys.log);
    if id in sys.store.mail {
      ServeKeeps(sys.store, user, step, id);
    }
  }

  // ---------------------------------------------------------------------------
  // The steps of the client
  // ---------------------------------------------------------------------------

  lemma {:induction false} FetchNoDuplicates(mail: Mail, log: Mail, received: seq<nat>, page: seq<nat>)
    requires NoDuplicates(log, received) && Distinct(page) && Gone(mail, log, received, {})
    requires forall id | id in page :: id in mail && id in log
    ensures NoDuplicates(log, received + page)
  {
    var all := received + page;
    assert forall n | 0 <= n < |page| :: all[|received| + n] == page[n] && page[n] in page;
    forall i, j | 0 <= i < j < |all| && all[i] == all[j] && all[i] in log ensures log[all[i]].messageId == [] {
      if j < |received| {
        assert received[i] == received[j];
      } else if i < |received| {
        assert all[j] == page[j - |received|] && received[i] in received;
      }
    }
  }

  lemma {:induction false} FetchKeepsSound(sys: System, user: Hash, limit: u32, page: seq<nat>)
    requires Sound(sys, user) && Enabled(sys, user, ClientFetch(limit, page))
    ensures Sound(Next(sys, user, ClientFetch(limit, page)), user)
  {
    PageExactly(sys.store.mail, Selected(sys.store.mail, user, 0, sys.now), Limit(limit), page);
    assert forall id | id in page :: id in Ids(page);
    FetchNoDuplicates(sys.store.mail, sys.log, sys.received, page);
  }

  lemma {:induction false} AckKeepsSound(sys: System, user: Hash, id: nat, users: set<Hash>, signature: Bytes)
    requires Sound(sys, user) && Enabled(sys, user, ClientAck(id, users, signature))
    ensures Sound(Acknowledged(sys, user, id, users, signature), user)
  {
  }

  /** An acknowledgement loses a message only if it goes by the id acknowledged, unread. */
  lemma {:induction false} AckLoses(sys: System, user: Hash, ack: nat, users: set<Hash>, signature: Bytes, id: nat)
    requires Sound(sys, user) && Enabled(sys, user, ClientAck(ack, users, signature))
    requires Lost(Acknowledged(sys, user, ack, users, signature), user, id)
    ensures Lost(sys, user, id) || Unread(sys, user, ack, id)
  {
  }

  /** And it does lose that message. */
  lemma {:induction false} UnreadIsLost(sys: System, user: Hash, ack: nat, users: set<Hash>, signature: Bytes, r: nat)
    requires Sound(sys, user) && Enabled(sys, user, ClientAck(ack, users, signature)) && Unread(sys, user, ack, r)
    ensures Lost(Acknowledged(sys, user, ack, users, signature), user, r)
  {
  }

  // ---------------------------------------------------------------------------
  // Whole runs
  // ---------------------------------------------------------------------------

  lemma {:induction false} StepKeepsSound(sys: System, user: Hash, step: Step)
    requires Sound(sys, user) && Enabled(sys, user, step)
    ensures Sound(Next(sys, user, step), user)
  {
    match step {
      case Tick(_) =>
      case Serve(op, users) => ServeKeepsSound(sys, user, op, users);
      case ClientFetch(limit, page) => FetchKeepsSound(sys, user, limit, page);
      case ClientAck(id, users, signature) => AckKeepsSound(sys, user, id, users, signature);
    }
  }

  lemma {:induction false} RunKeepsSound(user: Hash, states: seq<System>, steps: seq<Step>, i: nat)
    requires Behaviour(user, states, steps) && i < |states|
    ensures Sound(states[i], user)
  {
    if i > 0 {
      RunKeepsSound(user, states, steps, i - 1);
      assert Leads(states[i - 1], user, steps[i - 1], states[i - 1 + 1]);
      StepKeepsSound(states[i - 1], user, steps[i - 1]);
    }
  }

  /** In every reachable state what came in was stored for the recipient, and nothing came in
      twice, save for messages with an empty id. */
  lemma {:induction false} NoDuplicatesExceptUnnamed(user: Hash, states: seq<System>, steps: seq<Step>, k: nat)
    requires Behaviour(user, states, steps) && k < |states|
    ensures var sys := states[k];
            && (forall id | id in sys.received :: id in sys.log && sys.log[id].recipient == user)
            && (forall i, j | 0 <= i < j < |sys.received| && sys.received[i] == sys.received[j]
                              && sys.received[i] in sys.log :: sys.log[sys.received[i]].messageId == [])
  {
    RunKeepsSound(user, states, steps, k);
  }

  /** Step `k` acknowledges an id by which an unread message goes. */
  ghost predicate AcksUnread(user: Hash, states: seq<System>, steps: seq<Step>, k: nat)
    requires |states| == |steps| + 1
  {
    k < |steps| && steps[k].ClientAck? && exists r :: Unread(states[k], user, steps[k].id, r)
  }

  lemma {:induction false} StepLoses(user: Hash, states: seq<System>, steps: seq<Step>, k: nat, id: nat)
    requires Behaviour(user, states, steps) && k < |steps| && Lost(states[k + 1], user, id)
    ensures Lost(states[k], user, id) || AcksUnread(user, states, steps, k)
  {
    RunKeepsSound(user, states, steps, k);
    assert Leads(states[k], user, steps[k], states[k + 1]);
    match steps[k] {
      case Tick(_) =>
      case Serve(op, users) => ServeLosesNothing(states[k], user, op, users, id);
      case ClientFetch(_, _) =>
      case ClientAck(ack, users, signature) => AckLoses(states[k], user, ack, users, signature, id);
    }
  }

  lemma {:induction false} LossHasCause(user: Hash, states: seq<System>, steps: seq<Step>, k: nat, id: nat)
    returns (j: nat)
    requires Behaviour(user, states, steps) && k < |states| && Lost(states[k], user, id)
    ensures j < k && AcksUnread(user, states, steps, j)
  {
    StepLoses(user, states, steps, k - 1, id);
    if AcksUnread(user, states, steps, k - 1) {
      j := k - 1;
    } else {
      j := LossHasCause(user, states, steps, k - 1, id);
    }
  }

  lemma {:induction false} CauseHasLoss(user: Hash, states: seq<System>, steps: seq<Step>, k: nat) returns (id: nat)
    requires Behaviour(user, states, steps) && AcksUnread(user, states, steps, k)
    ensures Lost(states[k + 1], user, id)
  {
    RunKeepsSound(user, states, steps, k);
    assert Leads(states[k], user, steps[k], states[k + 1]);
    id :| Unread(states[k], user, steps[k].id, id);
    UnreadIsLost(states[k], user, steps[k].id, steps[k].users, steps[k].signature, id);
  }

  ghost predicate NothingLost(user: Hash, states: seq<System>) {
    forall k, id | 0 <= k < |states| :: !Lost(states[k], user, id)
  }

  /** Over every run, among any sends, cleanups, erasures and acknowledgements of others: no
      message of the recipient is ever lost if and only if the recipient never acknowledges
      an id by which an unread message goes. */
  lemma {:induction false} NoLossExactly(user: Hash, states: seq<System>, steps: seq<Step>)
    requires Behaviour(user, states, steps)
    ensures NothingLost(user, states) <==> forall k: nat :: !AcksUnread(user, states, steps, k)
  {
    if k: nat :| AcksUnread(user, states, steps, k) {
      var id := CauseHasLoss(user, states, steps, k);
    }
    if k, id :| 0 <= k < |states| && Lost(states[k], user, id) {
      var j := LossHasCause(user, states, steps, k, id);
    }
  }

  lemma {:induction false} StepLogs(sys: System, user: Hash, step: Step)
    requires Sound(sys, user) && Enabled(sys, user, step)
    ensures var sys' := Next(sys, user, step);
            forall id | id in sys.log :: id in sys'.log && sys'.log[id] == sys.log[id]
  {
  }

  lemma {:induction false} LogGrows(user: Hash, states: seq<System>, steps: seq<Step>, i: nat, j: nat)
    requires Behaviour(user, states, steps) && i <= j < |states|
    ensures forall id | id in states[i].log :: id in states[j].log && states[j].log[id] == states[i].log[id]
  {
    if i < j {
      LogGrows(user, states, steps, i, j - 1);
      RunKeepsSound(user, states, steps, j - 1);
      assert Leads(states[j - 1], user, steps[j - 1], states[j - 1 + 1]);
      StepLogs(states[j - 1], user, steps[j - 1]);
    }
  }

  /** No two messages ever stored for the recipient go by the same id, if they have one. */
  ghost predicate NeverReused(log: Mail, user: Hash) {
    forall i, j | i in log && j in log && log[i].recipient == user && log[j].recipient == user
                  && log[i].messageId == log[j].messageId != [] :: i == j
  }

  lemma {:induction false} NothingUnread(sys: System, user: Hash, log: Mail, ack: nat)
    requires Sound(sys, user) && ack in sys.received && NeverReused(log, user)
    requires forall id | id in sys.log :: id in log && log[id] == sys.log[id]
    ensures forall r :: !Unread(sys, user, ack, r)
  {
  }

  /** In particular nothing is lost when ids are never used again. */
  lemma {:induction false} NoLossWithoutReuse(user: Hash, states: seq<System>, steps: seq<Step>)
    requires Behaviour(user, states, steps) && NeverReused(states[|steps|].log, user)
    ensures NothingLost(user, states)
  {
    forall k: nat ensures !AcksUnread(user, states, steps, k) {
      if k < |steps| && steps[k].ClientAck? {
        RunKeepsSound(user, states, steps, k);
        LogGrows(user, states, steps, k, |steps|);
        assert Leads(states[k], user, steps[k], states[k + 1]);
        NothingUnread(states[k], user, states[|steps|].log, steps[k].id);
      }
    }
    NoLossExactly(user, states, steps);
  }

  /** Nor when every message is still there as it is acknowledged, neither expired and deleted
      nor gone with an account. */
  lemma {:induction false} NoLossWhenPrompt(user: Hash, states: seq<System>, steps: seq<Step>)
    requires Behaviour(user, states, steps)
    requires forall k | 0 <= k < |steps| && steps[k].ClientAck? :: steps[k].id in states[k].store.mail
    ensures NothingLost(user, states)
  {
    forall k: nat ensures !AcksUnread(user, states, steps, k) {
      if k < |steps| && steps[k].ClientAck? {
        RunKeepsSound(user, states, steps, k);
        assert Leads(states[k], user, steps[k], states[k + 1]);
        PresentNotUnread(states[k], user, steps[k].id);
      }
    }
    NoLossExactly(user, states, steps);
  }

  lemma {:induction false} PresentNotUnread(sys: System, user: Hash, ack: nat)
    requires Sound(sys, user) && ack in sys.received && ack in sys.store.mail
    ensures forall r :: !Unread(sys, user, ack, r)
  {
  }

  /** A page shorter than its limit is the last: once it has come in, every message ever
      stored for the recipient that is not lost was received, has expired, or went with an
      account; and whatever is still there unexpired was received itself. */
  lemma {:induction false} ShortPageIsTheLast(user: Hash, states: seq<System>, steps: seq<Step>, k: nat, id: nat)
    requires Behaviour(user, states, steps) && k < |steps|
    requires steps[k].ClientFetch? && |steps[k].page| < Limit(steps[k].limit)
    requires id in states[k + 1].log && states[k + 1].log[id].recipient == user
    ensures var sys := states[k + 1];
            && (id in sys.store.mail && sys.log[id].expiresAt > sys.now ==> id in sys.received)
            && (Lost(sys, user, id) || id in sys.received || sys.log[id].expiresAt <= sys.now || id in sys.erased)
  {
    RunKeepsSound(user, states, steps, k);
    assert Leads(states[k], user, steps[k], states[k + 1]);
    var sys, page := states[k], steps[k].page;
    var selected := Selected(sys.store.mail, user, 0, sys.now);
    PageExactly(sys.store.mail, selected, Limit(steps[k].limit), page);
    WholePage(sys.store.mail, selected, Limit(steps[k].limit), page);
    if id in sys.store.mail && sys.log[id].expiresAt > sys.now {
      assert id in selected;
    }
  }

  lemma {:induction false} WholePage(mail: Mail, s: set<nat>, limit: nat, page: seq<nat>)
    requires Fits(mail, s, limit, page) && |page| < limit
    ensures forall id | id in s :: id in page
  {
    DistinctSize(page, Ids(page));
    SubsetSize(Ids(page), s);
    assert forall id | id in s :: id in Ids(page);
  }

  // ---------------------------------------------------------------------------
  // An id used again
  // ---------------------------------------------------------------------------

  /** A message for an hour from `v` to `u`, under the id `[1]`. */
  function Brief(u: Hash, v: Hash): Envelope {
    Envelope([1], v, u, [], 1, true)
  }

  function Resent(u: Hash, v: Hash): seq<Step> {
    var send := Serve(MessageRuns.Send(Brief(u, v)), {u, v});
    [send, ClientFetch(0, [1]), Tick(Seconds(3601)), Serve(MessageRuns.DeleteExpired, {}), send,
     ClientAck(1, {u, v}, [0])]
  }

  lemma {:induction false} BriefStored(u: Hash, v: Hash, s: Store, now: Instant)
    requires s.mail == map[]
    ensures MessageRuns.Execute(s, MessageRuns.Step(MessageRuns.Send(Brief(u, v)), {u, v}, now))
         == s.(mail := map[s.next := MessageOf(Brief(u, v), now)], next := s.next + 1)
  {
  }

  lemma {:induction false} OnlyPage(u: Hash, m: Message, now: Instant)
    requires m.recipient == u && m.expiresAt > now
    ensures IsPage(map[1 := m], Selected(map[1 := m], u, 0, now), 100, [1])
  {
    var mail := map[1 := m];
    assert Selected(mail, u, 0, now) == {1};
    assert Orders(mail, {1}, [1]);
    assert [1][..1] == [1];
  }

  lemma {:induction false} FirstHalf(u: Hash, v: Hash) returns (s: seq<System>)
    requires u != v
    ensures |s| == 3 && Leads(START, u, Resent(u, v)[0], s[0])
    ensures Leads(s[0], u, Resent(u, v)[1], s[1]) && Leads(s[1], u, Resent(u, v)[2], s[2])
    ensures var m := MessageOf(Brief(u, v), 0);
            s[2] == System(EMPTY_STORE.(mail := map[1 := m], next := 2), Seconds(3601), map[1 := m], {}, [1], {1})
  {
    var m := MessageOf(Brief(u, v), 0);
    BriefStored(u, v, EMPTY_STORE, 0);
    OnlyPage(u, m, 0);
    var s0 := System(EMPTY_STORE.(mail := map[1 := m], next := 2), 0, map[1 := m], {}, [], {});
    assert Ids([1]) == {1};
    s := [s0, s0.(received := [1], pending := {1}), s0.(received := [1], pending := {1}, now := Seconds(3601))];
  }

  lemma {:induction false} SecondHalf(u: Hash, v: Hash, before: System) returns (s: seq<System>)
    requires u != v && u != []
    requires var m := MessageOf(Brief(u, v), 0);
             before == System(EMPTY_STORE.(mail := map[1 := m], next := 2), Seconds(3601), map[1 := m], {}, [1], {1})
    ensures |s| == 3 && Leads(before, u, Resent(u, v)[3], s[0])
    ensures Leads(s[0], u, Resent(u, v)[4], s[1]) && Leads(s[1], u, Resent(u, v)[5], s[2])
    ensures s[2].store.mail == map[] && s[2].received == [1] && s[2].erased == {} && s[2].now == Seconds(3601)
    ensures 2 in s[2].log && s[2].log[2] == MessageOf(Brief(u, v), Seconds(3601))
  {
    var now := Seconds(3601);
    var m, m' := MessageOf(Brief(u, v), 0), MessageOf(Brief(u, v), now);
    var s0 := before.(store := before.store.(mail := map[]));
    assert Purged(before.store.mail, now) == map[];
    BriefStored(u, v, s0.store, now);
    var s1 := s0.(store := s0.store.(mail := map[2 := m'], next := 3), log := map[1 := m, 2 := m']);
    assert Logged(s0.log, s0.store, s1.store) == s1.log;
    var s2 := s1.(store := s1.store.(mail := map[]), pending := {});
    assert Acking({u, v}, map[2 := m'], Ack([1], u, [0], true)) == map[];
    s := [s0, s1, s2];
  }

  lemma {:induction false} StepByStep(user: Hash, steps: seq<Step>, first: seq<System>, second: seq<System>)
    requires |steps| == 6 && |first| == 3 && |second| == 3
    requires Leads(START, user, steps[0], first[0]) && Leads(first[0], user, steps[1], first[1])
    requires Leads(first[1], user, steps[2], first[2]) && Leads(first[2], user, steps[3], second[0])
    requires Leads(second[0], user, steps[4], second[1]) && Leads(second[1], user, steps[5], second[2])
    ensures Behaviour(user, [START] + first + second, steps)
  {
    var states := [START] + first + second;
    assert states == [START, first[0], first[1], first[2], second[0], second[1], second[2]];
  }

  /** The exception is real: a message sent again under the id of one that expired before
      it was acknowledged is acknowledged unread. */
  lemma {:induction false} ResentIsLost(u: Hash, v: Hash) returns (states: seq<System>)
    requires u != v && u != []
    ensures Behaviour(u, states, Resent(u, v))
    ensures Lost(states[6], u, 2)
  {
    var first := FirstHalf(u, v);
    var second := SecondHalf(u, v, first[2]);
    StepByStep(u, Resent(u, v), first, second);
    states := [START] + first + second;
    assert states[6] == second[2];
  }
}
