/** Fetches and uploads interleaved statement by statement: a fetch first selects the
    oldest unused key of its target and only later marks it used. */
module PrekeyRuns {
  import opened Prelude
  import opened Ordering
  import opened Prekeys

  type Fetch = nat

  datatype Handout = Handout(user: User, rowId: nat, prekeyId: i32, publicKey: Bytes)

  /** `pending` holds the key of every fetch that has selected but not yet marked;
      `handed` is the history of selections. */
  datatype System = System(table: Table, pending: map<Fetch, Handout>, handed: seq<Handout>)

  const START := System(EMPTY, map[], [])

  datatype Step =
    | Upload(user: User, batch: seq<Prekey>)
    | Select(fetch: Fetch, user: User)
    | Mark(fetch: Fetch)

  predicate Enabled(sys: System, step: Step) {
    match step
    case Upload(_, _) => true
    case Select(fetch, _) => fetch !in sys.pending
    case Mark(fetch) => fetch in sys.pending
  }

  function HandoutOf(rows: Rows, id: nat): Handout
    requires id in rows
  {
    Handout(rows[id].user, id, rows[id].prekeyId, rows[id].publicKey)
  }

  function Selected(sys: System, fetch: Fetch, user: User): System {
    var oldest := Oldest(sys.table.rows, user);
    if oldest == None then sys
    else
      var handout := HandoutOf(sys.table.rows, oldest.value);
      sys.(pending := sys.pending[fetch := handout], handed := sys.handed + [handout])
  }

  function Marked(sys: System, fetch: Fetch): System
    requires fetch in sys.pending
  {
    sys.(table := sys.table.(rows := MarkUsed(sys.table.rows, sys.pending[fetch].rowId)),
         pending := sys.pending - {fetch})
  }

  function Next(sys: System, step: Step): System
    requires Enabled(sys, step)
  {
    match step
    case Upload(user, batch) => sys.(table := InsertAll(sys.table, user, batch))
    case Select(fetch, user) => Selected(sys, fetch, user)
    case Mark(fetch) => Marked(sys, fetch)
  }

  ghost predicate Leads(sys: System, step: Step, sys': System) {
    Enabled(sys, step) && sys' == Next(sys, step)
  }

  ghost predicate Behaviour(states: seq<System>, steps: seq<Step>) {
    && |states| == |steps| + 1
    && states[0] == START
    && forall i | 0 <= i < |steps| :: Leads(states[i], steps[i], states[i + 1])
  }

  // ---------------------------------------------------------------------------
  // The property, and the condition under which it holds
  // ---------------------------------------------------------------------------

  predicate SameKey(h: Handout, h': Handout) {
    h.user == h'.user && h.prekeyId == h'.prekeyId
  }

  /** Each (user, prekey id) is handed out at most once. */
  ghost predicate AtMostOnce(handed: seq<Handout>) {
    forall i, j | 0 <= i < j < |handed| :: !SameKey(handed[i], handed[j])
  }

  /** A fetch that finds a key overlaps no other fetch that holds one of the same user. */
  ghost predicate Alone(sys: System, step: Step) {
    step.Select? && Unused(sys.table.rows, step.user) != {} ==>
      forall fetch | fetch in sys.pending :: sys.pending[fetch].user != step.user
  }

  ghost predicate NoOverlap(states: seq<System>, steps: seq<Step>, n: nat)
    requires n <= |steps| < |states|
  {
    forall i | 0 <= i < n :: Alone(states[i], steps[i])
  }

  // ---------------------------------------------------------------------------
  // What every step keeps, overlapping or not
  // ---------------------------------------------------------------------------

  /** Rows only gain the `used` mark. */
  ghost predicate Persists(rows: Rows, rows': Rows) {
    forall id | id in rows ::
      id in rows' && rows'[id] == rows[id].(used := rows'[id].used) && (rows[id].used ==> rows'[id].used)
  }

  lemma {:induction false} InsertAllPersists(t: Table, user: User, batch: seq<Prekey>)
    requires Prekeys.Sound(t)
    ensures Prekeys.Sound(InsertAll(t, user, batch))
    ensures InsertAll(t, user, batch).nextId >= t.nextId
    ensures forall id | id in t.rows ::
              id in InsertAll(t, user, batch).rows && InsertAll(t, user, batch).rows[id] == t.rows[id]
    ensures forall id | id in InsertAll(t, user, batch).rows && id !in t.rows ::
              id >= t.nextId && !InsertAll(t, user, batch).rows[id].used
  {
    if batch != [] {
      InsertAllPersists(t, user, batch[..|batch| - 1]);
      InsertKeepsSound(InsertAll(t, user, batch[..|batch| - 1]), user, batch[|batch| - 1]);
    }
  }

  /** Hand-outs describe rows of the table, and pending ones are among them. */
  ghost predicate Recorded(sys: System) {
    && Prekeys.Sound(sys.table)
    && (forall h | h in sys.handed :: h.rowId in sys.table.rows && h == HandoutOf(sys.table.rows, h.rowId))
    && (forall fetch | fetch in sys.pending :: sys.pending[fetch] in sys.handed)
  }

  lemma {:induction false} StepRecorded(sys: System, step: Step)
    requires Recorded(sys) && Enabled(sys, step)
    ensures Recorded(Next(sys, step)) && Persists(sys.table.rows, Next(sys, step).table.rows)
    ensures sys.handed <= Next(sys, step).handed
  {
    match step {
      case Upload(user, batch) => InsertAllPersists(sys.table, user, batch);
      case Select(_, _) =>
      case Mark(fetch) => MarkKeepsSound(sys.table, sys.pending[fetch].rowId);
    }
  }

  lemma {:induction false} RunRecorded(states: seq<System>, steps: seq<Step>, i: nat)
    requires Behaviour(states, steps) && i < |states|
    ensures Recorded(states[i])
  {
    if i > 0 {
      RunRecorded(states, steps, i - 1);
      assert Leads(states[i - 1], steps[i - 1], states[i - 1 + 1]);
      StepRecorded(states[i - 1], steps[i - 1]);
    }
  }

  lemma {:induction false} RunPersists(states: seq<System>, steps: seq<Step>, i: nat, j: nat)
    requires Behaviour(states, steps) && i <= j < |states|
    ensures Persists(states[i].table.rows, states[j].table.rows)
    ensures states[i].handed <= states[j].handed
  {
    if i < j {
      RunPersists(states, steps, i, j - 1);
      RunRecorded(states, steps, j - 1);
      assert Leads(states[j - 1], steps[j - 1], states[j - 1 + 1]);
      StepRecorded(states[j - 1], steps[j - 1]);
    }
  }

  /** A used id never becomes available again, whatever is uploaded later. */
  lemma {:induction false} UsedForever(states: seq<System>, steps: seq<Step>, i: nat, j: nat, id: nat)
    requires Behaviour(states, steps) && i <= j < |states|
    requires id in states[i].table.rows && states[i].table.rows[id].used
    ensures var row := states[i].table.rows[id];
            forall id' | id' in Unused(states[j].table.rows, row.user) ::
              states[j].table.rows[id'].prekeyId != row.prekeyId
  {
    RunPersists(states, steps, i, j);
    RunRecorded(states, steps, j);
  }

  // ---------------------------------------------------------------------------
  // What runs without overlap keep
  // ---------------------------------------------------------------------------

  /** A pending key is still the oldest unused one of its user, and the only pending
      key of that user. */
  ghost predicate PendingOldest(rows: Rows, pending: map<Fetch, Handout>) {
    && (forall f | f in pending :: IsLeast(pending[f].rowId, Unused(rows, pending[f].user)))
    && (forall f, g | f in pending && g in pending && pending[f].user == pending[g].user :: f == g)
  }

  /** A row that was handed out is used or pending. */
  ghost predicate Consumed(rows: Rows, pending: map<Fetch, Handout>, handed: seq<Handout>) {
    forall h | h in handed && h.rowId in rows && !rows[h.rowId].used ::
      exists f :: f in pending && pending[f].rowId == h.rowId
  }

  /** Used rows of a user are older than the unused ones. */
  ghost predicate OldestFirst(rows: Rows) {
    forall id, id' | id in rows && id' in rows && rows[id].user == rows[id'].user && rows[id].used && !rows[id'].used ::
      id < id'
  }

  /** Each user's keys are handed out in insertion order. */
  ghost predicate InOrder(handed: seq<Handout>) {
    forall i, j | 0 <= i < j < |handed| && handed[i].user == handed[j].user :: handed[i].rowId < handed[j].rowId
  }

  ghost predicate Orderly(sys: System) {
    && Recorded(sys)
    && PendingOldest(sys.table.rows, sys.pending)
    && Consumed(sys.table.rows, sys.pending, sys.handed)
    && OldestFirst(sys.table.rows)
    && InOrder(sys.handed)
  }

  lemma {:induction false} UploadOrderly(sys: System, user: User, batch: seq<Prekey>)
    requires Orderly(sys)
    ensures Orderly(Next(sys, Upload(user, batch)))
  {
    StepRecorded(sys, Upload(user, batch));
    InsertAllPersists(sys.table, user, batch);
    var rows, rows' := sys.table.rows, InsertAll(sys.table, user, batch).rows;
    assert forall id | id in rows' && id !in rows :: id >= sys.table.nextId;
    forall f | f in sys.pending
      ensures IsLeast(sys.pending[f].rowId, Unused(rows', sys.pending[f].user))
    {
      assert sys.pending[f].rowId in Unused(rows, sys.pending[f].user);
      forall id | id in Unused(rows', sys.pending[f].user) ensures sys.pending[f].rowId <= id {
        if id in rows { assert id in Unused(rows, sys.pending[f].user); }
      }
    }
  }

  /** Without overlap, everything handed to this user before is used by now, so the
      oldest unused row is newer. */
  lemma {:induction false} OldestIsNew(sys: System, fetch: Fetch, user: User)
    requires Orderly(sys) && Alone(sys, Select(fetch, user)) && Unused(sys.table.rows, user) != {}
    ensures var id := Least(Unused(sys.table.rows, user));
            forall h | h in sys.handed && h.user == user :: sys.table.rows[h.rowId].used && h.rowId < id
  {
    var rows := sys.table.rows;
    assert Least(Unused(rows, user)) in Unused(rows, user);
    assert forall f | f in sys.pending :: sys.pending[f] in sys.handed;
    assert forall h | h in sys.handed && h.user == user :: rows[h.rowId].used;
  }

  lemma {:induction false} InOrderAppend(handed: seq<Handout>, handout: Handout)
    requires InOrder(handed) && forall h | h in handed && h.user == handout.user :: h.rowId < handout.rowId
    ensures InOrder(handed + [handout])
  {
    assert forall i | 0 <= i < |handed| :: handed[i] in handed;
  }

  lemma {:induction false} SelectPending(rows: Rows, pending: map<Fetch, Handout>, fetch: Fetch, handout: Handout)
    requires PendingOldest(rows, pending) && IsLeast(handout.rowId, Unused(rows, handout.user))
    requires fetch !in pending && forall f | f in pending :: pending[f].user != handout.user
    ensures PendingOldest(rows, pending[fetch := handout])
  {
  }

  lemma {:induction false} SelectConsumed(rows: Rows, pending: map<Fetch, Handout>, handed: seq<Handout>, fetch: Fetch,
                                          handout: Handout)
    requires Consumed(rows, pending, handed) && fetch !in pending
    ensures Consumed(rows, pending[fetch := handout], handed + [handout])
  {
    var pending' := pending[fetch := handout];
    forall h | h in handed + [handout] && h.rowId in rows && !rows[h.rowId].used
      ensures exists f :: f in pending' && pending'[f].rowId == h.rowId
    {
      if h == handout {
        assert pending'[fetch].rowId == h.rowId;
      } else {
        assert h in handed;
        var f :| f in pending && pending[f].rowId == h.rowId;
        assert pending'[f].rowId == h.rowId;
      }
    }
  }

  lemma {:induction false} SelectOrderly(sys: System, fetch: Fetch, user: User)
    requires Orderly(sys) && Enabled(sys, Select(fetch, user)) && Alone(sys, Select(fetch, user))
    ensures Orderly(Next(sys, Select(fetch, user)))
  {
    StepRecorded(sys, Select(fetch, user));
    if Unused(sys.table.rows, user) != {} {
      var rows, id := sys.table.rows, Least(Unused(sys.table.rows, user));
      assert id in Unused(rows, user);
      var handout := HandoutOf(rows, id);
      OldestIsNew(sys, fetch, user);
      InOrderAppend(sys.handed, handout);
      SelectPending(rows, sys.pending, fetch, handout);
      SelectConsumed(rows, sys.pending, sys.handed, fetch, handout);
    }
  }

  lemma {:induction false} MarkPending(rows: Rows, pending: map<Fetch, Handout>, fetch: Fetch)
    requires PendingOldest(rows, pending) && fetch in pending
    requires pending[fetch].rowId in rows && rows[pending[fetch].rowId].user == pending[fetch].user
    ensures PendingOldest(MarkUsed(rows, pending[fetch].rowId), pending - {fetch})
  {
    var rows' := MarkUsed(rows, pending[fetch].rowId);
    assert forall u | u != pending[fetch].user :: Unused(rows', u) == Unused(rows, u);
  }

  lemma {:induction false} MarkConsumed(rows: Rows, pending: map<Fetch, Handout>, handed: seq<Handout>, fetch: Fetch)
    requires Consumed(rows, pending, handed) && fetch in pending
    ensures Consumed(MarkUsed(rows, pending[fetch].rowId), pending - {fetch}, handed)
  {
    var id := pending[fetch].rowId;
    var rows' := MarkUsed(rows, id);
    forall h | h in handed && h.rowId in rows' && !rows'[h.rowId].used
      ensures exists f :: f in pending - {fetch} && (pending - {fetch})[f].rowId == h.rowId
    {
      var f :| f in pending && pending[f].rowId == h.rowId;
      assert f in pending - {fetch};
    }
  }

  lemma {:induction false} MarkOldestFirst(rows: Rows, id: nat)
    requires OldestFirst(rows) && id in rows && IsLeast(id, Unused(rows, rows[id].user))
    ensures OldestFirst(MarkUsed(rows, id))
  {
    assert forall id' | id' in rows && rows[id'].user == rows[id].user && !rows[id'].used ::
        id' in Unused(rows, rows[id].user);
  }

  lemma {:induction false} MarkOrderly(sys: System, fetch: Fetch)
    requires Orderly(sys) && fetch in sys.pending
    ensures Orderly(Next(sys, Mark(fetch)))
  {
    StepRecorded(sys, Mark(fetch));
    var handout := sys.pending[fetch];
    assert handout in sys.handed;
    MarkPending(sys.table.rows, sys.pending, fetch);
    MarkConsumed(sys.table.rows, sys.pending, sys.handed, fetch);
    MarkOldestFirst(sys.table.rows, handout.rowId);
  }

  lemma {:induction false} RunOrderly(states: seq<System>, steps: seq<Step>, i: nat)
    requires Behaviour(states, steps) && i < |states| && NoOverlap(states, steps, i)
    ensures Orderly(states[i])
  {
    if i > 0 {
      RunOrderly(states, steps, i - 1);
      var sys, step := states[i - 1], steps[i - 1];
      assert Leads(sys, step, states[i - 1 + 1]);
      assert Alone(sys, step);
      match step {
        case Upload(user, batch) => UploadOrderly(sys, user, batch);
        case Select(fetch, user) => SelectOrderly(sys, fetch, user);
        case Mark(fetch) => MarkOrderly(sys, fetch);
      }
    }
  }

  // ---------------------------------------------------------------------------
  // At most once, exactly without overlap
  // ---------------------------------------------------------------------------

  lemma {:induction false} OrderlyAtMostOnce(sys: System)
    requires Orderly(sys)
    ensures AtMostOnce(sys.handed)
  {
    forall i, j | 0 <= i < j < |sys.handed| ensures !SameKey(sys.handed[i], sys.handed[j]) {
      assert sys.handed[i] in sys.handed && sys.handed[j] in sys.handed;
    }
  }

  /** The first fetch that overlaps selects the very key the other one holds. */
  lemma {:induction false} OverlapRepeats(sys: System, step: Step)
    requires Orderly(sys) && Enabled(sys, step) && !Alone(sys, step)
    ensures !AtMostOnce(Next(sys, step).handed)
  {
    var f :| f in sys.pending && sys.pending[f].user == step.user;
    var held := sys.pending[f];
    assert held in sys.handed;
    var i :| 0 <= i < |sys.handed| && sys.handed[i] == held;
    var handed := Next(sys, step).handed;
    assert IsLeast(Least(Unused(sys.table.rows, step.user)), Unused(sys.table.rows, step.user));
    assert handed[|sys.handed|] == held;
    assert SameKey(handed[i], handed[|sys.handed|]);
  }

  lemma {:induction false} FirstOverlap(states: seq<System>, steps: seq<Step>, n: nat) returns (i: nat)
    requires n <= |steps| < |states| && !NoOverlap(states, steps, n)
    ensures i < n && NoOverlap(states, steps, i) && !Alone(states[i], steps[i])
  {
    if NoOverlap(states, steps, n - 1) {
      i := n - 1;
    } else {
      i := FirstOverlap(states, steps, n - 1);
    }
  }

  /** Over every run: each prekey is handed out at most once exactly when no fetch that
      finds a key starts while another fetch on the same target holds one. */
  lemma {:induction false} HandedOutOnceExactly(states: seq<System>, steps: seq<Step>)
    requires Behaviour(states, steps)
    ensures AtMostOnce(states[|steps|].handed) <==> NoOverlap(states, steps, |steps|)
  {
    var n := |steps|;
    if NoOverlap(states, steps, n) {
      RunOrderly(states, steps, n);
      OrderlyAtMostOnce(states[n]);
    } else {
      var i := FirstOverlap(states, steps, n);
      RunOrderly(states, steps, i);
      assert Leads(states[i], steps[i], states[i + 1]);
      OverlapRepeats(states[i], steps[i]);
      RunPersists(states, steps, i + 1, n);
      var handed, handed' := states[i + 1].handed, states[n].handed;
      var j, k :| 0 <= j < k < |handed| && SameKey(handed[j], handed[k]);
      assert handed'[j] == handed[j] && handed'[k] == handed[k];
    }
  }

  /** Without overlap, each user's keys go out in insertion order. */
  lemma {:induction false} HandedOutInOrder(states: seq<System>, steps: seq<Step>, i: nat, j: nat)
    requires Behaviour(states, steps) && NoOverlap(states, steps, |steps|)
    requires i < j < |states[|steps|].handed|
    requires states[|steps|].handed[i].user == states[|steps|].handed[j].user
    ensures states[|steps|].handed[i].rowId < states[|steps|].handed[j].rowId
  {
    RunOrderly(states, steps, |steps|);
  }

  /** Two fetches that both select before either marks. */
  function RacingFetches(user: User): seq<Step> {
    [Upload(user, [Prekey(7, [1])]), Select(1, user), Select(2, user), Mark(1), Mark(2)]
  }

  /** The race is real: both fetches of this run get the same key. */
  lemma {:induction false} RaceHandsOutTwice(user: User) returns (states: seq<System>)
    ensures Behaviour(states, RacingFetches(user))
    ensures |states[5].handed| == 2 && SameKey(states[5].handed[0], states[5].handed[1])
  {
    var steps := RacingFetches(user);
    var s1 := Next(START, steps[0]);
    assert InsertAll(EMPTY, user, [Prekey(7, [1])][..0]) == EMPTY;
    assert s1.table.rows == map[1 := Row(user, 7, [1], false)];
    assert Unused(s1.table.rows, user) == {1};
    var handout := Handout(user, 1, 7, [1]);
    var s2 := Next(s1, steps[1]);
    assert s2 == System(s1.table, map[1 := handout], [handout]);
    var s3 := Next(s2, steps[2]);
    assert s3 == System(s1.table, map[1 := handout, 2 := handout], [handout, handout]);
    var s4 := Next(s3, steps[3]);
    var s5 := Next(s4, steps[4]);
    states := [START, s1, s2, s3, s4, s5];
    assert Leads(START, steps[0], s1) && Leads(s1, steps[1], s2) && Leads(s2, steps[2], s3);
    assert Leads(s3, steps[3], s4) && Leads(s4, steps[4], s5);
  }

  // ---------------------------------------------------------------------------
  // The ledger
  // ---------------------------------------------------------------------------

  /** Completed fetches that took a key of `user`. */
  function Completed(states: seq<System>, steps: seq<Step>, n: nat, user: User): nat
    requires n <= |steps| < |states|
  {
    if n == 0 then 0
    else
      var sys, step := states[n - 1], steps[n - 1];
      Completed(states, steps, n - 1, user) +
      if step.Mark? && step.fetch in sys.pending && sys.pending[step.fetch].user == user then 1 else 0
  }

  lemma {:induction false} InsertBalance(t: Table, user: User, prekey: Prekey, u: User)
    requires Prekeys.Sound(t)
    ensures var rows' := Insert(t, user, prekey).rows;
            |RowsOf(rows', u)| - |Unused(rows', u)| == |RowsOf(t.rows, u)| - |Unused(t.rows, u)|
  {
    var row := Row(user, AsI32(prekey.id), prekey.publicKey, false);
    if u == user {
      RowAdded(t.rows, t.nextId, row);
    } else {
      assert RowsOf(t.rows[t.nextId := row], u) == RowsOf(t.rows, u);
      assert Unused(t.rows[t.nextId := row], u) == Unused(t.rows, u);
    }
  }

  lemma {:induction false} InsertAllBalance(t: Table, user: User, batch: seq<Prekey>, u: User)
    requires Prekeys.Sound(t)
    ensures var rows' := InsertAll(t, user, batch).rows;
            |RowsOf(rows', u)| - |Unused(rows', u)| == |RowsOf(t.rows, u)| - |Unused(t.rows, u)|
  {
    if batch != [] {
      var before := batch[..|batch| - 1];
      InsertAllBalance(t, user, before, u);
      InsertAllKeepsSound(t, user, before);
      InsertBalance(InsertAll(t, user, before), user, batch[|batch| - 1], u);
    }
  }

  lemma {:induction false} MarkBalance(rows: Rows, id: nat, u: User)
    requires id in rows && !rows[id].used
    ensures |RowsOf(MarkUsed(rows, id), u)| == |RowsOf(rows, u)|
    ensures |Unused(MarkUsed(rows, id), u)| == |Unused(rows, u)| - if rows[id].user == u then 1 else 0
  {
    assert RowsOf(MarkUsed(rows, id), u) == RowsOf(rows, u);
    assert Unused(MarkUsed(rows, id), u) == Unused(rows, u) - {id};
  }

  /** At every point of a run without overlap: inserted = unused + handed out. */
  lemma {:induction false} Ledger(states: seq<System>, steps: seq<Step>, n: nat, user: User)
    requires Behaviour(states, steps) && n <= |steps| && NoOverlap(states, steps, n)
    ensures var rows := states[n].table.rows;
            |RowsOf(rows, user)| == |Unused(rows, user)| + Completed(states, steps, n, user)
  {
    if n > 0 {
      Ledger(states, steps, n - 1, user);
      RunOrderly(states, steps, n - 1);
      var sys, step := states[n - 1], steps[n - 1];
      assert Leads(sys, step, states[n - 1 + 1]);
      match step {
        case Upload(u, batch) => InsertAllBalance(sys.table, u, batch, user);
        case Select(_, _) =>
        case Mark(fetch) =>
          assert sys.pending[fetch].rowId in Unused(sys.table.rows, sys.pending[fetch].user);
          MarkBalance(sys.table.rows, sys.pending[fetch].rowId, user);
      }
    } else {
      assert RowsOf(map[], user) == Unused(map[], user) == {};
    }
  }

  // ---------------------------------------------------------------------------
  // The first public key stays
  // ---------------------------------------------------------------------------

  function OffersUpTo(steps: seq<Step>, n: nat): seq<Offer>
    requires n <= |steps|
  {
    if n == 0 then []
    else if steps[n - 1].Upload? then OffersUpTo(steps, n - 1) + Offers(steps[n - 1].user, steps[n - 1].batch)
    else OffersUpTo(steps, n - 1)
  }

  lemma {:induction false} MarkFaithful(rows: Rows, offers: seq<Offer>, id: nat)
    requires Faithful(rows, offers)
    ensures Faithful(MarkUsed(rows, id), offers)
  {
    forall u, p | Taken(rows, u, p) ensures Taken(MarkUsed(rows, id), u, p) {
      var i :| i in rows && rows[i].user == u && rows[i].prekeyId == p;
      assert i in MarkUsed(rows, id);
    }
  }

  lemma {:induction false} RunFaithful(states: seq<System>, steps: seq<Step>, n: nat)
    requires Behaviour(states, steps) && n <= |steps|
    ensures Faithful(states[n].table.rows, OffersUpTo(steps, n))
  {
    if n > 0 {
      RunFaithful(states, steps, n - 1);
      RunRecorded(states, steps, n - 1);
      var sys, step := states[n - 1], steps[n - 1];
      assert Leads(sys, step, states[n - 1 + 1]);
      match step {
        case Upload(user, batch) => InsertAllFaithful(sys.table, OffersUpTo(steps, n - 1), user, batch);
        case Select(_, _) =>
        case Mark(fetch) => MarkFaithful(sys.table.rows, OffersUpTo(steps, n - 1), sys.pending[fetch].rowId);
      }
    }
  }

  /** Whatever is handed out is the public key first uploaded under its id. */
  lemma {:induction false} HandedOutFirstKey(states: seq<System>, steps: seq<Step>, n: nat, k: nat)
    requires Behaviour(states, steps) && n <= |steps| && k < |states[n].handed|
    ensures var h := states[n].handed[k];
            FirstOffered(OffersUpTo(steps, n), h.user, h.prekeyId) == Some(h.publicKey)
  {
    RunFaithful(states, steps, n);
    RunRecorded(states, steps, n);
    assert states[n].handed[k] in states[n].handed;
  }
}
