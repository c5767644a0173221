/** The pool of one-time prekeys: uploaded in batches, handed out oldest first, each
    at most once. Choosing a key and marking it used are two statements. */
module Prekeys {
  import opened Prelude
  import opened Ordering

  /** `as i32` and `as u32` keep the bits. */
  function AsI32(n: u32): i32 {
    if n < 0x8000_0000 then n else n - 0x1_0000_0000
  }

  function AsU32(n: i32): u32 {
    if n >= 0 then n else n + 0x1_0000_0000
  }

  /** Prekey ids survive the trip through the table, and stay distinct in it. */
  lemma {:induction false} IdsSurvive(n: u32, m: u32)
    ensures AsU32(AsI32(n)) == n
    ensures AsI32(n) == AsI32(m) ==> n == m
  {
  }

  type User = Bytes

  datatype Row = Row(user: User, prekeyId: i32, publicKey: Bytes, used: bool)

  type Rows = map<nat, Row>

  /** Row ids come from a sequence, which also advances for rows that are not inserted. */
  datatype Table = Table(rows: Rows, nextId: nat)

  datatype Prekey = Prekey(id: u32, publicKey: Bytes)

  const EMPTY := Table(map[], 1)

  predicate Taken(rows: Rows, user: User, prekeyId: i32) {
    exists id | id in rows :: rows[id].user == user && rows[id].prekeyId == prekeyId
  }

  function Insert(t: Table, user: User, prekey: Prekey): Table {
    if Taken(t.rows, user, AsI32(prekey.id)) then t.(nextId := t.nextId + 1)
    else Table(t.rows[t.nextId := Row(user, AsI32(prekey.id), prekey.publicKey, false)], t.nextId + 1)
  }

  /** One INSERT of a whole batch, doing nothing on conflict. */
  function InsertAll(t: Table, user: User, batch: seq<Prekey>): Table {
    if batch == [] then t else Insert(InsertAll(t, user, batch[..|batch| - 1]), user, batch[|batch| - 1])
  }

  function RowsOf(rows: Rows, user: User): set<nat> {
    set id | id in rows && rows[id].user == user
  }

  function Unused(rows: Rows, user: User): set<nat> {
    set id | id in rows && rows[id].user == user && !rows[id].used
  }

  /** The oldest unused row. */
  function Oldest(rows: Rows, user: User): Option<nat> {
    var ids := Unused(rows, user);
    if ids == {} then None else Some(Least(ids))
  }

  function MarkUsed(rows: Rows, id: nat): Rows {
    if id in rows then rows[id := rows[id].(used := true)] else rows
  }

  // ---------------------------------------------------------------------------
  // The table and its handlers
  // ---------------------------------------------------------------------------

  datatype Refusal =
    | InvalidHash | SignatureRequired | StaleTimestamp | NoPrekeys | UserNotFound | InvalidSignature | BadBundle

  datatype Outcome = Refused(reason: Refusal) | Stored(count: nat)

  /** `pre_key_id` and `pre_key_public` of a bundle; the rest is opaque. */
  datatype Bundle = Bundle(prekeyId: u32, prekeyPublic: Bytes, rest: Bytes)

  const HASH_SIZE: nat := 32

  class PrekeyTable {
    var rows: Rows
    var nextId: nat

    ghost predicate Valid()
      reads this
    {
      Sound(Contents())
    }

    ghost function Contents(): Table
      reads this
    {
      Table(rows, nextId)
    }

    constructor ()
      ensures Valid() && Contents() == EMPTY
    {
      rows, nextId := map[], 1;
    }

    /** Uploads answer with the number of rows that are new. */
    method Upload(user: User, signature: Bytes, timely: bool, batch: seq<Prekey>, known: bool, verified: bool)
      returns (outcome: Outcome)
      requires Valid()
      modifies this
      ensures Valid()
      ensures outcome.Stored? <==> |user| == 32 && signature != [] && timely && batch != [] && known && verified
      ensures outcome == Refused(InvalidHash) <==> |user| != 32
      ensures outcome == Refused(SignatureRequired) <==> |user| == 32 && signature == []
      ensures outcome == Refused(StaleTimestamp) <==> |user| == 32 && signature != [] && !timely
      ensures outcome == Refused(NoPrekeys) <==> |user| == 32 && signature != [] && timely && batch == []
      ensures outcome == Refused(UserNotFound) <==> |user| == 32 && signature != [] && timely && batch != [] && !known
      ensures outcome.Refused? ==> Contents() == old(Contents())
      ensures outcome.Stored? ==>
                && Contents() == InsertAll(old(Contents()), user, batch)
                && |RowsOf(rows, user)| == |RowsOf(old(rows), user)| + outcome.count
    {
      if |user| != HASH_SIZE { return Refused(InvalidHash); }
      if signature == [] { return Refused(SignatureRequired); }
      if !timely { return Refused(StaleTimestamp); }
      if batch == [] { return Refused(NoPrekeys); }
      if !known { return Refused(UserNotFound); }
      if !verified { return Refused(InvalidSignature); }
      var inserted := InsertBatch(user, batch);
      outcome := Stored(inserted);
    }

    /** Replenishing answers with the number of unused keys. */
    method Replenish(user: User, signature: Bytes, batch: seq<Prekey>, known: bool, verified: bool)
      returns (outcome: Outcome)
      requires Valid()
      modifies this
      ensures Valid()
      ensures outcome.Stored? <==> |user| == 32 && signature != [] && batch != [] && known && verified
      ensures outcome == Refused(InvalidHash) <==> |user| != 32
      ensures outcome == Refused(SignatureRequired) <==> |user| == 32 && signature == []
      ensures outcome == Refused(NoPrekeys) <==> |user| == 32 && signature != [] && batch == []
      ensures outcome == Refused(UserNotFound) <==> |user| == 32 && signature != [] && batch != [] && !known
      ensures outcome.Refused? ==> Contents() == old(Contents())
      ensures outcome.Stored? ==>
                && Contents() == InsertAll(old(Contents()), user, batch)
                && outcome.count == |Unused(rows, user)|
    {
      if |user| != HASH_SIZE { return Refused(InvalidHash); }
      if signature == [] { return Refused(SignatureRequired); }
      if batch == [] { return Refused(NoPrekeys); }
      if !known { return Refused(UserNotFound); }
      if !verified { return Refused(InvalidSignature); }
      var inserted := InsertBatch(user, batch);
      var count := CountUnused(user);
      outcome := Stored(count);
    }

    method InsertBatch(user: User, batch: seq<Prekey>) returns (inserted: nat)
      requires Valid()
      modifies this
      ensures Valid() && Contents() == InsertAll(old(Contents()), user, batch)
      ensures |RowsOf(rows, user)| == |RowsOf(old(rows), user)| + inserted
    {
      inserted := 0;
      var i := 0;
      assert batch[..0] == [];
      while i < |batch|
        invariant 0 <= i <= |batch|
        invariant Valid() && Contents() == InsertAll(old(Contents()), user, batch[..i])
        invariant |RowsOf(rows, user)| == |RowsOf(old(rows), user)| + inserted
      {
        InsertAllNext(old(Contents()), user, batch, i);
        var isNew := InsertOne(user, batch[i]);
        inserted := inserted + if isNew then 1 else 0;
        i := i + 1;
      }
      assert batch[..|batch|] == batch;
    }

    method InsertOne(user: User, prekey: Prekey) returns (isNew: bool)
      requires Valid()
      modifies this
      ensures Valid() && Contents() == Insert(old(Contents()), user, prekey)
      ensures |RowsOf(rows, user)| == |RowsOf(old(rows), user)| + if isNew then 1 else 0
    {
      InsertKeepsSound(Contents(), user, prekey);
      isNew := !Taken(rows, user, AsI32(prekey.id));
      if isNew {
        var row := Row(user, AsI32(prekey.id), prekey.publicKey, false);
        RowAdded(rows, nextId, row);
        rows := rows[nextId := row];
      }
      nextId := nextId + 1;
      assert Contents() == Insert(old(Contents()), user, prekey);
    }

    /** A whole fetch with nothing in between its statements: the oldest unused key of
        the target goes into the bundle and is never unused again. */
    method FetchBundle(target: User, base: Bundle) returns (bundle: Bundle)
      requires Valid()
      modifies this`rows
      ensures Valid()
      ensures match Oldest(old(rows), target)
              case None => bundle == base && rows == old(rows)
              case Some(id) =>
                && bundle == Bundle(AsU32(old(rows)[id].prekeyId), old(rows)[id].publicKey, base.rest)
                && rows == MarkUsed(old(rows), id)
                && Unused(rows, target) == Unused(old(rows), target) - {id}
    {
      bundle := base;
      var oldest := Oldest(rows, target);
      if oldest.Some? {
        var row := rows[oldest.value];
        MarkKeepsSound(Contents(), oldest.value);
        rows := rows[oldest.value := row.(used := true)];
        bundle := bundle.(prekeyId := AsU32(row.prekeyId));
        bundle := bundle.(prekeyPublic := row.publicKey);
      }
    }

    method CountUnused(user: User) returns (count: nat)
      ensures count == |Unused(rows, user)|
    {
      count := |Unused(rows, user)|;
    }
  }

  // ---------------------------------------------------------------------------
  // What every statement keeps
  // ---------------------------------------------------------------------------

  /** The table constraints: ids below the sequence, one row per user and prekey id. */
  ghost predicate Sound(t: Table) {
    && (forall id | id in t.rows :: id < t.nextId)
    && (forall id, id' | id in t.rows && id' in t.rows && t.rows[id].user == t.rows[id'].user
                         && t.rows[id].prekeyId == t.rows[id'].prekeyId :: id == id')
  }

  lemma {:induction false} InsertKeepsSound(t: Table, user: User, prekey: Prekey)
    requires Sound(t)
    ensures Sound(Insert(t, user, prekey))
  {
  }

  lemma {:induction false} InsertAllKeepsSound(t: Table, user: User, batch: seq<Prekey>)
    requires Sound(t)
    ensures Sound(InsertAll(t, user, batch))
  {
    if batch != [] {
      InsertAllKeepsSound(t, user, batch[..|batch| - 1]);
      InsertKeepsSound(InsertAll(t, user, batch[..|batch| - 1]), user, batch[|batch| - 1]);
    }
  }

  lemma {:induction false} MarkKeepsSound(t: Table, id: nat)
    requires Sound(t)
    ensures Sound(t.(rows := MarkUsed(t.rows, id)))
  {
  }

  /** A new row counts once for its user, used or not. */
  lemma {:induction false} RowAdded(rows: Rows, id: nat, row: Row)
    requires id !in rows && !row.used
    ensures RowsOf(rows[id := row], row.user) == RowsOf(rows, row.user) + {id}
    ensures Unused(rows[id := row], row.user) == Unused(rows, row.user) + {id}
    ensures |RowsOf(rows[id := row], row.user)| == |RowsOf(rows, row.user)| + 1
    ensures |Unused(rows[id := row], row.user)| == |Unused(rows, row.user)| + 1
  {
    assert RowsOf(rows[id := row], row.user) == RowsOf(rows, row.user) + {id};
    assert Unused(rows[id := row], row.user) == Unused(rows, row.user) + {id};
  }

  lemma {:induction false} InsertAllNext(t: Table, user: User, batch: seq<Prekey>, i: nat)
    requires i < |batch|
    ensures InsertAll(t, user, batch[..i + 1]) == Insert(InsertAll(t, user, batch[..i]), user, batch[i])
  {
    assert batch[..i + 1][..i] == batch[..i];
  }

  // ---------------------------------------------------------------------------
  // The first public key uploaded for an id is the one that stays
  // ---------------------------------------------------------------------------

  datatype Offer = Offer(user: User, prekeyId: i32, publicKey: Bytes)

  function Offers(user: User, batch: seq<Prekey>): (offers: seq<Offer>)
    ensures |offers| == |batch|
  {
    seq(|batch|, i requires 0 <= i < |batch| => Offer(user, AsI32(batch[i].id), batch[i].publicKey))
  }

  function FirstOffered(offers: seq<Offer>, user: User, prekeyId: i32): Option<Bytes> {
    if offers == [] then None
    else
      var earlier, last := FirstOffered(offers[..|offers| - 1], user, prekeyId), offers[|offers| - 1];
      if earlier.Some? then earlier
      else if last.user == user && last.prekeyId == prekeyId then Some(last.publicKey)
      else None
  }

  /** The table holds exactly the ids ever offered, each with its first public key. */
  ghost predicate Faithful(rows: Rows, offers: seq<Offer>) {
    && (forall id | id in rows :: FirstOffered(offers, rows[id].user, rows[id].prekeyId) == Some(rows[id].publicKey))
    && (forall user, prekeyId :: FirstOffered(offers, user, prekeyId).Some? ==> Taken(rows, user, prekeyId))
  }

  lemma {:induction false} InsertFaithful(t: Table, offers: seq<Offer>, user: User, prekey: Prekey)
    requires Sound(t) && Faithful(t.rows, offers)
    ensures Faithful(Insert(t, user, prekey).rows, offers + [Offer(user, AsI32(prekey.id), prekey.publicKey)])
  {
    var offer := Offer(user, AsI32(prekey.id), prekey.publicKey);
    assert (offers + [offer])[..|offers|] == offers;
    var rows' := Insert(t, user, prekey).rows;
    forall u, p | FirstOffered(offers + [offer], u, p).Some?
      ensures Taken(rows', u, p)
    {
      if FirstOffered(offers, u, p).Some? {
        var id :| id in t.rows && t.rows[id].user == u && t.rows[id].prekeyId == p;
        assert id in rows' && rows'[id] == t.rows[id];
      } else if !Taken(t.rows, u, p) {
        assert t.nextId in rows';
      }
    }
  }

  lemma {:induction false} InsertAllFaithful(t: Table, offers: seq<Offer>, user: User, batch: seq<Prekey>)
    requires Sound(t) && Faithful(t.rows, offers)
    ensures Faithful(InsertAll(t, user, batch).rows, offers + Offers(user, batch))
  {
    if batch == [] {
      assert offers + Offers(user, batch) == offers;
    } else {
      var before, last := batch[..|batch| - 1], batch[|batch| - 1];
      InsertAllFaithful(t, offers, user, before);
      InsertAllKeepsSound(t, user, before);
      InsertFaithful(InsertAll(t, user, before), offers + Offers(user, before), user, last);
      assert offers + Offers(user, batch)
          == (offers + Offers(user, before)) + [Offer(user, AsI32(last.id), last.publicKey)];
    }
  }
}
