/** Which events of a connection are handled, and what comes of them. */
module WebSocketAnswers {
  import opened Prelude
  import opened WebSocketHandler
  import FR = FileRelay

  predicate Writes(event: Event) {
    event.FileAvailable? || event.CheckOnline? || event.OtherRequest? || event.Ping? || event.Notification?
  }

  /** A closed socket, a closed channel, or a failed write; not lag, nor another frame. */
  predicate Ends(event: Event) {
    event.SocketClosed? || event.ChannelClosed? || (Writes(event) && !event.sent)
  }

  /** The loop gets to event `i` if nothing before it ended the loop. */
  ghost predicate Handled(events: seq<Event>, i: nat) {
    i < |events| && forall j | 0 <= j < i :: !Ends(events[j])
  }

  lemma {:induction false} HandledNext(events: seq<Event>, i: nat)
    requires events != []
    ensures Handled(events, i + 1) <==> !Ends(events[0]) && Handled(events[1..], i)
  {
    if !Ends(events[0]) && Handled(events[1..], i) {
      forall j | 0 <= j < i + 1 ensures !Ends(events[j]) {
        assert j > 0 ==> events[j] == events[1..][j - 1];
      }
    }
    if Handled(events, i + 1) {
      assert forall j | 0 <= j < i :: events[1..][j] == events[j + 1];
    }
  }

  lemma {:induction false} BreaksAtEnds(event: Event)
    ensures Breaks(event) <==> Ends(event)
  {
  }

  // ---------------------------------------------------------------------------
  // Online checks
  // ---------------------------------------------------------------------------

  ghost predicate Checked(events: seq<Event>, i: nat) {
    Handled(events, i) && events[i].CheckOnline?
  }

  /** How many online checks are handled before event `n`. */
  ghost function Checks(events: seq<Event>, n: nat): nat {
    if n == 0 then 0 else Checks(events, n - 1) + if Checked(events, n - 1) then 1 else 0
  }

  lemma {:induction false} ChecksNext(events: seq<Event>, n: nat)
    requires events != []
    ensures Checks(events, n + 1)
         == (if events[0].CheckOnline? then 1 else 0) + if Ends(events[0]) then 0 else Checks(events[1..], n)
  {
    if n > 0 {
      ChecksNext(events, n - 1);
      HandledNext(events, n - 1);
      assert n < |events| ==> events[n] == events[1..][n - 1];
    } else {
      assert Checks(events, 1) == Checks(events, 0) + if Checked(events, 0) then 1 else 0;
    }
  }

  /** Each online check that the loop gets to is answered, in order, with whether its target
      has an entry; and nothing else is. */
  lemma {:induction false} RepliesExactly(online: set<Bytes>, events: seq<Event>)
    ensures |OnlineReplies(online, events)| == Checks(events, |events|)
    ensures forall i: nat | Checked(events, i) ::
              && Checks(events, i) < |OnlineReplies(online, events)|
              && OnlineReplies(online, events)[Checks(events, i)] == (events[i].target in online)
    decreases events
  {
    if events != [] {
      var rest := events[1..];
      BreaksAtEnds(events[0]);
      ChecksNext(events, |rest|);
      RepliesExactly(online, rest);
      forall i: nat | Checked(events, i)
        ensures && Checks(events, i) < |OnlineReplies(online, events)|
                && OnlineReplies(online, events)[Checks(events, i)] == (events[i].target in online)
      {
        if i > 0 {
          HandledNext(events, i - 1);
          ChecksNext(events, i - 1);
          assert events[i] == rest[i - 1];
          assert Checked(rest, i - 1);
        }
      }
    }
  }

  // ---------------------------------------------------------------------------
  // Announcements
  // ---------------------------------------------------------------------------

  /** Event `i` is handled and announces the transfer. */
  ghost predicate Announces(events: seq<Event>, i: nat, id: FR.TransferId) {
    Handled(events, i) && events[i].FileAvailable? && events[i].rawId == id
  }

  ghost predicate AnnouncesLast(events: seq<Event>, i: nat, id: FR.TransferId) {
    Announces(events, i, id) && forall j: nat | j > i :: !Announces(events, j, id)
  }

  lemma {:induction false} AnnouncesNext(events: seq<Event>, i: nat, id: FR.TransferId)
    requires events != []
    ensures Announces(events, i + 1, id) <==> !Ends(events[0]) && Announces(events[1..], i, id)
  {
    HandledNext(events, i);
    assert i + 1 < |events| ==> events[i + 1] == events[1..][i];
  }

  /** The transfers that are taken out again at the end are those announced. */
  lemma {:induction false} AnnouncedExactly(events: seq<Event>, id: FR.TransferId)
    ensures id in Announced(events) <==> exists i: nat :: Announces(events, i, id)
    decreases events
  {
    if events != [] {
      BreaksAtEnds(events[0]);
      AnnouncedExactly(events[1..], id);
      if i: nat :| Announces(events, i, id) {
        if i > 0 {
          AnnouncesNext(events, i - 1, id);
        }
      }
      if !Ends(events[0]) && exists i: nat :: Announces(events[1..], i, id) {
        var i: nat :| Announces(events[1..], i, id);
        AnnouncesNext(events, i, id);
      }
      if id in AnnouncedBy(events[0]) {
        assert Announces(events, 0, id);
      }
    }
  }

  /** A transfer is entered by its last announcement; those not announced stay as they were. */
  ghost predicate Entered(table: FR.Table, user: Bytes, events: seq<Event>, id: FR.TransferId, entry: FR.Entry) {
    || (exists i: nat :: AnnouncesLast(events, i, id) && entry == FR.Entry(user, events[i].at))
    || ((forall i: nat :: !Announces(events, i, id)) && id in table && table[id] == entry)
  }

  lemma {:induction false} LastNext(events: seq<Event>, i: nat, id: FR.TransferId)
    requires events != []
    ensures AnnouncesLast(events, i + 1, id) <==> !Ends(events[0]) && AnnouncesLast(events[1..], i, id)
  {
    AnnouncesNext(events, i, id);
    if AnnouncesLast(events, i + 1, id) {
      forall j: nat | j > i ensures !Announces(events[1..], j, id) {
        AnnouncesNext(events, j, id);
      }
    }
    if !Ends(events[0]) && AnnouncesLast(events[1..], i, id) {
      forall j: nat | j > i + 1 ensures !Announces(events, j, id) {
        AnnouncesNext(events, j - 1, id);
      }
    }
  }

  lemma {:induction false} NothingNext(events: seq<Event>, id: FR.TransferId)
    requires events != []
    ensures (forall i: nat :: !Announces(events, i, id))
       <==> !Announces(events, 0, id) && (Ends(events[0]) || forall i: nat :: !Announces(events[1..], i, id))
  {
    if i: nat :| Announces(events, i, id) {
      if i > 0 {
        AnnouncesNext(events, i - 1, id);
      }
    }
    if i: nat :| Announces(events[1..], i, id) {
      AnnouncesNext(events, i, id);
    }
  }

  lemma {:induction false} EnteredNext(table: FR.Table, user: Bytes, events: seq<Event>, id: FR.TransferId,
                                       entry: FR.Entry)
    requires events != [] && !Ends(events[0])
    ensures Entered(table, user, events, id, entry)
       <==> Entered(AnnouncingOne(table, user, events[0]), user, events[1..], id, entry)
  {
    NothingNext(events, id);
    var rest, table' := events[1..], AnnouncingOne(table, user, events[0]);
    forall i: nat ensures AnnouncesLast(events, i + 1, id) <==> AnnouncesLast(rest, i, id) {
      LastNext(events, i, id);
    }
    if i: nat :| AnnouncesLast(events, i, id) && entry == FR.Entry(user, events[i].at) {
      if i > 0 {
        assert AnnouncesLast(rest, i - 1, id) && rest[i - 1] == events[i];
      } else {
        forall j: nat ensures !Announces(rest, j, id) {
          AnnouncesNext(events, j, id);
        }
      }
    }
    if i: nat :| AnnouncesLast(rest, i, id) && entry == FR.Entry(user, rest[i].at) {
      assert AnnouncesLast(events, i + 1, id) && events[i + 1] == rest[i];
    }
    if (forall i: nat :: !Announces(rest, i, id)) && Announces(events, 0, id) {
      assert AnnouncesLast(events, 0, id) by {
        forall j: nat | j > 0 ensures !Announces(events, j, id) {
          AnnouncesNext(events, j - 1, id);
        }
      }
    }
  }

  lemma {:induction false} EnteredAtEnd(table: FR.Table, user: Bytes, events: seq<Event>, id: FR.TransferId,
                                        entry: FR.Entry)
    requires events != [] && Ends(events[0])
    ensures Entered(table, user, events, id, entry)
       <==> id in AnnouncingOne(table, user, events[0]) && AnnouncingOne(table, user, events[0])[id] == entry
  {
    NothingNext(events, id);
    forall i: nat | i > 0 ensures !Announces(events, i, id) {
      AnnouncesNext(events, i - 1, id);
    }
    assert Announces(events, 0, id) ==> AnnouncesLast(events, 0, id);
  }

  /** What the registry holds once the loop has ended, before its transfers are taken out. */
  lemma {:induction false} EnteredExactly(table: FR.Table, user: Bytes, events: seq<Event>, id: FR.TransferId,
                                          entry: FR.Entry)
    ensures var table' := Announcing(table, user, events);
            id in table' && table'[id] == entry <==> Entered(table, user, events, id, entry)
    decreases events
  {
    if events != [] {
      BreaksAtEnds(events[0]);
      if Ends(events[0]) {
        EnteredAtEnd(table, user, events, id, entry);
      } else {
        EnteredNext(table, user, events, id, entry);
        EnteredExactly(AnnouncingOne(table, user, events[0]), user, events[1..], id, entry);
      }
    }
  }
}
