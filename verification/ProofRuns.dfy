/** Logins interleaved statement by statement: a challenge request first clears the user's
    challenges and only then stores a new one; a proof first selects its challenge, then
    deletes it, and only then stores a session. */
module ProofRuns {
  import opened Prelude
  import S = Schema
  import Login

  type Hash = S.Hash
  type Proof = nat

  /** A challenge that a proof has selected; once it has spent it, the proof has a turn. */
  datatype Held = Held(user: Hash, challengeId: Bytes, expiresAt: Instant, turn: Option<nat>)

  datatype Spent = Spent(user: Hash, challengeId: Bytes)

  datatype Session = Session(user: Hash, turn: nat)

  /** `issued` remembers every challenge, `spent` every one that a proof has spent. */
  datatype System = System(challenges: S.Challenges, sessions: map<Bytes, Session>, held: map<Proof, Held>,
                           issued: map<Bytes, Hash>, spent: seq<Spent>)

  const START := System(map[], map[], map[], map[], [])

  datatype Step =
    | Clear(user: Hash)
    | Issue(user: Hash, challengeId: Bytes, nonce: Bytes, at: Instant)
    | Select(proof: Proof, user: Hash, challengeId: Bytes)
    | Expire(proof: Proof, at: Instant)
    | Reject(proof: Proof)
    | Spend(proof: Proof, at: Instant)
    | Grant(proof: Proof, token: Bytes)

  predicate Holds(sys: System, proof: Proof) {
    proof in sys.held && sys.held[proof].turn == None
  }

  /** Challenge ids and tokens are fresh. */
  predicate Enabled(sys: System, step: Step) {
    match step
    case Clear(_) => true
    case Issue(_, id, _, _) => id !in sys.issued
    case Select(proof, _, _) => proof !in sys.held
    case Expire(proof, at) => Holds(sys, proof) && at > sys.held[proof].expiresAt
    case Reject(proof) => Holds(sys, proof)
    case Spend(proof, at) => Holds(sys, proof) && at <= sys.held[proof].expiresAt
    case Grant(proof, token) => proof in sys.held && sys.held[proof].turn.Some? && token !in sys.sessions
  }

  function Selected(sys: System, proof: Proof, user: Hash, id: Bytes): System {
    if id in sys.challenges && sys.challenges[id].user == user
    then sys.(held := sys.held[proof := Held(user, id, sys.challenges[id].expiresAt, None)])
    else sys
  }

  function SpentBy(sys: System, proof: Proof): System
    requires proof in sys.held
  {
    var h := sys.held[proof];
    sys.(challenges := sys.challenges - {h.challengeId},
         held := sys.held[proof := h.(turn := Some(|sys.spent|))],
         spent := sys.spent + [Spent(h.user, h.challengeId)])
  }

  function Next(sys: System, step: Step): System
    requires Enabled(sys, step)
  {
    match step
    case Clear(user) =>
      sys.(challenges := map id | id in sys.challenges && sys.challenges[id].user != user :: sys.challenges[id])
    case Issue(user, id, nonce, at) =>
      var challenge := S.Challenge(user, nonce, at + Seconds(Login.CHALLENGE_EXPIRY_SECONDS));
      sys.(challenges := sys.challenges[id := challenge], issued := sys.issued[id := user])
    case Select(proof, user, id) => Selected(sys, proof, user, id)
    case Expire(proof, _) =>
      sys.(challenges := sys.challenges - {sys.held[proof].challengeId}, held := sys.held - {proof})
    case Reject(proof) => sys.(held := sys.held - {proof})
    case Spend(proof, _) => SpentBy(sys, proof)
    case Grant(proof, token) =>
      sys.(sessions := sys.sessions[token := Session(sys.held[proof].user, sys.held[proof].turn.value)],
           held := sys.held - {proof})
  }

  ghost predicate Leads(sys: System, step: Step, sys': System) {
    Enabled(sys, step) && sys' == Next(sys, step)
  }

  ghost predicate Behaviour(states: seq<System>, steps: seq<Step>) {
    && |states| == |steps| + 1
    && states[0] == START
    && forall i | 0 <= i < |steps| :: Leads(states[i], steps[i], states[i + 1])
  }

  // ---------------------------------------------------------------------------
  // The property, and the condition under which it holds
  // ---------------------------------------------------------------------------

  /** Each challenge is spent at most once. */
  ghost predicate AtMostOnce(spent: seq<Spent>) {
    forall i, j | 0 <= i < j < |spent| :: spent[i].challengeId != spent[j].challengeId
  }

  /** While step `i` spends a challenge, the proof of step `j`, which will spend it too,
      already holds it. */
  ghost predicate Overlap(states: seq<System>, steps: seq<Step>, i: nat, j: nat)
    requires |states| == |steps| + 1
  {
    && i < j < |steps| && steps[i].Spend? && steps[j].Spend?
    && Holds(states[i], steps[i].proof) && Holds(states[i], steps[j].proof) && Holds(states[j], steps[j].proof)
    && states[i].held[steps[i].proof].challengeId == states[i].held[steps[j].proof].challengeId
    && states[j].held[steps[j].proof] == states[i].held[steps[j].proof]
  }

  // ---------------------------------------------------------------------------
  // What every step keeps
  // ---------------------------------------------------------------------------

  ghost predicate HeldIssued(held: map<Proof, Held>, issued: map<Bytes, Hash>, spent: seq<Spent>) {
    forall p | p in held ::
      && held[p].challengeId in issued && issued[held[p].challengeId] == held[p].user
      && (held[p].turn.Some? ==>
            held[p].turn.value < |spent| && spent[held[p].turn.value] == Spent(held[p].user, held[p].challengeId))
  }

  ghost predicate SpentIssued(issued: map<Bytes, Hash>, spent: seq<Spent>) {
    forall s | s in spent :: s.challengeId in issued && issued[s.challengeId] == s.user
  }

  ghost predicate StoredIssued(challenges: S.Challenges, issued: map<Bytes, Hash>) {
    forall id | id in challenges :: id in issued && issued[id] == challenges[id].user
  }

  /** Each turn belongs to one proof or one session. */
  ghost predicate TurnsTaken(held: map<Proof, Held>, sessions: map<Bytes, Session>, spent: seq<Spent>) {
    && (forall t | t in sessions :: sessions[t].turn < |spent| && spent[sessions[t].turn].user == sessions[t].user)
    && (forall t, t' | t in sessions && t' in sessions && sessions[t].turn == sessions[t'].turn :: t == t')
    && (forall p, p' | p in held && p' in held && held[p].turn.Some? && held[p].turn == held[p'].turn :: p == p')
    && (forall t, p | t in sessions && p in held :: held[p].turn != Some(sessions[t].turn))
  }

  ghost predicate Sound(sys: System) {
    && HeldIssued(sys.held, sys.issued, sys.spent)
    && SpentIssued(sys.issued, sys.spent)
    && StoredIssued(sys.challenges, sys.issued)
    && TurnsTaken(sys.held, sys.sessions, sys.spent)
  }

  lemma {:induction false} SpendKeepsSound(sys: System, proof: Proof)
    requires Sound(sys) && Holds(sys, proof)
    ensures Sound(SpentBy(sys, proof))
  {
    var sys' := SpentBy(sys, proof);
    assert forall i | 0 <= i < |sys.spent| :: sys'.spent[i] == sys.spent[i];
    assert HeldIssued(sys'.held, sys'.issued, sys'.spent);
  }

  lemma {:induction false} GrantKeepsSound(sys: System, proof: Proof, token: Bytes)
    requires Sound(sys) && Enabled(sys, Grant(proof, token))
    ensures Sound(Next(sys, Grant(proof, token)))
  {
  }

  lemma {:induction false} ChallengeKeepsSound(sys: System, step: Step)
    requires Sound(sys) && Enabled(sys, step) && (step.Clear? || step.Issue? || step.Select?)
    ensures Sound(Next(sys, step))
  {
  }

  lemma {:induction false} ReleaseKeepsSound(sys: System, step: Step)
    requires Sound(sys) && Enabled(sys, step) && (step.Expire? || step.Reject?)
    ensures Sound(Next(sys, step))
  {
  }

  lemma {:induction false} StepKeepsSound(sys: System, step: Step)
    requires Sound(sys) && Enabled(sys, step)
    ensures Sound(Next(sys, step))
  {
    match step {
      case Spend(proof, _) => SpendKeepsSound(sys, proof);
      case Grant(proof, token) => GrantKeepsSound(sys, proof, token);
      case Expire(_, _) => ReleaseKeepsSound(sys, step);
      case Reject(_) => ReleaseKeepsSound(sys, step);
      case _ => ChallengeKeepsSound(sys, step);
    }
  }

  lemma {:induction false} RunKeepsSound(states: seq<System>, steps: seq<Step>, i: nat)
    requires Behaviour(states, steps) && i < |states|
    ensures Sound(states[i])
  {
    if i > 0 {
      RunKeepsSound(states, steps, i - 1);
      assert Leads(states[i - 1], steps[i - 1], states[i - 1 + 1]);
      StepKeepsSound(states[i - 1], steps[i - 1]);
    }
  }

  // ---------------------------------------------------------------------------
  // At most once, exactly without overlap
  // ---------------------------------------------------------------------------

  /** Entry `n` of the history was written by step `i`. */
  ghost predicate Wrote(states: seq<System>, steps: seq<Step>, i: nat, n: nat)
    requires |states| == |steps| + 1
  {
    && i < |steps| && steps[i].Spend? && Holds(states[i], steps[i].proof) && |states[i].spent| == n
  }

  lemma {:induction false} SpentGrows(states: seq<System>, steps: seq<Step>, i: nat, j: nat)
    requires Behaviour(states, steps) && i <= j < |states|
    ensures states[i].spent <= states[j].spent
  {
    if i < j {
      SpentGrows(states, steps, i, j - 1);
      assert Leads(states[j - 1], steps[j - 1], states[j - 1 + 1]);
    }
  }

  /** A challenge that was issued and is no longer stored never is again. */
  lemma {:induction false} GoneForGood(states: seq<System>, steps: seq<Step>, i: nat, j: nat, id: Bytes)
    requires Behaviour(states, steps) && i <= j < |states|
    requires id in states[i].issued && id !in states[i].challenges
    ensures id in states[j].issued && id !in states[j].challenges
  {
    if i < j {
      GoneForGood(states, steps, i, j - 1, id);
      assert Leads(states[j - 1], steps[j - 1], states[j - 1 + 1]);
    }
  }

  lemma {:induction false} Writer(states: seq<System>, steps: seq<Step>, k: nat, n: nat) returns (i: nat)
    requires Behaviour(states, steps) && k < |states| && n < |states[k].spent|
    ensures i < k && Wrote(states, steps, i, n)
    ensures states[k].spent[n].challengeId == states[i].held[steps[i].proof].challengeId
  {
    assert Leads(states[k - 1], steps[k - 1], states[k - 1 + 1]);
    if n < |states[k - 1].spent| {
      i := Writer(states, steps, k - 1, n);
    } else {
      i := k - 1;
    }
  }

  /** A proof can only come to hold a challenge that is stored. */
  lemma {:induction false} HeldBefore(sys: System, step: Step, proof: Proof)
    requires Enabled(sys, step) && Holds(Next(sys, step), proof)
    requires Next(sys, step).held[proof].challengeId !in sys.challenges
    ensures Holds(sys, proof) && sys.held[proof] == Next(sys, step).held[proof]
  {
  }

  /** A proof that holds an issued challenge which was not stored at state `i` has held it
      since then. */
  lemma {:induction false} HeldSince(states: seq<System>, steps: seq<Step>, i: nat, j: nat, proof: Proof)
    requires Behaviour(states, steps) && i <= j < |states| && Holds(states[j], proof)
    requires states[j].held[proof].challengeId in states[i].issued
    requires states[j].held[proof].challengeId !in states[i].challenges
    ensures Holds(states[i], proof) && states[i].held[proof] == states[j].held[proof]
  {
    if i < j {
      assert Leads(states[j - 1], steps[j - 1], states[j - 1 + 1]);
      GoneForGood(states, steps, i, j - 1, states[j].held[proof].challengeId);
      HeldBefore(states[j - 1], steps[j - 1], proof);
      HeldSince(states, steps, i, j - 1, proof);
    }
  }

  /** Two entries of one challenge were written by proofs that overlap. */
  lemma {:induction false} TwiceOverlaps(states: seq<System>, steps: seq<Step>, m: nat, n: nat) returns (i: nat, j: nat)
    requires Behaviour(states, steps) && m < n < |states[|steps|].spent|
    requires states[|steps|].spent[m].challengeId == states[|steps|].spent[n].challengeId
    ensures Overlap(states, steps, i, j)
  {
    i := Writer(states, steps, |steps|, m);
    j := Writer(states, steps, |steps|, n);
    if j < i {
      SpentGrows(states, steps, j, i);
    }
    assert i < j;
    assert Leads(states[i], steps[i], states[i + 1]);
    var p, id := steps[i].proof, states[i].held[steps[i].proof].challengeId;
    RunKeepsSound(states, steps, i);
    assert id in states[i + 1].issued && id !in states[i + 1].challenges;
    HeldSince(states, steps, i + 1, j, steps[j].proof);
    assert steps[j].proof != p;
  }

  /** Proofs that overlap write the challenge twice. */
  lemma {:induction false} OverlapTwice(states: seq<System>, steps: seq<Step>, i: nat, j: nat)
    requires Behaviour(states, steps) && Overlap(states, steps, i, j)
    ensures !AtMostOnce(states[|steps|].spent)
  {
    var m, n := |states[i].spent|, |states[j].spent|;
    assert Leads(states[i], steps[i], states[i + 1]) && Leads(states[j], steps[j], states[j + 1]);
    SpentGrows(states, steps, i + 1, j);
    SpentGrows(states, steps, i + 1, |steps|);
    SpentGrows(states, steps, j + 1, |steps|);
    var spent := states[|steps|].spent;
    assert states[i + 1].spent[m] == spent[m] && states[j + 1].spent[n] == spent[n];
    assert m < n && spent[m].challengeId == spent[n].challengeId;
  }

  /** Over every run of interleaved statements: each challenge is spent at most once if and
      only if no two proofs that spend it overlap, the second holding it already when the
      first deletes it. */
  lemma {:induction false} SpentOnceExactly(states: seq<System>, steps: seq<Step>)
    requires Behaviour(states, steps)
    ensures AtMostOnce(states[|steps|].spent) <==> forall i, j :: !Overlap(states, steps, i, j)
  {
    if i, j :| Overlap(states, steps, i, j) {
      OverlapTwice(states, steps, i, j);
    }
    var spent := states[|steps|].spent;
    if !AtMostOnce(spent) {
      var m, n :| 0 <= m < n < |spent| && spent[m].challengeId == spent[n].challengeId;
      var i, j := TwiceOverlaps(states, steps, m, n);
    }
  }

  // ---------------------------------------------------------------------------
  // Counting sessions
  // ---------------------------------------------------------------------------

  function SessionsOf(sys: System, user: Hash): set<Bytes> {
    set t | t in sys.sessions && sys.sessions[t].user == user
  }

  function IssuedTo(sys: System, user: Hash): set<Bytes> {
    set id | id in sys.issued && sys.issued[id] == user
  }

  lemma {:induction false} InjectiveSize(m: map<Bytes, Bytes>, s: set<Bytes>)
    requires forall k | k in m :: m[k] in s
    requires forall k, k' | k in m && k' in m && m[k] == m[k'] :: k == k'
    ensures |m.Keys| <= |s|
  {
    if m.Keys != {} {
      var k :| k in m;
      var m', s' := m - {k}, s - {m[k]};
      assert m'.Keys == m.Keys - {k};
      assert s == s' + {m[k]};
      InjectiveSize(m', s');
    }
  }

  /** Without overlap a user's sessions never outnumber the challenges issued to it. */
  lemma {:induction false} SessionsWithinIssued(states: seq<System>, steps: seq<Step>, user: Hash)
    requires Behaviour(states, steps) && forall i, j :: !Overlap(states, steps, i, j)
    ensures var sys := states[|steps|];
            |SessionsOf(sys, user)| <= |IssuedTo(sys, user)|
  {
    SpentOnceExactly(states, steps);
    RunKeepsSound(states, steps, |steps|);
    var sys := states[|steps|];
    var m := map t | t in SessionsOf(sys, user) :: sys.spent[sys.sessions[t].turn].challengeId;
    forall t | t in m ensures m[t] in IssuedTo(sys, user) {
      assert sys.spent[sys.sessions[t].turn] in sys.spent;
    }
    assert m.Keys == SessionsOf(sys, user);
    InjectiveSize(m, IssuedTo(sys, user));
  }

  /** Two proofs of one challenge that both select it before either deletes it. */
  function RacingProofs(user: Hash): seq<Step> {
    [Issue(user, [0], [], 0), Select(1, user, [0]), Select(2, user, [0]), Spend(1, 1), Spend(2, 1),
     Grant(1, [1]), Grant(2, [2])]
  }

  function Racer(user: Hash, turn: Option<nat>): Held {
    Held(user, [0], Seconds(300), turn)
  }

  lemma {:induction false} RaceSelects(user: Hash) returns (s: seq<System>)
    ensures |s| == 3 && Leads(START, Issue(user, [0], [], 0), s[0])
    ensures Leads(s[0], Select(1, user, [0]), s[1]) && Leads(s[1], Select(2, user, [0]), s[2])
    ensures s[2] == System(map[[0] := S.Challenge(user, [], Seconds(300))], map[],
                           map[1 := Racer(user, None), 2 := Racer(user, None)], map[[0] := user], [])
  {
    var stored := START.(challenges := map[[0] := S.Challenge(user, [], Seconds(300))], issued := map[[0] := user]);
    s := [stored, stored.(held := map[1 := Racer(user, None)]),
          stored.(held := map[1 := Racer(user, None), 2 := Racer(user, None)])];
  }

  lemma {:induction false} RaceSpends(user: Hash, before: System) returns (s: seq<System>)
    requires before == System(map[[0] := S.Challenge(user, [], Seconds(300))], map[],
                              map[1 := Racer(user, None), 2 := Racer(user, None)], map[[0] := user], [])
    ensures |s| == 2 && Leads(before, Spend(1, 1), s[0]) && Leads(s[0], Spend(2, 1), s[1])
    ensures s[1] == System(map[], map[], map[1 := Racer(user, Some(0)), 2 := Racer(user, Some(1))], map[[0] := user],
                           [Spent(user, [0]), Spent(user, [0])])
  {
    var first := System(map[], map[], map[1 := Racer(user, Some(0)), 2 := Racer(user, None)], map[[0] := user],
                        [Spent(user, [0])]);
    assert before.challenges - {[0]} == map[];
    s := [first, System(map[], map[], map[1 := Racer(user, Some(0)), 2 := Racer(user, Some(1))], map[[0] := user],
                        [Spent(user, [0]), Spent(user, [0])])];
  }

  lemma {:induction false} RaceGrants(user: Hash, before: System) returns (s: seq<System>)
    requires before.held == map[1 := Racer(user, Some(0)), 2 := Racer(user, Some(1))] && before.sessions == map[]
    ensures |s| == 2 && Leads(before, Grant(1, [1]), s[0]) && Leads(s[0], Grant(2, [2]), s[1])
    ensures SessionsOf(s[1], user) == {[1], [2]} && s[1].issued == before.issued
  {
    var first := before.(sessions := map[[1] := Session(user, 0)], held := map[2 := Racer(user, Some(1))]);
    s := [first, first.(sessions := map[[1] := Session(user, 0), [2] := Session(user, 1)], held := map[])];
    assert SessionsOf(s[1], user) == {[1], [2]};
  }

  /** The race is real: one challenge yields two sessions. */
  lemma {:induction false} RaceLogsInTwice(user: Hash) returns (states: seq<System>)
    ensures Behaviour(states, RacingProofs(user))
    ensures SessionsOf(states[7], user) == {[1], [2]} && IssuedTo(states[7], user) == {[0]}
  {
    var selects := RaceSelects(user);
    var spends := RaceSpends(user, selects[2]);
    var grants := RaceGrants(user, spends[1]);
    states := [START] + selects + spends + grants;
    assert states == [START, selects[0], selects[1], selects[2], spends[0], spends[1], grants[0], grants[1]];
  }
}
