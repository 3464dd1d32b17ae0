/** Threshold, stake law and finality of the tribunal, over every run. */
module TribunalTheorems {
  import opened Bytes
  import opened Tribunal

  // ---------------------------------------------------------------- one tally

  lemma {:induction false} CountsAddUp(votes: seq<Vote>, sid: int)
    ensures CountFor(votes, sid, FRAUD) + CountFor(votes, sid, LEGITIMATE) <= CountRevealed(votes, sid)
  {
    if votes != [] {
      CountsAddUp(votes[..|votes| - 1], sid);
      assert FRAUD[0] != LEGITIMATE[0];
    }
  }

  /** The votes of the session that were revealed. */
  function RevealedVotes(votes: seq<Vote>, sid: int): set<int> {
    set i | 0 <= i < |votes| && votes[i].session == sid && votes[i].revealed != None
  }

  /** The votes of the session that were revealed as the option. */
  function VotesCast(votes: seq<Vote>, sid: int, option: string): set<int> {
    set i | 0 <= i < |votes| && votes[i].session == sid && votes[i].revealed == Some(option)
  }

  /** The counts of the tally are the sizes of these sets. */
  lemma {:induction false} RevealedCount(votes: seq<Vote>, sid: int)
    ensures CountRevealed(votes, sid) == |RevealedVotes(votes, sid)|
  {
    if votes != [] {
      var n := |votes| - 1;
      var before := RevealedVotes(votes[..n], sid);
      RevealedCount(votes[..n], sid);
      assert RevealedVotes(votes, sid) == before + if IsRevealed(votes[n], sid) then {n} else {};
      SetGrows(before, n);
    }
  }

  lemma {:induction false} CastCount(votes: seq<Vote>, sid: int, option: string)
    ensures CountFor(votes, sid, option) == |VotesCast(votes, sid, option)|
  {
    if votes != [] {
      var n := |votes| - 1;
      var before := VotesCast(votes[..n], sid, option);
      CastCount(votes[..n], sid, option);
      assert VotesCast(votes, sid, option) == before + if VotesFor(votes[n], sid, option) then {n} else {};
      SetGrows(before, n);
    }
  }

  /**
   * A tally decides an option exactly when it has two thirds of at least one revealed vote; at most one
   * option can, so the way ties are broken does not matter.
   */
  lemma DecidesByTwoThirds(votes: seq<Vote>, sid: int, option: string)
    ensures Decision(votes, sid) == Some(option)
       <==> (option == "FRAUD" || option == "LEGITIMATE")
            && |RevealedVotes(votes, sid)| > 0 && 3 * |VotesCast(votes, sid, option)| >= 2 * |RevealedVotes(votes, sid)|
  {
    CountsAddUp(votes, sid);
    RevealedCount(votes, sid);
    CastCount(votes, sid, option);
    assert FRAUD[0] != LEGITIMATE[0];
  }

  lemma {:induction false} CountsWithout(votes: seq<Vote>, k: nat, sid: int, option: string)
    requires k < |votes|
    ensures var rest := votes[..k] + votes[k + 1..];
            && CountRevealed(votes, sid) == CountRevealed(rest, sid) + (if IsRevealed(votes[k], sid) then 1 else 0)
            && CountFor(votes, sid, option)
               == CountFor(rest, sid, option) + (if VotesFor(votes[k], sid, option) then 1 else 0)
    decreases |votes|
  {
    var n, rest := |votes| - 1, votes[..k] + votes[k + 1..];
    if k == n {
      assert rest == votes[..n];
    } else {
      CountsWithout(votes[..n], k, sid, option);
      assert rest[..|rest| - 1] == votes[..n][..k] + votes[..n][k + 1..];
      assert rest[|rest| - 1] == votes[n];
    }
  }

  lemma WithoutOne(votes: seq<Vote>, k: nat)
    requires k < |votes|
    ensures multiset(votes[..k] + votes[k + 1..]) == multiset(votes) - multiset{votes[k]}
  {
    assert votes == votes[..k] + [votes[k]] + votes[k + 1..];
  }

  lemma SameWithoutOne(a: seq<Vote>, n: nat, b: seq<Vote>, k: nat)
    requires n == |a| - 1 && k < |b| && a[n] == b[k] && multiset(a) == multiset(b)
    ensures multiset(a[..n]) == multiset(b[..k] + b[k + 1..])
  {
    WithoutOne(a, n);
    WithoutOne(b, k);
    assert a[..n] + a[n + 1..] == a[..n];
  }

  lemma {:induction false} CountsOfPermutation(a: seq<Vote>, b: seq<Vote>, sid: int, option: string)
    requires multiset(a) == multiset(b)
    ensures CountRevealed(a, sid) == CountRevealed(b, sid) && CountFor(a, sid, option) == CountFor(b, sid, option)
    decreases |a|
  {
    if a == [] {
      assert |multiset(b)| == 0;
    } else {
      var n := |a| - 1;
      var k := SameVoteIn(a, n, b);
      SameWithoutOne(a, n, b, k);
      CountsOfPermutation(a[..n], b[..k] + b[k + 1..], sid, option);
      CountsWithout(b, k, sid, option);
    }
  }

  lemma SameVoteIn(a: seq<Vote>, n: nat, b: seq<Vote>) returns (k: nat)
    requires n < |a| && multiset(a) == multiset(b)
    ensures k < |b| && b[k] == a[n]
  {
    assert a[n] in multiset(a);
    k :| 0 <= k < |b| && b[k] == a[n];
  }

  /** The order in which the database returns the votes does not matter. */
  lemma DecisionIgnoresOrder(a: seq<Vote>, b: seq<Vote>, sid: int)
    requires multiset(a) == multiset(b)
    ensures Decision(a, sid) == Decision(b, sid)
  {
    CountsOfPermutation(a, b, sid, FRAUD);
    CountsOfPermutation(a, b, sid, LEGITIMATE);
  }

  function TotalStake(votes: seq<Vote>): real {
    if votes == [] then 0.0 else TotalStake(votes[..|votes| - 1]) + votes[|votes| - 1].stake
  }

  /** How many votes a tally for the decision slashes. */
  function CountSlashed(votes: seq<Vote>, sid: int, decision: string): int {
    CountRevealed(votes, sid) - CountFor(votes, sid, decision)
  }

  lemma {:induction false} StakeMoves(votes: seq<Vote>, sid: int, decision: string)
    ensures TotalStake(AllSettled(votes, sid, decision)) - TotalStake(votes)
         == (10 * CountRevealed(votes, sid) - 60 * CountSlashed(votes, sid, decision)) as real
    ensures 0 <= CountSlashed(votes, sid, decision)
  {
    if votes != [] {
      var n := |votes| - 1;
      StakeMoves(votes[..n], sid, decision);
      assert AllSettled(votes, sid, decision)[..n] == AllSettled(votes[..n], sid, decision);
    }
  }

  /** Slashing by a deciding tally: at most a third of the revealed votes, and total stake moves by exactly this much. */
  lemma TallySlashesAtMostAThird(sha: string -> string, db: Db, sid: int)
    requires Step(sha, db, Tally(sid)).1.Decided? && Step(sha, db, Tally(sid)).1.decision.Some?
    ensures var r := Step(sha, db, Tally(sid));
            var slashed := CountSlashed(db.votes, sid, r.1.decision.value);
            && 0 <= 3 * slashed <= CountRevealed(db.votes, sid)
            && TotalStake(r.0.votes) - TotalStake(db.votes)
               == (10 * CountRevealed(db.votes, sid) - 60 * slashed) as real
  {
    var d := Decision(db.votes, sid).value;
    DecidesByTwoThirds(db.votes, sid, d);
    StakeMoves(db.votes, sid, d);
  }

  // ---------------------------------------------------------------- commitments

  /** The second opening reads a longer vote out of the text the first one hashes. */
  ghost predicate Stretches(vote: string, salt: string, vote': string, salt': string) {
    exists mid :: vote' == vote + ":" + mid && salt == mid + ":" + salt'
  }

  lemma LongerVote(vote: string, salt: string, vote': string, salt': string)
    requires vote + ":" + salt == vote' + ":" + salt' && |vote| < |vote'|
    ensures Stretches(vote, salt, vote', salt')
  {
    var s, s' := vote + ":" + salt, vote' + ":" + salt';
    var mid := vote'[|vote| + 1..];
    assert s[..|vote|] == vote && s[|vote|] == ':' && s[|vote| + 1..] == salt;
    assert s'[..|vote'|] == vote' && s'[|vote'|] == ':' && s'[|vote'| + 1..] == salt';
    assert vote' == s[..|vote'|] == vote + ":" + mid;
    assert salt == s[|vote| + 1..|vote'|] + s[|vote'|..] == mid + ":" + salt';
  }

  /** Two openings hash one text exactly when they are equal or one stretches the other's vote over a ':'. */
  lemma SameTextIff(vote: string, salt: string, vote': string, salt': string)
    ensures vote + ":" + salt == vote' + ":" + salt'
       <==> (vote == vote' && salt == salt') || Stretches(vote, salt, vote', salt') || Stretches(vote', salt', vote, salt)
  {
    var s, s' := vote + ":" + salt, vote' + ":" + salt';
    if s == s' {
      if |vote| < |vote'| {
        LongerVote(vote, salt, vote', salt');
      } else if |vote'| < |vote| {
        LongerVote(vote', salt', vote, salt);
      } else {
        assert s[..|vote|] == vote && s[|vote| + 1..] == salt;
        assert s'[..|vote'|] == vote' && s'[|vote'| + 1..] == salt';
      }
    }
    if Stretches(vote, salt, vote', salt') { StretchedText(vote, salt, vote', salt'); }
    if Stretches(vote', salt', vote, salt) { StretchedText(vote', salt', vote, salt); }
  }

  lemma StretchedText(vote: string, salt: string, vote': string, salt': string)
    requires Stretches(vote, salt, vote', salt')
    ensures vote + ":" + salt == vote' + ":" + salt'
  {
    var mid :| vote' == vote + ":" + mid && salt == mid + ":" + salt';
    assert vote + ":" + (mid + ":" + salt') == (vote + ":" + mid) + ":" + salt';
  }

  /**
   * What a commitment binds to, for every vote and salt: two openings of one commitment hash different
   * texts to one digest, or are equal, or one stretches the other's vote over a ':'. So of the two votes
   * at most one is free of ':', and the tally counts for an option only such votes.
   */
  lemma CommitBinding(sha: string -> string, vote: string, salt: string, vote': string, salt': string)
    requires CommitHash(sha, vote, salt) == CommitHash(sha, vote', salt')
    ensures || (vote + ":" + salt != vote' + ":" + salt' && sha(vote + ":" + salt) == sha(vote' + ":" + salt'))
            || (vote == vote' && salt == salt')
            || Stretches(vote, salt, vote', salt') || Stretches(vote', salt', vote, salt)
    ensures ':' !in vote && ':' !in vote' ==>
              (vote == vote' && salt == salt')
              || (vote + ":" + salt != vote' + ":" + salt' && sha(vote + ":" + salt) == sha(vote' + ":" + salt'))
  {
    SameTextIff(vote, salt, vote', salt');
    if ':' !in vote && ':' !in vote' && vote + ":" + salt == vote' + ":" + salt' {
      StretchedHasColon(vote, salt, vote', salt');
      StretchedHasColon(vote', salt', vote, salt);
    }
  }

  lemma StretchedHasColon(vote: string, salt: string, vote': string, salt': string)
    ensures Stretches(vote, salt, vote', salt') ==> ':' in vote'
  {
    if Stretches(vote, salt, vote', salt') {
      var mid :| vote' == vote + ":" + mid && salt == mid + ":" + salt';
      assert vote'[|vote|] == ':';
    }
  }

  /** Stretching spoils a vote: with a salt that contains ':', every vote also opens as a longer one. */
  lemma SpoiledOpening(sha: string -> string, vote: string, mid: string, salt: string)
    ensures CommitHash(sha, vote, mid + ":" + salt) == CommitHash(sha, vote + ":" + mid, salt)
    ensures vote + ":" + mid != vote
  {
    assert Stretches(vote, mid + ":" + salt, vote + ":" + mid, salt);
    StretchedText(vote, mid + ":" + salt, vote + ":" + mid, salt);
    assert |vote + ":" + mid| > |vote|;
  }

  // ---------------------------------------------------------------- runs

  function Run(sha: string -> string, start: Db, events: seq<Event>): Db {
    if events == [] then start
    else Step(sha, Run(sha, start, events[..|events| - 1]), events[|events| - 1]).0
  }

  ghost predicate Decides(sha: string -> string, db: Db, e: Event, sid: int) {
    e == Tally(sid) && Step(sha, db, e).1.Decided? && Step(sha, db, e).1.decision.Some?
  }

  /** How many tallies of a session have decided so far. */
  ghost function DecidingTallies(sha: string -> string, start: Db, events: seq<Event>, sid: int): nat {
    if events == [] then 0
    else
      var init := events[..|events| - 1];
      DecidingTallies(sha, start, init, sid)
      + if Decides(sha, Run(sha, start, init), events[|events| - 1], sid) then 1 else 0
  }

  /** Sessions open, no votes yet. */
  ghost predicate Fresh(db: Db) {
    db.votes == [] && forall sid :: sid in db.sessions ==> !db.sessions[sid].phase.Resolved?
  }

  /** What holds of a session after k deciding tallies: it is resolved iff k > 0, and a tally would decide the same. */
  ghost predicate SessionLaw(db: Db, sid: int, k: nat) {
    && (k > 0 ==> sid in db.sessions)
    && (sid in db.sessions ==>
          && (db.sessions[sid].phase.Resolved? <==> k > 0)
          && (k > 0 ==> db.sessions[sid].decision.Some? && Decision(db.votes, sid) == db.sessions[sid].decision))
  }

  /** The stake law: 100 while unrevealed, then 10 more or 50 less for every deciding tally of the session. */
  ghost predicate VoteLaw(sha: string -> string, db: Db, v: Vote, k: nat) {
    && v.session in db.sessions
    && (v.revealed.Some? ==> v.salt.Some? && v.commitHash == CommitHash(sha, v.revealed.value, v.salt.value))
    && v.stake == 100.0 + (if v.revealed.None? || k == 0 then 0.0
                           else if v.revealed == db.sessions[v.session].decision then 10.0 * k as real
                           else -50.0 * k as real)
    && (v.rewarded <==> v.revealed.Some? && k > 0 && v.revealed == db.sessions[v.session].decision)
    && (v.slashed <==> v.revealed.Some? && k > 0 && v.revealed != db.sessions[v.session].decision)
  }

  ghost predicate OneVoteEach(votes: seq<Vote>) {
    forall i, j :: 0 <= i < j < |votes| ==> votes[i].session != votes[j].session || votes[i].auditor != votes[j].auditor
  }

  lemma AppendKeepsDecision(votes: seq<Vote>, v: Vote, sid: int)
    requires v.revealed.None?
    ensures Decision(votes + [v], sid) == Decision(votes, sid)
  {
    assert (votes + [v])[..|votes|] == votes;
  }

  /** Counts depend only on which session a vote is in and what it revealed. */
  lemma {:induction false} SameBallotsSameCounts(a: seq<Vote>, b: seq<Vote>, sid: int, option: string)
    requires |a| == |b|
    requires forall i :: 0 <= i < |a| ==> a[i].session == b[i].session
    requires forall i :: 0 <= i < |a| && a[i].session == sid ==> a[i].revealed == b[i].revealed
    ensures CountRevealed(a, sid) == CountRevealed(b, sid) && CountFor(a, sid, option) == CountFor(b, sid, option)
  {
    if a != [] { SameBallotsSameCounts(a[..|a| - 1], b[..|b| - 1], sid, option); }
  }

  lemma SameBallotsSameDecision(a: seq<Vote>, b: seq<Vote>, sid: int)
    requires |a| == |b|
    requires forall i :: 0 <= i < |a| ==> a[i].session == b[i].session
    requires forall i :: 0 <= i < |a| && a[i].session == sid ==> a[i].revealed == b[i].revealed
    ensures Decision(a, sid) == Decision(b, sid)
  {
    SameBallotsSameCounts(a, b, sid, FRAUD);
    SameBallotsSameCounts(a, b, sid, LEGITIMATE);
  }

  /** One event keeps the session law, counting a deciding tally. */
  lemma StepKeepsSessionLaw(sha: string -> string, db: Db, e: Event, sid: int, k: nat)
    requires SessionLaw(db, sid, k)
    ensures SessionLaw(Step(sha, db, e).0, sid, k + if Decides(sha, db, e, sid) then 1 else 0)
  {
    var after := Step(sha, db, e).0;
    match e {
      case CommitVote(s, auditor, hash, now) =>
        if MayCommit(db, s, auditor, now) { AppendKeepsDecision(db.votes, NewVote(s, auditor, hash), sid); }
      case RevealVote(id, vote, salt) =>
        if MayReveal(sha, db, id, vote, salt) && db.votes[id].session != sid {
          SameBallotsSameDecision(db.votes, after.votes, sid);
        }
      case Tally(s) =>
        if after != db { SameBallotsSameDecision(db.votes, after.votes, sid); }
    }
  }

  /** One event keeps the law of a vote that was already there. */
  lemma StepKeepsVoteLaw(sha: string -> string, db: Db, e: Event, i: nat, k: nat)
    requires i < |db.votes| && VoteLaw(sha, db, db.votes[i], k) && SessionLaw(db, db.votes[i].session, k)
    ensures var r := Step(sha, db, e);
            && i < |r.0.votes|
            && r.0.votes[i].session == db.votes[i].session && r.0.votes[i].auditor == db.votes[i].auditor
            && VoteLaw(sha, r.0, r.0.votes[i], k + if Decides(sha, db, e, db.votes[i].session) then 1 else 0)
  {
    var sid := db.votes[i].session;
    if Decides(sha, db, e, sid) {
      assert (k + 1) as real == k as real + 1.0;
      assert k == 0 ==> (k + 1) as real == 1.0;
    }
  }

  /**
   * The stake law and uniqueness over any run of commits, reveals and tallies, re-tallies included: each
   * auditor has at most one vote a session, every revealed vote matches its commitment, and after k
   * deciding tallies of its session a vote's stake is 100 + 10k, 100 - 50k or 100 according to whether it
   * agreed with the decision (and is marked rewarded), disagreed (slashed), or was never revealed.
   */
  lemma {:induction false} StakeLaw(sha: string -> string, start: Db, events: seq<Event>)
    requires Fresh(start)
    ensures var db := Run(sha, start, events);
            && OneVoteEach(db.votes)
            && (forall sid :: SessionLaw(db, sid, DecidingTallies(sha, start, events, sid)))
            && (forall i :: 0 <= i < |db.votes| ==>
                  VoteLaw(sha, db, db.votes[i], DecidingTallies(sha, start, events, db.votes[i].session)))
  {
    if events != [] {
      var init, e := events[..|events| - 1], events[|events| - 1];
      StakeLaw(sha, start, init);
      var db, after := Run(sha, start, init), Run(sha, start, events);
      forall sid ensures SessionLaw(after, sid, DecidingTallies(sha, start, events, sid)) {
        StepKeepsSessionLaw(sha, db, e, sid, DecidingTallies(sha, start, init, sid));
      }
      forall i | 0 <= i < |after.votes|
        ensures VoteLaw(sha, after, after.votes[i], DecidingTallies(sha, start, events, after.votes[i].session))
      {
        if i < |db.votes| {
          StepKeepsVoteLaw(sha, db, e, i, DecidingTallies(sha, start, init, db.votes[i].session));
        }
      }
      StepKeepsOneVoteEach(sha, db, e);
    }
  }

  lemma StepKeepsOneVoteEach(sha: string -> string, db: Db, e: Event)
    requires OneVoteEach(db.votes)
    ensures OneVoteEach(Step(sha, db, e).0.votes)
  {
  }

  // ---------------------------------------------------------------- an honest vote

  /** A vote keeps its session, auditor and commitment, and no session disappears, whatever happens. */
  lemma {:induction false} VotePersists(sha: string -> string, start: Db, events: seq<Event>, i: nat)
    requires i < |start.votes|
    ensures var db := Run(sha, start, events);
            && i < |db.votes| && start.sessions.Keys == db.sessions.Keys
            && db.votes[i].session == start.votes[i].session && db.votes[i].auditor == start.votes[i].auditor
            && db.votes[i].commitHash == start.votes[i].commitHash
  {
    if events != [] { VotePersists(sha, start, events[..|events| - 1], i); }
  }

  /** The auditor may still vote in the session. */
  ghost predicate MayStillVote(db: Db, sid: int, auditor: int, now: real) {
    && sid in db.sessions && db.sessions[sid].phase == Commit && now <= db.sessions[sid].expiresAt
    && forall i :: 0 <= i < |db.votes| && db.votes[i].session == sid ==> db.votes[i].auditor != auditor
  }

  /**
   * An honest vote gets through: whoever may still vote and commits to a vote and salt can, after any
   * further events, reveal exactly that opening as long as the session is unresolved and the vote not yet
   * revealed, and the tally then counts it once, for what was voted.
   */
  lemma HonestVoteCounts(sha: string -> string, db: Db, sid: int, auditor: int, now: real, vote: string, salt: string,
                         events: seq<Event>, option: string)
    requires MayStillVote(db, sid, auditor, now)
    ensures var id := |db.votes|;
            var committed := Step(sha, db, CommitVote(sid, auditor, sha(vote + ":" + salt), now));
            var later := Run(sha, committed.0, events);
            && committed.1 == Voted(id) && id < |later.votes| && sid in later.sessions
            && (later.votes[id].revealed.None? && !later.sessions[sid].phase.Resolved? ==>
                  var revealed := Step(sha, later, RevealVote(id, vote, salt));
                  && revealed.1 == RevealedOk(true) && |revealed.0.votes| == |later.votes|
                  && revealed.0.votes[id].revealed == Some(vote) && revealed.0.votes[id].auditor == auditor
                  && CountRevealed(revealed.0.votes, sid) == CountRevealed(later.votes, sid) + 1
                  && CountFor(revealed.0.votes, sid, option)
                     == CountFor(later.votes, sid, option) + if option == vote then 1 else 0)
  {
    var id := |db.votes|;
    var committed := Step(sha, db, CommitVote(sid, auditor, sha(vote + ":" + salt), now)).0;
    var later := Run(sha, committed, events);
    VotePersists(sha, committed, events, id);
    if later.votes[id].revealed.None? && !later.sessions[sid].phase.Resolved? {
      var after := Step(sha, later, RevealVote(id, vote, salt)).0;
      CountsWithout(later.votes, id, sid, option);
      CountsWithout(after.votes, id, sid, option);
      assert after.votes[..id] + after.votes[id + 1..] == later.votes[..id] + later.votes[id + 1..];
    }
  }

  // ---------------------------------------------------------------- finality

  /** The votes of a session that matter once it is resolved: who voted, and what was revealed. */
  ghost predicate SameBallots(a: Db, b: Db, sid: int) {
    && |a.votes| <= |b.votes|
    && (forall i :: 0 <= i < |a.votes| ==> a.votes[i].session == b.votes[i].session)
    && (forall i :: 0 <= i < |a.votes| && a.votes[i].session == sid ==>
          a.votes[i].auditor == b.votes[i].auditor && a.votes[i].revealed == b.votes[i].revealed)
    && (forall i :: |a.votes| <= i < |b.votes| ==> b.votes[i].session != sid)
  }

  lemma StepKeepsResolved(sha: string -> string, db: Db, e: Event, sid: int, k: nat)
    requires SessionLaw(db, sid, k) && k > 0
    ensures var after := Step(sha, db, e).0;
            SameBallots(db, after, sid) && sid in after.sessions && after.sessions[sid] == db.sessions[sid]
  {
  }

  /**
   * Finality: once a session is resolved, no later event adds or reveals one of its votes or touches its
   * decision, and every later tally answers with that same decision.
   */
  lemma {:induction false} ResolvedIsFinal(sha: string -> string, start: Db, events: seq<Event>, n: nat, sid: int)
    requires Fresh(start) && n <= |events|
    requires var db := Run(sha, start, events[..n]); sid in db.sessions && db.sessions[sid].phase.Resolved?
    ensures var then_, now := Run(sha, start, events[..n]), Run(sha, start, events);
            && SameBallots(then_, now, sid)
            && sid in now.sessions && now.sessions[sid] == then_.sessions[sid]
            && Step(sha, now, Tally(sid)).1 == Decided(then_.sessions[sid].decision)
    decreases |events|
  {
    StakeLaw(sha, start, events);
    assert SessionLaw(Run(sha, start, events), sid, DecidingTallies(sha, start, events, sid));
    if n == |events| {
      assert events[..n] == events;
    } else {
      var init, e := events[..|events| - 1], events[|events| - 1];
      assert init[..n] == events[..n];
      ResolvedIsFinal(sha, start, init, n, sid);
      StakeLaw(sha, start, init);
      StepKeepsResolved(sha, Run(sha, start, init), e, sid, DecidingTallies(sha, start, init, sid));
    }
  }
}
