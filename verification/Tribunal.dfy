/** The commit-reveal tribunal: committing, revealing, tallying and slashing. */
module Tribunal {
  import opened Bytes

  const FRAUD := "FRAUD"
  const LEGITIMATE := "LEGITIMATE"

  datatype Phase = Commit | Reveal | Resolved

  datatype Session = Session(phase: Phase, decision: Option<string>, expiresAt: real)

  datatype Vote = Vote(session: int, auditor: int, commitHash: string, revealed: Option<string>,
                       salt: Option<string>, stake: real, slashed: bool, rewarded: bool)

  /** The two tables; a vote's id is its position. */
  datatype Db = Db(sessions: map<int, Session>, votes: seq<Vote>)

  /** SHA-256 in hexadecimal, of "vote:salt". */
  function CommitHash(sha: string -> string, vote: string, salt: string): string { sha(vote + ":" + salt) }

  // ---------------------------------------------------------------- committing and revealing

  predicate HasVoted(votes: seq<Vote>, sid: int, auditor: int) {
    exists i :: 0 <= i < |votes| && votes[i].session == sid && votes[i].auditor == auditor
  }

  predicate MayCommit(db: Db, sid: int, auditor: int, now: real) {
    && sid in db.sessions && db.sessions[sid].phase == Commit && !(db.sessions[sid].expiresAt < now)
    && !HasVoted(db.votes, sid, auditor)
  }

  function NewVote(sid: int, auditor: int, hash: string): Vote {
    Vote(sid, auditor, hash, None, None, 100.0, false, false)
  }

  predicate MayReveal(sha: string -> string, db: Db, id: int, vote: string, salt: string) {
    && 0 <= id < |db.votes| && db.votes[id].revealed.None?
    && db.votes[id].session in db.sessions && !db.sessions[db.votes[id].session].phase.Resolved?
    && db.votes[id].commitHash == CommitHash(sha, vote, salt)
  }

  // ---------------------------------------------------------------- tallying

  predicate IsRevealed(v: Vote, sid: int) { v.session == sid && v.revealed.Some? }

  predicate VotesFor(v: Vote, sid: int, option: string) { v.session == sid && v.revealed == Some(option) }

  function CountRevealed(votes: seq<Vote>, sid: int): nat {
    if votes == [] then 0
    else CountRevealed(votes[..|votes| - 1], sid) + if IsRevealed(votes[|votes| - 1], sid) then 1 else 0
  }

  function CountFor(votes: seq<Vote>, sid: int, option: string): nat {
    if votes == [] then 0
    else CountFor(votes[..|votes| - 1], sid, option) + if VotesFor(votes[|votes| - 1], sid, option) then 1 else 0
  }

  /** The option with more votes, FRAUD on a tie, if it has two thirds of the revealed votes. */
  function Decision(votes: seq<Vote>, sid: int): Option<string> {
    var total, fraud, legitimate := CountRevealed(votes, sid), CountFor(votes, sid, FRAUD), CountFor(votes, sid, LEGITIMATE);
    var option, count := if legitimate > fraud then LEGITIMATE else FRAUD, if legitimate > fraud then legitimate else fraud;
    if total > 0 && 3 * count >= 2 * total then Some(option) else None
  }

  function Settled(v: Vote, sid: int, decision: string): Vote {
    if !IsRevealed(v, sid) then v
    else if v.revealed == Some(decision) then v.(rewarded := true, slashed := false, stake := v.stake + 10.0)
    else v.(slashed := true, rewarded := false, stake := v.stake - 50.0)
  }

  function AllSettled(votes: seq<Vote>, sid: int, decision: string): (after: seq<Vote>)
    ensures |after| == |votes|
  {
    seq(|votes|, i requires 0 <= i < |votes| => Settled(votes[i], sid, decision))
  }

  // ---------------------------------------------------------------- events

  datatype Event =
    | CommitVote(sid: int, auditor: int, hash: string, now: real)
    | RevealVote(id: int, vote: string, salt: string)
    | Tally(sid: int)

  datatype Answer = Raised | Voted(id: int) | RevealedOk(ok: bool) | Decided(decision: Option<string>)

  function Step(sha: string -> string, db: Db, e: Event): (Db, Answer) {
    match e
    case CommitVote(sid, auditor, hash, now) =>
      if MayCommit(db, sid, auditor, now)
      then (db.(votes := db.votes + [NewVote(sid, auditor, hash)]), Voted(|db.votes|))
      else (db, Raised)
    case RevealVote(id, vote, salt) =>
      if MayReveal(sha, db, id, vote, salt)
      then (db.(votes := db.votes[id := db.votes[id].(revealed := Some(vote), salt := Some(salt))]), RevealedOk(true))
      else if !(0 <= id < |db.votes|) then (db, RevealedOk(false))
      else if db.votes[id].revealed.Some? || db.votes[id].session !in db.sessions
              || db.sessions[db.votes[id].session].phase.Resolved? then (db, Raised)
      else (db, RevealedOk(false))
    case Tally(sid) =>
      match Decision(db.votes, sid)
      case None => (db, Decided(None))
      case Some(d) =>
        if sid !in db.sessions then (db, Raised)
        else (Db(db.sessions[sid := db.sessions[sid].(phase := Resolved, decision := Some(d))],
                 AllSettled(db.votes, sid, d)),
              Decided(Some(d)))
  }

  // ---------------------------------------------------------------- the service object

  class TribunalService {
    const sha: string -> string
    var sessions: map<int, Session>
    var votes: seq<Vote>

    ghost function View(): Db
      reads this
    {
      Db(sessions, votes)
    }

    constructor (sha: string -> string, sessions: map<int, Session>)
      ensures this.sha == sha && View() == Db(sessions, [])
    {
      this.sha, this.sessions, this.votes := sha, sessions, [];
    }

    method CommitVote(sid: int, auditor: int, hash: string, now: real) returns (a: Answer)
      modifies this
      ensures (View(), a) == Step(sha, old(View()), Event.CommitVote(sid, auditor, hash, now))
      ensures a == Voted(|old(votes)|) || a == Raised
      ensures a.Voted? <==> && sid in sessions && sessions[sid].phase == Commit && now <= sessions[sid].expiresAt
                            && forall i :: 0 <= i < |old(votes)| && old(votes)[i].session == sid ==>
                                 old(votes)[i].auditor != auditor
      ensures votes == old(votes) + if a.Voted? then [Vote(sid, auditor, hash, None, None, 100.0, false, false)] else []
      ensures sessions == old(sessions)
    {
      if sid !in sessions || sessions[sid].phase != Commit || sessions[sid].expiresAt < now { return Raised; }
      if exists i :: 0 <= i < |votes| && votes[i].session == sid && votes[i].auditor == auditor { return Raised; }
      a := Voted(|votes|);
      votes := votes + [NewVote(sid, auditor, hash)];
    }

    method RevealVote(id: int, vote: string, salt: string) returns (a: Answer)
      modifies this
      ensures (View(), a) == Step(sha, old(View()), Event.RevealVote(id, vote, salt))
      ensures sessions == old(sessions)
      ensures a == Raised <==> && 0 <= id < |old(votes)|
                               && var v := old(votes)[id];
                                  v.revealed.Some? || v.session !in sessions || sessions[v.session].phase == Resolved
      ensures a == RevealedOk(true) <==> a != Raised && 0 <= id < |old(votes)|
                                         && old(votes)[id].commitHash == sha(vote + ":" + salt)
      ensures votes == if a == RevealedOk(true)
                       then old(votes)[id := old(votes)[id].(revealed := Some(vote), salt := Some(salt))] else old(votes)
    {
      if !(0 <= id < |votes|) { return RevealedOk(false); }
      var record := votes[id];
      if record.revealed.Some? { return Raised; }
      if record.session !in sessions { return Raised; }
      if sessions[record.session].phase.Resolved? { return Raised; }
      if record.commitHash != CommitHash(sha, vote, salt) { return RevealedOk(false); }
      record := record.(revealed := Some(vote));
      record := record.(salt := Some(salt));
      votes := votes[id := record];
      a := RevealedOk(true);
    }

    method CountVotes(sid: int) returns (total: nat, fraud: nat, legitimate: nat)
      ensures total == CountRevealed(votes, sid)
      ensures fraud == CountFor(votes, sid, FRAUD) && legitimate == CountFor(votes, sid, LEGITIMATE)
    {
      total, fraud, legitimate := 0, 0, 0;
      for i := 0 to |votes|
        invariant total == CountRevealed(votes[..i], sid)
        invariant fraud == CountFor(votes[..i], sid, FRAUD) && legitimate == CountFor(votes[..i], sid, LEGITIMATE)
      {
        assert votes[..i + 1][..i] == votes[..i];
        var v := votes[i];
        if v.session == sid && v.revealed.Some? {
          total := total + 1;
          if v.revealed.value == FRAUD { fraud := fraud + 1; }
          else if v.revealed.value == LEGITIMATE { legitimate := legitimate + 1; }
        }
      }
      assert votes[..|votes|] == votes;
    }

    method Slash(sid: int, decision: string)
      modifies this`votes
      ensures votes == AllSettled(old(votes), sid, decision)
      ensures forall i :: 0 <= i < |votes| ==>
        var v := old(votes)[i];
        votes[i] == if v.session != sid || v.revealed.None? then v
                    else if v.revealed.value == decision
                    then v.(rewarded := true, slashed := false, stake := v.stake + 10.0)
                    else v.(rewarded := false, slashed := true, stake := v.stake - 50.0)
    {
      ghost var before := votes;
      for i := 0 to |votes|
        invariant |votes| == |before|
        invariant forall j :: 0 <= j < |votes| ==>
          votes[j] == if j < i then Settled(before[j], sid, decision) else before[j]
      {
        var v := votes[i];
        if v.session == sid && v.revealed.Some? {
          if v.revealed.value == decision {
            v := v.(rewarded := true, slashed := false, stake := v.stake + 10.0);
          } else {
            v := v.(slashed := true, rewarded := false, stake := v.stake - 50.0);
          }
          votes := votes[i := v];
        }
      }
    }

    method TallyAndSlash(sid: int) returns (a: Answer)
      modifies this
      ensures (View(), a) == Step(sha, old(View()), Tally(sid))
      ensures a.Decided? && a.decision.Some? ==>
                && sid in old(sessions)
                && sessions == old(sessions)[sid := old(sessions)[sid].(phase := Resolved, decision := a.decision)]
                && votes == AllSettled(old(votes), sid, a.decision.value)
      ensures !(a.Decided? && a.decision.Some?) ==> View() == old(View())
      ensures a == Raised ==> sid !in sessions
    {
      var total, fraud, legitimate := CountVotes(sid);
      if total == 0 { return Decided(None); }
      var option, count := FRAUD, fraud;
      if legitimate > fraud { option, count := LEGITIMATE, legitimate; }
      if 3 * count < 2 * total { return Decided(None); }
      if sid !in sessions { return Raised; }
      Slash(sid, option);
      sessions := sessions[sid := sessions[sid].(phase := Resolved, decision := Some(option))];
      a := Decided(Some(option));
    }
  }
}
