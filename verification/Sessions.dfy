/** Session revocation: the middleware's Redis checks, logout and account deletion. */
module Sessions {

  datatype Token = Token(jti: string, sub: string, iat: int, exp: int)

  /** A watermark refuses the user's tokens issued at or before iat; the key dies at expiresAt. */
  datatype Watermark = Watermark(iat: int, expiresAt: real)

  /** Redis: expiry times of blacklisted token ids, and per-user watermarks. */
  datatype Store = Store(blacklist: map<string, real>, invalidated: map<string, Watermark>)

  datatype Verdict = Invalid | Revoked | Passed | SystemFault

  /**
   * What raises during a request: nothing, the validation or Redis lookup of the check, or the write of
   * one key. A write that raises after taking effect leaves the keys of a Smooth request.
   */
  datatype Fault = Smooth | CheckFails | BlacklistFails | WatermarkFails

  /** 86400 * 30. */
  const THIRTY_DAYS := 2592000

  /** A JWT is dead on or after its expiry time (section 4.1.4 of RFC 7519). */
  predicate Unexpired(t: Token, now: real) { now < t.exp as real }

  predicate Blacklisted(s: Store, jti: string, now: real) {
    jti in s.blacklist && now < s.blacklist[jti]
  }

  predicate Invalidated(s: Store, t: Token, now: real) {
    t.sub in s.invalidated && now < s.invalidated[t.sub].expiresAt && t.iat <= s.invalidated[t.sub].iat
  }

  function Dispatch(s: Store, t: Token, now: real): Verdict {
    if !Unexpired(t, now) then Invalid
    else if Blacklisted(s, t.jti, now) || Invalidated(s, t, now) then Revoked
    else Passed
  }

  /** The middleware's answer; an unexpected exception is answered with 500. */
  function Answer(s: Store, t: Token, now: real, fault: Fault): Verdict {
    if fault.CheckFails? then SystemFault else Dispatch(s, t, now)
  }

  function Ttl(t: Token, now: real): (ttl: int)
    ensures now + ttl as real >= t.exp as real
    ensures ttl >= 1 && (ttl == t.exp - now.Floor || (ttl == 1 && t.exp - now.Floor < 1))
  {
    if t.exp - now.Floor > 1 then t.exp - now.Floor else 1
  }

  /** The blacklist write is reached and succeeds. */
  predicate WritesBlacklist(t: Token, fault: Fault) { t.jti != "" && !fault.BlacklistFails? }

  /** The watermark write of a logout is reached and succeeds; it comes after the blacklist write. */
  predicate WritesWatermark(t: Token, fault: Fault) {
    t.sub != "" && !fault.WatermarkFails? && !(t.jti != "" && fault.BlacklistFails?)
  }

  function AfterLogout(s: Store, t: Token, now: real, fault: Fault): Store {
    var until := now + Ttl(t, now) as real;
    Store(if WritesBlacklist(t, fault) then s.blacklist[t.jti := until] else s.blacklist,
          if WritesWatermark(t, fault) then s.invalidated[t.sub := Watermark(t.iat, until)] else s.invalidated)
  }

  /** Deletion needs a resolved user, so an empty subject never gets here. */
  function AfterDelete(s: Store, t: Token, now: real, fault: Fault): Store {
    if t.sub == "" || fault.WatermarkFails? then s
    else s.(invalidated := s.invalidated[t.sub := Watermark(now.Floor, now + THIRTY_DAYS as real)])
  }

  /** The Redis keys as the handlers change them. */
  class Redis {
    var blacklist: map<string, real>
    var invalidated: map<string, Watermark>

    ghost function View(): Store
      reads this
    {
      Store(blacklist, invalidated)
    }

    constructor ()
      ensures View() == Store(map[], map[])
    {
      blacklist, invalidated := map[], map[];
    }

    method Check(t: Token, now: real, fault: Fault) returns (v: Verdict)
      ensures v == Answer(View(), t, now, fault)
      ensures v == SystemFault <==> fault.CheckFails?
      ensures v == Invalid <==> !fault.CheckFails? && t.exp as real <= now
    {
      if fault.CheckFails? {
        return SystemFault;
      }
      if t.exp as real <= now {
        return Invalid;
      }
      var refused := t.jti in blacklist && now < blacklist[t.jti];
      if t.sub in invalidated && now < invalidated[t.sub].expiresAt && t.iat <= invalidated[t.sub].iat {
        refused := true;
      }
      v := if refused then Revoked else Passed;
    }

    method Logout(t: Token, now: real, fault: Fault) returns (v: Verdict)
      modifies this
      ensures v == old(Answer(View(), t, now, fault))
      ensures View() == if v.Passed? then AfterLogout(old(View()), t, now, fault) else old(View())
      ensures v.Passed? && t.jti != "" && !fault.BlacklistFails? ==>
                blacklist == old(blacklist)[t.jti := now + Ttl(t, now) as real]
      ensures !(v.Passed? && t.jti != "" && !fault.BlacklistFails?) ==> blacklist == old(blacklist)
      ensures v.Passed? && t.sub != "" && fault.Smooth? ==>
                invalidated == old(invalidated)[t.sub := Watermark(t.iat, now + Ttl(t, now) as real)]
      ensures t.sub == "" || fault.WatermarkFails? || !v.Passed? ==> invalidated == old(invalidated)
    {
      v := Check(t, now, fault);
      if v.Passed? {
        var ttl := if t.exp - now.Floor > 1 then t.exp - now.Floor else 1;
        if t.jti != "" {
          if fault.BlacklistFails? { return; }
          blacklist := blacklist[t.jti := now + ttl as real];
        }
        if t.sub != "" {
          if fault.WatermarkFails? { return; }
          invalidated := invalidated[t.sub := Watermark(t.iat, now + ttl as real)];
        }
      }
    }

    method DeleteAccount(t: Token, now: real, fault: Fault) returns (v: Verdict)
      modifies this
      ensures v == old(Answer(View(), t, now, fault))
      ensures View() == if v.Passed? then AfterDelete(old(View()), t, now, fault) else old(View())
      ensures blacklist == old(blacklist)
      ensures invalidated == if v.Passed? && t.sub != "" && !fault.WatermarkFails?
                             then old(invalidated)[t.sub := Watermark(now.Floor, now + 2592000.0)] else old(invalidated)
    {
      v := Check(t, now, fault);
      if v.Passed? && t.sub != "" && !fault.WatermarkFails? {
        invalidated := invalidated[t.sub := Watermark(now.Floor, now + THIRTY_DAYS as real)];
      }
    }
  }

  // ---------------------------------------------------------------- runs

  datatype Action = Visit | Logout | Delete
  datatype Event = Event(token: Token, at: real, action: Action, fault: Fault)

  /** One request: the middleware check and the handler behind it, as one step. */
  function Step(s: Store, e: Event): Store {
    if Answer(s, e.token, e.at, e.fault) != Passed then s
    else match e.action
      case Visit => s
      case Logout => AfterLogout(s, e.token, e.at, e.fault)
      case Delete => AfterDelete(s, e.token, e.at, e.fault)
  }

  function Run(events: seq<Event>): Store {
    if events == [] then Store(map[], map[])
    else Step(Run(events[..|events| - 1]), events[|events| - 1])
  }

  /**
   * What a run assumes: one token lifespan, requests in time order, tokens presented after they were
   * issued, and token ids that identify tokens.
   */
  ghost predicate Fair(events: seq<Event>, lifespan: int) {
    && (forall i :: 0 <= i < |events| ==>
          && events[i].token.exp == events[i].token.iat + lifespan
          && events[i].token.iat as real <= events[i].at)
    && (forall i, j :: 0 <= i < j < |events| ==> events[i].at <= events[j].at)
    && (forall i, j :: 0 <= i < |events| && 0 <= j < |events| && events[i].token.jti == events[j].token.jti != "" ==>
          events[i].token == events[j].token)
  }

  /** Account deletion writes a 30-day key, so runs with deletions need tokens that live no longer. */
  ghost predicate DeletionsCovered(events: seq<Event>, lifespan: int) {
    lifespan <= 30 * 24 * 3600 || forall i :: 0 <= i < |events| ==> !events[i].action.Delete?
  }

  /** Request i got past the middleware. */
  ghost predicate Accepted(events: seq<Event>, i: int) {
    0 <= i < |events| && Answer(Run(events[..i]), events[i].token, events[i].at, events[i].fault) == Passed
  }

  /** The issue time up to which an event revokes its user's tokens. */
  function Level(e: Event): int { if e.action.Logout? then e.token.iat else e.at.Floor }

  /** A deletion of the account, or a logout that got past its blacklist write, with a watermark write that succeeds. */
  ghost predicate RevokesUser(e: Event, sub: string) {
    && e.token.sub == sub != "" && !e.fault.WatermarkFails?
    && (e.action.Delete? || (e.action.Logout? && (e.token.jti == "" || !e.fault.BlacklistFails?)))
  }

  /** A logout of the token id whose blacklist write succeeds. */
  ghost predicate RevokesId(e: Event, jti: string) {
    e.action.Logout? && e.token.jti == jti != "" && !e.fault.BlacklistFails?
  }

  ghost predicate Revokes(e: Event, t: Token) {
    (RevokesUser(e, t.sub) && t.iat <= Level(e)) || RevokesId(e, t.jti)
  }

  /** Some accepted logout or deletion in the run covers the token. */
  ghost predicate RevokedIn(events: seq<Event>, t: Token) {
    exists i {:trigger Accepted(events, i)} :: Accepted(events, i) && Revokes(events[i], t)
  }

  /** The user's watermark reaches the level and outlives every token it must refuse. */
  ghost predicate Covered(s: Store, sub: string, level: int, lifespan: int) {
    && sub in s.invalidated && s.invalidated[sub].iat >= level
    && s.invalidated[sub].expiresAt >= (level + lifespan) as real
  }

  /** Every revocation still in force is in Redis. */
  ghost predicate Remembered(s: Store, events: seq<Event>, lifespan: int, now: real) {
    forall i {:trigger Accepted(events, i)} :: Accepted(events, i) ==>
      var e := events[i];
      && (RevokesUser(e, e.token.sub) ==>
            Covered(s, e.token.sub, Level(e), lifespan) || now >= (Level(e) + lifespan) as real)
      && (RevokesId(e, e.token.jti) ==>
            e.token.jti in s.blacklist && s.blacklist[e.token.jti] >= e.token.exp as real)
  }

  ghost predicate IdWritten(events: seq<Event>, jti: string) {
    jti != "" && exists i {:trigger Accepted(events, i)} :: Accepted(events, i) && RevokesId(events[i], jti)
  }

  ghost predicate WatermarkWritten(events: seq<Event>, sub: string, iat: int) {
    && sub != ""
    && exists i {:trigger Accepted(events, i)} ::
         Accepted(events, i) && RevokesUser(events[i], sub) && Level(events[i]) == iat
  }

  /** Every key in Redis was written by an accepted logout or deletion. */
  ghost predicate Justified(s: Store, events: seq<Event>) {
    && (forall jti :: jti in s.blacklist ==> IdWritten(events, jti))
    && (forall sub :: sub in s.invalidated ==> WatermarkWritten(events, sub, s.invalidated[sub].iat))
  }

  lemma AcceptedPrefix(events: seq<Event>, n: nat, i: nat)
    requires i < n <= |events|
    ensures Accepted(events[..n], i) <==> Accepted(events, i)
  {
    assert events[..n][..i] == events[..i];
  }

  lemma FairPrefix(events: seq<Event>, n: nat, lifespan: int)
    requires n <= |events| && Fair(events, lifespan) && DeletionsCovered(events, lifespan)
    ensures Fair(events[..n], lifespan) && DeletionsCovered(events[..n], lifespan)
  {
  }

  lemma WrittenStays(events: seq<Event>, n: nat, jti: string, sub: string, iat: int)
    requires n <= |events|
    ensures IdWritten(events[..n], jti) ==> IdWritten(events, jti)
    ensures WatermarkWritten(events[..n], sub, iat) ==> WatermarkWritten(events, sub, iat)
  {
    var before := events[..n];
    if IdWritten(before, jti) {
      var i :| Accepted(before, i) && RevokesId(before[i], jti);
      AcceptedPrefix(events, n, i);
    }
    if WatermarkWritten(before, sub, iat) {
      var i :| Accepted(before, i) && RevokesUser(before[i], sub) && Level(before[i]) == iat;
      AcceptedPrefix(events, n, i);
    }
  }

  lemma {:induction false} RunJustified(events: seq<Event>)
    ensures Justified(Run(events), events)
  {
    if events != [] {
      var n := |events| - 1;
      var s, e := Run(events), events[n];
      RunJustified(events[..n]);
      forall jti | jti in s.blacklist ensures IdWritten(events, jti) {
        if !(Accepted(events, n) && RevokesId(e, jti)) { WrittenStays(events, n, jti, "", 0); }
      }
      forall sub | sub in s.invalidated ensures WatermarkWritten(events, sub, s.invalidated[sub].iat) {
        if !(Accepted(events, n) && RevokesUser(e, sub)) { WrittenStays(events, n, "", sub, s.invalidated[sub].iat); }
      }
    }
  }

  /** One step keeps a level covered: a later watermark of the same user is higher and lives longer. */
  lemma StepKeepsCovered(s: Store, e: Event, sub: string, level: int, lifespan: int)
    requires e.token.exp == e.token.iat + lifespan && e.token.iat as real <= e.at
    requires e.action.Delete? ==> lifespan <= 30 * 24 * 3600
    requires Covered(s, sub, level, lifespan)
    ensures Covered(Step(s, e), sub, level, lifespan) || e.at >= (level + lifespan) as real
  {
    if Answer(s, e.token, e.at, e.fault) == Passed && RevokesUser(e, sub) && e.at < (level + lifespan) as real {
      assert e.token.iat > s.invalidated[sub].iat;
      assert e.token.iat <= e.at.Floor;
    }
  }

  /** An accepted logout or deletion covers its own level. */
  lemma StepCoversOwn(s: Store, e: Event, lifespan: int)
    requires e.token.exp == e.token.iat + lifespan
    requires e.action.Delete? ==> lifespan <= 30 * 24 * 3600
    requires Answer(s, e.token, e.at, e.fault) == Passed && RevokesUser(e, e.token.sub)
    ensures Covered(Step(s, e), e.token.sub, Level(e), lifespan)
  {
  }

  lemma StepKeepsBlacklist(s: Store, e: Event, t: Token)
    requires t.jti != "" && t.jti in s.blacklist && s.blacklist[t.jti] >= t.exp as real
    requires e.token.jti == t.jti ==> e.token == t
    ensures t.jti in Step(s, e).blacklist && Step(s, e).blacklist[t.jti] >= t.exp as real
  {
  }

  lemma {:induction false} RunRemembers(events: seq<Event>, lifespan: int, now: real)
    requires Fair(events, lifespan) && DeletionsCovered(events, lifespan)
    requires events != [] ==> events[|events| - 1].at <= now
    ensures Remembered(Run(events), events, lifespan, now)
    decreases |events|
  {
    if events != [] {
      var n := |events| - 1;
      var before, e := Run(events[..n]), events[n];
      FairPrefix(events, n, lifespan);
      RunRemembers(events[..n], lifespan, e.at);
      forall i | Accepted(events, i)
        ensures RevokesUser(events[i], events[i].token.sub) ==>
          Covered(Run(events), events[i].token.sub, Level(events[i]), lifespan)
          || now >= (Level(events[i]) + lifespan) as real
        ensures RevokesId(events[i], events[i].token.jti) ==>
          events[i].token.jti in Run(events).blacklist
          && Run(events).blacklist[events[i].token.jti] >= events[i].token.exp as real
      {
        if i < n {
          AcceptedPrefix(events, n, i);
          var f := events[..n][i];
          if RevokesUser(f, f.token.sub) && Covered(before, f.token.sub, Level(f), lifespan) {
            StepKeepsCovered(before, e, f.token.sub, Level(f), lifespan);
          }
          if RevokesId(f, f.token.jti) { StepKeepsBlacklist(before, e, f.token); }
        } else if RevokesUser(e, e.token.sub) {
          StepCoversOwn(before, e, lifespan);
        }
      }
    }
  }

  /**
   * Revocation is exact and permanent: at any time after any run, an unexpired token is refused if and
   * only if the keys that some accepted logout or deletion got to write cover it -- whatever keys have
   * expired or been overwritten since, and whatever requests failed. So a logged-out token and every
   * older token of that user stay refused for good, and tokens issued later are never refused because of it.
   */
  lemma RevocationExact(events: seq<Event>, lifespan: int, t: Token, now: real)
    requires Fair(events + [Event(t, now, Visit, Smooth)], lifespan)
    requires DeletionsCovered(events, lifespan)
    requires Unexpired(t, now)
    ensures Dispatch(Run(events), t, now) == Revoked <==> RevokedIn(events, t)
  {
    UnpackFair(events, lifespan, t, now);
    RunRemembers(events, lifespan, now);
    RunJustified(events);
    if RevokedIn(events, t) { RevokedIsRefused(Run(events), events, lifespan, t, now); }
    if Dispatch(Run(events), t, now) == Revoked { RefusedIsRevoked(Run(events), events, t, now); }
  }

  lemma UnpackFair(events: seq<Event>, lifespan: int, t: Token, now: real)
    requires Fair(events + [Event(t, now, Visit, Smooth)], lifespan)
    ensures Fair(events, lifespan) && t.exp == t.iat + lifespan
    ensures events != [] ==> events[|events| - 1].at <= now
    ensures forall i :: 0 <= i < |events| && events[i].token.jti == t.jti != "" ==> events[i].token == t
  {
    var all := events + [Event(t, now, Visit, Smooth)];
    assert forall i :: 0 <= i < |events| ==> events[i] == all[i];
    assert all[|events|] == Event(t, now, Visit, Smooth);
  }

  lemma RevokedIsRefused(s: Store, events: seq<Event>, lifespan: int, t: Token, now: real)
    requires Remembered(s, events, lifespan, now) && RevokedIn(events, t)
    requires t.exp == t.iat + lifespan && Unexpired(t, now)
    requires forall i :: 0 <= i < |events| && events[i].token.jti == t.jti != "" ==> events[i].token == t
    ensures Dispatch(s, t, now) == Revoked
  {
    var i :| Accepted(events, i) && Revokes(events[i], t);
  }

  lemma RefusedIsRevoked(s: Store, events: seq<Event>, t: Token, now: real)
    requires Justified(s, events) && Dispatch(s, t, now) == Revoked
    ensures RevokedIn(events, t)
  {
    if Blacklisted(s, t.jti, now) {
      var i :| Accepted(events, i) && RevokesId(events[i], t.jti);
      assert Revokes(events[i], t);
    } else {
      var i :| Accepted(events, i) && RevokesUser(events[i], t.sub)
               && Level(events[i]) == s.invalidated[t.sub].iat;
      assert Revokes(events[i], t);
    }
  }

  /** Logging out, spelled out: once done, no token of that user issued up to then passes again. */
  lemma LogoutIsPermanent(events: seq<Event>, lifespan: int, i: nat, t: Token, now: real)
    requires Fair(events + [Event(t, now, Visit, Smooth)], lifespan) && DeletionsCovered(events, lifespan)
    requires Accepted(events, i) && events[i].action.Logout? && events[i].fault.Smooth?
    requires t.sub == events[i].token.sub != "" && t.iat <= events[i].token.iat
    ensures Dispatch(Run(events), t, now) != Passed
  {
    if Unexpired(t, now) {
      assert Revokes(events[i], t);
      RevocationExact(events, lifespan, t, now);
    }
  }

  /** The token that logs out is dead from its blacklist write on, also when the watermark write then raises. */
  lemma LoggedOutTokenIsDead(events: seq<Event>, lifespan: int, i: nat, now: real)
    requires i < |events| && DeletionsCovered(events, lifespan)
    requires Fair(events + [Event(events[i].token, now, Visit, Smooth)], lifespan)
    requires Accepted(events, i) && events[i].action.Logout?
    requires events[i].token.jti != "" && !events[i].fault.BlacklistFails?
    ensures Dispatch(Run(events), events[i].token, now) != Passed
  {
    var t := events[i].token;
    if Unexpired(t, now) {
      assert Revokes(events[i], t);
      RevocationExact(events, lifespan, t, now);
    }
  }

  /** After an account deletion no token of that user issued up to then passes again. */
  lemma DeletionIsPermanent(events: seq<Event>, lifespan: int, i: nat, t: Token, now: real)
    requires Fair(events + [Event(t, now, Visit, Smooth)], lifespan) && lifespan <= 30 * 24 * 3600
    requires Accepted(events, i) && events[i].action.Delete? && !events[i].fault.WatermarkFails?
    requires t.sub == events[i].token.sub != "" && t.iat as real <= events[i].at
    ensures Dispatch(Run(events), t, now) != Passed
  {
    if Unexpired(t, now) {
      assert t.iat <= events[i].at.Floor;
      assert Revokes(events[i], t);
      RevocationExact(events, lifespan, t, now);
    }
  }

  /**
   * Nothing else is refused: an unexpired token passes when it has not logged out itself and every
   * logout of its user used a token issued before it, every deletion came before its issue.
   */
  lemma UntouchedTokenPasses(events: seq<Event>, lifespan: int, t: Token, now: real)
    requires Fair(events + [Event(t, now, Visit, Smooth)], lifespan) && DeletionsCovered(events, lifespan)
    requires now < t.exp as real
    requires forall i :: 0 <= i < |events| && events[i].action.Logout? ==>
               && (t.jti == "" || events[i].token.jti != t.jti)
               && (events[i].token.sub == t.sub ==> events[i].token.iat < t.iat)
    requires forall i :: 0 <= i < |events| && events[i].action.Delete? && events[i].token.sub == t.sub ==>
               events[i].at < t.iat as real
    ensures Dispatch(Run(events), t, now) == Passed
  {
    RevocationExact(events, lifespan, t, now);
  }

  /**
   * The 30-day bound is sharp: for every longer lifespan there is a run in which a deleted account's
   * token, covered by the deletion, passes again when the key has expired.
   */
  lemma LongTokensOutliveDeletion(lifespan: int)
    requires lifespan > 30 * 24 * 3600
    ensures exists events, t, now ::
      && Fair(events + [Event(t, now, Visit, Smooth)], lifespan)
      && RevokedIn(events, t) && Dispatch(Run(events), t, now) == Passed
  {
    var used, other := Token("a", "u", 0, lifespan), Token("b", "u", 0, lifespan);
    var events := [Event(used, 0.0, Delete, Smooth)];
    var now := THIRTY_DAYS as real;
    assert events[..0] == [];
    assert Run([]) == Store(map[], map[]);
    assert Accepted(events, 0) && Revokes(events[0], other);
    assert Run(events) == AfterDelete(Run([]), used, 0.0, Smooth);
    assert Dispatch(Run(events), other, now) == Passed;
    assert Fair(events + [Event(other, now, Visit, Smooth)], lifespan);
  }
}
