/** The generic circuit breaker, with calls in flight interleaved at the awaits. */
module CircuitBreaker {

  datatype Mode = Closed | HalfOpen | Open

  datatype State = State(mode: Mode, failures: nat, openedAt: real)

  datatype Config = Config(threshold: int, cooldown: real)

  const FRESH := State(Closed, 0, 0.0)

  // ---------------------------------------------------------------- the three critical sections

  predicate Rejects(cfg: Config, s: State, now: real) {
    s.mode == Open && now - s.openedAt < cfg.cooldown
  }

  function Entered(cfg: Config, s: State, now: real): State {
    if s.mode == Open && !Rejects(cfg, s, now) then s.(mode := HalfOpen) else s
  }

  function Succeeded(s: State): State { s.(mode := Closed, failures := 0) }

  function Failed(cfg: Config, s: State, now: real): State {
    var n := s.failures + 1;
    if s.mode == HalfOpen || n >= cfg.threshold then State(Open, n, now) else s.(failures := n)
  }

  /** The breaker object; each method is one stretch under its lock. */
  class Breaker {
    const cfg: Config
    var mode: Mode
    var failures: nat
    var openedAt: real

    ghost function View(): State
      reads this
    {
      State(mode, failures, openedAt)
    }

    constructor (cfg: Config)
      ensures this.cfg == cfg && View() == FRESH
    {
      this.cfg := cfg;
      mode, failures, openedAt := Closed, 0, 0.0;
    }

    method Enter(now: real) returns (admitted: bool)
      modifies this
      ensures admitted == !Rejects(cfg, old(View()), now)
      ensures View() == Entered(cfg, old(View()), now)
    {
      if mode == Open {
        if now - openedAt < cfg.cooldown { return false; }
        mode := HalfOpen;
      }
      admitted := true;
    }

    method RecordSuccess()
      modifies this
      ensures View() == Succeeded(old(View()))
    {
      failures := 0;
      if mode != Closed { mode := Closed; }
    }

    method RecordFailure(now: real)
      modifies this
      ensures View() == Failed(cfg, old(View()), now)
    {
      failures := failures + 1;
      if mode == HalfOpen || failures >= cfg.threshold {
        mode := Open;
        openedAt := now;
      }
    }
  }

  // ---------------------------------------------------------------- interleaved runs

  /** A call arrives, or one of the calls in flight ends; a cancelled call reports nothing. */
  datatype Event = Arrive(at: real) | Succeed | Fail(at: real) | Cancel

  datatype System = System(breaker: State, inFlight: nat)

  function Step(cfg: Config, s: System, e: Event): System {
    match e
    case Arrive(now) =>
      if Rejects(cfg, s.breaker, now) then s else System(Entered(cfg, s.breaker, now), s.inFlight + 1)
    case Succeed => if s.inFlight == 0 then s else System(Succeeded(s.breaker), s.inFlight - 1)
    case Fail(now) => if s.inFlight == 0 then s else System(Failed(cfg, s.breaker, now), s.inFlight - 1)
    case Cancel => if s.inFlight == 0 then s else s.(inFlight := s.inFlight - 1)
  }

  function Run(cfg: Config, events: seq<Event>): System {
    if events == [] then System(FRESH, 0)
    else Step(cfg, Run(cfg, events[..|events| - 1]), events[|events| - 1])
  }

  /** Failures of calls in flight since the last success; which calls are in flight is read off the run. */
  function Streak(cfg: Config, events: seq<Event>): nat {
    if events == [] then 0
    else
      var init, e := events[..|events| - 1], events[|events| - 1];
      if Run(cfg, init).inFlight == 0 then Streak(cfg, init)
      else if e.Succeed? then 0
      else Streak(cfg, init) + if e.Fail? then 1 else 0
  }

  /**
   * Under every interleaving, the circuit is closed exactly when fewer than `threshold` calls have
   * failed since the last success -- late results of old calls included.
   */
  lemma {:induction false} ClosedExactlyBelowThreshold(cfg: Config, events: seq<Event>)
    requires cfg.threshold >= 1
    ensures Run(cfg, events).breaker.failures == Streak(cfg, events)
    ensures Run(cfg, events).breaker.mode == Closed <==> Streak(cfg, events) < cfg.threshold
  {
    if events != [] {
      ClosedExactlyBelowThreshold(cfg, events[..|events| - 1]);
    }
  }

  /** When the last failure since the last success was reported. */
  function LastFailure(cfg: Config, events: seq<Event>): real {
    if events == [] then 0.0
    else
      var init, e := events[..|events| - 1], events[|events| - 1];
      if e.Fail? && Run(cfg, init).inFlight > 0 then e.at else LastFailure(cfg, init)
  }

  /** A call has been let through after the cooldown, and no outcome has been reported since. */
  function Probing(cfg: Config, events: seq<Event>): bool {
    if events == [] then false
    else
      var init, e := events[..|events| - 1], events[|events| - 1];
      if (e.Succeed? || e.Fail?) && Run(cfg, init).inFlight > 0 then false
      else if e.Arrive? && Streak(cfg, init) >= cfg.threshold && e.at - LastFailure(cfg, init) >= cfg.cooldown then true
      else Probing(cfg, init)
  }

  /**
   * The breaker's whole state, from the failures alone: closed below the threshold, half-open while
   * probing, open otherwise, with a cooldown that every reported failure restarts -- late ones included.
   */
  lemma {:induction false} ModeExactly(cfg: Config, events: seq<Event>)
    requires cfg.threshold >= 1
    ensures var b, streak := Run(cfg, events).breaker, Streak(cfg, events);
            && b.failures == streak
            && b.mode == (if streak < cfg.threshold then Closed else if Probing(cfg, events) then HalfOpen else Open)
            && (streak >= cfg.threshold ==> b.openedAt == LastFailure(cfg, events))
            && (Probing(cfg, events) ==> streak >= cfg.threshold)
  {
    if events != [] { ModeExactly(cfg, events[..|events| - 1]); }
  }

  /** So a call is let through exactly below the threshold, while probing, or after the cooldown of the last failure. */
  lemma AdmittedExactly(cfg: Config, events: seq<Event>, now: real)
    requires cfg.threshold >= 1
    ensures var s := Run(cfg, events);
            var after := Step(cfg, s, Arrive(now));
            after.inFlight == s.inFlight
              + if Streak(cfg, events) < cfg.threshold || Probing(cfg, events)
                   || now - LastFailure(cfg, events) >= cfg.cooldown
                then 1 else 0
  {
    ModeExactly(cfg, events);
  }

  // ---------------------------------------------------------------- probes

  /** An arrival whose cooldown, counted from the given opening, is over. */
  predicate IsLate(cfg: Config, since: real, e: Event) { e.Arrive? && e.at - since >= cfg.cooldown }

  /** No call reports an outcome. */
  ghost predicate Quiet(more: seq<Event>) {
    forall i :: 0 <= i < |more| ==> !more[i].Succeed? && !more[i].Fail?
  }

  /** Once the cooldown is over it stays over: the clock is monotonic. */
  ghost predicate StaysLate(cfg: Config, since: real, more: seq<Event>) {
    forall i, j :: 0 <= i < j < |more| && IsLate(cfg, since, more[i]) && more[j].Arrive? ==>
      IsLate(cfg, since, more[j])
  }

  function LateArrivals(cfg: Config, since: real, more: seq<Event>): nat {
    if more == [] then 0
    else LateArrivals(cfg, since, more[..|more| - 1]) + if IsLate(cfg, since, more[|more| - 1]) then 1 else 0
  }

  /** How many of the later events are calls the breaker lets through. */
  function Admissions(cfg: Config, events: seq<Event>, more: seq<Event>): nat {
    if more == [] then 0
    else
      var init, e := more[..|more| - 1], more[|more| - 1];
      Admissions(cfg, events, init)
      + if e.Arrive? && !Rejects(cfg, Run(cfg, events + init).breaker, e.at) then 1 else 0
  }

  lemma {:induction false} SomeArrivalLate(cfg: Config, since: real, more: seq<Event>)
    requires LateArrivals(cfg, since, more) > 0
    ensures exists i :: 0 <= i < |more| && IsLate(cfg, since, more[i])
  {
    var n := |more| - 1;
    if !IsLate(cfg, since, more[n]) {
      SomeArrivalLate(cfg, since, more[..n]);
      var i :| 0 <= i < n && IsLate(cfg, since, more[..n][i]);
      assert IsLate(cfg, since, more[i]);
    }
  }

  /**
   * What an open circuit admits before the next outcome: exactly the calls that arrive after the
   * cooldown, however many, with cancellations anywhere in between. The first of them makes it half-open.
   */
  lemma {:induction false} ProbesAreLateArrivals(cfg: Config, events: seq<Event>, more: seq<Event>)
    requires Run(cfg, events).breaker.mode == Open && Quiet(more)
    requires StaysLate(cfg, Run(cfg, events).breaker.openedAt, more)
    ensures var b := Run(cfg, events).breaker;
            var late := LateArrivals(cfg, b.openedAt, more);
            && Admissions(cfg, events, more) == late
            && Run(cfg, events + more).breaker == b.(mode := if late == 0 then Open else HalfOpen)
    decreases |more|
  {
    if more == [] {
      assert events + more == events;
    } else {
      var since, init := Run(cfg, events).breaker.openedAt, more[..|more| - 1];
      ProbesAreLateArrivals(cfg, events, init);
      assert (events + more)[..|events + more| - 1] == events + init;
      if LateArrivals(cfg, since, init) > 0 {
        SomeArrivalLate(cfg, since, init);
        var i :| 0 <= i < |init| && IsLate(cfg, since, init[i]);
        assert IsLate(cfg, since, more[i]);
      }
    }
  }

  /**
   * The documented single probe, exactly: at most one call gets through an open circuit before the next
   * outcome if and only if at most one call arrives after the cooldown -- which a caller ensures by
   * waiting for each call's outcome, and the breaker does not.
   */
  lemma OneProbeIff(cfg: Config, events: seq<Event>, more: seq<Event>)
    requires Run(cfg, events).breaker.mode == Open && Quiet(more)
    requires StaysLate(cfg, Run(cfg, events).breaker.openedAt, more)
    ensures Admissions(cfg, events, more) <= 1
       <==> LateArrivals(cfg, Run(cfg, events).breaker.openedAt, more) <= 1
  {
    ProbesAreLateArrivals(cfg, events, more);
  }

  /** n calls, each failing at once. */
  function Trip(n: nat, t: real): seq<Event> {
    if n == 0 then [] else Trip(n - 1, t) + [Arrive(t), Fail(t)]
  }

  lemma TwoEvents(cfg: Config, before: seq<Event>, a: Event, b: Event)
    ensures Run(cfg, before + [a, b]) == Step(cfg, Step(cfg, Run(cfg, before), a), b)
  {
    assert (before + [a])[..|before|] == before;
    assert (before + [a, b])[..|before| + 1] == before + [a];
  }

  lemma {:induction false} TripOpens(cfg: Config, n: nat, t: real)
    requires n <= cfg.threshold && cfg.threshold >= 1
    ensures Run(cfg, Trip(n, t))
         == System(if n == cfg.threshold then State(Open, n, t) else State(Closed, n, 0.0), 0)
  {
    if n > 0 {
      TripOpens(cfg, n - 1, t);
      TwoEvents(cfg, Trip(n - 1, t), Arrive(t), Fail(t));
    }
  }

  function Arrivals(n: nat, t: real): seq<Event> {
    if n == 0 then [] else Arrivals(n - 1, t) + [Arrive(t)]
  }

  lemma {:induction false} ArrivalsLate(cfg: Config, since: real, n: nat)
    ensures var more := Arrivals(n, since + cfg.cooldown);
            && |more| == n && (forall i :: 0 <= i < n ==> more[i] == Arrive(since + cfg.cooldown))
            && Quiet(more) && StaysLate(cfg, since, more) && LateArrivals(cfg, since, more) == n
  {
    if n > 0 {
      ArrivalsLate(cfg, since, n - 1);
      var more := Arrivals(n, since + cfg.cooldown);
      assert more[..n - 1] == Arrivals(n - 1, since + cfg.cooldown);
    }
  }

  /** Every threshold has a run that opens the circuit and then lets any number of probes through together. */
  lemma ManyProbesReachable(cfg: Config, t: real, n: nat)
    requires cfg.threshold >= 1
    ensures var events, more := Trip(cfg.threshold, t), Arrivals(n, t + cfg.cooldown);
            && Run(cfg, events).breaker.mode == Open
            && Admissions(cfg, events, more) == n
            && (n > 0 ==> Run(cfg, events + more).breaker.mode == HalfOpen)
  {
    TripOpens(cfg, cfg.threshold, t);
    ArrivalsLate(cfg, t, n);
    ProbesAreLateArrivals(cfg, Trip(cfg.threshold, t), Arrivals(n, t + cfg.cooldown));
  }

  // ---------------------------------------------------------------- a dependency that is down

  /** A call that fails if it is let through, from its start to its end. */
  datatype Call = Call(start: real, end: real)

  /** The breaker, the number of calls let through so far, and the first opening time. */
  datatype Outage = Outage(breaker: State, admitted: nat, firstOpened: real)

  function CallFails(cfg: Config, o: Outage, c: Call): Outage {
    if Rejects(cfg, o.breaker, c.start) then o
    else
      var after := Failed(cfg, Entered(cfg, o.breaker, c.start), c.end);
      var first := if o.breaker.mode == Closed && after.mode == Open then c.end else o.firstOpened;
      Outage(after, o.admitted + 1, first)
  }

  function OutageAfter(cfg: Config, calls: seq<Call>): Outage {
    if calls == [] then Outage(FRESH, 0, 0.0)
    else CallFails(cfg, OutageAfter(cfg, calls[..|calls| - 1]), calls[|calls| - 1])
  }

  ghost predicate NonOverlapping(calls: seq<Call>) {
    && (forall i :: 0 <= i < |calls| ==> calls[i].start <= calls[i].end)
    && (forall i, j :: 0 <= i < j < |calls| ==> calls[i].end <= calls[j].start)
  }

  /** Calls let through beyond the first opening have each cost one cooldown. */
  ghost predicate Paid(cfg: Config, o: Outage) {
    if o.breaker.mode == Closed then o.admitted == o.breaker.failures < cfg.threshold
    else
      && o.breaker.mode == Open && o.admitted >= cfg.threshold && o.breaker.failures >= cfg.threshold
      && (o.admitted - cfg.threshold) as real * cfg.cooldown <= o.breaker.openedAt - o.firstOpened
  }

  lemma OneMore(k: int, cooldown: real)
    ensures (k + 1) as real * cooldown == k as real * cooldown + cooldown
  {
    assert (k + 1) as real == k as real + 1.0;
  }

  lemma CallFailsPaid(cfg: Config, o: Outage, c: Call)
    requires cfg.threshold >= 1 && Paid(cfg, o) && c.start <= c.end
    requires o.breaker.mode == Open ==> o.breaker.openedAt <= c.start
    ensures Paid(cfg, CallFails(cfg, o, c))
  {
    OneMore(o.admitted - cfg.threshold, cfg.cooldown);
    if o.breaker.mode == Closed && o.admitted + 1 == cfg.threshold {
      assert 0 as real * cfg.cooldown == 0.0;
    }
  }

  /**
   * While every admitted call fails: before the first opening fewer than `threshold` calls got through;
   * afterwards each further one cost a full cooldown, so their number times the cooldown is at most the
   * time between the first and the last opening.
   */
  lemma {:induction false} FailingDependencyBound(cfg: Config, calls: seq<Call>)
    requires cfg.threshold >= 1 && NonOverlapping(calls)
    ensures Paid(cfg, OutageAfter(cfg, calls))
  {
    if calls != [] {
      var init, c := calls[..|calls| - 1], calls[|calls| - 1];
      assert init + [c] == calls;
      OpenedInThePast(cfg, init, c);
      FailingDependencyBound(cfg, init);
      CallFailsPaid(cfg, OutageAfter(cfg, init), c);
    }
  }

  /** The events of the calls: each arrives and, if it was let through, fails. */
  function OutageEvents(calls: seq<Call>): seq<Event> {
    if calls == [] then []
    else
      var c := calls[|calls| - 1];
      OutageEvents(calls[..|calls| - 1]) + [Arrive(c.start), Fail(c.end)]
  }

  lemma AdmittedArrival(cfg: Config, before: seq<Event>, start: real, end: real)
    ensures Admissions(cfg, [], before + [Arrive(start), Fail(end)])
         == Admissions(cfg, [], before) + if Rejects(cfg, Run(cfg, before).breaker, start) then 0 else 1
  {
    var arrived := before + [Arrive(start)];
    var all := before + [Arrive(start), Fail(end)];
    assert [] + before == before && arrived[..|before|] == before && all[..|before| + 1] == arrived;
    assert arrived[|before|] == Arrive(start) && all[|before| + 1] == Fail(end);
  }

  /** The outage is a run of the interleaved system: same breaker, same calls let through, and nothing left in flight. */
  lemma {:induction false} OutageIsRun(cfg: Config, calls: seq<Call>)
    ensures Run(cfg, OutageEvents(calls)) == System(OutageAfter(cfg, calls).breaker, 0)
    ensures Admissions(cfg, [], OutageEvents(calls)) == OutageAfter(cfg, calls).admitted
  {
    if calls != [] {
      var c, before := calls[|calls| - 1], OutageEvents(calls[..|calls| - 1]);
      OutageIsRun(cfg, calls[..|calls| - 1]);
      TwoEvents(cfg, before, Arrive(c.start), Fail(c.end));
      AdmittedArrival(cfg, before, c.start, c.end);
    }
  }

  /** The opening time is the end of an earlier call, so the next call starts after it. */
  lemma {:induction false} OpenedInThePast(cfg: Config, calls: seq<Call>, next: Call)
    requires NonOverlapping(calls + [next])
    ensures NonOverlapping(calls)
    ensures OutageAfter(cfg, calls).breaker.mode == Open ==> OutageAfter(cfg, calls).breaker.openedAt <= next.start
  {
    var all := calls + [next];
    assert forall i :: 0 <= i < |calls| ==> calls[i] == all[i];
    if calls != [] {
      var init, c := calls[..|calls| - 1], calls[|calls| - 1];
      assert all[|calls| - 1] == c && all[|calls|] == next;
      assert init + [c] == calls;
      OpenedInThePast(cfg, init, c);
    }
  }
}
