/** The Fabric retry decorator: a breaker shared by all calls of a function, and their attempt loops. */
module FabricRetry {

  datatype Breaker = Breaker(failures: int, firstFailure: real, open: bool, openTime: real)

  datatype Config = Config(maxAttempts: int, baseDelay: real, factor: real, threshold: int, timeout: real)

  const FRESH := Breaker(0, 0.0, false, 0.0)

  predicate Rejects(cfg: Config, b: Breaker, now: real) { b.open && now - b.openTime < cfg.timeout }

  function Entered(cfg: Config, b: Breaker, now: real): Breaker {
    if b.open && !Rejects(cfg, b, now) then b.(open := false, failures := 0) else b
  }

  function Succeeded(b: Breaker): Breaker { b.(failures := 0, open := false) }

  function Failed(cfg: Config, b: Breaker, t: real): Breaker {
    var counted :=
      if b.failures == 0 || (t - b.firstFailure > cfg.timeout && !b.open)
      then b.(failures := 1, firstFailure := t) else b.(failures := b.failures + 1);
    if counted.failures >= cfg.threshold then counted.(open := true, openTime := t) else counted
  }

  /** The state dictionary of one decorated function; each method is a stretch without an await. */
  class SharedState {
    const cfg: Config
    var failures: int
    var firstFailure: real
    var open: bool
    var openTime: real

    ghost function View(): Breaker
      reads this
    {
      Breaker(failures, firstFailure, open, openTime)
    }

    constructor (cfg: Config)
      ensures this.cfg == cfg && View() == FRESH
    {
      this.cfg := cfg;
      failures, firstFailure, open, openTime := 0, 0.0, false, 0.0;
    }

    method Enter(now: real) returns (admitted: bool)
      modifies this
      ensures admitted == !Rejects(cfg, old(View()), now)
      ensures View() == Entered(cfg, old(View()), now)
    {
      if open {
        if now - openTime >= cfg.timeout {
          open, failures := false, 0;
        } else {
          return false;
        }
      }
      admitted := true;
    }

    method RecordSuccess()
      modifies this
      ensures View() == Succeeded(old(View()))
    {
      failures, open := 0, false;
    }

    /** Answers whether the circuit is tripped by this failure. */
    method RecordFailure(t: real) returns (tripped: bool)
      modifies this
      ensures View() == Failed(cfg, old(View()), t)
      ensures tripped == (View().failures >= cfg.threshold)
    {
      if failures == 0 || (t - firstFailure > cfg.timeout && !open) {
        failures, firstFailure := 1, t;
      } else {
        failures := failures + 1;
      }
      tripped := failures >= cfg.threshold;
      if tripped {
        open, openTime := true, t;
      }
    }
  }

  // ---------------------------------------------------------------- interleaved calls

  /** Where a call is in its attempt loop. */
  datatype Call = Attempting(attempt: int, delay: real) | Sleeping(attempt: int, delay: real)

  datatype System = System(breaker: Breaker, calls: map<int, Call>)

  /**
   * A call begins, its current attempt succeeds, fails with a retried error or dies of another one,
   * its backoff sleep ends, or it is cancelled anywhere. Events of calls that are not in that place
   * change nothing.
   */
  datatype Event =
    | Begin(id: int, at: real)
    | Ok(id: int)
    | Fault(id: int, at: real)
    | OtherError(id: int)
    | Wake(id: int)
    | Cancel(id: int)

  predicate IsAttempting(s: System, id: int) { id in s.calls && s.calls[id].Attempting? }

  function Step(cfg: Config, s: System, e: Event): System {
    match e
    case Begin(id, now) =>
      if id in s.calls || Rejects(cfg, s.breaker, now) then s
      else
        var b := Entered(cfg, s.breaker, now);
        if cfg.maxAttempts < 1 then s.(breaker := b)
        else System(b, s.calls[id := Attempting(1, cfg.baseDelay)])
    case Ok(id) =>
      if IsAttempting(s, id) then System(Succeeded(s.breaker), s.calls - {id}) else s
    case Fault(id, t) =>
      if !IsAttempting(s, id) then s
      else
        var b, c := Failed(cfg, s.breaker, t), s.calls[id];
        if b.failures >= cfg.threshold || c.attempt == cfg.maxAttempts then System(b, s.calls - {id})
        else System(b, s.calls[id := Sleeping(c.attempt, c.delay)])
    case OtherError(id) => if IsAttempting(s, id) then s.(calls := s.calls - {id}) else s
    case Wake(id) =>
      if id in s.calls && s.calls[id].Sleeping? then
        var c := s.calls[id];
        s.(calls := s.calls[id := Attempting(c.attempt + 1, c.delay * cfg.factor)])
      else s
    case Cancel(id) => s.(calls := s.calls - {id})
  }

  function Run(cfg: Config, events: seq<Event>): System {
    if events == [] then System(FRESH, map[])
    else Step(cfg, Run(cfg, events[..|events| - 1]), events[|events| - 1])
  }

  /** The base delay grown by the factor once for every attempt after the first. */
  function Backoff(cfg: Config, attempt: int): real {
    if attempt <= 1 then cfg.baseDelay else Backoff(cfg, attempt - 1) * cfg.factor
  }

  /** The times of the faults of attempts in flight since the last success; the run tells which are in flight. */
  function FaultTimes(cfg: Config, events: seq<Event>): seq<real> {
    if events == [] then []
    else
      var init, e := events[..|events| - 1], events[|events| - 1];
      FaultsAfter(FaultTimes(cfg, init), Run(cfg, init), e)
  }

  function FaultsAfter(faults: seq<real>, s: System, e: Event): seq<real> {
    if e.Ok? && IsAttempting(s, e.id) then []
    else faults + if e.Fault? && IsAttempting(s, e.id) then [e.at] else []
  }

  /** A call is on one of its attempts, with the delay its backoff has reached. */
  ghost predicate OnSchedule(cfg: Config, c: Call) {
    && 1 <= c.attempt <= cfg.maxAttempts
    && (c.Sleeping? ==> c.attempt < cfg.maxAttempts)
    && c.delay == Backoff(cfg, c.attempt)
  }

  /** The latest faults, as many as are counted, start at firstFailure and lie within the timeout of it. */
  ghost predicate Burst(cfg: Config, b: Breaker, faults: seq<real>) {
    && 0 <= b.failures <= |faults|
    && (b.failures > 0 ==> faults[|faults| - b.failures] == b.firstFailure)
    && (!b.open && cfg.timeout >= 0.0 ==>
          forall k :: |faults| - b.failures <= k < |faults| ==> faults[k] - b.firstFailure <= cfg.timeout)
  }

  /** The invariant of the decorator, for the faults since the last success. */
  ghost predicate Sound(cfg: Config, s: System, faults: seq<real>) {
    && (s.breaker.open <==> s.breaker.failures >= cfg.threshold)
    && Burst(cfg, s.breaker, faults)
    && forall id :: id in s.calls ==> OnSchedule(cfg, s.calls[id])
  }

  lemma StepKeepsBreaker(cfg: Config, s: System, e: Event, faults: seq<real>)
    requires cfg.threshold >= 1 && Sound(cfg, s, faults)
    ensures var b := Step(cfg, s, e).breaker;
            && (b.open <==> b.failures >= cfg.threshold)
            && Burst(cfg, b, FaultsAfter(faults, s, e))
  {
  }

  lemma StepKeepsSchedule(cfg: Config, s: System, e: Event, id: int)
    requires forall i :: i in s.calls ==> OnSchedule(cfg, s.calls[i])
    requires id in Step(cfg, s, e).calls
    ensures OnSchedule(cfg, Step(cfg, s, e).calls[id])
  {
    if id in s.calls { assert OnSchedule(cfg, s.calls[id]); }
  }

  /**
   * Under every interleaving of calls: the circuit is open exactly when the failure count has reached
   * the threshold; the count is a run of faults since the last success that fits the timeout window
   * while the circuit is closed; and every call in flight is within its attempts, with its delay grown
   * by the factor once an attempt.
   */
  lemma {:induction false} OpenExactlyAtThreshold(cfg: Config, events: seq<Event>)
    requires cfg.threshold >= 1
    ensures Sound(cfg, Run(cfg, events), FaultTimes(cfg, events))
  {
    if events != [] {
      var init, e := events[..|events| - 1], events[|events| - 1];
      OpenExactlyAtThreshold(cfg, init);
      StepKeepsBreaker(cfg, Run(cfg, init), e, FaultTimes(cfg, init));
      forall id | id in Run(cfg, events).calls ensures OnSchedule(cfg, Run(cfg, events).calls[id]) {
        StepKeepsSchedule(cfg, Run(cfg, init), e, id);
      }
    }
  }

  /**
   * The circuit trips on a burst only: when an event opens it, the last `threshold` faults since the
   * last success all came within the timeout of the first of them.
   */
  lemma TripNeedsBurst(cfg: Config, events: seq<Event>, e: Event)
    requires cfg.threshold >= 1 && cfg.timeout >= 0.0
    requires !Run(cfg, events).breaker.open && Run(cfg, events + [e]).breaker.open
    ensures var faults := FaultTimes(cfg, events + [e]);
            var first := |faults| - cfg.threshold;
            && first >= 0 && e.Fault?
            && forall k :: first <= k < |faults| ==> faults[k] - faults[first] <= cfg.timeout
  {
    OpenExactlyAtThreshold(cfg, events);
    assert (events + [e])[..|events|] == events;
    OpensOnBurst(cfg, Run(cfg, events), e, FaultTimes(cfg, events));
  }

  lemma OpensOnBurst(cfg: Config, s: System, e: Event, faults: seq<real>)
    requires cfg.threshold >= 1 && cfg.timeout >= 0.0 && Sound(cfg, s, faults)
    requires !s.breaker.open && Step(cfg, s, e).breaker.open
    ensures var after := FaultsAfter(faults, s, e);
            var first := |after| - cfg.threshold;
            && first >= 0 && e.Fault?
            && forall k :: first <= k < |after| ==> after[k] - after[first] <= cfg.timeout
  {
    var b := Step(cfg, s, e).breaker;
    assert b.failures == cfg.threshold;
    StepKeepsBreaker(cfg, s, e, faults);
  }

  // ---------------------------------------------------------------- when the circuit opens

  /** The times of the faults since the last success or the last reset of an open circuit. */
  function CountedFaults(cfg: Config, events: seq<Event>): seq<real> {
    if events == [] then []
    else
      var init, e := events[..|events| - 1], events[|events| - 1];
      var s := Run(cfg, init);
      if (e.Ok? || e.Fault?) && !IsAttempting(s, e.id) then CountedFaults(cfg, init)
      else if e.Ok? then []
      else if e.Fault? then CountedFaults(cfg, init) + [e.at]
      else if e.Begin? && e.id !in s.calls && s.breaker.open && e.at - s.breaker.openTime >= cfg.timeout then []
      else CountedFaults(cfg, init)
  }

  /** A window opens with its first fault and closes with the first fault more than the timeout after it. */
  datatype Span = Span(count: nat, first: real)

  function LastWindow(timeout: real, faults: seq<real>): Span {
    if faults == [] then Span(0, 0.0)
    else
      var w, t := LastWindow(timeout, faults[..|faults| - 1]), faults[|faults| - 1];
      if w.count == 0 || t - w.first > timeout then Span(1, t) else Span(w.count + 1, w.first)
  }

  /** Some window over the faults has reached the threshold. */
  ghost predicate Reached(cfg: Config, faults: seq<real>) {
    exists k :: 0 <= k <= |faults| && LastWindow(cfg.timeout, faults[..k]).count >= cfg.threshold
  }

  lemma ReachedNext(cfg: Config, faults: seq<real>, t: real)
    ensures Reached(cfg, faults + [t])
       <==> Reached(cfg, faults) || LastWindow(cfg.timeout, faults + [t]).count >= cfg.threshold
  {
    var more := faults + [t];
    assert more[..|more|] == more;
    forall k | 0 <= k <= |faults| ensures more[..k] == faults[..k] {}
    if Reached(cfg, faults) {
      var k :| 0 <= k <= |faults| && LastWindow(cfg.timeout, faults[..k]).count >= cfg.threshold;
      assert LastWindow(cfg.timeout, more[..k]).count >= cfg.threshold;
    }
  }

  /** The breaker as the counted faults determine it. */
  ghost predicate Reflects(cfg: Config, b: Breaker, faults: seq<real>) {
    && (b.open <==> Reached(cfg, faults))
    && (b.open ==> b.failures >= cfg.threshold && faults != [] && b.openTime == faults[|faults| - 1])
    && (!b.open ==>
          var w := LastWindow(cfg.timeout, faults);
          b.failures == w.count < cfg.threshold && (w.count > 0 ==> b.firstFailure == w.first))
  }

  lemma FaultReflected(cfg: Config, b: Breaker, faults: seq<real>, t: real)
    requires cfg.threshold >= 1 && Reflects(cfg, b, faults)
    ensures Reflects(cfg, Failed(cfg, b, t), faults + [t])
  {
    ReachedNext(cfg, faults, t);
    assert (faults + [t])[..|faults|] == faults;
  }

  lemma NoneReached(cfg: Config)
    requires cfg.threshold >= 1
    ensures !Reached(cfg, [])
  {
    var none: seq<real> := [];
    assert forall k :: 0 <= k <= |none| ==> none[..k] == [];
  }

  /**
   * When the circuit opens, both ways: under every interleaving it is open exactly when, among the faults
   * since the last success or reset, some window of faults within the timeout of its first one has reached
   * the threshold; its opening time is then the last fault, and while it is closed the count is the size
   * of the last window.
   */
  lemma {:induction false} OpensExactly(cfg: Config, events: seq<Event>)
    requires cfg.threshold >= 1
    ensures Reflects(cfg, Run(cfg, events).breaker, CountedFaults(cfg, events))
  {
    NoneReached(cfg);
    if events != [] {
      var init, e := events[..|events| - 1], events[|events| - 1];
      OpensExactly(cfg, init);
      if e.Fault? { FaultReflected(cfg, Run(cfg, init).breaker, CountedFaults(cfg, init), e.at); }
    }
  }

  lemma {:induction false} BurstIsOneWindow(timeout: real, faults: seq<real>)
    requires forall k :: 0 <= k < |faults| ==> faults[k] - faults[0] <= timeout
    ensures LastWindow(timeout, faults) == Span(|faults|, if faults == [] then 0.0 else faults[0])
  {
    if faults != [] { BurstIsOneWindow(timeout, faults[..|faults| - 1]); }
  }

  /** So a burst trips it: `threshold` faults within the timeout of the first one counted. */
  lemma BurstOpens(cfg: Config, events: seq<Event>, id: int, t: real)
    requires cfg.threshold >= 1 && IsAttempting(Run(cfg, events), id)
    requires var faults := CountedFaults(cfg, events) + [t];
             |faults| >= cfg.threshold && forall k :: 0 <= k < cfg.threshold ==> faults[k] - faults[0] <= cfg.timeout
    ensures Run(cfg, events + [Fault(id, t)]).breaker.open
  {
    var all, faults := events + [Fault(id, t)], CountedFaults(cfg, events) + [t];
    assert all[..|all| - 1] == events;
    OpensExactly(cfg, all);
    BurstIsOneWindow(cfg.timeout, faults[..cfg.threshold]);
  }

  // ---------------------------------------------------------------- attempts

  /** Faults a call has suffered since it began. */
  function FaultsOf(cfg: Config, events: seq<Event>, id: int): nat {
    if events == [] then 0
    else
      var init, e := events[..|events| - 1], events[|events| - 1];
      var s := Run(cfg, init);
      if e.Begin? && e.id == id && id !in s.calls then 0
      else FaultsOf(cfg, init, id) + if e.Fault? && e.id == id && IsAttempting(s, id) then 1 else 0
  }

  /**
   * A call makes one attempt more than it has suffered faults, sleeps after each fault but the last
   * permitted one, and so suffers at most `maxAttempts`.
   */
  lemma {:induction false} AttemptsCounted(cfg: Config, events: seq<Event>, id: int)
    requires id in Run(cfg, events).calls
    ensures var c, faults := Run(cfg, events).calls[id], FaultsOf(cfg, events, id);
            && c.attempt == (if c.Attempting? then faults + 1 else faults) && 1 <= c.attempt <= cfg.maxAttempts
            && (c.Sleeping? ==> faults < cfg.maxAttempts)
  {
    var init, e := events[..|events| - 1], events[|events| - 1];
    if id in Run(cfg, init).calls { AttemptsCounted(cfg, init, id); }
  }

  /** What ends a call: a success, another error, a cancellation, or a fault that trips the circuit or was its last. */
  lemma CallEndsExactly(cfg: Config, s: System, e: Event, id: int)
    requires id in s.calls
    ensures id !in Step(cfg, s, e).calls
       <==> || (s.calls[id].Attempting? && (e == Ok(id) || e == OtherError(id))) || e == Cancel(id)
            || (s.calls[id].Attempting? && e.Fault? && e.id == id
                && (Failed(cfg, s.breaker, e.at).failures >= cfg.threshold || s.calls[id].attempt == cfg.maxAttempts))
    ensures id in Step(cfg, s, e).calls && !(e.Fault? && e.id == id) && !(e.Wake? && e.id == id) ==>
              Step(cfg, s, e).calls[id] == s.calls[id]
    ensures e == Wake(id) && s.calls[id].Sleeping? ==> id in Step(cfg, s, e).calls && Step(cfg, s, e).calls[id].Attempting?
    ensures e.OtherError? || e.Wake? || e.Cancel? ==> Step(cfg, s, e).breaker == s.breaker
  {
  }

  // ---------------------------------------------------------------- while it is open

  /** An open circuit turns a new call away without a trace until the timeout is over, and only then. */
  lemma RejectedExactlyWhileOpen(cfg: Config, events: seq<Event>, id: int, now: real)
    requires cfg.threshold >= 1 && cfg.maxAttempts >= 1 && id !in Run(cfg, events).calls
    ensures var s := Run(cfg, events);
            var after := Step(cfg, s, Begin(id, now));
            if s.breaker.failures >= cfg.threshold && now - s.breaker.openTime < cfg.timeout then after == s
            else && after.calls == s.calls[id := Attempting(1, cfg.baseDelay)] && !after.breaker.open
                 && after.breaker.failures == if s.breaker.failures >= cfg.threshold then 0 else s.breaker.failures
  {
    OpenExactlyAtThreshold(cfg, events);
  }

  /** What happens after some events, before the timeout of an opening has passed and without a success in flight. */
  ghost predicate WithinTimeout(cfg: Config, events: seq<Event>, more: seq<Event>, openTime: real) {
    forall i :: 0 <= i < |more| ==>
      && (more[i].Begin? ==> more[i].at - openTime < cfg.timeout)
      && (more[i].Fault? ==> more[i].at >= openTime)
      && (more[i].Ok? ==> !IsAttempting(Run(cfg, events + more[..i]), more[i].id))
  }

  lemma WithinTimeoutInit(cfg: Config, events: seq<Event>, more: seq<Event>, openTime: real)
    requires more != [] && WithinTimeout(cfg, events, more, openTime)
    ensures WithinTimeout(cfg, events, more[..|more| - 1], openTime)
  {
    var init := more[..|more| - 1];
    assert forall i :: 0 <= i < |init| ==> init[i] == more[i] && init[..i] == more[..i];
  }

  /**
   * An open circuit stays shut: from an opening until the timeout has passed, whatever the calls in
   * flight do short of succeeding, the circuit remains open and no new call is admitted.
   */
  lemma {:induction false} OpenStaysShut(cfg: Config, events: seq<Event>, more: seq<Event>)
    requires cfg.threshold >= 1 && Run(cfg, events).breaker.open
    requires WithinTimeout(cfg, events, more, Run(cfg, events).breaker.openTime)
    ensures Run(cfg, events + more).breaker.open
    ensures Run(cfg, events + more).breaker.openTime >= Run(cfg, events).breaker.openTime
    ensures Run(cfg, events + more).calls.Keys <= Run(cfg, events).calls.Keys
    decreases |more|
  {
    if more == [] {
      assert events + more == events;
    } else {
      var init, e := more[..|more| - 1], more[|more| - 1];
      WithinTimeoutInit(cfg, events, more, Run(cfg, events).breaker.openTime);
      OpenStaysShut(cfg, events, init);
      assert (events + more)[..|events + more| - 1] == events + init;
      OpenExactlyAtThreshold(cfg, events + init);
      StepStaysShut(cfg, Run(cfg, events + init), e, Run(cfg, events).breaker.openTime);
    }
  }

  lemma StepStaysShut(cfg: Config, s: System, e: Event, openTime: real)
    requires s.breaker.open && s.breaker.failures >= cfg.threshold >= 1 && s.breaker.openTime >= openTime
    requires e.Begin? ==> e.at - openTime < cfg.timeout
    requires e.Fault? ==> e.at >= openTime
    requires e.Ok? ==> !IsAttempting(s, e.id)
    ensures var after := Step(cfg, s, e);
            after.breaker.open && after.breaker.openTime >= openTime && after.calls.Keys <= s.calls.Keys
  {
  }
}
