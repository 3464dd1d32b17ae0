/** The sliding-window rate limiter over Redis sorted sets. */
module RateLimiter {

  const GET_RATE_LIMIT := 120
  const WRITE_RATE_LIMIT := 30
  const WINDOW := 60.0

  /** Hashed client address and HTTP method: what a sorted set is kept for. */
  datatype Key = Key(client: string, method_: string)

  /** A sorted set whose members are timestamps scored by themselves, and when its key expires. */
  datatype Zset = Zset(scores: set<real>, expiresAt: real)

  type Store = map<Key, Zset>

  function Limit(key: Key): int { if key.method_ == "GET" then GET_RATE_LIMIT else WRITE_RATE_LIMIT }

  /** The members of a key that Redis still has. */
  function Live(store: Store, key: Key, now: real): set<real> {
    if key in store && now < store[key].expiresAt then store[key].scores else {}
  }

  /** ZREMRANGEBYSCORE key 0 (now - 60). */
  function Trimmed(scores: set<real>, now: real): set<real> {
    set t | t in scores && !(0.0 <= t <= now - WINDOW)
  }

  /** ZREMRANGEBYSCORE, then ZADD. */
  function Window(store: Store, key: Key, now: real): set<real> { Trimmed(Live(store, key, now), now) + {now} }

  function Recorded(store: Store, key: Key, now: real): Store {
    store[key := Zset(Window(store, key, now), now + WINDOW)]
  }

  predicate Admits(store: Store, key: Key, now: real) { |Window(store, key, now)| <= Limit(key) }

  datatype Response = Served | TooManyRequests | ServiceUnavailable

  class Limiter {
    var zsets: Store

    constructor ()
      ensures zsets == map[]
    {
      zsets := map[];
    }

    /** One request; Redis being down serves reads and refuses writes. */
    method Dispatch(exempt: bool, key: Key, redisUp: bool, now: real) returns (r: Response)
      modifies this
      ensures exempt || !redisUp ==> zsets == old(zsets)
      ensures !exempt && redisUp ==> zsets == Recorded(old(zsets), key, now)
      ensures r == if exempt then Served
                   else if !redisUp then
                     (if key.method_ in {"GET", "HEAD", "OPTIONS"} then Served else ServiceUnavailable)
                   else if Admits(old(zsets), key, now) then Served else TooManyRequests
    {
      if exempt { return Served; }
      if !redisUp {
        return if key.method_ in {"GET", "HEAD", "OPTIONS"} then Served else ServiceUnavailable;
      }
      var members: set<real> := {};
      if key in zsets && now < zsets[key].expiresAt { members := zsets[key].scores; }
      members := set t | t in members && !(0.0 <= t <= now - WINDOW);
      members := members + {now};
      var count := |members|;
      zsets := zsets[key := Zset(members, now + WINDOW)];
      var limit := if key.method_ == "GET" then GET_RATE_LIMIT else WRITE_RATE_LIMIT;
      r := if count > limit then TooManyRequests else Served;
    }
  }

  // ---------------------------------------------------------------- runs

  datatype Request = Request(key: Key, at: real)

  function Run(reqs: seq<Request>): Store {
    if reqs == [] then map[]
    else Recorded(Run(reqs[..|reqs| - 1]), reqs[|reqs| - 1].key, reqs[|reqs| - 1].at)
  }

  /** Requests of all clients, executed in time order. */
  ghost predicate InOrder(reqs: seq<Request>) {
    && (forall i :: 0 <= i < |reqs| ==> reqs[i].at >= 0.0)
    && (forall i, j :: 0 <= i < j < |reqs| ==> reqs[i].at <= reqs[j].at)
  }

  /** Request times of a key after a moment, read off the run. */
  function TimesAfter(reqs: seq<Request>, key: Key, lo: real): set<real> {
    if reqs == [] then {}
    else
      var r := reqs[|reqs| - 1];
      TimesAfter(reqs[..|reqs| - 1], key, lo) + if r.key == key && r.at > lo then {r.at} else {}
  }

  /** Trimming a longer window leaves the shorter one. */
  lemma {:induction false} TrimmedTimes(reqs: seq<Request>, key: Key, lo: real, now: real)
    requires InOrder(reqs) && lo <= now - WINDOW
    ensures Trimmed(TimesAfter(reqs, key, lo), now) == TimesAfter(reqs, key, now - WINDOW)
  {
    if reqs != [] { TrimmedTimes(reqs[..|reqs| - 1], key, lo, now); }
  }

  lemma {:induction false} NoTimesAfter(reqs: seq<Request>, key: Key, lo: real)
    requires forall j :: 0 <= j < |reqs| && reqs[j].key == key ==> reqs[j].at <= lo
    ensures TimesAfter(reqs, key, lo) == {}
  {
    if reqs != [] { NoTimesAfter(reqs[..|reqs| - 1], key, lo); }
  }

  /** A key's sorted set holds exactly the request times of the window that ends at its last request. */
  ghost predicate UpToDate(reqs: seq<Request>, key: Key, z: Zset) {
    var last := z.expiresAt - WINDOW;
    && z.scores == TimesAfter(reqs, key, last - WINDOW)
    && (forall j :: 0 <= j < |reqs| && reqs[j].key == key ==> reqs[j].at <= last)
    && reqs != [] && last <= reqs[|reqs| - 1].at
  }

  ghost predicate Faithful(store: Store, reqs: seq<Request>) {
    && (forall j :: 0 <= j < |reqs| ==> reqs[j].key in store)
    && (forall key :: key in store ==> UpToDate(reqs, key, store[key]))
  }

  /** In a faithful store the window before a request is the key's request times of the last 60 seconds. */
  lemma WindowBefore(store: Store, reqs: seq<Request>, key: Key, now: real)
    requires Faithful(store, reqs) && InOrder(reqs)
    requires reqs != [] ==> reqs[|reqs| - 1].at <= now
    ensures Trimmed(Live(store, key, now), now) == TimesAfter(reqs, key, now - WINDOW)
  {
    if key in store {
      assert UpToDate(reqs, key, store[key]);
      TrimmedZset(reqs, key, store[key], now);
    } else {
      NoTimesAfter(reqs, key, now - WINDOW);
    }
  }

  lemma TrimmedZset(reqs: seq<Request>, key: Key, z: Zset, now: real)
    requires InOrder(reqs) && UpToDate(reqs, key, z) && reqs[|reqs| - 1].at <= now
    ensures Trimmed(if now < z.expiresAt then z.scores else {}, now) == TimesAfter(reqs, key, now - WINDOW)
  {
    if now < z.expiresAt {
      TrimmedTimes(reqs, key, z.expiresAt - WINDOW - WINDOW, now);
    } else {
      NoTimesAfter(reqs, key, now - WINDOW);
    }
  }

  lemma StepFaithful(store: Store, reqs: seq<Request>, r: Request)
    requires Faithful(store, reqs) && InOrder(reqs) && InOrder(reqs + [r])
    requires reqs != [] ==> reqs[|reqs| - 1].at <= r.at
    ensures Faithful(Recorded(store, r.key, r.at), reqs + [r])
  {
    var after := Recorded(store, r.key, r.at);
    forall key | key in after ensures UpToDate(reqs + [r], key, after[key]) {
      StepUpToDate(store, reqs, r, key);
    }
    StepKeepsKeys(store, reqs, r);
  }

  lemma StepUpToDate(store: Store, reqs: seq<Request>, r: Request, key: Key)
    requires Faithful(store, reqs) && InOrder(reqs) && InOrder(reqs + [r])
    requires reqs != [] ==> reqs[|reqs| - 1].at <= r.at
    requires key in Recorded(store, r.key, r.at)
    ensures UpToDate(reqs + [r], key, Recorded(store, r.key, r.at)[key])
  {
    if key == r.key {
      WindowBefore(store, reqs, key, r.at);
      OwnKeyUpToDate(reqs, r);
    } else {
      OtherKeyUpToDate(reqs, r, key, store[key]);
    }
  }

  lemma StepKeepsKeys(store: Store, reqs: seq<Request>, r: Request)
    requires forall j :: 0 <= j < |reqs| ==> reqs[j].key in store
    ensures forall j :: 0 <= j < |reqs + [r]| ==> (reqs + [r])[j].key in Recorded(store, r.key, r.at)
  {
    assert forall j :: 0 <= j < |reqs| ==> (reqs + [r])[j] == reqs[j];
  }

  lemma OwnKeyUpToDate(reqs: seq<Request>, r: Request)
    requires InOrder(reqs + [r])
    ensures UpToDate(reqs + [r], r.key, Zset(TimesAfter(reqs, r.key, r.at - WINDOW) + {r.at}, r.at + WINDOW))
  {
    var all := reqs + [r];
    assert all[..|reqs|] == reqs && all[|all| - 1] == r;
    assert forall j :: 0 <= j < |reqs| ==> all[j].at <= all[|reqs|].at;
  }

  lemma OtherKeyUpToDate(reqs: seq<Request>, r: Request, key: Key, z: Zset)
    requires UpToDate(reqs, key, z) && key != r.key && (reqs != [] ==> reqs[|reqs| - 1].at <= r.at)
    ensures UpToDate(reqs + [r], key, z)
  {
    var all := reqs + [r];
    assert all[..|reqs|] == reqs && all[|all| - 1] == r;
  }

  lemma {:induction false} RunFaithful(reqs: seq<Request>)
    requires InOrder(reqs)
    ensures Faithful(Run(reqs), reqs)
  {
    if reqs != [] {
      var init, r := reqs[..|reqs| - 1], reqs[|reqs| - 1];
      assert init + [r] == reqs;
      RunFaithful(init);
      StepFaithful(Run(init), init, r);
    }
  }

  // ---------------------------------------------------------------- bounds

  /** The answers of a run: which requests were served. */
  function Answers(reqs: seq<Request>): (served: seq<bool>)
    ensures |served| == |reqs|
  {
    if reqs == [] then []
    else
      var init, r := reqs[..|reqs| - 1], reqs[|reqs| - 1];
      Answers(init) + [Admits(Run(init), r.key, r.at)]
  }

  lemma {:induction false} AnswerAt(reqs: seq<Request>, i: nat)
    requires i < |reqs|
    ensures Answers(reqs)[i] == Admits(Run(reqs[..i]), reqs[i].key, reqs[i].at)
  {
    if i < |reqs| - 1 {
      AnswerAt(reqs[..|reqs| - 1], i);
      assert reqs[..|reqs| - 1][..i] == reqs[..i];
    }
  }

  /** Request i of a run is served. */
  ghost predicate ServedAt(reqs: seq<Request>, i: int)
    requires 0 <= i < |reqs|
  {
    Answers(reqs)[i]
  }

  ghost predicate ServedIn(reqs: seq<Request>, i: int, key: Key, s: real)
    requires 0 <= i < |reqs|
  {
    reqs[i].key == key && s <= reqs[i].at < s + 60.0 && ServedAt(reqs, i)
  }

  /** How many requests of a key are served in the 60 seconds from s on. */
  ghost function ServedCount(reqs: seq<Request>, key: Key, s: real, n: nat): nat
    requires n <= |reqs|
  {
    if n == 0 then 0 else ServedCount(reqs, key, s, n - 1) + if ServedIn(reqs, n - 1, key, s) then 1 else 0
  }

  /** The timestamps of those requests. */
  ghost function ServedTimes(reqs: seq<Request>, key: Key, s: real, n: nat): set<real>
    requires n <= |reqs|
  {
    if n == 0 then {}
    else ServedTimes(reqs, key, s, n - 1) + if ServedIn(reqs, n - 1, key, s) then {reqs[n - 1].at} else {}
  }

  lemma TimesAfterStep(reqs: seq<Request>, n: nat, key: Key, lo: real)
    requires 0 < n <= |reqs|
    ensures TimesAfter(reqs[..n], key, lo)
         == TimesAfter(reqs[..n - 1], key, lo)
            + if reqs[n - 1].key == key && reqs[n - 1].at > lo then {reqs[n - 1].at} else {}
  {
    assert reqs[..n][..n - 1] == reqs[..n - 1];
  }

  lemma {:induction false} ServedWereRequested(reqs: seq<Request>, key: Key, s: real, n: nat, lo: real)
    requires n <= |reqs| && lo < s
    ensures ServedTimes(reqs, key, s, n) <= TimesAfter(reqs[..n], key, lo)
  {
    if n > 0 {
      ServedWereRequested(reqs, key, s, n - 1, lo);
      TimesAfterStep(reqs, n, key, lo);
    }
  }

  /**
   * In any 60-second window, the served requests of one client and method carry at most `limit`
   * different timestamps -- for every run in time order, with any number of other clients.
   */
  lemma {:induction false} ServedTimesBound(reqs: seq<Request>, key: Key, s: real, n: nat)
    requires InOrder(reqs) && n <= |reqs|
    ensures |ServedTimes(reqs, key, s, n)| <= Limit(key)
  {
    if n > 0 {
      if ServedIn(reqs, n - 1, key, s) {
        ServedInsideWindow(reqs, key, s, n);
      } else {
        ServedTimesBound(reqs, key, s, n - 1);
        assert ServedTimes(reqs, key, s, n) == ServedTimes(reqs, key, s, n - 1);
      }
    }
  }

  /** All timestamps served since s, up to a served request, are in the window that request was counted in. */
  lemma ServedInsideWindow(reqs: seq<Request>, key: Key, s: real, n: nat)
    requires InOrder(reqs) && 0 < n <= |reqs| && ServedIn(reqs, n - 1, key, s)
    ensures |ServedTimes(reqs, key, s, n)| <= Limit(key)
  {
    var window := WindowOf(reqs, key, n - 1);
    ServedWereCounted(reqs, key, s, n);
    SubsetSize(ServedTimes(reqs, key, s, n), window);
  }

  /** The timestamps a served request was counted among: at most the limit. */
  lemma WindowOf(reqs: seq<Request>, key: Key, i: nat) returns (window: set<real>)
    requires InOrder(reqs) && i < |reqs| && reqs[i].key == key && ServedAt(reqs, i)
    ensures window == TimesAfter(reqs[..i], key, reqs[i].at - WINDOW) + {reqs[i].at}
    ensures |window| <= Limit(key)
  {
    ServedExactly(reqs, i);
    window := TimesAfter(reqs[..i], key, reqs[i].at - WINDOW) + {reqs[i].at};
  }

  lemma ServedWereCounted(reqs: seq<Request>, key: Key, s: real, n: nat)
    requires 0 < n <= |reqs| && reqs[n - 1].at < s + WINDOW
    ensures ServedTimes(reqs, key, s, n)
         <= TimesAfter(reqs[..n - 1], key, reqs[n - 1].at - WINDOW) + {reqs[n - 1].at}
  {
    ServedWereRequested(reqs, key, s, n - 1, reqs[n - 1].at - WINDOW);
  }

  /** What a request is counted in: its own time and its key's request times of the last 60 seconds, served or not. */
  lemma CountedWindow(reqs: seq<Request>, i: nat)
    requires InOrder(reqs) && i < |reqs|
    ensures Window(Run(reqs[..i]), reqs[i].key, reqs[i].at)
         == TimesAfter(reqs[..i], reqs[i].key, reqs[i].at - WINDOW) + {reqs[i].at}
  {
    RunFaithful(reqs[..i]);
    WindowBefore(Run(reqs[..i]), reqs[..i], reqs[i].key, reqs[i].at);
  }

  /** Served means: at most 120 request times of the key for GET, 30 otherwise, in the last 60 seconds, its own included. */
  lemma ServedExactly(reqs: seq<Request>, i: nat)
    requires InOrder(reqs) && i < |reqs|
    ensures ServedAt(reqs, i)
       <==> |TimesAfter(reqs[..i], reqs[i].key, reqs[i].at - 60.0) + {reqs[i].at}|
            <= if reqs[i].key.method_ == "GET" then 120 else 30
  {
    CountedWindow(reqs, i);
    AnswerAt(reqs, i);
  }

  lemma SubsetSize<T>(a: set<T>, b: set<T>)
    requires a <= b
    ensures |a| <= |b|
  {
    assert b == a + (b - a);
  }

  /** The key's expiry never changes an outcome: an expired set would have been trimmed to nothing. */
  lemma ExpiryIsInvisible(reqs: seq<Request>, key: Key, now: real)
    requires InOrder(reqs + [Request(key, now)]) && key in Run(reqs)
    ensures Trimmed(Live(Run(reqs), key, now), now) == Trimmed(Run(reqs)[key].scores, now)
  {
    var all := reqs + [Request(key, now)];
    assert forall j :: 0 <= j < |reqs| ==> reqs[j] == all[j];
    assert all[|reqs|].at == now;
    RunFaithful(reqs);
    var z := Run(reqs)[key];
    assert UpToDate(reqs, key, z);
    if z.expiresAt <= now { ExpiredIsStale(reqs, key, z, now); }
  }

  lemma ExpiredIsStale(reqs: seq<Request>, key: Key, z: Zset, now: real)
    requires InOrder(reqs) && UpToDate(reqs, key, z) && z.expiresAt <= now
    ensures Trimmed(z.scores, now) == {}
  {
    TrimmedTimes(reqs, key, z.expiresAt - WINDOW - WINDOW, now);
    NoTimesAfter(reqs, key, now - WINDOW);
  }

  lemma {:induction false} SameInstantStore(reqs: seq<Request>, key: Key, t: real, n: nat)
    requires n <= |reqs| && forall i :: 0 <= i < |reqs| ==> reqs[i] == Request(key, t)
    ensures Run(reqs[..n]) == if n == 0 then map[] else map[key := Zset({t}, t + WINDOW)]
  {
    if n > 0 {
      SameInstantStore(reqs, key, t, n - 1);
      assert reqs[..n][..n - 1] == reqs[..n - 1];
      assert Window(Run(reqs[..n - 1]), key, t) == {t};
    }
  }

  lemma SameInstantServed(reqs: seq<Request>, key: Key, t: real, i: nat)
    requires i < |reqs| && forall j :: 0 <= j < |reqs| ==> reqs[j] == Request(key, t)
    ensures ServedIn(reqs, i, key, t)
  {
    SameInstantStore(reqs, key, t, i);
    AnswerAt(reqs, i);
    assert Window(Run(reqs[..i]), key, t) == {t};
  }

  /** Distinct timestamps are needed: requests carrying one timestamp are all served, however many. */
  lemma {:induction false} SameInstantUnlimited(reqs: seq<Request>, key: Key, t: real, n: nat)
    requires n <= |reqs| && forall i :: 0 <= i < |reqs| ==> reqs[i] == Request(key, t)
    ensures ServedCount(reqs, key, t, n) == n
  {
    if n > 0 {
      SameInstantUnlimited(reqs, key, t, n - 1);
      SameInstantServed(reqs, key, t, n - 1);
    }
  }

  // ---------------------------------------------------------------- shared timestamps

  /** How many requests of a key carry a timestamp. */
  function Multiplicity(reqs: seq<Request>, key: Key, t: real): nat {
    if reqs == [] then 0
    else Multiplicity(reqs[..|reqs| - 1], key, t) + if reqs[|reqs| - 1] == Request(key, t) then 1 else 0
  }

  /** At most m requests of the key share a timestamp. */
  ghost predicate Shared(reqs: seq<Request>, key: Key, m: nat) {
    forall t :: Multiplicity(reqs, key, t) <= m
  }

  /** How many of the served requests carry one of the given timestamps. */
  ghost function ServedAmong(reqs: seq<Request>, key: Key, s: real, n: nat, times: set<real>): nat
    requires n <= |reqs|
  {
    if n == 0 then 0
    else ServedAmong(reqs, key, s, n - 1, times)
         + if ServedIn(reqs, n - 1, key, s) && reqs[n - 1].at in times then 1 else 0
  }

  lemma {:induction false} AmongServedTimes(reqs: seq<Request>, key: Key, s: real, n: nat, times: set<real>)
    requires n <= |reqs| && ServedTimes(reqs, key, s, n) <= times
    ensures ServedAmong(reqs, key, s, n, times) == ServedCount(reqs, key, s, n)
  {
    if n > 0 { AmongServedTimes(reqs, key, s, n - 1, times); }
  }

  lemma {:induction false} AmongNone(reqs: seq<Request>, key: Key, s: real, n: nat)
    requires n <= |reqs|
    ensures ServedAmong(reqs, key, s, n, {}) == 0
  {
    if n > 0 { AmongNone(reqs, key, s, n - 1); }
  }

  lemma {:induction false} AmongOneMore(reqs: seq<Request>, key: Key, s: real, n: nat, times: set<real>, t: real)
    requires n <= |reqs| && t in times
    ensures ServedAmong(reqs, key, s, n, times)
         <= ServedAmong(reqs, key, s, n, times - {t}) + Multiplicity(reqs[..n], key, t)
  {
    if n > 0 {
      AmongOneMore(reqs, key, s, n - 1, times, t);
      assert reqs[..n][..n - 1] == reqs[..n - 1];
    }
  }

  lemma AmongAtMostMore(reqs: seq<Request>, key: Key, s: real, times: set<real>, t: real, m: nat)
    requires t in times && Shared(reqs, key, m)
    ensures ServedAmong(reqs, key, s, |reqs|, times) <= ServedAmong(reqs, key, s, |reqs|, times - {t}) + m
  {
    AmongOneMore(reqs, key, s, |reqs|, times, t);
    assert reqs[..|reqs|] == reqs;
  }

  lemma OneMoreFactor(m: nat, k: nat)
    ensures m * (k + 1) == m * k + m
  {
  }

  lemma SomeElement<T>(a: set<T>) returns (x: T)
    requires a != {}
    ensures x in a
  {
    x :| x in a;
  }

  lemma {:induction false} AmongBound(reqs: seq<Request>, key: Key, s: real, times: set<real>, m: nat)
    requires Shared(reqs, key, m)
    ensures ServedAmong(reqs, key, s, |reqs|, times) <= m * |times|
    decreases |times|
  {
    if times == {} {
      AmongNone(reqs, key, s, |reqs|);
    } else {
      var t := SomeElement(times);
      AmongBound(reqs, key, s, times - {t}, m);
      AmongAtMostMore(reqs, key, s, times, t, m);
      OneMoreFactor(m, |times - {t}|);
    }
  }

  /** The law for shared timestamps: if at most m requests of the key share one, a window serves at most m * limit. */
  lemma SharedTimestampsBound(reqs: seq<Request>, key: Key, s: real, m: nat)
    requires InOrder(reqs) && Shared(reqs, key, m)
    ensures ServedCount(reqs, key, s, |reqs|) <= m * Limit(key)
  {
    var times := ServedTimes(reqs, key, s, |reqs|);
    AmongServedTimes(reqs, key, s, |reqs|, times);
    AmongBound(reqs, key, s, times, m);
    ServedTimesBound(reqs, key, s, |reqs|);
    MulMonotone(m, |times|, Limit(key));
  }

  /** No two requests of the key carry one timestamp; other clients' timestamps do not matter. */
  ghost predicate Distinct(reqs: seq<Request>, key: Key) {
    forall i, j :: 0 <= i < j < |reqs| && reqs[i].key == key && reqs[j].key == key ==> reqs[i].at != reqs[j].at
  }

  lemma {:induction false} NoneCarries(reqs: seq<Request>, key: Key, t: real)
    requires forall i :: 0 <= i < |reqs| ==> reqs[i] != Request(key, t)
    ensures Multiplicity(reqs, key, t) == 0
  {
    if reqs != [] { NoneCarries(reqs[..|reqs| - 1], key, t); }
  }

  lemma {:induction false} DistinctNotShared(reqs: seq<Request>, key: Key, t: real)
    requires Distinct(reqs, key)
    ensures Multiplicity(reqs, key, t) <= 1
  {
    if reqs != [] {
      var init := reqs[..|reqs| - 1];
      if reqs[|reqs| - 1] == Request(key, t) { NoneCarries(init, key, t); } else { DistinctNotShared(init, key, t); }
    }
  }

  /**
   * The limit holds over whole runs: with Redis up and requests in time order, no 60-second window serves
   * more than `limit` requests of a client and method whose own timestamps are distinct.
   */
  lemma WindowBound(reqs: seq<Request>, key: Key, s: real)
    requires InOrder(reqs) && Distinct(reqs, key)
    ensures ServedCount(reqs, key, s, |reqs|) <= Limit(key)
  {
    forall t ensures Multiplicity(reqs, key, t) <= 1 { DistinctNotShared(reqs, key, t); }
    SharedTimestampsBound(reqs, key, s, 1);
  }

  lemma MulMonotone(m: nat, a: int, b: int)
    requires a <= b
    ensures m * a <= m * b
  {
  }

  /** The k-th of a row of timestamps a tenth of a second apart. */
  function Tick(k: nat): real { k as real / 10.0 }

  function Block(key: Key, t: real, m: nat): seq<Request> {
    if m == 0 then [] else Block(key, t, m - 1) + [Request(key, t)]
  }

  /** m requests on each of the first k ticks. */
  function Staircase(key: Key, k: nat, m: nat): seq<Request> {
    if k == 0 then [] else Staircase(key, k - 1, m) + Block(key, Tick(k - 1), m)
  }

  lemma {:induction false} BlockShape(key: Key, t: real, m: nat)
    ensures var b := Block(key, t, m); |b| == m && forall i :: 0 <= i < m ==> b[i] == Request(key, t)
  {
    if m > 0 { BlockShape(key, t, m - 1); }
  }

  lemma {:induction false} StaircaseShape(key: Key, k: nat, m: nat)
    ensures var r := Staircase(key, k, m);
            && |r| == m * k && InOrder(r)
            && (forall i :: 0 <= i < |r| ==> r[i].key == key && 0.0 <= r[i].at < Tick(k) && r[i].at in Ticks(k))
  {
    if k > 0 {
      StaircaseShape(key, k - 1, m);
      BlockShape(key, Tick(k - 1), m);
      assert m * k == m * (k - 1) + m;
    }
  }

  function Ticks(k: nat): set<real> { if k == 0 then {} else Ticks(k - 1) + {Tick(k - 1)} }

  lemma {:induction false} FewTicks(k: nat)
    ensures |Ticks(k)| <= k
  {
    if k > 0 { FewTicks(k - 1); }
  }

  lemma {:induction false} MultiplicityConcat(a: seq<Request>, b: seq<Request>, key: Key, t: real)
    ensures Multiplicity(a + b, key, t) == Multiplicity(a, key, t) + Multiplicity(b, key, t)
  {
    if b == [] {
      assert a + b == a;
    } else {
      MultiplicityConcat(a, b[..|b| - 1], key, t);
      assert (a + b)[..|a + b| - 1] == a + b[..|b| - 1];
    }
  }

  lemma {:induction false} BlockMultiplicity(key: Key, t: real, m: nat, u: real)
    ensures Multiplicity(Block(key, t, m), key, u) == if u == t then m else 0
  {
    if m > 0 {
      BlockMultiplicity(key, t, m - 1, u);
      var b := Block(key, t, m);
      assert b[..|b| - 1] == Block(key, t, m - 1);
    }
  }

  /** A block on a later timestamp than those below it keeps the sharing. */
  lemma StackedShared(lower: seq<Request>, top: seq<Request>, key: Key, m: nat, t: real, at: real, next: real)
    requires at < next && Multiplicity(lower, key, t) <= (if t < at then m else 0)
    requires Multiplicity(top, key, t) == if t == at then m else 0
    ensures Multiplicity(lower + top, key, t) <= if t < next then m else 0
  {
    MultiplicityConcat(lower, top, key, t);
  }

  /** How often a timestamp occurs on the staircase, at most. */
  ghost predicate SharedBelow(key: Key, k: nat, m: nat, t: real) {
    Multiplicity(Staircase(key, k, m), key, t) <= if t < Tick(k) then m else 0
  }

  lemma NextStep(key: Key, k: nat, m: nat, t: real)
    requires SharedBelow(key, k, m, t)
    ensures SharedBelow(key, k + 1, m, t)
  {
    BlockMultiplicity(key, Tick(k), m, t);
    StackedShared(Staircase(key, k, m), Block(key, Tick(k), m), key, m, t, Tick(k), Tick(k + 1));
  }

  lemma {:induction false} StaircaseShared(key: Key, k: nat, m: nat, t: real)
    ensures SharedBelow(key, k, m, t)
    decreases k
  {
    if k > 0 {
      StaircaseShared(key, k - 1, m, t);
      NextStep(key, k - 1, m, t);
    }
  }

  lemma {:induction false} TimesAmong(reqs: seq<Request>, key: Key, lo: real, times: set<real>)
    requires forall i :: 0 <= i < |reqs| ==> reqs[i].at in times
    ensures TimesAfter(reqs, key, lo) <= times
  {
    if reqs != [] { TimesAmong(reqs[..|reqs| - 1], key, lo, times); }
  }

  /** Every request of a run on at most `limit` different timestamps is served. */
  lemma FewTimestampsServed(reqs: seq<Request>, times: set<real>, i: nat)
    requires InOrder(reqs) && i < |reqs| && (forall j :: 0 <= j < |reqs| ==> reqs[j].at in times)
    requires |times| <= Limit(reqs[i].key)
    ensures ServedAt(reqs, i)
  {
    ServedExactly(reqs, i);
    TimesAmong(reqs[..i], reqs[i].key, reqs[i].at - WINDOW, times);
    SubsetSize(TimesAfter(reqs[..i], reqs[i].key, reqs[i].at - WINDOW) + {reqs[i].at}, times);
  }

  lemma {:induction false} AllCounted(reqs: seq<Request>, key: Key, s: real, n: nat)
    requires n <= |reqs| && forall i :: 0 <= i < |reqs| ==> ServedIn(reqs, i, key, s)
    ensures ServedCount(reqs, key, s, n) == n
  {
    if n > 0 { AllCounted(reqs, key, s, n - 1); }
  }

  /** The bound is attained: for every m some run with at most m requests on a timestamp serves m * limit in one window. */
  lemma SharedTimestampsTight(key: Key, m: nat)
    ensures var reqs := Staircase(key, Limit(key), m);
            InOrder(reqs) && Shared(reqs, key, m) && ServedCount(reqs, key, 0.0, |reqs|) == m * Limit(key)
  {
    var k := Limit(key);
    var reqs := Staircase(key, k, m);
    StaircaseShape(key, k, m);
    FewTicks(k);
    forall t ensures Multiplicity(reqs, key, t) <= m { StaircaseShared(key, k, m, t); }
    forall i | 0 <= i < |reqs| ensures ServedIn(reqs, i, key, 0.0) { FewTimestampsServed(reqs, Ticks(k), i); }
    AllCounted(reqs, key, 0.0, |reqs|);
  }

  /**
   * When the limit holds: over all runs in which at most m requests of the key share a timestamp, every
   * window stays within `limit` if and only if m is at most one.
   */
  lemma LimitHoldsIff(key: Key, m: nat)
    ensures (forall reqs, s :: InOrder(reqs) && Shared(reqs, key, m) ==>
               ServedCount(reqs, key, s, |reqs|) <= Limit(key))
       <==> m <= 1
  {
    if m <= 1 {
      forall reqs, s | InOrder(reqs) && Shared(reqs, key, m)
        ensures ServedCount(reqs, key, s, |reqs|) <= Limit(key)
      {
        SharedTimestampsBound(reqs, key, s, m);
        MulMonotone(Limit(key), m, 1);
      }
    } else {
      SharedTimestampsTight(key, m);
      MulMonotone(Limit(key), 2, m);
      var reqs := Staircase(key, Limit(key), m);
      assert ServedCount(reqs, key, 0.0, |reqs|) > Limit(key);
    }
  }
}
