/** The fixed-window middleware: one counter per client and window in the shared store,
    incremented once per request, given the window's length as expiry when created, and
    compared against the capacity. */
module FixedWindow {
  import opened Wrappers
  import opened Admission
  import opened Numeric
  import opened Text
  import Redis

  /** Constructor options; a missing option takes its default. */
  datatype Options = Options(capacity: Option<int>, windowMs: Option<int>)

  datatype Config = Config(capacity: int, windowMs: int)

  const DefaultCapacity: int := 3
  const DefaultWindowMs: int := 60 * 1000

  function MakeConfig(opts: Options): (c: Config)
    ensures opts.capacity.Some? ==> c.capacity == opts.capacity.value
    ensures opts.capacity.None? ==> c.capacity == DefaultCapacity
    ensures opts.windowMs.Some? ==> c.windowMs == opts.windowMs.value
    ensures opts.windowMs.None? ==> c.windowMs == DefaultWindowMs
  {
    Config(opts.capacity.GetOr(DefaultCapacity), opts.windowMs.GetOr(DefaultWindowMs))
  }

  /** The configuration of a limiter built without options. */
  function DefaultConfig(): (c: Config)
    ensures c == Config(3, 60000)
  {
    MakeConfig(Options(None, None))
  }

  type Store = Redis.Store<int>
  type Command = Redis.Command<int>

  /** `Math.floor(now / windowMs)`: the number of the window `now` falls in. */
  function WindowIndex(now: int, windowMs: int): (w: int)
    requires windowMs > 0
    ensures w == now / windowMs
    ensures w * windowMs <= now < w * windowMs + windowMs
  {
    FloorOfQuotient(now, windowMs);
    Floor(now as real / windowMs as real)
  }

  const KeyPrefix: string := "fixed-window:"

  /** The counter key of one client in one window. Client and window number can be
      read back from it. */
  function WindowKey(userId: string, window: int): (k: string)
    ensures var n := |KeyPrefix| + |userId|;
      && |k| >= n + 2 && k[..|KeyPrefix|] == KeyPrefix
      && k[|KeyPrefix|..n] == userId && k[n] == ':'
      && IsNumeral(k[n + 1..]) && IntValue(k[n + 1..]) == window
      && k[n + 1..] == IntToString(window)
  {
    var head := KeyPrefix + userId;
    var k := head + ":" + IntToString(window);
    assert k[..|head|] == head;
    assert k[..|KeyPrefix|] == head[..|KeyPrefix|];
    assert head[..|KeyPrefix|] == KeyPrefix && head[|KeyPrefix|..] == userId;
    assert k[|head| + 1..] == IntToString(window);
    k
  }

  /** Counter keys name exactly one client and one window. */
  lemma WindowKeyInjective(u1: string, w1: int, u2: string, w2: int)
    ensures WindowKey(u1, w1) == WindowKey(u2, w2) <==> u1 == u2 && w1 == w2
  {
    if WindowKey(u1, w1) == WindowKey(u2, w2) {
      SplitAtLastColon(KeyPrefix + u1, IntToString(w1), KeyPrefix + u2, IntToString(w2));
      IntToStringInjective(w1, w2);
      assert u1 == (KeyPrefix + u1)[|KeyPrefix|..] == (KeyPrefix + u2)[|KeyPrefix|..] == u2;
    }
  }

  /** The key of the client's counter for the window containing `now`: it names the
      client and the number of that window. */
  function StoreKey(cfg: Config, userId: string, now: int): (k: string)
    requires cfg.windowMs > 0
    ensures var n := |KeyPrefix| + |userId|;
      && |k| >= n + 2 && k[..|KeyPrefix|] == KeyPrefix
      && k[|KeyPrefix|..n] == userId && k[n] == ':'
      && IsNumeral(k[n + 1..]) && IntValue(k[n + 1..]) == WindowIndex(now, cfg.windowMs)
      && k[n + 1..] == IntToString(WindowIndex(now, cfg.windowMs))
  {
    WindowKey(userId, WindowIndex(now, cfg.windowMs))
  }

  /** A client's requests share a counter exactly when they fall in the same window. */
  lemma SameKeyIffSameWindow(cfg: Config, u: string, t1: int, t2: int)
    requires cfg.windowMs > 0
    ensures StoreKey(cfg, u, t1) == StoreKey(cfg, u, t2) <==>
      WindowIndex(t1, cfg.windowMs) == WindowIndex(t2, cfg.windowMs)
  {
    WindowKeyInjective(u, WindowIndex(t1, cfg.windowMs), u, WindowIndex(t2, cfg.windowMs));
  }

  /** Two instants that share a counter are less than one window apart; in particular
      a request one full window later always starts a new counter. */
  lemma SharedKeyWithinOneWindow(cfg: Config, u: string, t1: int, t2: int)
    requires cfg.windowMs > 0
    requires StoreKey(cfg, u, t1) == StoreKey(cfg, u, t2)
    ensures t1 - cfg.windowMs < t2 < t1 + cfg.windowMs
  {
    SameKeyIffSameWindow(cfg, u, t1, t2);
  }

  /** The first instant of the next window gets a different counter. */
  lemma NextWindowNewKey(cfg: Config, u: string, t: int)
    requires cfg.windowMs > 0
    ensures var next := (WindowIndex(t, cfg.windowMs) + 1) * cfg.windowMs;
      && WindowIndex(next, cfg.windowMs) == WindowIndex(t, cfg.windowMs) + 1
      && StoreKey(cfg, u, next) != StoreKey(cfg, u, t)
  {
    var w := WindowIndex(t, cfg.windowMs);
    var next := (w + 1) * cfg.windowMs;
    WindowOfMultiple(w + 1, cfg.windowMs);
    SameKeyIffSameWindow(cfg, u, t, next);
  }

  /** The window starting at `k * windowMs` is window number `k`. */
  lemma WindowOfMultiple(k: int, windowMs: int)
    requires windowMs > 0
    ensures WindowIndex(k * windowMs, windowMs) == k
  {
    var w := WindowIndex(k * windowMs, windowMs);
    if w < k {
      MulMonotone(w + 1, k, windowMs);
    }
    if w > k {
      MulMonotone(k + 1, w, windowMs);
    }
  }

  /** Multiplying by a positive factor keeps the order. */
  lemma MulMonotone(a: int, b: int, d: int)
    requires a <= b && d > 0
    ensures a * d <= b * d
  {
    assert b * d - a * d == (b - a) * d;
  }

  /** Different clients never share a counter, in any windows. */
  lemma ClientsNeverShareKey(cfg: Config, u1: string, u2: string, t1: int, t2: int)
    requires cfg.windowMs > 0 && u1 != u2
    ensures StoreKey(cfg, u1, t1) != StoreKey(cfg, u2, t2)
  {
    WindowKeyInjective(u1, WindowIndex(t1, cfg.windowMs), u2, WindowIndex(t2, cfg.windowMs));
  }

  /** The three rate-limit response headers. */
  datatype Headers = Headers(limit: int, remaining: int, reset: int)

  /** Headers for the request that brought the counter to `count`: the requests left in
      the window (never negative) and the window's full length in whole seconds,
      whatever the count. */
  function HeadersFor(cfg: Config, count: int): (h: Headers)
    ensures h.limit == cfg.capacity
    ensures 0 <= h.remaining
    ensures count <= cfg.capacity ==> h.remaining == cfg.capacity - count
    ensures count >= cfg.capacity ==> h.remaining == 0
    ensures cfg.windowMs as real / 1000.0 <= h.reset as real < cfg.windowMs as real / 1000.0 + 1.0
  {
    var left := cfg.capacity - count;
    Headers(cfg.capacity, if left > 0 then left else 0, Ceil(cfg.windowMs as real / 1000.0))
  }

  /** The remaining count lies between zero and the capacity for any count a counter
      can reach. */
  lemma RemainingInRange(cfg: Config, count: int)
    requires cfg.capacity >= 0 && count >= 1
    ensures 0 <= HeadersFor(cfg, count).remaining <= cfg.capacity
    ensures HeadersFor(cfg, count).remaining == cfg.capacity <==> cfg.capacity == 0
  {
  }

  datatype Response = Response(outcome: Outcome, headers: Option<Headers>)

  /** Everything one request produces: the response, the store after it, and the store
      commands it issued, in order. */
  datatype Handled = Handled(response: Response, store: Store, calls: seq<Command>)

  /** The counter currently stored at `key`, a missing key counting as 0. */
  function CountAt(store: Store, key: string): int {
    if key in store then store[key].value else 0
  }

  /** The middleware on one request at time `now`. `fault` names the store call of this
      request that throws (0: INCR, 1: PEXPIRE), if any. Headers are set only after the
      expiry, so a failing store call leaves them unset. */
  function Handle(
      cfg: Config, store: Store, req: Request, now: int, fault: Option<nat>): (r: Handled)
    requires cfg.windowMs > 0
    ensures r.calls == [] <==> UserId(req).None?
    ensures UserId(req).None? ==>
      r.response == Response(Reject(BadRequest), None) && r.store == store
    ensures r.response.outcome == Reject(BadRequest) ==> UserId(req).None?
    ensures UserId(req).Some? ==>
      var key := StoreKey(cfg, UserId(req).value, now);
      r.calls[0] == Redis.Incr(key) && Redis.AgreeExcept(store, r.store, key)
    ensures r.response.outcome == Reject(ServerError) <==> fault.Some? && fault.value < |r.calls|
    ensures r.response.outcome == Reject(ServerError) ==> r.response.headers.None?
    ensures r.response.outcome == Continue
         || r.response.outcome.status in {BadRequest, TooManyRequests, ServerError}
  {
    match UserId(req)
    case None => Handled(Response(Reject(BadRequest), None), store, [])
    case Some(userId) => Increment(cfg, store, StoreKey(cfg, userId, now), fault)
  }

  /** A request from an identified client, from its INCR on `key` onwards. */
  function Increment(cfg: Config, store: Store, key: string, fault: Option<nat>): (r: Handled)
    ensures r.calls != [] && r.calls[0] == Redis.Incr(key) && Redis.AgreeExcept(store, r.store, key)
    ensures r.response.outcome == Reject(ServerError) <==> fault.Some? && fault.value < |r.calls|
    ensures r.response.outcome == Reject(ServerError) ==> r.response.headers.None?
    ensures r.response.outcome == Continue
         || r.response.outcome.status in {TooManyRequests, ServerError}
  {
    if Fails(fault, 0) then
      Handled(Response(Reject(ServerError), None), store, [Redis.Incr(key)])
    else
      var (count, counted) := Redis.Increment(store, key);
      var r := Counted(cfg, key, count, counted, fault);
      Redis.AgreeExceptTransitive(store, counted, r.store, key);
      r
  }

  /** The rest of a request once its INCR on `key` returned `count`: the expiry call for a
      new counter, then headers and decision. */
  function Counted(
      cfg: Config, key: string, count: int, counted: Store, fault: Option<nat>): (r: Handled)
    requires key in counted && counted[key].value == count
    ensures r.calls
         == [Redis.Incr(key)] + (if count == 1 then [Redis.PExpire(key, cfg.windowMs)] else [])
    ensures Redis.AgreeExcept(counted, r.store, key)
    ensures r.response.outcome == Reject(ServerError) <==> count == 1 && Fails(fault, 1)
    ensures r.response.outcome == Reject(ServerError) ==> r.response.headers.None?
    ensures r.response.outcome == Continue
         || r.response.outcome.status in {TooManyRequests, ServerError}
  {
    var expiry := if count == 1 then [Redis.PExpire(key, cfg.windowMs)] else [];
    var calls := [Redis.Incr(key)] + expiry;
    if count == 1 && Fails(fault, 1) then
      Handled(Response(Reject(ServerError), None), counted, calls)
    else
      var expired := if count == 1 then Redis.Expire(counted, key, cfg.windowMs) else counted;
      var outcome := if count <= cfg.capacity then Continue else Reject(TooManyRequests);
      Handled(Response(outcome, Some(HeadersFor(cfg, count))), expired, calls)
  }

  /** When none of the store calls it issues fails, the request sees the previous
      count plus one, is admitted exactly when that count is within capacity, requests
      the window's expiry exactly when it created the counter, and keeps any expiry set
      before. */
  lemma HandleCounts(cfg: Config, store: Store, req: Request, now: int, fault: Option<nat>)
    requires cfg.windowMs > 0 && UserId(req).Some?
    requires !Fails(fault, 0)
    requires Fails(fault, 1) ==> CountAt(store, StoreKey(cfg, UserId(req).value, now)) != 0
    ensures var key := StoreKey(cfg, UserId(req).value, now);
      var count := CountAt(store, key) + 1;
      var r := Handle(cfg, store, req, now, fault);
      && key in r.store && r.store[key].value == count
      && (r.response.outcome == Continue <==> count <= cfg.capacity)
      && (r.response.outcome != Continue ==> r.response.outcome == Reject(TooManyRequests))
      && r.response.headers == Some(HeadersFor(cfg, count))
      && r.calls
         == [Redis.Incr(key)] + (if count == 1 then [Redis.PExpire(key, cfg.windowMs)] else [])
      && r.store[key].ttl == (if count == 1 then Some(cfg.windowMs) else store[key].ttl)
  {
  }

  /** When the INCR throws, nothing changes; when the expiry call of a new counter
      throws, the counter stays at 1 with its expiry as before (none for a new key).
      Either way the answer is 500, sent before any header is set. */
  lemma HandleStoreFails(cfg: Config, store: Store, req: Request, now: int, fault: Option<nat>)
    requires cfg.windowMs > 0 && UserId(req).Some?
    requires Fails(fault, 0)
          || (Fails(fault, 1) && CountAt(store, StoreKey(cfg, UserId(req).value, now)) == 0)
    ensures var key := StoreKey(cfg, UserId(req).value, now);
      var r := Handle(cfg, store, req, now, fault);
      && r.response == Response(Reject(ServerError), None)
      && (Fails(fault, 0) ==> r.calls == [Redis.Incr(key)] && r.store == store)
      && (Fails(fault, 1) ==>
            && r.calls == [Redis.Incr(key), Redis.PExpire(key, cfg.windowMs)]
            && key in r.store && r.store[key].value == 1
            && r.store[key].ttl == (if key in store then store[key].ttl else None))
  {
    var key := StoreKey(cfg, UserId(req).value, now);
    assert Handle(cfg, store, req, now, fault) == Increment(cfg, store, key, fault);
    if Fails(fault, 1) {
      var (count, counted) := Redis.Increment(store, key);
      assert count == 1;
      assert Increment(cfg, store, key, fault) == Counted(cfg, key, count, counted, fault);
    }
  }

  /** Every counter in the store holds a non-negative count. */
  ghost predicate CountsNonNegative(store: Store) {
    forall k :: k in store ==> store[k].value >= 0
  }

  /** Serving a request keeps all counters non-negative. */
  lemma HandleKeepsCountsNonNegative(
      cfg: Config, store: Store, req: Request, now: int, fault: Option<nat>)
    requires cfg.windowMs > 0 && CountsNonNegative(store)
    ensures CountsNonNegative(Handle(cfg, store, req, now, fault).store)
  {
  }

  /** The counter written by a request that got past its INCR is the previous count
      plus one, even when the expiry call that follows fails. */
  lemma HandleCountsUpToExpiry(
      cfg: Config, store: Store, req: Request, now: int, fault: Option<nat>)
    requires cfg.windowMs > 0 && UserId(req).Some? && !Fails(fault, 0)
    ensures var key := StoreKey(cfg, UserId(req).value, now);
      var r := Handle(cfg, store, req, now, fault);
      key in r.store && r.store[key].value == CountAt(store, key) + 1
  {
  }

  /** With a capacity of zero or less, no request is ever admitted while counters are
      non-negative: the first request of a window already counts 1. */
  lemma NonPositiveCapacityDeniesAll(
      cfg: Config, store: Store, req: Request, now: int, fault: Option<nat>)
    requires cfg.windowMs > 0 && cfg.capacity <= 0 && CountsNonNegative(store)
    ensures Handle(cfg, store, req, now, fault).response.outcome != Continue
  {
  }

  /** Every counter in the store carries the window's length as its expiry. */
  ghost predicate CountersExpire(store: Store, windowMs: int) {
    forall k :: k in store ==> store[k].ttl == Some(windowMs)
  }

  /** Unless the expiry call itself fails, serving a request keeps every counter
      under the window's expiry, so no counter outlives its window by more than one
      window length. */
  lemma HandleKeepsCountersExpiring(
      cfg: Config, store: Store, req: Request, now: int, fault: Option<nat>)
    requires cfg.windowMs > 0 && CountersExpire(store, cfg.windowMs) && !Fails(fault, 1)
    ensures CountersExpire(Handle(cfg, store, req, now, fault).store, cfg.windowMs)
  {
  }

  /** When the expiry call of a window's first request fails, the counter is left
      without any expiry, and the next request of that window does not set one:
      only the first request ever asks for it. */
  lemma FailedExpiryIsNeverRetried(cfg: Config, store: Store, req: Request, now: int)
    requires cfg.windowMs > 0 && UserId(req).Some?
    requires StoreKey(cfg, UserId(req).value, now) !in store
    ensures var key := StoreKey(cfg, UserId(req).value, now);
      var r1 := Handle(cfg, store, req, now, Some(1));
      var r2 := Handle(cfg, r1.store, req, now, None);
      && r1.response.outcome == Reject(ServerError)
      && key in r1.store && r1.store[key].ttl.None?
      && r2.calls == [Redis.Incr(key)]
      && key in r2.store && r2.store[key].ttl.None?
  {
  }

  /** Outcomes and final store of the same client's requests at `times`, with no store
      failures. */
  datatype Replayed = Replayed(outcomes: seq<Outcome>, store: Store)

  function Replay(cfg: Config, store: Store, req: Request, times: seq<int>): (r: Replayed)
    requires cfg.windowMs > 0
    ensures |r.outcomes| == |times|
    decreases |times|
  {
    if |times| == 0 then Replayed([], store)
    else
      var h := Handle(cfg, store, req, times[0], None);
      var rest := Replay(cfg, h.store, req, times[1..]);
      Replayed([h.response.outcome] + rest.outcomes, rest.store)
  }

  /** Every instant of `times` falls in window `w`. */
  predicate InWindow(cfg: Config, times: seq<int>, w: int)
    requires cfg.windowMs > 0
  {
    forall i :: 0 <= i < |times| ==> WindowIndex(times[i], cfg.windowMs) == w
  }

  /** Within one window, the request at position `i` sees the count the window had before
      plus `i + 1`, and is admitted exactly when that count is within capacity. */
  lemma {:induction false} ReplayInWindow(
      cfg: Config, store: Store, req: Request, times: seq<int>, w: int)
    requires cfg.windowMs > 0 && UserId(req).Some? && InWindow(cfg, times, w)
    ensures var key := WindowKey(UserId(req).value, w);
      var r := Replay(cfg, store, req, times);
      && CountAt(r.store, key) == CountAt(store, key) + |times|
      && forall i :: 0 <= i < |times| ==>
           r.outcomes[i] == (if CountAt(store, key) + i + 1 <= cfg.capacity
                             then Continue else Reject(TooManyRequests))
    decreases |times|
  {
    if |times| > 0 {
      var key := WindowKey(UserId(req).value, w);
      var h := Handle(cfg, store, req, times[0], None);
      ReplayStep(cfg, store, req, times, w);
      assert InWindow(cfg, times[1..], w);
      ReplayInWindow(cfg, h.store, req, times[1..], w);
      var r := Replay(cfg, store, req, times);
      var rest := Replay(cfg, h.store, req, times[1..]);
      forall i | 0 <= i < |times|
        ensures r.outcomes[i] == (if CountAt(store, key) + i + 1 <= cfg.capacity
                                  then Continue else Reject(TooManyRequests))
      {
        if i > 0 {
          assert r.outcomes[i] == rest.outcomes[i - 1];
        }
      }
    }
  }

  /** One request without store failures at an instant of window `w` adds one to that
      window's counter and is admitted exactly when the new count is within capacity. */
  lemma CountInWindow(cfg: Config, store: Store, req: Request, now: int, w: int)
    requires cfg.windowMs > 0 && UserId(req).Some? && WindowIndex(now, cfg.windowMs) == w
    ensures var key := WindowKey(UserId(req).value, w);
      var count := CountAt(store, key) + 1;
      var h := Handle(cfg, store, req, now, None);
      && CountAt(h.store, key) == count
      && h.response.outcome == (if count <= cfg.capacity then Continue else Reject(TooManyRequests))
  {
    HandleCounts(cfg, store, req, now, None);
  }

  /** The first request of a replay in window `w` counts one more on that window's counter,
      and the rest of the replay continues from the store it leaves. */
  lemma ReplayStep(cfg: Config, store: Store, req: Request, times: seq<int>, w: int)
    requires cfg.windowMs > 0 && UserId(req).Some? && |times| > 0
    requires WindowIndex(times[0], cfg.windowMs) == w
    ensures var key := WindowKey(UserId(req).value, w);
      var count := CountAt(store, key) + 1;
      var h := Handle(cfg, store, req, times[0], None);
      var rest := Replay(cfg, h.store, req, times[1..]);
      var r := Replay(cfg, store, req, times);
      && CountAt(h.store, key) == count
      && r.store == rest.store
      && r.outcomes
         == [if count <= cfg.capacity then Continue else Reject(TooManyRequests)] + rest.outcomes
  {
    CountInWindow(cfg, store, req, times[0], w);
  }

  /** In a window no request has touched yet, the Nth request (at position N - 1) is
      admitted exactly when N is at most the capacity, so request number capacity + 1 is
      the first refused. */
  lemma {:induction false} NthRequestAdmittedIffWithinCapacity(
      cfg: Config, store: Store, req: Request, times: seq<int>, w: int)
    requires cfg.windowMs > 0 && UserId(req).Some? && InWindow(cfg, times, w)
    requires WindowKey(UserId(req).value, w) !in store
    ensures forall i :: 0 <= i < |times| ==>
      (Replay(cfg, store, req, times).outcomes[i] == Continue <==> i + 1 <= cfg.capacity)
  {
    ReplayInWindow(cfg, store, req, times, w);
  }

  /** With a capacity of 3, four requests in a fresh window give three admissions and
      one refusal. */
  lemma ThreeThenRefused(cfg: Config, store: Store, req: Request, times: seq<int>, w: int)
    requires cfg.windowMs > 0 && cfg.capacity == 3 && UserId(req).Some?
    requires |times| == 4 && InWindow(cfg, times, w) && WindowKey(UserId(req).value, w) !in store
    ensures Replay(cfg, store, req, times).outcomes
         == [Continue, Continue, Continue, Reject(TooManyRequests)]
  {
    var key := WindowKey(UserId(req).value, w);
    var r := Replay(cfg, store, req, times);
    ReplayInWindow(cfg, store, req, times, w);
    assert CountAt(store, key) == 0;
    FourDecisions(r.outcomes);
  }

  /** Four decisions of a window that starts empty with room for three requests. */
  lemma FourDecisions(outcomes: seq<Outcome>)
    requires |outcomes| == 4
    requires forall i :: 0 <= i < |outcomes| ==>
      outcomes[i] == (if i + 1 <= 3 then Continue else Reject(TooManyRequests))
    ensures outcomes == [Continue, Continue, Continue, Reject(TooManyRequests)]
  {
    assert outcomes[0] == Continue && outcomes[1] == Continue && outcomes[2] == Continue;
    assert outcomes[3] == Reject(TooManyRequests);
  }

  /** With the default settings, three requests in one window are admitted and the
      fourth is refused. */
  lemma DefaultClientScenario(store: Store, req: Request, t: int)
    requires UserId(req).Some?
    requires WindowKey(UserId(req).value, WindowIndex(t, DefaultConfig().windowMs)) !in store
    ensures Replay(DefaultConfig(), store, req, [t, t, t, t]).outcomes
         == [Continue, Continue, Continue, Reject(TooManyRequests)]
  {
    var cfg := DefaultConfig();
    var w := WindowIndex(t, cfg.windowMs);
    FourAtOnceInWindow(cfg, t);
    ThreeThenRefused(cfg, store, req, [t, t, t, t], w);
  }

  /** Four requests made at one instant all fall in that instant's window. */
  lemma FourAtOnceInWindow(cfg: Config, t: int)
    requires cfg.windowMs > 0
    ensures InWindow(cfg, [t, t, t, t], WindowIndex(t, cfg.windowMs))
  {
  }
}
