/** The token-bucket middleware: one bucket record per client in the shared store,
    loaded, refilled and charged, saved back with an idle expiry, and the decision
    turned into rate-limit headers and an outcome. */
module RateLimiter {
  import opened Wrappers
  import opened Admission
  import opened Numeric
  import opened TokenBucket
  import Redis

  /** Constructor options; a missing option takes its default. */
  datatype Options = Options(capacity: Option<real>, refillRate: Option<real>, ttlMs: Option<int>)

  datatype Config = Config(capacity: real, refillRate: real, ttlMs: int)

  const DefaultCapacity: real := 3.0
  const DefaultRefillRate: real := 1.0
  const DefaultTtlMs: int := 60 * 1000

  function MakeConfig(opts: Options): (c: Config)
    ensures opts.capacity.Some? ==> c.capacity == opts.capacity.value
    ensures opts.capacity.None? ==> c.capacity == DefaultCapacity
    ensures opts.refillRate.Some? ==> c.refillRate == opts.refillRate.value
    ensures opts.refillRate.None? ==> c.refillRate == DefaultRefillRate
    ensures opts.ttlMs.Some? ==> c.ttlMs == opts.ttlMs.value
    ensures opts.ttlMs.None? ==> c.ttlMs == DefaultTtlMs
  {
    Config(opts.capacity.GetOr(DefaultCapacity), opts.refillRate.GetOr(DefaultRefillRate),
           opts.ttlMs.GetOr(DefaultTtlMs))
  }

  /** The configuration of a limiter built without options. */
  function DefaultConfig(): (c: Config)
    ensures c == Config(3.0, 1.0, 60000)
  {
    MakeConfig(Options(None, None, None))
  }

  /** The persisted hash: the four fields written on every save. */
  datatype Record = Record(tokens: real, capacity: real, refillRate: real, lastRefill: int)

  type Store = Redis.Store<Record>
  type Command = Redis.Command<Record>

  const KeyPrefix: string := "rate-limit:"

  /** The client's store key. It does not depend on time, and the client can be read
      back from it. */
  function StoreKey(userId: string): (k: string)
    ensures |k| == |KeyPrefix| + |userId|
    ensures k[..|KeyPrefix|] == KeyPrefix && k[|KeyPrefix|..] == userId
  {
    KeyPrefix + userId
  }

  /** Different clients never share a bucket. */
  lemma StoreKeyInjective(u1: string, u2: string)
    ensures StoreKey(u1) == StoreKey(u2) <==> u1 == u2
  {
  }

  /** Reads the client's bucket: a full new bucket when nothing is stored, otherwise the
      stored tokens and refill time. Capacity and refill rate always come from the
      configuration, never from the record. */
  function Load(cfg: Config, store: Store, userId: string, now: int): (b: Bucket)
    ensures b.capacity == cfg.capacity && b.refillRate == cfg.refillRate
    ensures StoreKey(userId) !in store ==> b.tokens == cfg.capacity && b.lastRefill == now
    ensures StoreKey(userId) in store ==>
      var rec := store[StoreKey(userId)].value;
      b.tokens == rec.tokens && b.lastRefill == rec.lastRefill
  {
    match Redis.Get(store, StoreKey(userId))
    case None => New(cfg.capacity, cfg.refillRate, now)
    case Some(rec) => Bucket(cfg.capacity, rec.tokens, cfg.refillRate, rec.lastRefill)
  }

  /** The hash written for a bucket. It loses nothing: the bucket can be rebuilt from it. */
  function ToRecord(b: Bucket): (r: Record)
    ensures Bucket(r.capacity, r.tokens, r.refillRate, r.lastRefill) == b
  {
    Record(b.tokens, b.capacity, b.refillRate, b.lastRefill)
  }

  /** Writes the bucket under the client's key and refreshes its idle expiry; no other
      key is touched. */
  function Save(cfg: Config, store: Store, userId: string, b: Bucket): (s: Store)
    ensures Redis.AgreeExcept(store, s, StoreKey(userId))
    ensures cfg.ttlMs > 0 ==>
      StoreKey(userId) in s && s[StoreKey(userId)] == Redis.Entry(ToRecord(b), Some(cfg.ttlMs))
    ensures cfg.ttlMs <= 0 ==> StoreKey(userId) !in s
  {
    var key := StoreKey(userId);
    Redis.Expire(Redis.Put(store, key, ToRecord(b)), key, cfg.ttlMs)
  }

  /** Saving and loading again gives back the saved tokens and refill time, under the
      configured capacity and rate. */
  lemma SaveLoadRoundTrip(cfg: Config, store: Store, userId: string, b: Bucket, now: int)
    requires cfg.ttlMs > 0
    ensures Load(cfg, Save(cfg, store, userId, b), userId, now)
         == b.(capacity := cfg.capacity, refillRate := cfg.refillRate)
  {
  }

  /** Loading with nothing stored yields a full bucket. */
  lemma LoadAbsentIsFull(cfg: Config, store: Store, userId: string, now: int)
    requires StoreKey(userId) !in store
    ensures Load(cfg, store, userId, now) == New(cfg.capacity, cfg.refillRate, now)
  {
  }

  /** Saving for one client leaves what every other client loads unchanged. */
  lemma SaveIsolatesClients(cfg: Config, store: Store, u: string, v: string, b: Bucket, now: int)
    requires u != v
    ensures Load(cfg, Save(cfg, store, u, b), v, now) == Load(cfg, store, v, now)
  {
  }

  /** The three rate-limit response headers. `reset` is `None` where the source computes
      a non-finite number (a zero refill rate). */
  datatype Headers = Headers(limit: real, remaining: int, reset: Option<int>)

  /** Headers reported for the bucket after the decision: the whole tokens left, and the
      seconds until the bucket would be full again. */
  function HeadersFor(b: Bucket): (h: Headers)
    ensures h.limit == b.capacity
    ensures h.remaining as real <= b.tokens < h.remaining as real + 1.0
    ensures h.reset.Some? <==> b.refillRate != 0.0
    ensures h.reset.Some? ==>
      var wait := (b.capacity - b.tokens) / b.refillRate;
      wait <= h.reset.value as real < wait + 1.0
  {
    Headers(b.capacity, Floor(b.tokens),
            if b.refillRate == 0.0 then None
            else Some(Ceil((b.capacity - b.tokens) / b.refillRate)))
  }

  /** For a valid bucket the headers are in range: no more whole tokens than the
      capacity, and a reset that is never negative and is zero exactly when full. */
  lemma HeadersInRange(b: Bucket)
    requires Valid(b)
    ensures 0 <= HeadersFor(b).remaining && HeadersFor(b).remaining as real <= b.capacity
    ensures b.refillRate > 0.0 ==> HeadersFor(b).reset.value >= 0
    ensures b.refillRate > 0.0 ==> (HeadersFor(b).reset.value == 0 <==> b.tokens == b.capacity)
  {
  }

  datatype Response = Response(outcome: Outcome, headers: Option<Headers>)

  /** Everything one request produces: the response, the store after it, and the store
      commands it issued, in order. */
  datatype Handled = Handled(response: Response, store: Store, calls: seq<Command>)

  /** A store fault that leaves this request's first `n` store calls untouched. */
  predicate Spares(fault: Option<nat>, n: nat) {
    fault.None? || fault.value >= n
  }

  /** The middleware on one request at time `now`. `fault` names the store call of this
      request that throws (0: HGETALL, 1: HMSET, 2: PEXPIRE), if any. Headers are set
      before the save, so a failing save still carries them. */
  function Handle(
      cfg: Config, store: Store, req: Request, now: int, fault: Option<nat>): (r: Handled)
    ensures r.calls == [] <==> UserId(req).None?
    ensures UserId(req).None? ==>
      r.response == Response(Reject(BadRequest), None) && r.store == store
    ensures r.response.outcome == Reject(BadRequest) ==> UserId(req).None?
    ensures UserId(req).Some? ==>
      var key := StoreKey(UserId(req).value);
      && r.calls[0] == Redis.HGetAll(key) && Redis.AgreeExcept(store, r.store, key)
      && |r.calls| == (if fault.Some? && fault.value < 3 then fault.value + 1 else 3)
    ensures r.response.outcome == Reject(ServerError) <==> fault.Some? && fault.value < |r.calls|
    ensures r.response.outcome == Continue
         || r.response.outcome.status in {BadRequest, TooManyRequests, ServerError}
  {
    match UserId(req)
    case None => Handled(Response(Reject(BadRequest), None), store, [])
    case Some(userId) =>
      var key := StoreKey(userId);
      if Fails(fault, 0) then
        Handled(Response(Reject(ServerError), None), store, [Redis.HGetAll(key)])
      else
        var step := TryRemoveToken(Load(cfg, store, userId, now), now);
        var headers := Some(HeadersFor(step.bucket));
        var rec := ToRecord(step.bucket);
        var calls := Commands(cfg, key, rec);
        if Fails(fault, 1) then
          Handled(Response(Reject(ServerError), headers), store, calls[..2])
        else if Fails(fault, 2) then
          Handled(Response(Reject(ServerError), headers), Redis.Put(store, key, rec), calls)
        else
          var saved := Save(cfg, store, userId, step.bucket);
          Handled(Response(Verdict(step.allowed), headers), saved, calls)
  }

  /** The store commands of a request that gets through: read the bucket, write it
      back, refresh its idle expiry. */
  function Commands(cfg: Config, key: string, rec: Record): seq<Command> {
    [Redis.HGetAll(key), Redis.HMSet(key, rec), Redis.PExpire(key, cfg.ttlMs)]
  }

  /** When the store call with index `k` throws, the request answers 500 after issuing
      exactly the first `k + 1` commands. A failed read leaves no headers and no
      change. A failed HMSET leaves the store as it was. A failed PEXPIRE leaves the new
      record written, with its expiry not refreshed. Once the bucket is read, the
      headers of the charged bucket are already set, so the 500 carries them. */
  lemma HandleStoreFails(cfg: Config, store: Store, req: Request, now: int, fault: Option<nat>)
    requires UserId(req).Some? && fault.Some? && fault.value < 3
    ensures var u := UserId(req).value;
      var key := StoreKey(u);
      var step := TryRemoveToken(Load(cfg, store, u, now), now);
      var r := Handle(cfg, store, req, now, fault);
      && r.response.outcome == Reject(ServerError)
      && r.calls == Commands(cfg, key, ToRecord(step.bucket))[..fault.value + 1]
      && r.response.headers == (if fault.value == 0 then None else Some(HeadersFor(step.bucket)))
      && r.store
         == (if fault.value < 2 then store else Redis.Put(store, key, ToRecord(step.bucket)))
  {
  }

  /** The outcome that reports an admission decision. */
  function Verdict(allowed: bool): (o: Outcome)
    ensures o == Continue <==> allowed
    ensures o != Continue ==> o == Reject(TooManyRequests)
  {
    if allowed then Continue else Reject(TooManyRequests)
  }

  /** When the store does not fail, the request is decided by the loaded bucket: the
      outcome is the limiter's decision, the headers describe the charged bucket, and the
      charged bucket is saved. */
  lemma HandleDecides(cfg: Config, store: Store, req: Request, now: int, fault: Option<nat>)
    requires UserId(req).Some? && Spares(fault, 3)
    ensures var u := UserId(req).value;
      var step := TryRemoveToken(Load(cfg, store, u, now), now);
      var r := Handle(cfg, store, req, now, fault);
      && r.response == Response(Verdict(step.allowed), Some(HeadersFor(step.bucket)))
      && r.store == Save(cfg, store, u, step.bucket)
      && r.calls == Commands(cfg, StoreKey(u), ToRecord(step.bucket))
  {
  }

  /** A store whose record for `u` at `now` loads as a valid bucket refilled no later
      than `now`. */
  predicate LoadsValid(cfg: Config, store: Store, u: string, now: int) {
    var b := Load(cfg, store, u, now);
    Valid(b) && b.lastRefill <= now
  }

  /** A request that finds a valid bucket reports in-range headers and, with a positive
      expiry, leaves a valid bucket behind for any later request. */
  lemma HandleKeepsValid(cfg: Config, store: Store, req: Request, now: int, later: int)
    requires UserId(req).Some? && LoadsValid(cfg, store, UserId(req).value, now)
    requires cfg.ttlMs > 0 && now <= later
    ensures var r := Handle(cfg, store, req, now, None);
      && LoadsValid(cfg, r.store, UserId(req).value, later)
      && 0 <= r.response.headers.value.remaining
      && r.response.headers.value.remaining as real <= cfg.capacity
      && (cfg.refillRate > 0.0 ==> r.response.headers.value.reset.value >= 0)
  {
  }

  /** Outcomes and final store of the same client's requests at `times`, with no store
      failures. */
  datatype Replayed = Replayed(outcomes: seq<Outcome>, store: Store)

  function Replay(cfg: Config, store: Store, req: Request, times: seq<int>): (r: Replayed)
    ensures |r.outcomes| == |times|
    decreases |times|
  {
    if |times| == 0 then Replayed([], store)
    else
      var h := Handle(cfg, store, req, times[0], None);
      var rest := Replay(cfg, h.store, req, times[1..]);
      Replayed([h.response.outcome] + rest.outcomes, rest.store)
  }

  function Verdicts(admitted: seq<bool>): (os: seq<Outcome>)
    ensures |os| == |admitted|
    ensures forall i :: 0 <= i < |admitted| ==> os[i] == Verdict(admitted[i])
  {
    if |admitted| == 0 then [] else [Verdict(admitted[0])] + Verdicts(admitted[1..])
  }

  /** Served one after another through the store, a client's requests are decided exactly
      as the in-memory bucket loaded at the first request would decide them. */
  lemma {:induction false} ReplayMatchesBucket(
      cfg: Config, store: Store, req: Request, times: seq<int>)
    requires UserId(req).Some? && cfg.ttlMs > 0 && |times| > 0
    ensures Replay(cfg, store, req, times).outcomes
         == Verdicts(Run(Load(cfg, store, UserId(req).value, times[0]), times).admitted)
    decreases |times|
  {
    var u := UserId(req).value;
    var b := Load(cfg, store, u, times[0]);
    var step := TryRemoveToken(b, times[0]);
    var h := Handle(cfg, store, req, times[0], None);
    HandleDecides(cfg, store, req, times[0], None);
    var run := Run(b, times);
    if |times| > 1 {
      SaveLoadRoundTrip(cfg, store, u, step.bucket, times[1]);
      assert Load(cfg, h.store, u, times[1..][0]) == step.bucket;
      ReplayMatchesBucket(cfg, h.store, req, times[1..]);
      assert run.admitted == [step.allowed] + Run(step.bucket, times[1..]).admitted;
    }
  }

  /** Through the store and with the default settings, a new client gets three requests
      at one instant, the fourth is refused, and one second later exactly one more
      is admitted. */
  lemma DefaultClientScenario(store: Store, req: Request, t: int)
    requires UserId(req).Some? && StoreKey(UserId(req).value) !in store
    ensures Replay(DefaultConfig(), store, req, [t, t, t, t, t + 1000, t + 1000]).outcomes
         == [Continue, Continue, Continue, Reject(TooManyRequests),
             Continue, Reject(TooManyRequests)]
  {
    var times := [t, t, t, t, t + 1000, t + 1000];
    ReplayMatchesBucket(DefaultConfig(), store, req, times);
    DefaultBurstThenOnePerSecond(t);
  }
}
