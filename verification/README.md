# Rate limiter admission control, modelled in Dafny

A model of the two Redis-backed Express rate limiters of `simple-rate-limiter`:

- **Token bucket** (`tokenbucket.js`): each client owns a bucket of at most `capacity`
  tokens that refills continuously at `refillRate` tokens per second. A request
  refills the bucket, takes one token when a whole token is available, and
  writes the bucket back to the store under `rate-limit:<client>` with an idle
  expiry of `ttlMs`. The response headers report the capacity, the whole tokens
  left, and the seconds until the bucket is full again.
- **Fixed window counter** (`fixedwindow.js`): each client has one counter per
  window under `fixed-window:<client>:<floor(now / windowMs)>`. A request
  increments it, asks for an expiry of `windowMs` when the counter was just
  created, and is admitted while the count is within `capacity`.

Both middlewares identify the client as `x-forwarded-for ?? ip`. They answer 400
when that is missing or empty, and 500 when a store call throws. Otherwise they
continue the pipeline or answer 429.

## How the model is built

- `Date.now()` becomes an explicit `now` argument in epoch milliseconds.
- The store is an immutable `map<string, Entry<V>>` (module `Redis`). An entry
  records the expiry last requested for it. HGETALL, HMSET, INCR and PEXPIRE
  become pure functions. A non-positive PEXPIRE deletes the key, as the store
  does.
- A request returns a `Handled` value with three parts: the response (outcome
  and headers), the store afterwards, and the store commands it issued, in order.
  "No store access" means an empty command list. "Expiry requested" means a
  `PExpire` command in that list.
- A store failure is the argument `fault: Option<nat>`. It names the index of
  this request's store call that throws. Calls after a throwing call are never
  issued.
- Token counts, capacity and refill rate of the token bucket are `real`, an
  idealisation of JavaScript numbers. `Math.floor` is `Numeric.Floor` and
  `Math.ceil` is `Numeric.Ceil`.
- The reset header divides by `refillRate`. With a rate of 0 the source yields
  `Infinity` or `NaN`; the model reports `None` there.

Modules: `Wrappers` (Option), `Numeric` (floor and ceiling), `Text` (decimal
rendering of window numbers), `Redis` (the store), `Admission` (client identity
and outcomes), `TokenBucket` (the in-memory `TokenBucketLimiter`), `RateLimiter`
(the token-bucket middleware), and `FixedWindow` (the fixed-window middleware).

Three behaviours of the source are worth knowing:

- A refill stamped earlier than the last one (tokenbucket.js:11-14) removes
  tokens, so the count can go negative. `TokenBucket.BackwardClockDrains`
  exhibits this. The invariant lemmas therefore require chronological times.
- The token-bucket middleware sets its headers (tokenbucket.js:83-85) before it
  saves (tokenbucket.js:87). A 500 caused by a failed save therefore still
  carries the three headers (`RateLimiter.HandleStoreFails`). The fixed-window
  middleware sets its headers (fixedwindow.js:41-43) after the expiry call, so
  its 500s carry none.
- The expiry is requested only when the count is 1 (fixedwindow.js:37-39). While
  that call succeeds, every counter carries the window's length as its expiry
  (`FixedWindow.HandleKeepsCountersExpiring`). If that one call fails, the
  counter keeps no expiry, because later requests see a count above 1 and never
  ask again (`FixedWindow.FailedExpiryIsNeverRetried`). Admission is unaffected,
  since the next window uses a new key.

## Model

| member | source | states |
|---|---|---|
| Numeric.Floor | tokenbucket.js:84 | the remaining-tokens header is the greatest integer not above the token count |
| Numeric.Ceil | tokenbucket.js:81 | the reset header is the least integer not below the computed wait |
| Numeric.FloorOfQuotient | fixedwindow.js:24 | `Math.floor(now / windowMs)` with a positive window equals integer division |
| Text.NatToString | fixedwindow.js:25 | a natural is rendered as a non-empty decimal numeral without leading zero whose value is that natural |
| Text.IntToString | fixedwindow.js:25 | a window number is rendered as its shortest numeral: its value is that number, it starts with `-` exactly when negative, its digits have no leading zero, and it never contains the key separator `:` |
| Text.IntToStringInjective | fixedwindow.js:25 | different window numbers are rendered differently |
| Text.SplitAtLastColon | fixedwindow.js:25 | a key whose last segment has no colon splits uniquely into client part and window part |
| Redis.Get | tokenbucket.js:50 | HGETALL yields the stored record exactly when the key is present |
| Redis.Put | tokenbucket.js:63-68 | HMSET stores the record under its key, keeps an existing expiry, and changes no other key |
| Redis.Expire | tokenbucket.js:69 | PEXPIRE records the duration on an existing key, deletes it for a non-positive duration, and changes no other key |
| Redis.Increment | fixedwindow.js:35 | INCR returns the previous count plus one (1 for a missing key), stores it, keeps the expiry, and changes no other key |
| Admission.UserId | tokenbucket.js:74-75 | the identity is the forwarded-for header, else the peer address; it is missing exactly when that value is absent or empty, and an empty header does not fall back |
| TokenBucket.New | tokenbucket.js:2-7 | a new limiter is full and stamped with the current time |
| TokenBucket.Gain | tokenbucket.js:11-12 | the earned tokens times 1000 equal the elapsed milliseconds times the rate: zero while time stands still, non-negative going forward at a non-negative rate, negative going backwards at a positive rate |
| TokenBucket.Refill | tokenbucket.js:9-17 | the refilled count is the earned total clamped at capacity: never above capacity and never above the earned total, and it equals one of them; the stamp becomes `now` |
| TokenBucket.RefillKeepsValid | tokenbucket.js:9-17 | refilling forward in time keeps `0 <= tokens <= capacity` and never loses tokens |
| TokenBucket.RefillIdempotent | tokenbucket.js:9-17 | a second refill at the same instant changes nothing |
| TokenBucket.RefillPathIndependent | tokenbucket.js:9-17 | refilling at t1 and then t2 equals refilling once at t2 |
| TokenBucket.BackwardClockDrains | tokenbucket.js:11-14 | a refill stamped earlier than the last one can drive a valid bucket below zero tokens |
| TokenBucket.TryRemoveToken | tokenbucket.js:19-28 | admits exactly when the refilled bucket holds at least one token; then exactly one token is taken, otherwise the refilled bucket is kept |
| TokenBucket.TryRemoveKeepsValid | tokenbucket.js:19-28 | one admission attempt forward in time keeps `0 <= tokens <= capacity` |
| TokenBucket.Run | tokenbucket.js:19-28 | a run of attempts yields one decision per request and keeps capacity and rate |
| TokenBucket.RunKeepsValid | tokenbucket.js:19-28 | any chronological run of attempts keeps `0 <= tokens <= capacity` |
| TokenBucket.DefaultBurstThenOnePerSecond | tokenbucket.js:9-35 | with capacity 3 and rate 1, a fresh bucket admits 3 requests at one instant and denies the 4th; 1000 ms later exactly one more is admitted |
| TokenBucket.FrozenBucketSpendsOnly | tokenbucket.js:9-28 | with rate 0, admissions plus tokens left never exceed the starting tokens, whatever the clock does |
| TokenBucket.FrozenBucketDeniesForever | tokenbucket.js:9-28 | with rate 0, once fewer than one token is left every later request is denied |
| TokenBucket.RunKeepsValidAnyClock | tokenbucket.js:9-28 | with rate 0 the bucket stays within `[0, capacity]` for times in any order |
| TokenBucket.SingleTokenAdmitsAtMostOnce | tokenbucket.js:9-28 | a capacity-1 bucket that never refills admits at most one request in any sequential run |
| RateLimiter.MakeConfig | tokenbucket.js:32-38 | each given option is used; a missing one takes capacity 3, rate 1 or ttl 60000 ms |
| RateLimiter.DefaultConfig | tokenbucket.js:34-36 | a limiter built without options has capacity 3, rate 1 and idle expiry 60000 ms |
| RateLimiter.StoreKey | tokenbucket.js:44-46 | the key is `rate-limit:` followed by the client, does not depend on time, and gives the client back |
| RateLimiter.StoreKeyInjective | tokenbucket.js:44-46 | two clients share a key exactly when they are the same client |
| RateLimiter.ToRecord | tokenbucket.js:63-68 | the saved hash holds all four bucket fields: the bucket can be rebuilt from it |
| RateLimiter.Load | tokenbucket.js:48-59 | capacity and rate come from the configuration; tokens and refill time come from the record if present, otherwise the bucket is full and stamped now |
| RateLimiter.LoadAbsentIsFull | tokenbucket.js:48-59 | loading with nothing stored gives a new, full bucket |
| RateLimiter.Save | tokenbucket.js:61-70 | saving writes the bucket with the configured idle expiry under the client's key (deleted at once if the expiry is not positive) and touches no other key |
| RateLimiter.SaveLoadRoundTrip | tokenbucket.js:48-70 | loading after saving gives back the saved tokens and refill time, under the configured capacity and rate |
| RateLimiter.SaveIsolatesClients | tokenbucket.js:44-70 | saving for one client leaves what every other client loads unchanged |
| RateLimiter.HeadersFor | tokenbucket.js:81-85 | limit is the capacity, remaining is the floor of the tokens, and reset is the ceiling of `(capacity - tokens) / rate`, absent when the rate is 0 |
| RateLimiter.HeadersInRange | tokenbucket.js:81-85 | for a valid bucket, `0 <= remaining <= capacity`; with a positive rate, reset is non-negative and is 0 exactly when the bucket is full |
| RateLimiter.Handle | tokenbucket.js:73-99 | no store access and 400 exactly when the identity is missing; only the client's key changes; a failing store call with index k < 3 leaves exactly k + 1 calls issued, otherwise all three are; 500 exactly when an issued store call fails |
| RateLimiter.HandleStoreFails | tokenbucket.js:77-99 | a throwing HGETALL, HMSET or PEXPIRE yields 500 after exactly the calls up to it; a failed read leaves no headers, later failures carry the charged bucket's headers; the store is unchanged unless only PEXPIRE failed, which leaves the new record written |
| RateLimiter.Verdict | tokenbucket.js:89-95 | an allowed request continues and a denied one gets 429 |
| RateLimiter.HandleDecides | tokenbucket.js:78-95 | without a store failure, the outcome and headers are those of the loaded bucket's admission attempt, the charged bucket is saved, and exactly HGETALL, HMSET and PEXPIRE are issued |
| RateLimiter.HandleKeepsValid | tokenbucket.js:78-87 | a request that finds a valid bucket reports in-range headers and leaves a valid bucket for any later request |
| RateLimiter.Replay | tokenbucket.js:73-99 | a run of requests yields one outcome per request |
| RateLimiter.Verdicts | tokenbucket.js:89-95 | each admission decision of a run maps to continue or 429 |
| RateLimiter.ReplayMatchesBucket | tokenbucket.js:48-99 | requests served one after another through the store are decided exactly as the in-memory bucket loaded at the first request decides them |
| RateLimiter.DefaultClientScenario | tokenbucket.js:34-99 | through the store with default settings, a new client gets continue three times, then 429, then continue once and 429 again 1000 ms later |
| FixedWindow.MakeConfig | fixedwindow.js:12-17 | each given option is used; a missing one takes capacity 3 or window 60000 ms |
| FixedWindow.DefaultConfig | fixedwindow.js:14-15 | a limiter built without options has capacity 3 and a 60000 ms window |
| FixedWindow.WindowIndex | fixedwindow.js:24 | the window number is the integer quotient, and `now` lies in `[w * windowMs, (w + 1) * windowMs)` |
| FixedWindow.WindowKey | fixedwindow.js:25 | the key is exactly `fixed-window:`, the client, a colon, and the shortest numeral of the window number, so client and window number read back from it |
| FixedWindow.StoreKey | fixedwindow.js:23-26 | the key is exactly `fixed-window:`, the client, a colon, and the shortest numeral of the number of the window containing `now` |
| FixedWindow.WindowKeyInjective | fixedwindow.js:23-26 | two counter keys are equal exactly when client and window number are equal |
| FixedWindow.SameKeyIffSameWindow | fixedwindow.js:23-26 | two instants give one client the same key exactly when they fall in the same window |
| FixedWindow.SharedKeyWithinOneWindow | fixedwindow.js:23-26 | two instants that share a key are less than one window apart |
| FixedWindow.WindowOfMultiple | fixedwindow.js:24 | the instant `k * windowMs` lies in window `k` |
| FixedWindow.NextWindowNewKey | fixedwindow.js:23-26 | the first instant of the next window lies in window `w + 1` and gets a different key |
| FixedWindow.ClientsNeverShareKey | fixedwindow.js:23-26 | different clients never share a counter key, in any windows |
| FixedWindow.HeadersFor | fixedwindow.js:41-43 | limit is the capacity, remaining is `capacity - count` while within capacity and 0 beyond it, and reset is the window length rounded up to seconds whatever the count |
| FixedWindow.RemainingInRange | fixedwindow.js:41-43 | for a non-negative capacity and a positive count, `0 <= remaining <= capacity`, with equality only when the capacity is 0 |
| FixedWindow.Handle | fixedwindow.js:29-56 | no store access and 400 exactly when the identity is missing; only the window's key changes; 500, without headers, exactly when an issued store call fails |
| FixedWindow.Increment | fixedwindow.js:33-55 | an identified request starts with INCR on its key, changes only that key, and answers continue, 429, or 500 (without headers) exactly when an issued call fails |
| FixedWindow.Counted | fixedwindow.js:37-51 | after INCR returned the count, PEXPIRE of `windowMs` is issued exactly when the count is 1, and 500 results exactly when that PEXPIRE fails |
| FixedWindow.HandleStoreFails | fixedwindow.js:33-55 | a throwing INCR yields 500 with no headers and no change; a throwing PEXPIRE on a new counter yields 500 with no headers, leaving the counter at 1 with its expiry as before |
| FixedWindow.HandleCounts | fixedwindow.js:33-51 | when no issued store call fails: the count is the previous count plus one; the request is admitted exactly when the count is within capacity, else 429; the calls are exactly INCR, then PEXPIRE of `windowMs` when the count is 1; an earlier expiry is kept otherwise |
| FixedWindow.HandleCountsUpToExpiry | fixedwindow.js:35-39 | once INCR succeeds, the stored count is the previous count plus one, even if the expiry call then fails |
| FixedWindow.HandleKeepsCountsNonNegative | fixedwindow.js:33-39 | serving any request keeps every counter non-negative |
| FixedWindow.HandleKeepsCountersExpiring | fixedwindow.js:35-39 | unless the expiry call fails, every counter keeps the window length as its expiry after any request |
| FixedWindow.FailedExpiryIsNeverRetried | fixedwindow.js:35-39 | a failed expiry on a window's first request answers 500 and leaves the counter without expiry; the next request issues only INCR and does not set one |
| FixedWindow.NonPositiveCapacityDeniesAll | fixedwindow.js:35-51 | with capacity 0 (or less) no request is ever admitted |
| FixedWindow.Replay | fixedwindow.js:29-56 | a run of requests yields one outcome per request |
| FixedWindow.ReplayInWindow | fixedwindow.js:35-51 | within one window, request `i` sees the earlier count plus `i + 1` and is admitted exactly when that is within capacity; the counter ends up raised by the number of requests |
| FixedWindow.NthRequestAdmittedIffWithinCapacity | fixedwindow.js:35-51 | in an untouched window, the Nth request is admitted exactly when `N <= capacity`, so request `capacity + 1` is the first refused |
| FixedWindow.ThreeThenRefused | fixedwindow.js:35-51 | with capacity 3, four requests in a fresh window give continue three times and then 429 |
| FixedWindow.DefaultClientScenario | fixedwindow.js:14-51 | with default settings, three requests in a fresh window continue and the fourth gets 429 |

## Left out

- `index.js`: the Express app, the Redis connection and `app.listen` are process bootstrap with no admission logic.
- Concurrency: the load, refill and save cycle of the token bucket can lose updates when requests interleave. The model is sequential. `TokenBucket.SingleTokenAdmitsAtMostOnce` states the sequential bound only.
- Expiry timing: the store records the expiry each key was given, but does not delete keys as time passes. "The key is gone after `windowMs`" is replaced by `FixedWindow.SharedKeyWithinOneWindow`: a key is never used for instants a full window apart.
- IEEE-754 doubles: rounding, and number formatting beyond integral window numbers, are not modelled. Reals stand in for numbers.
- RateLimiter.HeadersFor: with a zero refill rate it reports `None` where the source sends `Infinity` or `NaN`.
- RateLimiter.Load: the record's fields go through `Number(...)` in the source. A partial or non-numeric hash would give `NaN`. The model stores typed records, so every present record is complete.
- RateLimiter.Handle: the source reads the clock twice, once when building a new limiter and once when refilling. Both reads are the same `now` in the model.
- FixedWindow.Handle: requires `windowMs > 0`. A zero window gives the key suffix `Infinity` in the source, and a negative one deletes each counter at once; neither is modelled.
- Store errors other than a throwing call, such as INCR overflow or a key of the wrong type, are folded into the `fault` argument.
- `x-forwarded-for` is taken as one opaque string. Repeated headers and comma-separated lists are not parsed.
- Logging, the `debug` option, JSON response bodies and `toFixed` formatting have no effect on admission and are omitted.
