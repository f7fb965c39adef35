/** The subset of the shared key-value store the limiters use: HGETALL/HMSET on a
    hash record, INCR on a counter and PEXPIRE. The store is an immutable map; a key's
    requested expiry is recorded, but the passage of time that deletes it is not modelled. */
module Redis {
  import opened Wrappers

  /** A stored value and the expiry last requested for it (milliseconds), if any. */
  datatype Entry<V> = Entry(value: V, ttl: Option<int>)

  type Store<V> = map<string, Entry<V>>

  /** A store command issued by a request, in the order the request issues them. */
  datatype Command<V> =
    | HGetAll(key: string)
    | HMSet(key: string, fields: V)
    | Incr(key: string)
    | PExpire(key: string, ms: int)

  /** Every key other than `k` is bound, or absent, alike in both stores. */
  ghost predicate AgreeExcept<V>(s: Store<V>, s': Store<V>, k: string) {
    forall k' :: k' != k ==> (k' in s <==> k' in s') && (k' in s ==> s[k'] == s'[k'])
  }

  /** Two changes confined to `k` together change nothing but `k`. */
  lemma AgreeExceptTransitive<V>(s1: Store<V>, s2: Store<V>, s3: Store<V>, k: string)
    requires AgreeExcept(s1, s2, k) && AgreeExcept(s2, s3, k)
    ensures AgreeExcept(s1, s3, k)
  {
  }

  /** HGETALL: the record at `k`, `None` when the key holds nothing. */
  function Get<V>(s: Store<V>, k: string): (r: Option<V>)
    ensures r.Some? <==> k in s
    ensures r.Some? ==> s[k].value == r.value
  {
    if k in s then Some(s[k].value) else None
  }

  /** HMSET of a complete record: overwrites the value and keeps any expiry already set. */
  function Put<V>(s: Store<V>, k: string, v: V): (s': Store<V>)
    ensures k in s' && s'[k].value == v
    ensures s'[k].ttl == (if k in s then s[k].ttl else None)
    ensures AgreeExcept(s, s', k)
  {
    s[k := Entry(v, if k in s then s[k].ttl else None)]
  }

  /** PEXPIRE: records the expiry of an existing key; a non-positive duration deletes it
      at once; a missing key is left missing. */
  function Expire<V>(s: Store<V>, k: string, ms: int): (s': Store<V>)
    ensures k in s' <==> k in s && ms > 0
    ensures k in s' ==> s'[k] == Entry(s[k].value, Some(ms))
    ensures AgreeExcept(s, s', k)
  {
    if k !in s then s
    else if ms <= 0 then map k' | k' in s && k' != k :: s[k']
    else s[k := Entry(s[k].value, Some(ms))]
  }

  /** INCR: the counter at `k` plus one (a missing key counts as 0); the new count
      is stored and any expiry already set is kept. */
  function Increment(s: Store<int>, k: string): (r: (int, Store<int>))
    ensures r.0 == (if k in s then s[k].value else 0) + 1
    ensures k in r.1 && r.1[k].value == r.0
    ensures r.1[k].ttl == (if k in s then s[k].ttl else None)
    ensures AgreeExcept(s, r.1, k)
  {
    var count := (if k in s then s[k].value else 0) + 1;
    (count, Put(s, k, count))
  }
}
