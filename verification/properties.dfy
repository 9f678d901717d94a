/** Properties of single cache operations, stated through `get`, `size` and the
    resident entries. */
module CacheProperties {
  import opened Wrappers
  import opened Cache

  /** The keys whose values `get` would return at time `now`. */
  function LiveKeys<V>(s: Store<V>, now: nat): (live: set<Key>)
    ensures live <= s.entries.Keys
    ensures forall k :: k in live <==> Get(s, Some(k), now).Some?
  {
    set k | k in s.entries && Live(s, s.entries[k], now)
  }

  /** `size` counts every resident entry, so it bounds the number of keys
      `get` can return a value for. */
  lemma LiveKeysWithinSize<V>(s: Store<V>, now: nat)
    ensures |LiveKeys(s, now)| <= Size(s)
  {
    assert LiveKeys(s, now) <= s.entries.Keys;
    SubsetCard(LiveKeys(s, now), s.entries.Keys);
  }

  lemma SubsetCard<T>(a: set<T>, b: set<T>)
    requires a <= b
    ensures |a| <= |b|
  {
    assert b == a + (b - a);
  }

  /** When a write keeps its key: always when the key was already resident or
      there was room, and otherwise only if the policy evicts another entry. */
  lemma WriteAdmits<V>(s: Store<V>, k: Key, v: V, now: nat, victim: Key)
    requires Valid(s)
    ensures k in Write(s, k, v, now, victim).entries <==>
              k in s.entries || |s.entries| < s.capacity || victim in s.entries
  {
  }

  /** Round trip: a kept write is returned by `get` throughout its TTL window,
      however old the key's previous write was. */
  lemma PutThenGet<V>(s: Store<V>, k: Key, v: V, now: nat, victim: Key, later: nat)
    requires Put(s, Some(k), Some(v), now, victim).Ok?
    requires k in Put(s, Some(k), Some(v), now, victim).value.entries
    requires later < now + s.ttl
    ensures Get(Put(s, Some(k), Some(v), now, victim).value, Some(k), later) == Some(v)
  {
  }

  /** Expire after write: once `ttl` has passed since the write, `get` no
      longer returns it. */
  lemma PutThenExpire<V>(s: Store<V>, k: Key, v: V, now: nat, victim: Key, later: nat)
    requires Put(s, Some(k), Some(v), now, victim).Ok?
    requires later >= now + s.ttl
    ensures Get(Put(s, Some(k), Some(v), now, victim).value, Some(k), later).None?
  {
  }

  /** Overwrite: rewriting a resident key keeps the size, returns the new
      value, and leaves every other entry alone. */
  lemma Overwrite<V>(s: Store<V>, k: Key, v: V, now: nat, victim: Key)
    requires Valid(s) && k in s.entries
    ensures Size(Write(s, k, v, now, victim)) == Size(s)
    ensures Write(s, k, v, now, victim).entries == s.entries[k := Entry(v, now)]
  {
  }

  /** A new key grows the size by one while the store has room. */
  lemma PutNewKeyBelowCapacity<V>(s: Store<V>, k: Key, v: V, now: nat, victim: Key)
    requires k !in s.entries && |s.entries| < s.capacity
    ensures Size(Write(s, k, v, now, victim)) == Size(s) + 1
    ensures k in Write(s, k, v, now, victim).entries
  {
  }

  /** A new key admitted to a full store costs exactly one eviction, so the
      size stays at the capacity. */
  lemma PutNewKeyWhenFull<V>(s: Store<V>, k: Key, v: V, now: nat, victim: Key)
    requires Valid(s) && k !in s.entries && |s.entries| == s.capacity
    ensures Size(Write(s, k, v, now, victim)) == s.capacity
  {
  }

  /** Eviction happens only when a new key enters a full store, and then
      removes at most the one entry the policy names. */
  lemma EvictionOnlyWhenFull<V>(s: Store<V>, k: Key, v: V, now: nat, victim: Key, gone: Key)
    requires Valid(s)
    requires gone in s.entries && gone !in Write(s, k, v, now, victim).entries
    ensures k !in s.entries && |s.entries| == s.capacity
    ensures gone == victim
  {
  }

  /** After `delete`, `get` finds nothing for that key at any time. */
  lemma DeleteThenGet<V>(s: Store<V>, k: Key, now: nat)
    ensures Get(Delete(s, Some(k)), Some(k), now).None?
  {
  }

  /** `delete` lowers the size by one exactly when the key was resident. */
  lemma DeleteSize<V>(s: Store<V>, key: Option<Key>)
    ensures Size(Delete(s, key)) == Size(s) - 1 <==> key.Some? && key.value in s.entries
    ensures Size(Delete(s, key)) == Size(s) <==> key.None? || key.value !in s.entries
  {
  }
}
