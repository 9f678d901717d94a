/** The in-memory key-value cache service: a bounded store whose entries expire a
    fixed time after they were last written.

    The store is an immutable value; every operation takes the current store and,
    where the outcome depends on time, the current clock reading `now`
    (milliseconds). The storage engine behind the service picks eviction victims
    by its own policy; that choice is the `victim` parameter of `Put`. */
module Cache {
  import opened Wrappers

  type Key = string

  /** Construction constants of the service: a ten-minute write TTL and room
      for one thousand entries. */
  const MillisPerMinute: nat := 60_000
  const DefaultTtl: nat := 10 * MillisPerMinute
  const DefaultCapacity: nat := 1000

  const KeyNullMessage: string := "Cache key cannot be null"
  const ValueNullMessage: string := "Cache value cannot be null"

  /** The only exception the service raises. */
  datatype CacheError = IllegalArgument(message: string)

  /** A stored value together with the clock reading of its last write. */
  datatype Entry<V> = Entry(value: V, writtenAt: nat)

  /** The resident entries, possibly including expired ones that have not been
      reclaimed yet, plus the fixed configuration. */
  datatype Store<V> = Store(entries: map<Key, Entry<V>>, ttl: nat, capacity: nat)

  /** The store invariant: never more resident entries than the capacity. */
  predicate Valid<V>(s: Store<V>)
  {
    |s.entries| <= s.capacity
  }

  /** Expire-after-write: an entry is visible until `ttl` has passed since its
      last write, and never from then on. */
  predicate Live<V>(s: Store<V>, e: Entry<V>, now: nat)
  {
    now < e.writtenAt + s.ttl
  }

  /** An empty store with the given configuration. */
  function Empty<V>(ttl: nat, capacity: nat): (r: Store<V>)
    ensures Valid(r) && r.ttl == ttl && r.capacity == capacity
    ensures forall k :: k !in r.entries
  {
    Store(map[], ttl, capacity)
  }

  /** A freshly constructed service: empty, ten-minute TTL, 1000 entries. */
  function New<V>(): (r: Store<V>)
    ensures Valid(r) && Size(r) == 0
    ensures r.ttl == 600_000 && r.capacity == 1000
  {
    Empty(DefaultTtl, DefaultCapacity)
  }

  /** The effect of a successful write on the store: the entry for `key` is
      (re)written with `now` as its write time, and if that leaves more entries
      than the capacity, one entry is evicted. The eviction policy names
      `victim`; if it names no resident entry, the newcomer itself is dropped. */
  function Write<V>(s: Store<V>, key: Key, value: V, now: nat, victim: Key): (r: Store<V>)
    ensures r.ttl == s.ttl && r.capacity == s.capacity
    // the written entry, if kept, carries the new value and a restarted TTL
    ensures key in r.entries ==> r.entries[key] == Entry(value, now)
    // every other resident entry is an untouched entry of the old store
    ensures forall k :: k in r.entries && k != key ==> k in s.entries && r.entries[k] == s.entries[k]
    // nothing is evicted while there is room, or when an existing key is rewritten
    ensures Valid(s) && (key in s.entries || |s.entries| < s.capacity) ==>
              r.entries.Keys == s.entries.Keys + {key}
    // only the named victim or the newcomer can be evicted
    ensures forall k :: k in s.entries && k !in r.entries ==> k == victim || k == key
    ensures key !in r.entries ==> victim == key || victim !in s.entries
    // a write never shrinks a valid store
    ensures Valid(s) ==> |r.entries| >= |s.entries|
    ensures Valid(s) ==> Valid(r)
  {
    var written := s.entries[key := Entry(value, now)];
    if |written| <= s.capacity then
      s.(entries := written)
    else
      var evicted := if victim in written then victim else key;
      var kept := written - {evicted};
      assert kept.Keys == written.Keys - {evicted};
      assert |written.Keys| == |s.entries.Keys| + (if key in s.entries then 0 else 1);
      s.(entries := kept)
  }

  /** `put`: rejects a null key, then a null value, before touching the store;
      otherwise writes the entry. */
  function Put<V>(s: Store<V>, key: Option<Key>, value: Option<V>, now: nat, victim: Key)
    : (r: Result<Store<V>, CacheError>)
    ensures key.None? ==> r == Err(IllegalArgument("Cache key cannot be null"))
    ensures key.Some? && value.None? ==> r == Err(IllegalArgument("Cache value cannot be null"))
    ensures r.Ok? <==> key.Some? && value.Some?
    ensures r.Ok? ==> r.value == Write(s, key.value, value.value, now, victim)
  {
    if key.None? then Err(IllegalArgument(KeyNullMessage))
    else if value.None? then Err(IllegalArgument(ValueNullMessage))
    else Ok(Write(s, key.value, value.value, now, victim))
  }

  /** `get`: the value of a resident, unexpired entry; absent for a null key, a
      missing key or an expired entry. */
  function Get<V>(s: Store<V>, key: Option<Key>, now: nat): (r: Option<V>)
    ensures key.None? ==> r.None?
    ensures r.Some? ==> key.Some? && key.value in s.entries
                        && r.value == s.entries[key.value].value
                        && Live(s, s.entries[key.value], now)
    ensures key.Some? && key.value in s.entries && Live(s, s.entries[key.value], now) ==> r.Some?
  {
    match key
    case None => None
    case Some(k) =>
      if k in s.entries && Live(s, s.entries[k], now) then Some(s.entries[k].value) else None
  }

  /** `delete`: removes the entry for a non-null key; a null or absent key
      leaves the store as it was. */
  function Delete<V>(s: Store<V>, key: Option<Key>): (r: Store<V>)
    ensures r.ttl == s.ttl && r.capacity == s.capacity
    ensures key.None? ==> r == s
    ensures key.Some? ==> key.value !in r.entries
    ensures key.Some? && key.value !in s.entries ==> r == s
    ensures forall k :: k in s.entries && key != Some(k) ==> k in r.entries && r.entries[k] == s.entries[k]
    ensures r.entries.Keys <= s.entries.Keys
    ensures key.Some? && key.value in s.entries ==> |r.entries| == |s.entries| - 1
  {
    match key
    case None => s
    case Some(k) =>
      if k in s.entries then
        var kept := s.entries - {k};
        assert kept.Keys == s.entries.Keys - {k};
        s.(entries := kept)
      else s
  }

  /** `size`: the number of resident entries. */
  function Size<V>(s: Store<V>): (r: nat)
    ensures Valid(s) ==> r <= s.capacity
    ensures r == 0 <==> forall k :: k !in s.entries
  {
    |s.entries|
  }

  /** `clear`: drops every entry and keeps the configuration. */
  function Clear<V>(s: Store<V>): (r: Store<V>)
    ensures r.ttl == s.ttl && r.capacity == s.capacity
    ensures Size(r) == 0
    ensures forall k, now :: Get(r, Some(k), now).None?
  {
    Empty(s.ttl, s.capacity)
  }
}
