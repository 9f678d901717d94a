/** The cache service as a state machine: one step per call on the service,
    and properties of whole call sequences. */
module CacheMachine {
  import opened Wrappers
  import opened Cache

  /** One call on the service. `at` is the clock reading when a call depends on
      time; `victim` is the eviction policy's choice should the call need one. */
  datatype Op<V> =
    | PutOp(key: Option<Key>, value: Option<V>, at: nat, victim: Key)
    | GetOp(key: Option<Key>, at: nat)
    | DeleteOp(key: Option<Key>)
    | SizeOp
    | ClearOp

  /** What a call gives back: nothing, a thrown exception, a value or null, or
      a count. */
  datatype Reply<V> = Done | Thrown(error: CacheError) | Found(value: Option<V>) | Count(n: nat)

  /** One call: the store afterwards and the reply. A call that throws leaves the
      store as it was. */
  function Step<V>(s: Store<V>, op: Op<V>): (r: (Store<V>, Reply<V>))
    ensures r.0.ttl == s.ttl && r.0.capacity == s.capacity
    ensures Valid(s) ==> Valid(r.0)
    ensures r.1.Thrown? <==> op.PutOp? && (op.key.None? || op.value.None?)
    ensures r.1.Thrown? ==> r.0 == s
    ensures op.GetOp? || op.SizeOp? ==> r.0 == s
  {
    match op
    case PutOp(key, value, at, victim) =>
      (match Put(s, key, value, at, victim)
       case Ok(s') => (s', Done)
       case Err(e) => (s, Thrown(e)))
    case GetOp(key, at) => (s, Found(Get(s, key, at)))
    case DeleteOp(key) => (Delete(s, key), Done)
    case SizeOp => (s, Count(Size(s)))
    case ClearOp => (Clear(s), Done)
  }

  /** The store after a sequence of calls. */
  function Run<V>(s: Store<V>, ops: seq<Op<V>>): (r: Store<V>)
    decreases |ops|
  {
    if |ops| == 0 then s else Run(Step(s, ops[0]).0, ops[1..])
  }

  /** The call writes a value under `k`. */
  predicate Writes<V>(op: Op<V>, k: Key)
  {
    op.PutOp? && op.key == Some(k) && op.value.Some?
  }

  /** The call could remove the entry for `k`: deleting it, clearing the store,
      or a write that names `k` as the eviction victim. */
  predicate MayRemove<V>(op: Op<V>, k: Key)
  {
    match op
    case PutOp(key, value, _, victim) => key.Some? && value.Some? && victim == k
    case DeleteOp(key) => key == Some(k)
    case ClearOp => true
    case _ => false
  }

  /** The call can neither rewrite nor remove the entry for `k`. */
  predicate Untouched<V>(op: Op<V>, k: Key)
  {
    !Writes(op, k) && !MayRemove(op, k)
  }

  /** The capacity bound holds after every call of every sequence (the
      configuration itself is kept by `RunKeepsConfig`). */
  lemma {:induction false} RunPreservesValid<V>(s: Store<V>, ops: seq<Op<V>>)
    requires Valid(s)
    ensures Valid(Run(s, ops))
    decreases |ops|
  {
    if |ops| > 0 {
      RunPreservesValid(Step(s, ops[0]).0, ops[1..]);
    }
  }

  /** A call that neither writes nor may remove `k` keeps its entry exactly. */
  lemma StepKeepsUntouched<V>(s: Store<V>, op: Op<V>, k: Key)
    requires Untouched(op, k) && k in s.entries
    ensures k in Step(s, op).0.entries && Step(s, op).0.entries[k] == s.entries[k]
  {
  }

  /** A call that does not write `k` can only keep or drop its entry, never
      create or change it. */
  lemma StepNoWrite<V>(s: Store<V>, op: Op<V>, k: Key)
    requires !Writes(op, k)
    ensures k in Step(s, op).0.entries ==> k in s.entries && Step(s, op).0.entries[k] == s.entries[k]
  {
  }

  /** Calls that leave `k` untouched keep its entry, value and write time alike. */
  lemma {:induction false} RunKeepsUntouched<V>(s: Store<V>, ops: seq<Op<V>>, k: Key)
    requires forall i :: 0 <= i < |ops| ==> Untouched(ops[i], k)
    requires k in s.entries
    ensures k in Run(s, ops).entries && Run(s, ops).entries[k] == s.entries[k]
    decreases |ops|
  {
    if |ops| > 0 {
      StepKeepsUntouched(s, ops[0], k);
      RunKeepsUntouched(Step(s, ops[0]).0, ops[1..], k);
    }
  }

  /** Calls that do not write `k` can only keep or drop its entry. */
  lemma {:induction false} RunNoWrite<V>(s: Store<V>, ops: seq<Op<V>>, k: Key)
    requires forall i :: 0 <= i < |ops| ==> !Writes(ops[i], k)
    ensures k in Run(s, ops).entries ==> k in s.entries && Run(s, ops).entries[k] == s.entries[k]
    decreases |ops|
  {
    if |ops| > 0 {
      StepNoWrite(s, ops[0], k);
      RunNoWrite(Step(s, ops[0]).0, ops[1..], k);
    }
  }

  /** Round trip: after a kept `put(k, v)` at time `t`, a `get(k)` at any time
      before `t + ttl` returns `v`, provided no call in between rewrote,
      deleted, cleared or evicted `k`. */
  lemma {:induction false} RoundTrip<V>(s: Store<V>, k: Key, v: V, t: nat, victim: Key, ops: seq<Op<V>>, now: nat)
    requires Put(s, Some(k), Some(v), t, victim).Ok?
    requires k in Put(s, Some(k), Some(v), t, victim).value.entries
    requires forall i :: 0 <= i < |ops| ==> Untouched(ops[i], k)
    requires now < t + s.ttl
    ensures Step(Run(Step(s, PutOp(Some(k), Some(v), t, victim)).0, ops), GetOp(Some(k), now)).1
            == Found(Some(v))
  {
    var s1 := Step(s, PutOp(Some(k), Some(v), t, victim)).0;
    RunKeepsUntouched(s1, ops, k);
    RunKeepsConfig(s1, ops);
  }

  /** Expire after write: if the last write of `k` happened at or before `t`,
      no `get(k)` at or after `t + ttl` returns a value, whatever happens in
      between short of another write of `k`. */
  lemma {:induction false} ExpireAfterWrite<V>(s: Store<V>, k: Key, t: nat, ops: seq<Op<V>>, now: nat)
    requires k in s.entries ==> s.entries[k].writtenAt <= t
    requires forall i :: 0 <= i < |ops| ==> !Writes(ops[i], k)
    requires now >= t + s.ttl
    ensures Step(Run(s, ops), GetOp(Some(k), now)).1 == Found(None)
  {
    RunNoWrite(s, ops, k);
    RunKeepsConfig(s, ops);
  }

  /** The TTL and the capacity fixed at construction survive every call. */
  lemma {:induction false} RunKeepsConfig<V>(s: Store<V>, ops: seq<Op<V>>)
    ensures Run(s, ops).ttl == s.ttl && Run(s, ops).capacity == s.capacity
    decreases |ops|
  {
    if |ops| > 0 {
      RunKeepsConfig(Step(s, ops[0]).0, ops[1..]);
    }
  }

  /** The writes `put(keys[i], values[i])` in order, the i-th at clock
      reading `times[i]` with eviction choice `victims[i]`. */
  function PutEach<V>(keys: seq<Key>, values: seq<V>, times: seq<nat>, victims: seq<Key>): (ops: seq<Op<V>>)
    requires |values| == |keys| && |times| == |keys| && |victims| == |keys|
    ensures |ops| == |keys|
  {
    if |keys| == 0 then []
    else [PutOp(Some(keys[0]), Some(values[0]), times[0], victims[0])]
         + PutEach(keys[1..], values[1..], times[1..], victims[1..])
  }

  /** The i-th call of `PutEach` writes the i-th key and value at the i-th
      clock reading with the i-th eviction choice. */
  lemma {:induction false} PutEachAt<V>(keys: seq<Key>, values: seq<V>, times: seq<nat>, victims: seq<Key>, i: nat)
    requires |values| == |keys| && |times| == |keys| && |victims| == |keys|
    requires i < |keys|
    ensures PutEach(keys, values, times, victims)[i] == PutOp(Some(keys[i]), Some(values[i]), times[i], victims[i])
    decreases i
  {
    if i > 0 {
      PutEachAt(keys[1..], values[1..], times[1..], victims[1..], i - 1);
    }
  }

  /** Writing distinct new keys into a store with room for all of them grows
      its size by their number, keeps every entry already there, and keeps
      every new key with its own value and write time: no eviction happens
      below the capacity, whatever the values, clock readings and eviction
      choices. */
  lemma {:induction false} DistinctPutsGrow<V>(s: Store<V>, keys: seq<Key>, values: seq<V>, times: seq<nat>, victims: seq<Key>)
    requires |values| == |keys| && |times| == |keys| && |victims| == |keys|
    requires forall i, j :: 0 <= i < j < |keys| ==> keys[i] != keys[j]
    requires forall i :: 0 <= i < |keys| ==> keys[i] !in s.entries
    requires |s.entries| + |keys| <= s.capacity
    ensures Size(Run(s, PutEach(keys, values, times, victims))) == Size(s) + |keys|
    ensures forall k :: k in s.entries ==>
              k in Run(s, PutEach(keys, values, times, victims)).entries
              && Run(s, PutEach(keys, values, times, victims)).entries[k] == s.entries[k]
    ensures forall i :: 0 <= i < |keys| ==>
              keys[i] in Run(s, PutEach(keys, values, times, victims)).entries
              && Run(s, PutEach(keys, values, times, victims)).entries[keys[i]] == Entry(values[i], times[i])
    decreases |keys|
  {
    if |keys| > 0 {
      var ops := PutEach(keys, values, times, victims);
      var s1 := Write(s, keys[0], values[0], times[0], victims[0]);
      assert Step(s, ops[0]).0 == s1;
      assert ops[1..] == PutEach(keys[1..], values[1..], times[1..], victims[1..]);
      assert s1.entries.Keys == s.entries.Keys + {keys[0]};
      assert |s1.entries| == |s.entries| + 1;
      forall i | 0 <= i < |keys[1..]|
        ensures keys[1..][i] !in s1.entries
      {
        assert keys[1..][i] == keys[i + 1];
      }
      DistinctPutsGrow(s1, keys[1..], values[1..], times[1..], victims[1..]);
      var r := Run(s, ops);
      assert r == Run(s1, ops[1..]);
      forall i | 0 <= i < |keys|
        ensures keys[i] in r.entries && r.entries[keys[i]] == Entry(values[i], times[i])
      {
        if i > 0 {
          assert keys[i] == keys[1..][i - 1];
          assert values[i] == values[1..][i - 1];
          assert times[i] == times[1..][i - 1];
        }
      }
    }
  }

  /** `clear` forgets everything: writing distinct keys after it counts from
      zero, up to the capacity, and no key written before the clear is found
      again unless it is written anew. */
  lemma {:induction false} ClearThenPuts<V>(s: Store<V>, keys: seq<Key>, values: seq<V>, times: seq<nat>, victims: seq<Key>,
                                           stale: Key, now: nat)
    requires |values| == |keys| && |times| == |keys| && |victims| == |keys|
    requires forall i, j :: 0 <= i < j < |keys| ==> keys[i] != keys[j]
    requires |keys| <= s.capacity
    requires forall i :: 0 <= i < |keys| ==> keys[i] != stale
    ensures Size(Run(s, [ClearOp] + PutEach(keys, values, times, victims))) == |keys|
    ensures Get(Run(s, [ClearOp] + PutEach(keys, values, times, victims)), Some(stale), now).None?
  {
    var puts := PutEach(keys, values, times, victims);
    var ops := [ClearOp] + puts;
    assert ops[1..] == puts;
    var c := Clear(s);
    assert Run(s, ops) == Run(c, puts);
    DistinctPutsGrow(c, keys, values, times, victims);
    forall i | 0 <= i < |puts|
      ensures !Writes(puts[i], stale)
    {
      PutEachAt(keys, values, times, victims, i);
    }
    RunNoWrite(c, puts, stale);
  }
}
