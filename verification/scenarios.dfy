/** The service's unit-test scenarios, stated for every clock reading and every
    eviction choice, on a freshly constructed service and through `put` as the
    tests call it. */
module CacheScenarios {
  import opened Wrappers
  import opened Cache

  /** Size goes 0, 1, 2 over two distinct writes and back to 1 after deleting
      the first key. */
  lemma SizeScenario(t: nat, victim: Key)
    ensures var s0 := New<string>();
            var s1 := Put(s0, Some("key1"), Some("value1"), t, victim).value;
            var s2 := Put(s1, Some("key2"), Some("value2"), t, victim).value;
            var s3 := Delete(s2, Some("key1"));
            Size(s0) == 0 && Size(s1) == 1 && Size(s2) == 2 && Size(s3) == 1
  {
  }

  /** Three writes, then `clear`: the size is 0 and none of the keys is found. */
  lemma ClearScenario(t: nat, victim: Key, later: nat)
    ensures var s0 := New<string>();
            var s1 := Put(s0, Some("key1"), Some("value1"), t, victim).value;
            var s2 := Put(s1, Some("key2"), Some("value2"), t, victim).value;
            var s3 := Put(s2, Some("key3"), Some("value3"), t, victim).value;
            var s4 := Clear(s3);
            Size(s3) == 3 && Size(s4) == 0
            && Get(s4, Some("key1"), later).None?
            && Get(s4, Some("key2"), later).None?
            && Get(s4, Some("key3"), later).None?
  {
  }

  /** Rewriting a key returns the new value and leaves the size at 1. */
  lemma OverwriteScenario(t1: nat, t2: nat, victim: Key)
    ensures var s0 := New<string>();
            var s1 := Put(s0, Some("overwriteKey"), Some("originalValue"), t1, victim).value;
            var s2 := Put(s1, Some("overwriteKey"), Some("newValue"), t2, victim).value;
            Get(s1, Some("overwriteKey"), t1) == Some("originalValue")
            && Get(s2, Some("overwriteKey"), t2) == Some("newValue")
            && Size(s2) == 1
  {
  }

  /** A written key is found until it is deleted, and not afterwards. */
  lemma DeleteScenario(t: nat, victim: Key)
    ensures var s1 := Put(New<string>(), Some("deleteKey"), Some("deleteValue"), t, victim).value;
            Get(s1, Some("deleteKey"), t) == Some("deleteValue")
            && Get(Delete(s1, Some("deleteKey")), Some("deleteKey"), t).None?
  {
  }

  /** A null key or a null value is refused and leaves a new service empty. */
  lemma NullArgumentScenario(t: nat, victim: Key)
    ensures Put(New<string>(), None, Some("value"), t, victim).Err?
    ensures Put(New<string>(), Some("nullValueKey"), None, t, victim).Err?
    ensures Get(New<string>(), None, t).None?
    ensures Delete(New<string>(), None) == New<string>()
  {
  }

  /** A second service does not see what was written to the first. */
  lemma SeparateInstancesScenario(t: nat, victim: Key)
    ensures var first := Put(New<string>(), Some("singletonTest"), Some("testValue"), t, victim).value;
            Get(first, Some("singletonTest"), t).Some?
            && Get(New<string>(), Some("singletonTest"), t).None?
  {
  }
}
