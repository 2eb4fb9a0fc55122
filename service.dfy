/**
 * The lock service itself: lock and unlock as the step-by-step programs
 * they are, against the store and the sleeping thread, each proved to
 * compute LockProtocol.LockSpec and LockProtocol.UnlockSpec.
 */
module LockServiceRedis {
  import opened LockTypes
  import opened RedisStore
  import opened Threads
  import opened LockProtocol
  import opened LockProperties

  class LockServiceRedisImpl {
    /** The store client the service was wired with. */
    const store: Store

    constructor (store: Store)
      ensures this.store == store
    {
      this.store := store;
    }

    /**
     * Tries up to retryTime + 1 times to set the lock key to the owner, if
     * absent, with expiry maxLockTime; sleeps retryDelay after each attempt
     * that finds the key taken. The connection is closed on every path on
     * which it was opened. `thread` is the calling thread, which does the
     * sleeping.
     */
    method Lock(b: LockBean, thread: Sleeper) returns (r: Outcome<bool>)
      modifies store, thread
      ensures Run(store.State(), thread.State(), r) == LockSpec(old(store.State()), old(thread.State()), b)
      ensures store.open == old(store.open)
      ensures 0 <= store.sets - old(store.sets) <= Attempts(b)
      ensures r == Return(false) ==> store.sets - old(store.sets) == Attempts(b)
      ensures r == Return(true) ==> thread.sleeps - old(thread.sleeps) == store.sets - old(store.sets) - 1
    {
      var key := Key(b);
      var value := Value(b);
      var connected := store.GetConnection();
      if !connected {
        r := Throw(LockException(StoreFailure));
        LockAccounting(old(store.State()), old(thread.State()), b);
        return;
      }
      ghost var s1 := store.State();
      ghost var z0 := thread.State();
      ghost var n := Attempts(b);
      ghost var whole := TryFrom(s1, z0, key, value, b.retryDelay, 1, n);
      r := Return(false);
      var i := 1;
      while i <= b.retryTime + 1
        invariant 1 <= i <= n + 1
        invariant store.open == s1.open
        invariant TryFrom(store.State(), thread.State(), key, value, b.retryDelay, i, n) == whole
      {
        var reply := store.SetIfAbsent(key, value);
        if reply.Failed? {
          r := Throw(LockException(StoreFailure));
          break;
        }
        if reply.value {
          r := Return(true);
          break;
        }
        var w := thread.Sleep(b.retryDelay);
        if w != Woke {
          r := Throw(SleepFailure(w));
          break;
        }
        i := i + 1;
      }
      assert Run(store.State(), thread.State(), r) == whole;
      store.CloseConnection();
      LockAccounting(old(store.State()), old(thread.State()), b);
    }

    /**
     * Reads the lock key; deletes it only when it holds this owner. An absent
     * key or another owner's entry is reported, not an error.
     */
    method Unlock(b: LockBean) returns (r: Outcome<Release>)
      modifies store
      ensures (store.State(), r) == UnlockSpec(old(store.State()), b)
      ensures store.open == old(store.open)
      ensures r.Return? && r.value.HeldByOther? ==> r.value.realOwner != b.owner
    {
      var key := Key(b);
      var connected := store.GetConnection();
      if !connected {
        r := Throw(LockException(StoreFailure));
        return;
      }
      var got := store.Get(key);
      if got.Failed? {
        r := Throw(LockException(StoreFailure));
      } else if got.value.None? {
        r := Return(NotHeld);
      } else if got.value.value == b.owner {
        var deleted := store.Del(key);
        if deleted.Failed? {
          r := Throw(LockException(StoreFailure));
        } else {
          r := Return(Deleted(deleted.value));
        }
      } else {
        r := Return(HeldByOther(got.value.value));
      }
      store.CloseConnection();
    }
  }
}
