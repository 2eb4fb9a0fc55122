/**
 * What the acquire and release protocol guarantees: the attempt bound, the
 * stop at the first success, no overwrite of a held key, no release of
 * someone else's lock, release of an absent lock as a no-op, failures
 * surfacing as exceptions, and the connection closed on every path.
 */
module LockProperties {
  import opened LockTypes
  import opened RedisStore
  import opened Threads
  import opened LockProtocol

  /** Nothing else happens to the store from its next command on. */
  ghost predicate Quiet(s: StoreState) {
    forall c :: c in s.env ==> c <= s.commands
  }

  /** From its next command on the store may fail, but no other client and no expiry touches it. */
  ghost predicate NoInterference(s: StoreState) {
    forall c :: c in s.env && c > s.commands ==> s.env[c] == Outage
  }

  /** No sleep from the next one on is interrupted. */
  ghost predicate NoInterruptsAhead(z: SleepState) {
    forall k :: k in z.interrupts ==> k <= z.sleeps
  }

  // ---------------------------------------------------------------------
  // Keys

  /** Within one lock type, two lock keys share a store key only if they are equal. */
  lemma KeyDeterminesLockKey(b1: LockBean, b2: LockBean)
    requires b1.lockType == b2.lockType
    ensures Key(b1) == Key(b2) <==> b1.lockKey == b2.lockKey
  {
    if Key(b1) == Key(b2) {
      var n := |b1.lockType|;
      assert b1.lockKey == Key(b1)[n..];
      assert b2.lockKey == Key(b2)[n..];
    }
  }

  /** For one lock key, the lock type namespaces it: two lock types share a store key only if they are equal. */
  lemma KeyNamespacedByType(b1: LockBean, b2: LockBean)
    requires b1.lockKey == b2.lockKey
    ensures Key(b1) == Key(b2) <==> b1.lockType == b2.lockType
  {
    if Key(b1) == Key(b2) {
      assert |b1.lockType| == |b2.lockType|;
      assert b1.lockType == Key(b1)[..|b1.lockType|];
      assert b2.lockType == Key(b2)[..|b2.lockType|];
    }
  }

  /** Across lock types the plain concatenation can collide: ("ab", "c") and ("a", "bc") share a key. */
  lemma KeyCollision(owner: string)
    ensures Key(LockBean("ab", "c", owner, 30, 0, 0)) == Key(LockBean("a", "bc", owner, 30, 0, 0))
  {
  }

  // ---------------------------------------------------------------------
  // lock: counting attempts and sleeps

  /** The loop issues only set-if-absent commands, at most one per remaining attempt, and sleeps after each failed one. */
  lemma {:induction false} TryAccounting(s: StoreState, z: SleepState, key: string, e: Entry, delay: int, i: nat, n: nat)
    requires 1 <= i <= n + 1
    ensures var r := TryFrom(s, z, key, e, delay, i, n);
      var tries := r.store.sets - s.sets;
      && 0 <= tries <= n + 1 - i
      && r.store.commands == s.commands + tries
      && r.store.gets == s.gets && r.store.dels == s.dels && r.store.env == s.env
      && r.thread.interrupts == z.interrupts
      && (r.out != Return(false) ==> tries >= 1)
      && (r.out == Return(false) ==> tries == n + 1 - i)
      && r.thread.sleeps == z.sleeps +
           (if r.out == Return(true) || r.out == Throw(LockException(StoreFailure)) then tries - 1 else tries)
    decreases n + 1 - i
  {
    if i <= n {
      var (s1, reply) := SetIfAbsentStep(s, key, e);
      if reply.Ok? && !reply.value {
        var (z1, w) := SleepStep(z, delay);
        if w == Woke {
          TryAccounting(s1, z1, key, e, delay, i + 1, n);
        }
      }
    }
  }

  /**
   * lock issues at most retryTime + 1 set-if-absent commands; it returns false
   * only after all of them, having slept after each; it returns true right
   * after the successful one, with no sleep after it; and it leaves as many
   * connections open as it found.
   */
  lemma LockAccounting(s: StoreState, z: SleepState, b: LockBean)
    ensures var r := LockSpec(s, z, b);
      var tries := r.store.sets - s.sets;
      && 0 <= tries <= Attempts(b)
      && r.store.open == s.open
      && r.store.gets == s.gets && r.store.dels == s.dels
      && (r.out == Return(false) ==> tries == Attempts(b) && r.thread.sleeps == z.sleeps + Attempts(b))
      && (r.out == Return(true) ==> tries >= 1 && r.thread.sleeps == z.sleeps + tries - 1)
      && (r.out == Throw(LockException(StoreFailure)) ==> r.thread.sleeps == z.sleeps + (if tries == 0 then 0 else tries - 1))
      && (r.out == Throw(LockException(Interrupted)) || r.out == Throw(LockException(NegativeDelay)) ==>
            tries >= 1 && r.thread.sleeps == z.sleeps + tries)
  {
    var (s1, connected) := ConnectStep(s);
    if connected {
      TryAccounting(s1, z, Key(b), Value(b), b.retryDelay, 1, Attempts(b));
    }
  }

  // ---------------------------------------------------------------------
  // lock: contended and uncontended runs

  /** Against a key that stays held, every remaining attempt fails and the loop answers false. */
  lemma {:induction false} TryContended(s: StoreState, z: SleepState, key: string, e: Entry, delay: int, i: nat, n: nat)
    requires 1 <= i <= n + 1
    requires Quiet(s) && key in s.entries && delay >= 0 && NoInterruptsAhead(z)
    ensures TryFrom(s, z, key, e, delay, i, n) ==
      Run(s.(commands := s.commands + (n + 1 - i), sets := s.sets + (n + 1 - i)),
          z.(sleeps := z.sleeps + (n + 1 - i)),
          Return(false))
    decreases n + 1 - i
  {
    if i <= n {
      var (s1, reply) := SetIfAbsentStep(s, key, e);
      var (z1, w) := SleepStep(z, delay);
      assert s1 == s.(commands := s.commands + 1, sets := s.sets + 1);
      assert w == Woke && z1 == z.(sleeps := z.sleeps + 1);
      TryContended(s1, z1, key, e, delay, i + 1, n);
    }
  }

  /**
   * Retry bound: against a held key with no other client acting, lock issues
   * exactly retryTime + 1 set-if-absent commands, sleeps as often, changes no
   * entry and returns false.
   */
  lemma LockContended(s: StoreState, z: SleepState, b: LockBean)
    requires Quiet(s) && Key(b) in s.entries && b.retryDelay >= 0 && NoInterruptsAhead(z)
    ensures LockSpec(s, z, b) ==
      Run(s.(commands := s.commands + 1 + Attempts(b), sets := s.sets + Attempts(b)),
          z.(sleeps := z.sleeps + Attempts(b)),
          Return(false))
  {
    var (s1, connected) := ConnectStep(s);
    assert connected && s1 == s.(commands := s.commands + 1, open := s.open + 1);
    TryContended(s1, z, Key(b), Value(b), b.retryDelay, 1, Attempts(b));
  }

  /** Against a held key, a negative retry delay makes the first sleep fail, which surfaces as an exception. */
  lemma LockNegativeDelay(s: StoreState, z: SleepState, b: LockBean)
    requires Quiet(s) && Key(b) in s.entries && b.retryDelay < 0 && b.retryTime >= 0
    ensures LockSpec(s, z, b) ==
      Run(s.(commands := s.commands + 2, sets := s.sets + 1),
          z.(sleeps := z.sleeps + 1),
          Throw(LockException(NegativeDelay)))
  {
  }

  /** Immediate success: on a free key lock succeeds with one set-if-absent command and no sleep. */
  lemma LockUncontended(s: StoreState, z: SleepState, b: LockBean)
    requires Quiet(s) && Key(b) !in s.entries && b.retryTime >= 0
    ensures LockSpec(s, z, b) ==
      Run(s.(commands := s.commands + 2, sets := s.sets + 1, entries := s.entries[Key(b) := Value(b)]),
          z,
          Return(true))
  {
  }

  /** The key is freed just before attempt j (counted from i): the loop succeeds at exactly that attempt. */
  lemma {:induction false} TryFreed(s: StoreState, z: SleepState, key: string, e: Entry, delay: int, i: nat, j: nat, n: nat)
    requires 1 <= i <= j <= n
    requires key in s.entries && delay >= 0 && NoInterruptsAhead(z)
    requires s.commands + 1 + (j - i) in s.env
    requires forall c :: c in s.env && c > s.commands ==> c == s.commands + 1 + (j - i) && s.env[c] == Expired(key)
    ensures TryFrom(s, z, key, e, delay, i, n) ==
      Run(s.(commands := s.commands + (j + 1 - i), sets := s.sets + (j + 1 - i), entries := s.entries[key := e]),
          z.(sleeps := z.sleeps + (j - i)),
          Return(true))
    decreases j - i
  {
    var (s1, reply) := SetIfAbsentStep(s, key, e);
    if i < j {
      var (z1, w) := SleepStep(z, delay);
      assert s1 == s.(commands := s.commands + 1, sets := s.sets + 1);
      assert w == Woke && z1 == z.(sleeps := z.sleeps + 1);
      TryFreed(s1, z1, key, e, delay, i + 1, j, n);
    } else {
      assert s.Seen() == s.entries - {key};
      assert (s.entries - {key})[key := e] == s.entries[key := e];
    }
  }

  /**
   * First success ends the loop: if the holder's entry expires just before
   * attempt j, lock returns true after exactly j set-if-absent commands and
   * j - 1 sleeps, and the key then holds the caller with the requested expiry.
   */
  lemma LockSucceedsWhenFreed(s: StoreState, z: SleepState, b: LockBean, j: nat)
    requires 1 <= j <= Attempts(b)
    requires Key(b) in s.entries && b.retryDelay >= 0 && NoInterruptsAhead(z)
    requires s.commands + 1 + j in s.env
    requires forall c :: c in s.env && c > s.commands ==> c == s.commands + 1 + j && s.env[c] == Expired(Key(b))
    ensures LockSpec(s, z, b) ==
      Run(s.(commands := s.commands + 1 + j, sets := s.sets + j, entries := s.entries[Key(b) := Value(b)]),
          z.(sleeps := z.sleeps + j - 1),
          Return(true))
  {
    var (s1, connected) := ConnectStep(s);
    assert connected && s1 == s.(commands := s.commands + 1, open := s.open + 1);
    TryFreed(s1, z, Key(b), Value(b), b.retryDelay, 1, j, Attempts(b));
  }

  // ---------------------------------------------------------------------
  // lock: never overwriting a held key

  /** With no other client acting, the loop changes the entries only by adding its own, to a key that was free. */
  lemma {:induction false} TryOnlyAdds(s: StoreState, z: SleepState, key: string, e: Entry, delay: int, i: nat, n: nat)
    requires 1 <= i <= n + 1 && NoInterference(s)
    ensures var r := TryFrom(s, z, key, e, delay, i, n);
      && r.store.entries == (if r.out == Return(true) then s.entries[key := e] else s.entries)
      && (r.out == Return(true) ==> key !in s.entries)
    decreases n + 1 - i
  {
    if i <= n {
      var (s1, reply) := SetIfAbsentStep(s, key, e);
      assert s.Seen() == s.entries;
      if reply.Ok? && !reply.value {
        var (z1, w) := SleepStep(z, delay);
        if w == Woke {
          TryOnlyAdds(s1, z1, key, e, delay, i + 1, n);
        }
      }
    }
  }

  /**
   * lock never overwrites an entry: unless it returns true the entries are as
   * they were, and when it returns true the key was free and now holds exactly
   * the caller with expiry maxLockTime; no other key changes.
   */
  lemma LockOnlyAddsOwnEntry(s: StoreState, z: SleepState, b: LockBean)
    requires NoInterference(s)
    ensures var r := LockSpec(s, z, b);
      && r.store.entries == (if r.out == Return(true) then s.entries[Key(b) := Value(b)] else s.entries)
      && (r.out == Return(true) ==> Key(b) !in s.entries)
  {
    var (s1, connected) := ConnectStep(s);
    assert s.Seen() == s.entries;
    if connected {
      TryOnlyAdds(s1, z, Key(b), Value(b), b.retryDelay, 1, Attempts(b));
    }
  }

  // ---------------------------------------------------------------------
  // lock: failures surface as exceptions

  /** The loop stops at its first failing command, and an exception from it is exactly that failure or a failed sleep. */
  lemma {:induction false} TryFailureSurfaces(s: StoreState, z: SleepState, key: string, e: Entry, delay: int, i: nat, n: nat)
    requires 1 <= i <= n + 1
    ensures var r := TryFrom(s, z, key, e, delay, i, n);
      && (forall c :: s.commands < c < r.store.commands ==> !IsOutage(s.env, c))
      && (r.out == Throw(LockException(StoreFailure)) <==>
            r.store.commands > s.commands && IsOutage(s.env, r.store.commands))
      && (r.out == Throw(LockException(NegativeDelay)) ==> delay < 0)
      && (r.out == Throw(LockException(Interrupted)) ==> delay >= 0 && r.thread.sleeps in z.interrupts)
      && (r.out.Return? ==> forall k :: z.sleeps < k <= r.thread.sleeps ==> k !in z.interrupts)
      && (r.out.Return? && r.thread.sleeps > z.sleeps ==> delay >= 0)
    decreases n + 1 - i
  {
    TryAccounting(s, z, key, e, delay, i, n);
    if i <= n {
      var (s1, reply) := SetIfAbsentStep(s, key, e);
      if reply.Ok? && !reply.value {
        var (z1, w) := SleepStep(z, delay);
        if w == Woke {
          TryFailureSurfaces(s1, z1, key, e, delay, i + 1, n);
          TryAccounting(s1, z1, key, e, delay, i + 1, n);
        }
      }
    }
  }

  /**
   * Any store failure ends lock at once with a LockException (never a false
   * result and never a retry): the call's last command is the first one that
   * failed. A sleep failure surfaces the same way: a normal return means no
   * sleep of the call was interrupted or refused its delay. The connection count is
   * back where it was on every path.
   */
  lemma LockFailureSurfaces(s: StoreState, z: SleepState, b: LockBean)
    ensures var r := LockSpec(s, z, b);
      && r.store.open == s.open
      && (forall c :: s.commands < c < r.store.commands ==> !IsOutage(s.env, c))
      && (r.out == Throw(LockException(StoreFailure)) <==>
            r.store.commands > s.commands && IsOutage(s.env, r.store.commands))
      && (r.out == Throw(LockException(NegativeDelay)) ==> b.retryDelay < 0)
      && (r.out == Throw(LockException(Interrupted)) ==> b.retryDelay >= 0 && r.thread.sleeps in z.interrupts)
      && (r.out.Return? ==> forall k :: z.sleeps < k <= r.thread.sleeps ==> k !in z.interrupts)
      && (r.out.Return? && r.thread.sleeps > z.sleeps ==> b.retryDelay >= 0)
  {
    var (s1, connected) := ConnectStep(s);
    if connected {
      TryFailureSurfaces(s1, z, Key(b), Value(b), b.retryDelay, 1, Attempts(b));
      TryAccounting(s1, z, Key(b), Value(b), b.retryDelay, 1, Attempts(b));
    }
  }

  // ---------------------------------------------------------------------
  // unlock

  /**
   * With no other client acting: an absent key is a no-op; the caller's own
   * entry is deleted; another owner's entry is left alone without an error.
   */
  lemma UnlockQuiet(s: StoreState, b: LockBean)
    requires Quiet(s)
    ensures UnlockSpec(s, b) ==
      if Key(b) !in s.entries then
        (s.(commands := s.commands + 2, gets := s.gets + 1), Return(NotHeld))
      else if s.entries[Key(b)].owner == b.owner then
        (s.(commands := s.commands + 3, gets := s.gets + 1, dels := s.dels + 1, entries := s.entries - {Key(b)}),
         Return(Deleted(1)))
      else
        (s.(commands := s.commands + 2, gets := s.gets + 1), Return(HeldByOther(s.entries[Key(b)].owner)))
  {
  }

  /**
   * unlock closes what it opens, ends with a LockException exactly when one of
   * its commands failed (its last one), and, with no other client acting,
   * deletes nothing but the caller's own entry.
   */
  lemma UnlockFailureSurfaces(s: StoreState, b: LockBean)
    ensures var (t, r) := UnlockSpec(s, b);
      && t.open == s.open && t.sets == s.sets && t.env == s.env
      && s.commands < t.commands <= s.commands + 3
      && (forall c :: s.commands < c < t.commands ==> !IsOutage(s.env, c))
      && (r.Throw? <==> IsOutage(s.env, t.commands))
      && (r.Throw? ==> r.error.cause == StoreFailure)
      && (NoInterference(s) ==>
            t.entries == (if r == Return(Deleted(1)) then s.entries - {Key(b)} else s.entries)
            && (r == Return(Deleted(1)) <==> Key(b) in s.entries && s.entries[Key(b)].owner == b.owner && !IsOutage(s.env, t.commands)))
  {
  }

  /**
   * The window between GET and DEL: if the caller's entry expires there and
   * another client takes the key, unlock deletes the other client's entry.
   * The ownership check is not atomic with the delete.
   */
  lemma UnlockRace(s: StoreState, b: LockBean, other: Entry)
    requires Key(b) in s.entries && s.entries[Key(b)].owner == b.owner && other.owner != b.owner
    requires s.env == map[s.commands + 3 := Acquired(Key(b), other)]
    ensures UnlockSpec(s, b).1 == Return(Deleted(1))
    ensures Key(b) !in UnlockSpec(s, b).0.entries
  {
  }

  /** If the caller's entry expires between GET and DEL, DEL removes nothing and unlock still returns normally. */
  lemma UnlockExpiredBeforeDelete(s: StoreState, b: LockBean)
    requires Key(b) in s.entries && s.entries[Key(b)].owner == b.owner
    requires s.env == map[s.commands + 3 := Expired(Key(b))]
    ensures UnlockSpec(s, b).1 == Return(Deleted(0))
    ensures UnlockSpec(s, b).0.entries == s.entries - {Key(b)}
  {
  }

  // ---------------------------------------------------------------------
  // lock and unlock together

  /** A release targets the entry its acquire created: lock then unlock with the same request restores the entries. */
  lemma LockThenUnlock(s: StoreState, z: SleepState, b: LockBean)
    requires Quiet(s) && Key(b) !in s.entries && b.retryTime >= 0
    ensures var r := LockSpec(s, z, b);
      && r.out == Return(true)
      && UnlockSpec(r.store, b).1 == Return(Deleted(1))
      && UnlockSpec(r.store, b).0.entries == s.entries
      && UnlockSpec(r.store, b).0.open == s.open
  {
    LockUncontended(s, z, b);
    var r := LockSpec(s, z, b);
    UnlockQuiet(r.store, b);
    assert r.store.entries - {Key(b)} == s.entries;
  }

  /**
   * Mutual exclusion against one store: after one request takes a key, a
   * second request for the same key, whatever its owner, gets false and the
   * first holder's entry stays.
   */
  lemma MutualExclusion(s: StoreState, z: SleepState, b1: LockBean, b2: LockBean)
    requires Quiet(s) && Key(b1) !in s.entries && b1.retryTime >= 0
    requires Key(b2) == Key(b1) && b2.retryDelay >= 0 && NoInterruptsAhead(z)
    ensures var r1 := LockSpec(s, z, b1);
      var r2 := LockSpec(r1.store, r1.thread, b2);
      && r1.out == Return(true)
      && r2.out == Return(false)
      && r2.store.entries == s.entries[Key(b1) := Value(b1)]
  {
    LockUncontended(s, z, b1);
    var r1 := LockSpec(s, z, b1);
    LockContended(r1.store, r1.thread, b2);
  }

  /** Releasing with a different owner neither removes nor alters the holder's lock. */
  lemma ReleaseByOtherKeepsLock(s: StoreState, z: SleepState, b1: LockBean, b2: LockBean)
    requires Quiet(s) && Key(b1) !in s.entries && b1.retryTime >= 0
    requires Key(b2) == Key(b1) && b2.owner != b1.owner
    ensures var r1 := LockSpec(s, z, b1);
      && UnlockSpec(r1.store, b2).1 == Return(HeldByOther(b1.owner))
      && UnlockSpec(r1.store, b2).0.entries == r1.store.entries
      && r1.store.entries[Key(b1)] == Value(b1)
  {
    LockUncontended(s, z, b1);
    var r1 := LockSpec(s, z, b1);
    UnlockQuiet(r1.store, b2);
  }

  /**
   * A scenario: workerA takes order/42 on an empty store at the first
   * attempt; workerB, with two retries, tries three times and gets false;
   * workerA releases; workerB then takes it at its first attempt.
   */
  lemma OrderScenario()
    ensures var s0 := StoreState(map[], map[], 0, 0, 0, 0, 0);
      var z0 := SleepState({}, 0);
      var a := LockBean("order", "42", "workerA", 30, 2, 100);
      var b := LockBean("order", "42", "workerB", 30, 2, 100);
      var r1 := LockSpec(s0, z0, a);
      var r2 := LockSpec(r1.store, r1.thread, b);
      var u := UnlockSpec(r2.store, a);
      var r3 := LockSpec(u.0, r2.thread, b);
      && r1.out == Return(true) && r1.store.sets == 1
      && r2.out == Return(false) && r2.store.sets == 4 && r2.thread.sleeps == 3
      && u.1 == Return(Deleted(1)) && u.0.entries == map[]
      && r3.out == Return(true) && r3.store.sets == 5
      && r3.store.entries == map["order42" := Entry("workerB", 30)]
      && r3.store.open == 0
  {
    var s0 := StoreState(map[], map[], 0, 0, 0, 0, 0);
    var z0 := SleepState({}, 0);
    var a := LockBean("order", "42", "workerA", 30, 2, 100);
    var b := LockBean("order", "42", "workerB", 30, 2, 100);
    LockUncontended(s0, z0, a);
    var r1 := LockSpec(s0, z0, a);
    LockContended(r1.store, r1.thread, b);
    var r2 := LockSpec(r1.store, r1.thread, b);
    UnlockQuiet(r2.store, a);
    var u := UnlockSpec(r2.store, a);
    assert u.0.entries == map[];
    LockUncontended(u.0, r2.thread, b);
    var r3 := LockSpec(u.0, r2.thread, b);
    assert Key(b) == "order42";
    assert r3.out == Return(true);
    assert r3.store.sets == 5;
    assert r3.store.entries == map["order42" := Entry("workerB", 30)];
    assert r2.store.sets == 4;
    assert r2.thread.sleeps == 3;
  }
}
