/**
 * The acquire and release protocol of the Redis lock service, as functions
 * of the store's state, the sleeping thread's state and the lock request.
 * The methods of LockServiceRedis.LockServiceRedisImpl are proved to
 * compute exactly these functions.
 */
module LockProtocol {
  import opened LockTypes
  import opened RedisStore
  import opened Threads

  /** The store key of a lock: the lock type followed by the lock key. */
  function Key(b: LockBean): (k: string) {
    b.lockType + b.lockKey
  }

  /** What a successful acquire stores under the key. */
  function Value(b: LockBean): (e: Entry) {
    Entry(b.owner, b.maxLockTime)
  }

  /** The number of set-if-absent attempts lock allows: the loop runs i = 1 .. retryTime + 1. */
  function Attempts(b: LockBean): (n: nat) {
    if b.retryTime + 1 > 0 then b.retryTime + 1 else 0
  }

  /** The state of store and thread after a call, and how the call ended. */
  datatype Run<T> = Run(store: StoreState, thread: SleepState, out: Outcome<T>)

  /** How a failed sleep surfaces. */
  function SleepFailure(w: Wake): (x: LockException)
    requires w != Woke
  {
    LockException(if w == InterruptedEx then Interrupted else NegativeDelay)
  }

  /**
   * Attempts i .. n of lock's loop: set-if-absent; on success stop with true;
   * on "already present" sleep and go on; any failure ends the loop with an
   * exception; after attempt n the answer is false.
   */
  function TryFrom(s: StoreState, z: SleepState, key: string, e: Entry, delay: int, i: nat, n: nat): (r: Run<bool>)
    requires 1 <= i <= n + 1
    ensures r.store.open == s.open
    decreases n + 1 - i
  {
    if i > n then Run(s, z, Return(false))
    else
      var (s1, reply) := SetIfAbsentStep(s, key, e);
      if reply.Failed? then Run(s1, z, Throw(LockException(StoreFailure)))
      else if reply.value then Run(s1, z, Return(true))
      else
        var (z1, w) := SleepStep(z, delay);
        if w == Woke then TryFrom(s1, z1, key, e, delay, i + 1, n)
        else Run(s1, z1, Throw(SleepFailure(w)))
  }

  /** lock: open a connection, run the attempts, close the connection on every path it was opened. */
  function LockSpec(s: StoreState, z: SleepState, b: LockBean): (r: Run<bool>) {
    var (s1, connected) := ConnectStep(s);
    if !connected then Run(s1, z, Throw(LockException(StoreFailure)))
    else
      var r := TryFrom(s1, z, Key(b), Value(b), b.retryDelay, 1, Attempts(b));
      r.(store := CloseStep(r.store))
  }

  /** What unlock found, as its log line reports it. */
  datatype Release =
    | NotHeld                       // no entry under the key
    | Deleted(count: nat)           // the entry was the caller's; DEL removed `count` keys
    | HeldByOther(realOwner: string) // the entry belongs to someone else and is left alone

  /** unlock: read the key; delete it only when the stored holder is the caller. */
  function UnlockSpec(s: StoreState, b: LockBean): (r: (StoreState, Outcome<Release>)) {
    var (s1, connected) := ConnectStep(s);
    if !connected then (s1, Throw(LockException(StoreFailure)))
    else
      var (s2, got) := GetStep(s1, Key(b));
      if got.Failed? then (CloseStep(s2), Throw(LockException(StoreFailure)))
      else match got.value
        case None => (CloseStep(s2), Return(NotHeld))
        case Some(holder) =>
          if holder == b.owner then
            var (s3, deleted) := DelStep(s2, Key(b));
            if deleted.Failed? then (CloseStep(s3), Throw(LockException(StoreFailure)))
            else (CloseStep(s3), Return(Deleted(deleted.value)))
          else (CloseStep(s2), Return(HeldByOther(holder)))
  }
}
