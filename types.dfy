/** Values shared by the lock service, its store and its callers. */
module LockTypes {

  datatype Option<T> = None | Some(value: T)

  /**
   * One lock request (the LockBean a caller hands to lock and unlock).
   * `maxLockTime` is the expiry, in seconds, asked of the store; `retryTime`
   * the number of attempts after the first; `retryDelay` the pause, in
   * milliseconds, after each failed attempt.
   */
  datatype LockBean = LockBean(
    lockType: string,
    lockKey: string,
    owner: string,
    maxLockTime: int,
    retryTime: int,
    retryDelay: int)

  /** What the store keeps under a lock key: the holder and the requested expiry. */
  datatype Entry = Entry(owner: string, ttl: int)

  /** The failure a LockException wraps. */
  datatype Cause =
    | StoreFailure    // the store could not be reached, or one of its commands failed
    | Interrupted     // the thread was interrupted while sleeping between attempts
    | NegativeDelay   // the sleep between attempts refused a negative delay

  datatype LockException = LockException(cause: Cause)

  /** How a call of the lock service ends: a normal return, or a LockException. */
  datatype Outcome<T> = Return(value: T) | Throw(error: LockException)
}
