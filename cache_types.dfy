/** Value types shared by the cache entry and the cache engine. */
module CacheTypes {
  import opened Wrappers

  /** A strictly positive duration, in ticks. */
  type pos = x: int | x > 0 witness 1

  /** A compaction percentage the options accept: a fraction in [0, 1]. */
  type Percentage = r: real | 0.0 <= r <= 1.0 witness 0.0

  /** Ticks in one minute (a tick is 100 nanoseconds). */
  const TicksPerMinute: int := 600_000_000

  /** Why an entry left the cache; `NoReason` is the source's `None`. */
  datatype EvictionReason = NoReason | Removed | Replaced | Expired | TokenExpired | Capacity

  /** Eviction priority; only the first three are candidates for capacity eviction. */
  datatype Priority = Low | Normal | High | NeverRemove

  /** An external change signal, reduced to its identity and whether it has fired. */
  datatype ChangeToken = ChangeToken(id: nat, hasChanged: bool)

  /** An eviction callback registration: the delegate (absent when null) and its state. */
  datatype Registration = Registration(callback: Option<nat>, state: int)

  /** One call made to an eviction callback: which delegate, with which arguments. */
  datatype Notification<K, V> = Notification(callback: nat, key: K, value: Option<V>, reason: EvictionReason, state: int)

  /** The exceptions the core throws. */
  datatype Error = ArgumentNull | ArgumentOutOfRange | ObjectDisposed | InvalidOperation
}
