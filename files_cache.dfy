/** The cache engine (FilesCacheImpl): a table from key to entry and the running size
    total, with the commit, read, remove, scan and compaction protocol. The clock is
    the `now` parameter (ticks); the background scan and the queued overcapacity
    compaction are recorded in ghost counters and run as the separate methods
    ScanForExpiredItems and OvercapacityCompaction. */
module FilesCaches {
  import opened Wrappers
  import opened CacheTypes
  import opened CacheEntryStacks
  import opened CacheEntryHelpers
  import opened ExpiryRules
  import opened SizeAccounting
  import opened Compaction
  import opened CacheEntries

  /** The options the engine reads (the library's MemoryCacheOptions): the size limit,
      the compaction percentage (in [0, 1], which the options' validating setter
      guarantees) and the minimum time between expiration scans. */
  datatype MemoryCacheOptions = MemoryCacheOptions(sizeLimit: Option<nat>, compactionPercentage: Percentage,
                                                   expirationScanFrequency: int)

  /** The outcome of TryGetValue: false, or true with the entry's value. */
  datatype Lookup<V> = Miss | Hit(value: Option<V>)

  /** The size function compaction is given: one per entry (Compact(double)) or the
      entry's Size (overcapacity compaction, which runs only with a size limit). */
  datatype SizeMeasure = UnitSize | EntrySize

  /** A cast of a double to an integer type, for a value within that type's range:
      truncation toward zero. C# leaves the cast of a value out of range, or of NaN,
      unspecified; that case is not modelled. */
  function Truncate(x: real): (r: int)
    ensures x >= 0.0 ==> r as real <= x < r as real + 1.0
    ensures x < 0.0 ==> r as real - 1.0 < x <= r as real
  {
    if x >= 0.0 then x.Floor else -((-x).Floor)
  }

  /** What compaction counts for an entry of size `size`. */
  function SizeCost(m: SizeMeasure, size: Option<nat>): int
  {
    if m == UnitSize then 1 else size.GetOr(0)
  }

  /** What compaction counts for entry `e`. */
  function Cost<K(==), V>(m: SizeMeasure, e: CacheEntry<K, V>): int
    reads e
  {
    SizeCost(m, e.size)
  }

  /** Compact(percentage)'s target: the entry count times the percentage, truncated. */
  function CompactTarget(count: nat, percentage: real): int
  {
    Truncate(count as real * percentage)
  }

  /** For a percentage the options accept, the target is between none and all entries. */
  lemma CompactTargetBounds(count: nat, percentage: real)
    requires 0.0 <= percentage <= 1.0
    ensures 0 <= CompactTarget(count, percentage) <= count
  {
    var x := count as real * percentage;
    assert 0.0 <= x <= count as real by {
      assert count as real * (1.0 - percentage) >= 0.0;
    }
  }

  /** OvercapacityCompaction's test and target: with a size limit and a total above the
      (1 - percentage) share of the limit, a compaction towards that share, truncated;
      without a limit, or at or below the share, none. */
  function OvercapacityTarget(total: int, limit: Option<nat>, percentage: real): Option<int>
  {
    if limit.Some? && total as real > limit.value as real * (1.0 - percentage) then
      Some(total - Truncate(limit.value as real * (1.0 - percentage)))
    else
      None
  }

  /** The share of the limit overcapacity compaction aims for, for a percentage the
      options accept, is not negative. */
  lemma ShareNonNegative(limit: nat, percentage: real)
    requires percentage <= 1.0
    ensures limit as real * (1.0 - percentage) >= 0.0
  {
  }

  /** A queued compaction that runs has something to remove. */
  lemma OvercapacityTargetPositive(total: int, limit: Option<nat>, percentage: real)
    requires percentage <= 1.0 && OvercapacityTarget(total, limit, percentage).Some?
    ensures OvercapacityTarget(total, limit, percentage).value >= 1
  {
    ShareNonNegative(limit.value, percentage);
  }

  /** Once the removed size meets the target, the total is back at or below the share. */
  lemma OvercapacityCompactionReachesShare(total: int, limit: nat, percentage: real, removed: int)
    requires percentage <= 1.0 && OvercapacityTarget(total, Some(limit), percentage).Some?
    requires removed >= OvercapacityTarget(total, Some(limit), percentage).value
    ensures (total - removed) as real <= limit as real * (1.0 - percentage)
  {
    ShareNonNegative(limit, percentage);
  }

  /** The keys of the entries a list of candidates refers to. */
  ghost function KeysOf<K, V>(cs: seq<Candidate<CacheEntry<K, V>>>): set<K>
  {
    set c | c in cs :: c.item.key
  }

  /** The state SetEntry gives a committed entry before checking it: the absolute
      expiration resolved and the entry accessed now. */
  ghost function Arriving(s: ExpiryState, relative: Option<pos>, now: int): ExpiryState
  {
    s.(absolute := ResolveAbsolute(now, relative, s.absolute), lastAccessed := now)
  }

  /** What a commit reads of the cache and the entry before it starts: the table, the
      total, the queued compactions and how far the total is ahead of the table's sum;
      the entry's expiry state and its other fields (with the added flag it has once it
      is committed); and the entry its key held, with that entry's state and fields. */
  datatype CommitBase<K(==), V> = CommitBase(entries: map<K, CacheEntry<K, V>>, cacheSize: int, queued: nat,
                                             unaccounted: int, state: ExpiryState, others: EntryFields<K, V>,
                                             prior: Option<(CacheEntry<K, V>, ExpiryState, EntryFields<K, V>)>)

  /** `par`, the entry that receives the options of `entry` after a commit from `b`, is
      neither that entry nor the one it replaced. */
  ghost predicate Bystander<K, V>(b: CommitBase<K, V>, entry: CacheEntry<K, V>, par: Option<CacheEntry<K, V>>)
  {
    par.Some? && par.value != entry && (b.prior.None? || par.value != b.prior.value.0)
  }

  /** The eviction callbacks of an entry under `key` have been run once, in values: with
      expiry state `s` and other fields `o` now, and other fields `o0` before, the list was
      claimed and each delegate in it was called with the entry's current reason. */
  ghost predicate RanOnce<K, V>(key: K, s: ExpiryState, o: EntryFields<K, V>, o0: EntryFields<K, V>)
  {
    o.2 == None && o.7 == o0.7 + Fired(o0.2.GetOr([]), key, o.0, s.reason)
  }

  /** What a commit of `entry` at `now` under size limit `limit` has done, from `b` to
      `a`: the entry's absolute expiration is resolved and it is accessed now and checked;
      it takes its key when it fits and is not expired, and otherwise loses it, its
      callbacks run, and it is marked Capacity when it did not fit; the prior entry is
      marked Replaced and its callbacks run, its other fields kept. With a limit the total gains the entry's
      size when it fits and loses the prior entry's size; so it runs ahead of the table's
      sum by Leaked more than before. The entry is marked added and, apart from its
      callbacks, keeps its other fields. */
  ghost predicate Commits<K, V>(limit: Option<nat>, b: CommitBase<K, V>, a: CommitBase<K, V>, entry: CacheEntry<K, V>, now: int)
  {
    var arriving := Arriving(b.state, b.others.1, now);
    var size := b.others.4.GetOr(0);
    var exceeds := ExceedsCapacity(limit, b.cacheSize, size);
    var expired := ExpiredAt(arriving, now);
    a.queued == b.queued + (if exceeds then 1 else 0)
    && (!exceeds && !expired ==>
          a.entries == b.entries[entry.key := entry] && a.state == Checked(arriving, now)
          && a.others == b.others)
    && (exceeds || expired ==>
          a.entries == b.entries - {entry.key} && RanOnce(entry.key, a.state, a.others, b.others)
          && a.others == b.others.(2 := None, 7 := a.others.7)
          && a.state == if exceeds then MarkExpired(Checked(arriving, now), Capacity) else Checked(arriving, now))
    && (b.prior.Some? ==>
          a.prior.Some? &&
          var (p, ps, po) := b.prior.value;
          var (_, ps', po') := a.prior.value;
          ps' == MarkExpired(ps, Replaced) && RanOnce(p.key, ps', po', po) && po' == po.(2 := None, 7 := po'.7))
    && (limit.Some? ==>
          a.cacheSize == (if exceeds then b.cacheSize else b.cacheSize + size)
                         - (if b.prior.Some? then b.prior.value.2.4.GetOr(0) else 0)
          && a.unaccounted == b.unaccounted + Leaked(limit, b, now))
    && (limit.None? ==> a.cacheSize == 0)
  }

  /** The size a commit from `b` at `now` leaves in the total without an entry in the
      table to account for it: the capacity check adds the size of an entry that fits,
      and when that entry is then discarded as expired on arrival nothing takes the size
      off again. */
  ghost function Leaked<K, V>(limit: Option<nat>, b: CommitBase<K, V>, now: int): int
  {
    var size := b.others.4.GetOr(0);
    if limit.Some? && !ExceedsCapacity(limit, b.cacheSize, size) && ExpiredAt(Arriving(b.state, b.others.1, now), now)
    then size else 0
  }

  /** A commit in its two halves: the steps before the entry is installed or discarded
      (from `b` to `m`: arrival, the prior entry marked Replaced, the capacity check)
      and the install or discard (from `m` to `a`) together make Commits. */
  lemma CommitSteps<K, V>(limit: Option<nat>, b: CommitBase<K, V>, m: CommitBase<K, V>, a: CommitBase<K, V>,
                          entry: CacheEntry<K, V>, now: int, exceeds: bool, expired: bool)
    requires limit.None? ==> b.cacheSize == 0
    requires m.entries == b.entries && m.queued == b.queued
    requires b.prior.Some? <==> m.prior.Some?
    requires b.prior.Some? ==>
      m.prior.value.0 == b.prior.value.0 && m.prior.value.1 == MarkExpired(b.prior.value.1, Replaced)
      && m.prior.value.2 == b.prior.value.2
    requires exceeds == ExceedsCapacity(limit, b.cacheSize, b.others.4.GetOr(0))
    requires var added := if limit.Some? && !exceeds then b.others.4.GetOr(0) else 0;
      m.cacheSize == b.cacheSize + added && m.unaccounted == b.unaccounted + added
    requires expired == ExpiredAt(Arriving(b.state, b.others.1, now), now)
    requires m.state == Checked(Arriving(b.state, b.others.1, now), now) && m.others == b.others
    requires !exceeds && !expired ==>
      a.entries == m.entries[entry.key := entry] && a.state == m.state && a.others == m.others
    requires exceeds || expired ==>
      a.entries == m.entries - {entry.key} && RanOnce(entry.key, a.state, a.others, m.others)
      && a.others == m.others.(2 := None, 7 := a.others.7)
      && a.state == if exceeds then MarkExpired(m.state, Capacity) else m.state
    requires a.queued == m.queued + (if exceeds then 1 else 0)
    requires a.cacheSize == m.cacheSize - (if limit.Some? && m.prior.Some? then m.prior.value.2.4.GetOr(0) else 0)
    requires a.unaccounted == m.unaccounted - (if limit.Some? && !exceeds && !expired then m.others.4.GetOr(0) else 0)
    requires m.prior.Some? <==> a.prior.Some?
    requires m.prior.Some? ==>
      a.prior.value.1 == m.prior.value.1 && RanOnce(m.prior.value.0.key, a.prior.value.1, a.prior.value.2, m.prior.value.2)
      && a.prior.value.2 == m.prior.value.2.(2 := None, 7 := a.prior.value.2.7)
    ensures Commits(limit, b, a, entry, now)
  {
  }

  /** Entry `e`, whose other fields were `o0`, has had its eviction callbacks run once:
      the list is claimed, each delegate in it was called with the entry's reason, and
      its other fields are as they were. */
  ghost predicate CallbacksRan<K, V>(e: CacheEntry<K, V>, o0: EntryFields<K, V>)
    reads e
  {
    RanOnce(e.key, e.State(), e.Others(), o0) && e.Others() == o0.(2 := None, 7 := e.notified)
  }

  /** Taking one element out of a finite set makes it smaller: the loops over the
      table's keys terminate. */
  lemma SetShrinks<T>(s: set<T>, x: T)
    requires x in s
    ensures |s - {x}| < |s|
  {
  }

  /** A scan in progress: the snapshot of the table it walks, each snapshot entry's
      expiry state and other fields when the scan began, and the keys still to check. */
  datatype Sweep<K(==), V> = Sweep(snap: map<K, CacheEntry<K, V>>, pre: map<K, (ExpiryState, EntryFields<K, V>)>,
                                   rest: set<K>)

  /** The first loop of Compact in progress: each entry's expiry state and other fields
      when it began, the keys still to visit, the keys visited in order and what was seen
      of each, the size measure and the time. */
  datatype Listing<K(==), V> = Listing(pre: map<K, (ExpiryState, EntryFields<K, V>)>, rest: set<K>, keys: seq<K>,
                                       cands: seq<Candidate<CacheEntry<K, V>>>, m: SizeMeasure, now: int)

  /** Compaction's view of the table at one stage: the entries under their keys, each
      key's expiry state and other fields at the start of the stage, and the keys dealt
      with so far in it (marked expired, or removed). */
  datatype Marking<K(==), V> = Marking(objs: map<K, CacheEntry<K, V>>, pre: map<K, (ExpiryState, EntryFields<K, V>)>,
                                       done: set<K>)

  /** The bucket passes so far: the entries under the keys `g.done` have been marked
      expired for Capacity since `g.pre`; all their other fields, and every other entry,
      are as in `g.pre`. */
  ghost predicate Marked<K, V>(g: Marking<K, V>)
    reads g.objs.Values
  {
    g.objs.Keys <= g.pre.Keys
    && forall k | k in g.objs ::
         g.objs[k].key == k && g.objs[k].Others() == g.pre[k].1
         && g.objs[k].State() == if k in g.done then MarkExpired(g.pre[k].0, Capacity) else g.pre[k].0
  }

  /** Each state of `pre` checked at `now`, as the first loop of Compact leaves it. */
  ghost function CheckedStates<K, V>(pre: map<K, (ExpiryState, EntryFields<K, V>)>, now: int)
    : map<K, (ExpiryState, EntryFields<K, V>)>
  {
    map k | k in pre :: (Checked(pre[k].0, now), pre[k].1)
  }

  /** The states the bucket passes described by `g` leave. */
  ghost function MarkedStates<K, V>(g: Marking<K, V>): map<K, (ExpiryState, EntryFields<K, V>)>
  {
    map k | k in g.pre :: (if k in g.done then MarkExpired(g.pre[k].0, Capacity) else g.pre[k].0, g.pre[k].1)
  }

  /** What the first loop of Compact saw, in values: `keys` lists the keys of `objs`
      once each in visiting order, and `cands[i]` records the entry under `keys[i]`,
      whether it was found expired at `now`, and its priority, LastAccessed and cost
      under `m`, all read from `pre`. */
  ghost predicate Listed<K, V>(pre: map<K, (ExpiryState, EntryFields<K, V>)>, keys: seq<K>,
                               cands: seq<Candidate<CacheEntry<K, V>>>, objs: map<K, CacheEntry<K, V>>,
                               m: SizeMeasure, now: int)
  {
    |keys| == |cands| && objs.Keys == pre.Keys
    && (forall i, j | 0 <= i < j < |keys| :: keys[i] != keys[j])
    && (forall k | k in objs :: objs[k].key == k && k in keys)
    && forall i | 0 <= i < |keys| ::
         keys[i] in objs
         && cands[i] == Candidate(objs[keys[i]], ExpiredAt(pre[keys[i]].0, now), pre[keys[i]].1.3,
                                  pre[keys[i]].0.lastAccessed, SizeCost(m, pre[keys[i]].1.4))
  }

  /** Every candidate of a listing is the entry under its own key. */
  lemma ListedItems<K, V>(pre: map<K, (ExpiryState, EntryFields<K, V>)>, keys: seq<K>,
                          cands: seq<Candidate<CacheEntry<K, V>>>, objs: map<K, CacheEntry<K, V>>,
                          m: SizeMeasure, now: int)
    requires Listed(pre, keys, cands, objs, m, now)
    ensures forall c | c in cands :: c.item.key in objs && objs[c.item.key] == c.item
  {
    forall c | c in cands ensures c.item.key in objs && objs[c.item.key] == c.item {
      var i :| 0 <= i < |cands| && cands[i] == c;
      assert keys[i] in objs;
    }
  }

  lemma KeysOfAppend<K, V>(cs: seq<Candidate<CacheEntry<K, V>>>, c: Candidate<CacheEntry<K, V>>)
    ensures KeysOf(cs + [c]) == KeysOf(cs) + {c.item.key}
  {
  }

  /** What compaction removes are entries of the table, each under its own key. */
  lemma SelectionInTable<K, V>(cands: seq<Candidate<CacheEntry<K, V>>>, target: int, objs: map<K, CacheEntry<K, V>>)
    requires forall c | c in cands :: c.item.key in objs && objs[c.item.key] == c.item
    ensures forall c | c in Selection(cands, target) :: c.item.key in objs && objs[c.item.key] == c.item
    ensures ItemsOf(Selection(cands, target)) <= objs.Values
  {
    SelectionSparesNeverRemove(cands, target);
    forall e | e in ItemsOf(Selection(cands, target)) ensures e in objs.Values {
      var c :| c in Selection(cands, target) && c.item == e;
      assert objs[c.item.key] == e;
    }
  }

  /** The keys of the entries the bucket passes of a compaction take. */
  ghost function BucketKeys<K, V>(cands: seq<Candidate<CacheEntry<K, V>>>, target: int): set<K>
  {
    var p := PlanOf(cands, target);
    KeysOf(p.low + p.normal + p.high)
  }

  /** One more candidate of a list adds its key. */
  lemma KeysOfPrefix<K, V>(cs: seq<Candidate<CacheEntry<K, V>>>, i: nat)
    requires i < |cs|
    ensures KeysOf(cs[..i + 1]) == KeysOf(cs[..i]) + {cs[i].item.key}
  {
    assert cs[..i + 1] == cs[..i] + [cs[i]];
    KeysOfAppend(cs[..i], cs[i]);
  }

  lemma KeysOfConcat<K, V>(a: seq<Candidate<CacheEntry<K, V>>>, b: seq<Candidate<CacheEntry<K, V>>>)
    ensures KeysOf(a + b) == KeysOf(a) + KeysOf(b)
  {
  }

  class FilesCache<K(==), V> {
    var entries: map<K, CacheEntry<K, V>>
    var cacheSize: int
    var disposed: bool
    const options: MemoryCacheOptions
    var lastExpirationScan: int
    /** How many background expiration scans StartScanForExpiredItems has started. */
    ghost var scansStarted: nat
    /** How many overcapacity compactions a failed capacity check has queued. */
    ghost var compactionsQueued: nat

    /** The size each table entry counts for. */
    ghost function Sizes(): map<K, int>
      reads this`entries, entries.Values`size
    {
      map k | k in entries :: entries[k].size.GetOr(0)
    }

    ghost function TableSize(): int
      reads this`entries, entries.Values`size
    {
      SumValues(Sizes())
    }

    /** How far the running total is ahead of the table's sum (zero without a limit). */
    ghost function Unaccounted(): int
      reads this`entries, this`cacheSize, entries.Values`size
    {
      if options.sizeLimit.Some? then cacheSize - TableSize() else 0
    }

    /** The table invariant: each entry sits under its own key and has been committed;
        without a limit the total stays zero; with one every entry has a size, and the
        table's sum is at most the running total, which is at most the limit. */
    ghost predicate Valid()
      reads this`entries, this`cacheSize, entries.Values`added, entries.Values`size
    {
      (forall k | k in entries :: entries[k].key == k && entries[k].added)
      && (options.sizeLimit.None? ==> cacheSize == 0)
      && (options.sizeLimit.Some? ==>
            (forall k | k in entries :: entries[k].size.Some?)
            && TableSize() <= cacheSize <= options.sizeLimit.value)
    }

    /** StartScanForExpiredItems' effect: a scan starts, and the scan time moves to now,
        exactly when more than the scan frequency has passed since the last one. */
    twostate predicate ScanStep(now: int)
      reads this`lastExpirationScan, this`scansStarted
    {
      if options.expirationScanFrequency < now - old(lastExpirationScan) then
        lastExpirationScan == now && scansStarted == old(scansStarted) + 1
      else
        lastExpirationScan == old(lastExpirationScan) && scansStarted == old(scansStarted)
    }

    /** The size total of a valid cache is within [0, limit]. */
    lemma ValidBounds()
      requires Valid()
      ensures 0 <= TableSize()
      ensures options.sizeLimit.Some? ==> 0 <= cacheSize <= options.sizeLimit.value
      ensures 0 <= Unaccounted()
    {
      SumOverNonNegative(Sizes(), Sizes().Keys);
    }

    constructor(options: MemoryCacheOptions, now: int)
      ensures this.options == options
      ensures entries == map[] && cacheSize == 0 && !disposed && lastExpirationScan == now
      ensures scansStarted == 0 && compactionsQueued == 0
      ensures Valid() && Unaccounted() == 0
    {
      this.options := options;
      entries := map[];
      cacheSize := 0;
      disposed := false;
      lastExpirationScan := now;
      scansStarted := 0;
      compactionsQueued := 0;
      new;
      assert Sizes() == map[];
    }

    function CheckDisposed(): (o: Outcome<Error>)
      reads this
      ensures o.Fail? <==> disposed
      ensures o.Fail? ==> o.error == ObjectDisposed
    {
      if disposed then Fail(ObjectDisposed) else Pass
    }

    static function ValidateCacheKey(key: Option<K>): (o: Outcome<Error>)
      ensures o.Fail? <==> key.None?
      ensures o.Fail? ==> o.error == ArgumentNull
    {
      if key.None? then Fail(ArgumentNull) else Pass
    }

    /** Dispose: idempotent, and the only change is the disposed flag. */
    method Dispose()
      modifies this`disposed
      ensures disposed
    {
      if disposed {
        return;
      }
      disposed := true;
    }

    /** A new uncommitted entry for `key`, made the current scope of `ctx`; refused once the
        cache is disposed (checked first) or for a null key. The table is not touched. */
    method CreateEntry(key: Option<K>, ctx: ScopeContext<CacheEntry<K, V>>) returns (r: Result<CacheEntry<K, V>, Error>)
      modifies ctx
      ensures disposed ==> r == Failure(ObjectDisposed)
      ensures !disposed && key.None? ==> r == Failure(ArgumentNull)
      ensures r.Failure? ==> ctx.scopes == old(ctx.scopes)
      ensures r.Success? <==> !disposed && key.Some?
      ensures r.Success? ==>
        fresh(r.value) && r.value.key == key.value && !r.value.added && r.value.priority == Normal
        && r.value.State() == ExpiryState(None, None, 0, [], false, NoReason)
        && r.value.scope == ScopeLease(ctx, old(ctx.scopes).GetOr(Empty))
        && ctx.scopes == Some(Push(old(ctx.scopes).GetOr(Empty), r.value))
    {
      var o := CheckDisposed();
      if o.Fail? {
        return Failure(o.error);
      }
      o := ValidateCacheKey(key);
      if o.Fail? {
        return Failure(o.error);
      }
      var e := new CacheEntry(key.value, ctx);
      r := Success(e);
    }

    method StartScanForExpiredItems(now: int)
      modifies this`lastExpirationScan, this`scansStarted
      ensures ScanStep(now)
    {
      if !(options.expirationScanFrequency < now - lastExpirationScan) {
        return;
      }
      lastExpirationScan := now;
      scansStarted := scansStarted + 1;
    }

    /** Taking key `k` out of the table takes its size out of the table's sum. */
    lemma TableSizeRemove(oldSizes: map<K, int>, k: K)
      requires k in oldSizes && Sizes() == oldSizes - {k}
      ensures TableSize() == SumValues(oldSizes) - oldSizes[k]
    {
      SumRemove(oldSizes, k);
    }

    /** Valid and the accounting survive any change to the entries that leaves the
        table, the total, and each table entry's added flag and size as they were. */
    twostate lemma StillValid()
      requires old(Valid())
      requires entries == old(entries) && cacheSize == old(cacheSize)
      requires forall k | k in entries :: entries[k].added == old(entries[k].added) && entries[k].size == old(entries[k].size)
      ensures Valid() && Unaccounted() == old(Unaccounted())
    {
      assert Sizes() == old(Sizes());
    }

    /** Takes key `k` out of the table and, in a size-limited cache, its entry's size out
        of the total (TryRemove or Remove on the dictionary, then the Interlocked.Add). */
    method Detach(k: K)
      requires Valid() && k in entries
      modifies this`entries, this`cacheSize
      ensures Valid()
      ensures Unaccounted() == old(Unaccounted())
      ensures entries == old(entries) - {k}
      ensures cacheSize == old(cacheSize) - (if options.sizeLimit.Some? then old(entries[k].size).GetOr(0) else 0)
    {
      ghost var oldSizes := Sizes();
      var e := entries[k];
      entries := entries - {k};
      assert Sizes() == oldSizes - {k};
      TableSizeRemove(oldSizes, k);
      if options.sizeLimit.Some? {
        cacheSize := cacheSize - e.size.value;
      }
    }

    /** RemoveEntry: removes exactly the pair (entry's key, entry); a table holding another
        entry under that key, or none, is left alone. A removed entry's size leaves the
        total and its callbacks run. */
    method RemoveEntry(e: CacheEntry<K, V>)
      requires Valid()
      modifies this`entries, this`cacheSize, e
      ensures Valid()
      ensures Unaccounted() == old(Unaccounted())
      ensures old(e.key in entries && entries[e.key] == e) ==>
        entries == old(entries) - {e.key}
        && cacheSize == old(cacheSize) - (if options.sizeLimit.Some? then old(e.size).GetOr(0) else 0)
        && e.CallbacksInvoked() && e.State() == old(e.State())
      ensures !old(e.key in entries && entries[e.key] == e) ==>
        entries == old(entries) && cacheSize == old(cacheSize) && unchanged(e)
    {
      if !(e.key in entries && entries[e.key] == e) {
        return;
      }
      Detach(e.key);
      e.InvokeEvictionCallbacks();
    }

    /** Remove: a null key is refused before the disposed check. A present key leaves the
        table with its size, the entry is marked Removed (unless it already had a reason)
        and its callbacks run; a missing key changes nothing. A scan may start. */
    method Remove(key: Option<K>, now: int) returns (o: Outcome<Error>)
      requires Valid()
      modifies this`entries, this`cacheSize, this`lastExpirationScan, this`scansStarted
      modifies if key.Some? && key.value in entries then {entries[key.value]} else {}
      ensures Valid()
      ensures Unaccounted() == old(Unaccounted())
      ensures key.None? ==> o == Fail(ArgumentNull)
      ensures key.Some? && disposed ==> o == Fail(ObjectDisposed)
      ensures o.Fail? ==> entries == old(entries) && cacheSize == old(cacheSize)
                          && lastExpirationScan == old(lastExpirationScan) && scansStarted == old(scansStarted)
      ensures o.Pass? <==> key.Some? && !disposed
      ensures o.Pass? ==> ScanStep(now) && entries == old(entries) - {key.value}
      ensures o.Pass? && key.value !in old(entries) ==> cacheSize == old(cacheSize)
      ensures o.Pass? && key.value in old(entries) ==>
        var e := old(entries)[key.value];
        cacheSize == old(cacheSize) - (if options.sizeLimit.Some? then old(e.size).GetOr(0) else 0)
        && e.State() == MarkExpired(old(e.State()), Removed) && e.CallbacksInvoked()
    {
      if key.None? {
        o := Fail(ArgumentNull);
      } else if disposed {
        o := Fail(ObjectDisposed);
      } else {
        var k := key.value;
        if k in entries {
          Evict(k);
        }
        StartScanForExpiredItems(now);
        o := Pass;
      }
    }

    /** The body of Remove for a present key: out of the table with its size, marked
        Removed unless it already had a reason, callbacks run. */
    method Evict(k: K)
      requires Valid() && k in entries
      modifies this`entries, this`cacheSize, entries[k]
      ensures Valid()
      ensures Unaccounted() == old(Unaccounted())
      ensures entries == old(entries) - {k}
      ensures cacheSize == old(cacheSize) - (if options.sizeLimit.Some? then old(entries[k].size).GetOr(0) else 0)
      ensures old(entries[k]).State() == MarkExpired(old(entries[k].State()), Removed)
      ensures old(entries[k]).CallbacksInvoked()
    {
      var e := entries[k];
      Detach(k);
      label detached:
      e.SetExpired(Removed);
      e.InvokeEvictionCallbacks();
      StillValid@detached();
    }

    /** EntryExpired, the notification a token callback sends after it has marked the
        entry expired with SetExpired(TokenExpired): RemoveEntry, then a scan may start. */
    method EntryExpired(e: CacheEntry<K, V>, now: int)
      requires Valid()
      modifies this`entries, this`cacheSize, this`lastExpirationScan, this`scansStarted, e
      ensures Valid()
      ensures Unaccounted() == old(Unaccounted())
      ensures ScanStep(now)
      ensures old(e.key in entries && entries[e.key] == e) ==>
        entries == old(entries) - {e.key} && e.CallbacksInvoked() && e.State() == old(e.State())
      ensures !old(e.key in entries && entries[e.key] == e) ==> entries == old(entries) && unchanged(e)
    {
      RemoveEntry(e);
      StartScanForExpiredItems(now);
    }

    /** An entry a scan has dealt with, starting from expiry state `s0` and other fields
        `o0`: checked at `now`; an expired one has had its callbacks run, any other is
        otherwise as it was. */
    ghost predicate Swept(e: CacheEntry<K, V>, s0: ExpiryState, o0: EntryFields<K, V>, now: int)
      reads e
    {
      e.State() == Checked(s0, now)
      && if ExpiredAt(s0, now) then
           CallbacksRan(e, o0)
         else
           e.Others() == o0
    }

    /** One step of the scan: check the entry at `now`, and remove it if it is expired. */
    method ScanEntry(e: CacheEntry<K, V>, now: int) returns (expired: bool)
      requires Valid() && e.key in entries && entries[e.key] == e
      modifies this`entries, this`cacheSize, e
      ensures Valid() && Unaccounted() == old(Unaccounted())
      ensures expired == ExpiredAt(old(e.State()), now)
      ensures Swept(e, old(e.State()), old(e.Others()), now)
      ensures entries == if expired then old(entries) - {e.key} else old(entries)
    {
      expired := e.CheckExpired(now);
      StillValid();
      if expired {
        RemoveEntry(e);
      }
    }

    /** Where the scan described by `p` stands on snapshot key `k`. */
    ghost predicate KeyScanned(p: Sweep<K, V>, k: K, now: int)
      requires k in p.snap && k in p.pre
      reads this`entries, p.snap[k]
    {
      var e := p.snap[k];
      e.key == k
      && (k in entries <==> k in p.rest || !ExpiredAt(p.pre[k].0, now))
      && (k in entries ==> entries[k] == e)
      && (k in p.rest ==> e.State() == p.pre[k].0 && e.Others() == p.pre[k].1)
      && (k !in p.rest ==> Swept(e, p.pre[k].0, p.pre[k].1, now))
    }

    /** The scan's progress as `p` describes it: the table's entries are those of the
        snapshot not yet found expired, the ones still to check are as they started, and
        the others have been swept. */
    ghost predicate Scanning(p: Sweep<K, V>, now: int, unaccounted: int)
      reads this`entries, this`cacheSize, entries.Values`added, entries.Values`size, p.snap.Values
    {
      p.rest <= p.snap.Keys && p.snap.Keys == p.pre.Keys
      && Valid() && Unaccounted() == unaccounted
      && entries.Keys <= p.snap.Keys
      && (forall k | k in p.snap :: KeyScanned(p, k, now))
    }

    /** The scan advances by key `k` when the entry under `k` is the only one that changed,
        it was swept, and the table lost `k` exactly when it had expired. */
    twostate lemma ScanAdvance(p: Sweep<K, V>, new k: K, new now: int, new unaccounted: int)
      requires old(Scanning(p, now, unaccounted)) && k in p.rest
      requires forall k' | k' in p.snap && k' != k :: unchanged(p.snap[k'])
      requires Valid() && Unaccounted() == unaccounted
      requires Swept(p.snap[k], p.pre[k].0, p.pre[k].1, now)
      requires ExpiredAt(p.pre[k].0, now) ==> entries == old(entries) - {k}
      requires !ExpiredAt(p.pre[k].0, now) ==> entries == old(entries)
      ensures Scanning(Sweep(p.snap, p.pre, p.rest - {k}), now, unaccounted)
    {
    }

    /** One step of the scan: check the entry under `k` at `now`, and remove it if it is expired. */
    method ScanKey(k: K, snap: map<K, CacheEntry<K, V>>, ghost p: Sweep<K, V>, now: int, ghost unaccounted: int)
      requires Scanning(p, now, unaccounted) && p.snap == snap && k in p.rest
      modifies this`entries, this`cacheSize, snap[k]
      ensures Scanning(Sweep(p.snap, p.pre, p.rest - {k}), now, unaccounted)
    {
      var e := snap[k];
      assert forall k' | k' in snap && k' != k :: snap[k'] != e;
      var expired := ScanEntry(e, now);
      ScanAdvance(p, k, now, unaccounted);
    }

    /** The walk of the scan over the snapshot `snap`, one key at a time in no set order. */
    method SweepAll(snap: map<K, CacheEntry<K, V>>, ghost pre: map<K, (ExpiryState, EntryFields<K, V>)>, now: int,
                    ghost unaccounted: int)
      requires Scanning(Sweep(snap, pre, snap.Keys), now, unaccounted)
      modifies this`entries, this`cacheSize, snap.Values
      ensures Scanning(Sweep(snap, pre, {}), now, unaccounted)
    {
      var rest := snap.Keys;
      while rest != {}
        invariant Scanning(Sweep(snap, pre, rest), now, unaccounted)
        decreases |rest|
      {
        var k :| k in rest;
        assert |rest - {k}| < |rest|;
        ScanKey(k, snap, Sweep(snap, pre, rest), now, unaccounted);
        rest := rest - {k};
      }
    }

    /** A scan that has not started: every key of the table is still to check. */
    lemma ScanBegins(now: int)
      requires Valid()
      ensures Scanning(Sweep(entries, map k | k in entries :: (entries[k].State(), entries[k].Others()), entries.Keys),
                       now, Unaccounted())
    {
    }

    /** A scan with nothing left to check has removed exactly the expired entries, swept all. */
    twostate lemma ScanEnds(new p: Sweep<K, V>, new now: int)
      requires old(Valid())
      requires p == Sweep(old(entries), map k | k in old(entries) :: (old(entries[k].State()), old(entries[k].Others())), {})
      requires Scanning(p, now, old(Unaccounted()))
      ensures forall k :: k in entries <==> k in old(entries) && !ExpiredAt(old(entries[k].State()), now)
      ensures forall k | k in entries :: entries[k] == old(entries)[k] && entries[k].Others() == old(entries[k].Others())
      ensures forall k | k in old(entries) :: old(entries)[k].State() == Checked(old(entries[k].State()), now)
      ensures forall k | k in old(entries) && k !in entries :: old(entries)[k].CallbacksInvoked()
    {
    }

    /** ScanForExpiredItems: checks every entry at `now` and removes exactly those found
        expired; every entry is left in the state CheckExpired gives it, and the callbacks
        of exactly the removed ones run. */
    method ScanForExpiredItems(now: int)
      requires Valid()
      modifies this`entries, this`cacheSize, entries.Values
      ensures Valid()
      ensures Unaccounted() == old(Unaccounted())
      ensures forall k :: k in entries <==> k in old(entries) && !ExpiredAt(old(entries[k].State()), now)
      ensures forall k | k in entries :: entries[k] == old(entries)[k] && entries[k].Others() == old(entries[k].Others())
      ensures forall k | k in old(entries) :: old(entries)[k].State() == Checked(old(entries[k].State()), now)
      ensures forall k | k in old(entries) && k !in entries :: old(entries)[k].CallbacksInvoked()
    {
      var snap := entries;
      ScanBegins(now);
      ghost var pre := map k | k in snap :: (snap[k].State(), snap[k].Others());
      SweepAll(snap, pre, now, Unaccounted());
      ScanEnds(Sweep(snap, pre, {}), now);
    }

    /** What reading the present entry `e` at `now` does, with `ctx` the caller's scope slot:
        `e` is checked; one found expired for any reason other than Replaced leaves the
        table with its size, its callbacks run, and the read misses; any other is a hit:
        it is accessed now, and the innermost open entry, if any, takes its tokens and the
        earlier of the two absolute expirations. When that open entry is `e` itself and
        has tokens, the read fails, `e` having gained its first token a second time. */
    twostate predicate ReadOutcome(e: CacheEntry<K, V>, now: int, ctx: ScopeContext<CacheEntry<K, V>>,
                                   new r: Result<Lookup<V>, Error>)
      reads this`entries, this`cacheSize, e, ctx, ctx.TopEntries()
    {
      var s := Checked(old(e.State()), now);
      var par := Peek(old(ctx.scopes).GetOr(Empty));
      if ExpiredAt(old(e.State()), now) && s.reason != Replaced then
        r == Success(Miss) && entries == old(entries) - {e.key} && e.State() == s && e.CallbacksInvoked()
        && ctx.scopes == old(ctx.scopes)
      else
        entries == old(entries) && cacheSize == old(cacheSize) && e.Others() == old(e.Others())
        && ctx.scopes == Some(old(ctx.scopes).GetOr(Empty))
        && (par == Some(e) && s.tokens != [] ==>
              r == Failure(InvalidOperation) && e.State() == s.(lastAccessed := now, tokens := s.tokens + [s.tokens[0]]))
        && (par != Some(e) || s.tokens == [] ==>
              r == Success(Hit(old(e.value))) && e.State() == s.(lastAccessed := now))
        && (par.Some? && par.value != e ==>
              par.value.State() == old(par.value.State()).(tokens := old(par.value.expirationTokens) + s.tokens,
                                                           absolute := MergeAbsolute(s.absolute, old(par.value.absoluteExpiration)))
              && par.value.Others() == old(par.value.Others()))
    }

    /** The body of TryGetValue for a key the table holds. */
    method ReadEntry(e: CacheEntry<K, V>, now: int, ctx: ScopeContext<CacheEntry<K, V>>) returns (r: Result<Lookup<V>, Error>)
      requires Valid() && e.key in entries && entries[e.key] == e
      modifies this`entries, this`cacheSize, e, ctx, ctx.TopEntries()
      ensures Valid() && Unaccounted() == old(Unaccounted())
      ensures ReadOutcome(e, now, ctx, r)
    {
      var expired := e.CheckExpired(now);
      StillValid();
      if expired && e.evictionReason != Replaced {
        RemoveEntry(e);
        return Success(Miss);
      }
      r := ReadHit(e, now, ctx);
    }

    /** The read of an entry that is not evicted: accessed now, its value returned, and its
        options handed to the innermost open entry. */
    method ReadHit(e: CacheEntry<K, V>, now: int, ctx: ScopeContext<CacheEntry<K, V>>) returns (r: Result<Lookup<V>, Error>)
      requires Valid()
      modifies e, ctx, ctx.TopEntries()
      ensures Valid() && Unaccounted() == old(Unaccounted())
      ensures ctx.scopes == Some(old(ctx.scopes).GetOr(Empty))
      ensures e.Others() == old(e.Others())
      ensures var par := Peek(old(ctx.scopes).GetOr(Empty));
        && (par == Some(e) && old(e.expirationTokens) != [] ==>
              r == Failure(InvalidOperation)
              && e.State() == old(e.State()).(lastAccessed := now, tokens := old(e.expirationTokens) + [old(e.expirationTokens)[0]]))
        && (par != Some(e) || old(e.expirationTokens) == [] ==>
              r == Success(Hit(old(e.value))) && e.State() == old(e.State()).(lastAccessed := now))
        && (par.Some? && par.value != e ==>
              par.value.State() == old(par.value.State()).(tokens := old(par.value.expirationTokens) + old(e.expirationTokens),
                                                           absolute := MergeAbsolute(old(e.absoluteExpiration), old(par.value.absoluteExpiration)))
              && par.value.Others() == old(par.value.Others()))
    {
      e.SetLastAccessed(now);
      StillValid();
      var value := e.value;
      var o := HandOver(e, ctx);
      if o.Fail? {
        return Failure(o.error);
      }
      r := Success(Hit(value));
    }

    /** PropagateOptions to CacheEntryHelper.Current: the innermost open entry of `ctx`, if
        any and other than `e`, gains `e`'s tokens and the earlier of the two absolute
        expirations; `e` as its own enclosing entry fails when it has tokens. Nothing the
        table's invariant reads changes. */
    method HandOver(e: CacheEntry<K, V>, ctx: ScopeContext<CacheEntry<K, V>>) returns (o: Outcome<Error>)
      requires Valid()
      modifies ctx, ctx.TopEntries()
      ensures Valid() && Unaccounted() == old(Unaccounted())
      ensures ctx.scopes == Some(old(ctx.scopes).GetOr(Empty))
      ensures e.Others() == old(e.Others())
      ensures var par := Peek(old(ctx.scopes).GetOr(Empty));
        && (o.Fail? <==> par == Some(e) && old(e.expirationTokens) != [])
        && (o.Fail? ==> o.error == InvalidOperation
                        && e.State() == old(e.State()).(tokens := old(e.expirationTokens) + [old(e.expirationTokens)[0]]))
        && (o.Pass? ==> e.State() == old(e.State()))
        && (par != Some(e) ==> unchanged(e))
        && (par.Some? ==> par.value.size == old(par.value.size) && par.value.added == old(par.value.added))
        && (par.Some? && par.value != e ==>
              par.value.State() == old(par.value.State()).(tokens := old(par.value.expirationTokens) + old(e.expirationTokens),
                                                           absolute := MergeAbsolute(old(e.absoluteExpiration), old(par.value.absoluteExpiration)))
              && par.value.Others() == old(par.value.Others()))
    {
      var parent := ctx.Current();
      o := e.PropagateOptions(parent);
      StillValid();
    }

    /** TryGetValue: a null key is refused before the disposed check. A missing key misses
        and changes nothing but the scan; a present one is read as ReadOutcome says, and a
        scan may start unless the read failed. */
    method TryGetValue(key: Option<K>, now: int, ctx: ScopeContext<CacheEntry<K, V>>) returns (r: Result<Lookup<V>, Error>)
      requires Valid()
      modifies this`entries, this`cacheSize, this`lastExpirationScan, this`scansStarted, ctx, ctx.TopEntries()
      modifies if key.Some? && key.value in entries then {entries[key.value]} else {}
      ensures Valid() && Unaccounted() == old(Unaccounted())
      ensures key.None? ==> r == Failure(ArgumentNull)
      ensures key.Some? && disposed ==> r == Failure(ObjectDisposed)
      ensures key.None? || disposed ==>
        entries == old(entries) && cacheSize == old(cacheSize)
        && lastExpirationScan == old(lastExpirationScan) && scansStarted == old(scansStarted)
      ensures key.Some? && !disposed && key.value !in old(entries) ==>
        r == Success(Miss) && entries == old(entries) && cacheSize == old(cacheSize) && ScanStep(now)
      ensures key.Some? && !disposed && key.value in old(entries) ==>
        ReadOutcome(old(entries)[key.value], now, ctx, r)
        && (r.Success? ==> ScanStep(now))
        && (r.Failure? ==> lastExpirationScan == old(lastExpirationScan) && scansStarted == old(scansStarted))
    {
      var o := ValidateCacheKey(key);
      if o.Fail? {
        return Failure(o.error);
      }
      o := CheckDisposed();
      if o.Fail? {
        return Failure(o.error);
      }
      r := ReadKey(key.value, now, ctx);
    }

    /** The lookup TryGetValue makes once the key and the cache have passed its checks. */
    method ReadKey(key: K, now: int, ctx: ScopeContext<CacheEntry<K, V>>) returns (r: Result<Lookup<V>, Error>)
      requires Valid()
      modifies this`entries, this`cacheSize, this`lastExpirationScan, this`scansStarted, ctx, ctx.TopEntries()
      modifies if key in entries then {entries[key]} else {}
      ensures Valid() && Unaccounted() == old(Unaccounted())
      ensures key !in old(entries) ==>
        r == Success(Miss) && entries == old(entries) && cacheSize == old(cacheSize) && ScanStep(now)
      ensures key in old(entries) ==>
        ReadOutcome(old(entries)[key], now, ctx, r)
        && (r.Success? ==> ScanStep(now))
        && (r.Failure? ==> lastExpirationScan == old(lastExpirationScan) && scansStarted == old(scansStarted))
    {
      r := Success(Miss);
      if key in entries {
        r := ReadEntry(entries[key], now, ctx);
        if r.Failure? {
          return;
        }
      }
      StartScanForExpiredItems(now);
    }

    /** Storing `v` under `k` replaces what `k` counted for in the table's sum by `v`. */
    lemma TableSizeInsert(oldSizes: map<K, int>, k: K, v: int)
      requires Sizes() == oldSizes[k := v]
      ensures TableSize() == SumValues(oldSizes) - (if k in oldSizes then oldSizes[k] else 0) + v
    {
      SumUpdate(oldSizes, k, v);
      if k in oldSizes {
        SumRemove(oldSizes, k);
      } else {
        assert oldSizes - {k} == oldSizes;
      }
    }

    /** UpdateCacheSizeExceedsCapacity: without a limit the entry always fits and the total
        stays; with one, the entry's size is added exactly when the new total lies in
        [0, limit], and the answer is whether it did not. */
    method UpdateCacheSizeExceedsCapacity(entry: CacheEntry<K, V>) returns (exceeds: bool)
      requires options.sizeLimit.Some? ==> entry.size.Some?
      modifies this`cacheSize
      ensures exceeds == ExceedsCapacity(options.sizeLimit, old(cacheSize), entry.size.GetOr(0))
      ensures cacheSize == if options.sizeLimit.Some? && !exceeds then old(cacheSize) + entry.size.value else old(cacheSize)
      ensures options.sizeLimit.Some? && !exceeds ==> 0 <= cacheSize <= options.sizeLimit.value
    {
      if options.sizeLimit.None? {
        return false;
      }
      var total := cacheSize + entry.size.value;
      if 0 <= total && total <= options.sizeLimit.value {
        cacheSize := total;
        exceeds := false;
      } else {
        exceeds := true;
      }
    }

    /** TriggerOvercapacityCompaction: queues one overcapacity compaction. */
    method TriggerOvercapacityCompaction()
      modifies this`compactionsQueued
      ensures compactionsQueued == old(compactionsQueued) + 1
    {
      compactionsQueued := compactionsQueued + 1;
    }

    /** The commit of an entry that passed the capacity check and is not expired: it takes
        the key, the prior entry's size leaves the total, and the prior entry's callbacks run. */
    method Install(entry: CacheEntry<K, V>, prior: Option<CacheEntry<K, V>>)
      requires Valid() && entry.added
      requires prior.Some? <==> entry.key in entries
      requires prior.Some? ==> prior.value == entries[entry.key]
      requires forall k | k in entries :: entries[k] != entry
      requires options.sizeLimit.Some? ==> entry.size.Some? && cacheSize - TableSize() >= entry.size.value
      modifies this`entries, this`cacheSize
      modifies if prior.Some? then {prior.value} else {}
      ensures Valid()
      ensures entries == old(entries)[entry.key := entry]
      ensures cacheSize == old(cacheSize) - (if options.sizeLimit.Some? && prior.Some? then old(prior.value.size).GetOr(0) else 0)
      ensures Unaccounted() == old(Unaccounted()) - (if options.sizeLimit.Some? then entry.size.value else 0)
      ensures prior.Some? ==> prior.value.CallbacksInvoked() && prior.value.State() == old(prior.value.State())
    {
      ghost var oldSizes := Sizes();
      entries := entries[entry.key := entry];
      assert Sizes() == oldSizes[entry.key := entry.size.GetOr(0)];
      TableSizeInsert(oldSizes, entry.key, entry.size.GetOr(0));
      if prior.Some? && options.sizeLimit.Some? {
        cacheSize := cacheSize - prior.value.size.value;
      }
      label installed:
      if prior.Some? {
        prior.value.InvokeEvictionCallbacks();
        StillValid@installed();
      }
    }

    /** The discard of an entry that is expired or over capacity: an entry over capacity is
        marked Capacity and an overcapacity compaction is queued; the entry's callbacks
        run, and the prior entry, if any, is removed from the table with its size. The
        size the capacity check added for an entry that fitted stays in the total. */
    method Discard(entry: CacheEntry<K, V>, prior: Option<CacheEntry<K, V>>, exceeds: bool)
      requires Valid()
      requires prior.Some? <==> entry.key in entries
      requires prior.Some? ==> prior.value == entries[entry.key]
      requires forall k | k in entries :: entries[k] != entry
      modifies this`entries, this`cacheSize, this`compactionsQueued, entry
      modifies if prior.Some? then {prior.value} else {}
      ensures Valid()
      ensures Unaccounted() == old(Unaccounted())
      ensures entries == old(entries) - {entry.key}
      ensures cacheSize == old(cacheSize) - (if options.sizeLimit.Some? && prior.Some? then old(prior.value.size).GetOr(0) else 0)
      ensures compactionsQueued == old(compactionsQueued) + (if exceeds then 1 else 0)
      ensures entry.State() == if exceeds then MarkExpired(old(entry.State()), Capacity) else old(entry.State())
      ensures entry.CallbacksInvoked()
      ensures prior.Some? ==> prior.value.CallbacksInvoked() && prior.value.State() == old(prior.value.State())
    {
      if exceeds {
        entry.SetExpired(Capacity);
        TriggerOvercapacityCompaction();
      }
      assert Valid();
      label counted:
      entry.InvokeEvictionCallbacks();
      StillValid@counted();
      if prior.Some? {
        RemoveEntry(prior.value);
      }
    }

    /** The last step of a commit: install the entry when it fits and is not expired,
        discard it otherwise. */
    method Settle(entry: CacheEntry<K, V>, prior: Option<CacheEntry<K, V>>, exceeds: bool, expired: bool)
      requires Valid() && entry.added
      requires prior.Some? <==> entry.key in entries
      requires prior.Some? ==> prior.value == entries[entry.key]
      requires forall k | k in entries :: entries[k] != entry
      requires options.sizeLimit.Some? ==> entry.size.Some?
      requires options.sizeLimit.Some? && !exceeds && !expired ==> cacheSize - TableSize() >= entry.size.value
      modifies this`entries, this`cacheSize, this`compactionsQueued, entry
      modifies if prior.Some? then {prior.value} else {}
      ensures Valid()
      ensures !exceeds && !expired ==>
        entries == old(entries)[entry.key := entry] && entry.State() == old(entry.State()) && entry.Others() == old(entry.Others())
      ensures exceeds || expired ==>
        entries == old(entries) - {entry.key} && entry.CallbacksInvoked()
        && entry.State() == if exceeds then MarkExpired(old(entry.State()), Capacity) else old(entry.State())
      ensures compactionsQueued == old(compactionsQueued) + (if exceeds then 1 else 0)
      ensures cacheSize == old(cacheSize) - (if options.sizeLimit.Some? && prior.Some? then old(prior.value.size).GetOr(0) else 0)
      ensures Unaccounted() == old(Unaccounted()) - (if options.sizeLimit.Some? && !exceeds && !expired then entry.size.value else 0)
      ensures prior.Some? ==> prior.value.CallbacksInvoked() && prior.value.State() == old(prior.value.State())
    {
      if !expired && !exceeds {
        Install(entry, prior);
      } else {
        Discard(entry, prior, exceeds);
      }
    }

    /** The part of the state a commit of `entry` starts from. */
    ghost function Before(entry: CacheEntry<K, V>): CommitBase<K, V>
      reads this`entries, this`cacheSize, this`compactionsQueued, entries.Values`size, entry
      reads if entry.key in entries then {entries[entry.key]} else {}
    {
      CommitBase(entries, cacheSize, compactionsQueued, Unaccounted(), entry.State(), entry.Others().(5 := true),
                 if entry.key in entries then Some((entries[entry.key], entries[entry.key].State(), entries[entry.key].Others()))
                 else None)
    }

    /** The same part of the state now, with `p` the entry the key held. */
    ghost function Snap(entry: CacheEntry<K, V>, p: Option<CacheEntry<K, V>>): CommitBase<K, V>
      reads this`entries, this`cacheSize, this`compactionsQueued, entries.Values`size, entry
      reads if p.Some? then {p.value} else {}
    {
      CommitBase(entries, cacheSize, compactionsQueued, Unaccounted(), entry.State(), entry.Others(),
                 if p.Some? then Some((p.value, p.value.State(), p.value.Others())) else None)
    }

    /** What a commit of `entry` at `now` from `b` has done (Commits, for this cache's limit). */
    ghost predicate Committed(b: CommitBase<K, V>, entry: CacheEntry<K, V>, now: int)
      reads this`entries, this`cacheSize, this`compactionsQueued, entries.Values`size, entry
      reads if b.prior.Some? then {b.prior.value.0} else {}
    {
      Commits(options.sizeLimit, b, Snap(entry, if b.prior.Some? then Some(b.prior.value.0) else None), entry, now)
    }

    /** The first steps of a commit on the entry alone: the absolute expiration resolved
        (a relative expiration gives now + relative, which is kept when there was no
        absolute one or it is earlier), and the entry accessed now. */
    static method Arrive(entry: CacheEntry<K, V>, now: int)
      modifies entry
      ensures entry.State() == Arriving(old(entry.State()), entry.absoluteExpirationRelativeToNow, now)
      ensures entry.Others() == old(entry.Others())
    {
      var candidate := if entry.absoluteExpirationRelativeToNow.Some? then Some(now + entry.absoluteExpirationRelativeToNow.value)
                       else entry.absoluteExpiration;
      if candidate.Some? && (entry.absoluteExpiration.None? || candidate.value < entry.absoluteExpiration.value) {
        entry.SetAbsoluteExpiration(candidate);
      }
      entry.SetLastAccessed(now);
    }

    /** The entry the table holds under `key`, if any, marked Replaced. */
    method MarkPrior(key: K) returns (prior: Option<CacheEntry<K, V>>)
      requires Valid()
      modifies if key in entries then {entries[key]} else {}
      ensures Valid() && Unaccounted() == old(Unaccounted())
      ensures prior == if key in entries then Some(entries[key]) else None
      ensures prior.Some? ==> prior.value.State() == MarkExpired(old(prior.value.State()), Replaced)
                              && prior.value.Others() == old(prior.value.Others())
    {
      prior := None;
      if key in entries {
        prior := Some(entries[key]);
        prior.value.SetExpired(Replaced);
        StillValid();
      }
    }

    /** The steps of a commit before the entry is installed or discarded: the entry
        arrives (resolved, accessed now), the prior entry is marked Replaced, the capacity
        check runs, and the entry is checked for expiry at now. */
    method Prepare(entry: CacheEntry<K, V>, now: int) returns (prior: Option<CacheEntry<K, V>>, exceeds: bool, expired: bool)
      requires Valid()
      requires forall k | k in entries :: entries[k] != entry
      requires options.sizeLimit.Some? ==> entry.size.Some?
      modifies this`cacheSize, entry
      modifies if entry.key in entries then {entries[entry.key]} else {}
      ensures Valid() && entries == old(entries)
      ensures prior == if entry.key in entries then Some(entries[entry.key]) else None
      ensures prior.Some? ==> prior.value.State() == MarkExpired(old(prior.value.State()), Replaced)
                              && prior.value.Others() == old(prior.value.Others())
      ensures exceeds == ExceedsCapacity(options.sizeLimit, old(cacheSize), old(entry.size).GetOr(0))
      ensures cacheSize == old(cacheSize) + (if options.sizeLimit.Some? && !exceeds then old(entry.size).GetOr(0) else 0)
      ensures Unaccounted() == old(Unaccounted()) + (if options.sizeLimit.Some? && !exceeds then old(entry.size).GetOr(0) else 0)
      ensures expired == ExpiredAt(Arriving(old(entry.State()), entry.absoluteExpirationRelativeToNow, now), now)
      ensures entry.State() == Checked(Arriving(old(entry.State()), entry.absoluteExpirationRelativeToNow, now), now)
      ensures entry.Others() == old(entry.Others())
    {
      ghost var arriving := Arriving(entry.State(), entry.absoluteExpirationRelativeToNow, now);
      Arrive(entry, now);
      StillValid();
      prior := MarkPrior(entry.key);
      assert entry.State() == arriving;
      exceeds := UpdateCacheSizeExceedsCapacity(entry);
      assert Valid();
      label sized:
      expired := entry.CheckExpired(now);
      StillValid@sized();
    }

    /** The commit SetEntry makes, as the source is written (Commits, Leaked). It also
        gives back the two verdicts it acted on: whether the entry was over capacity, and
        whether it was expired on arrival. */
    method Commit(entry: CacheEntry<K, V>, now: int) returns (exceeds: bool, expired: bool)
      requires Valid() && entry.added
      requires forall k | k in entries :: entries[k] != entry
      requires options.sizeLimit.Some? ==> entry.size.Some?
      modifies this`entries, this`cacheSize, this`compactionsQueued, entry
      modifies if entry.key in entries then {entries[entry.key]} else {}
      ensures Valid()
      ensures Committed(old(Before(entry)), entry, now)
      ensures exceeds == ExceedsCapacity(options.sizeLimit, old(cacheSize), old(entry.size).GetOr(0))
      ensures expired == ExpiredAt(Arriving(old(entry.State()), entry.absoluteExpirationRelativeToNow, now), now)
    {
      ghost var b := Before(entry);
      ValidBounds();
      var prior;
      prior, exceeds, expired := Prepare(entry, now);
      ghost var m := Snap(entry, prior);
      Settle(entry, prior, exceeds, expired);
      CommitSteps(options.sizeLimit, b, m, Snap(entry, prior), entry, now, exceeds, expired);
    }

    /** What the corrected commit of `entry` at `now` from `b` has done: everything
        Commit does, except that the size Leaked has left the total again. */
    ghost predicate CommittedCorrected(b: CommitBase<K, V>, entry: CacheEntry<K, V>, now: int)
      reads this`entries, this`cacheSize, this`compactionsQueued, entries.Values`size, entry
      reads if b.prior.Some? then {b.prior.value.0} else {}
    {
      var leak := Leaked(options.sizeLimit, b, now);
      Commits(options.sizeLimit, b,
              Snap(entry, if b.prior.Some? then Some(b.prior.value.0) else None)
                .(cacheSize := cacheSize + leak, unaccounted := Unaccounted() + leak),
              entry, now)
    }

    /** The commit as evidently intended: Commit, and then the size of an entry that
        fitted but was discarded as expired on arrival leaves the total again. The total
        then stays exactly as far ahead of the table's sum as it was. */
    method CommitCorrected(entry: CacheEntry<K, V>, now: int)
      requires Valid() && entry.added
      requires forall k | k in entries :: entries[k] != entry
      requires options.sizeLimit.Some? ==> entry.size.Some?
      modifies this`entries, this`cacheSize, this`compactionsQueued, entry
      modifies if entry.key in entries then {entries[entry.key]} else {}
      ensures Valid() && Unaccounted() == old(Unaccounted())
      ensures CommittedCorrected(old(Before(entry)), entry, now)
    {
      ghost var b := Before(entry);
      ghost var prior := if b.prior.Some? then Some(b.prior.value.0) else None;
      ValidBounds();
      var exceeds, expired := Commit(entry, now);
      ghost var a := Snap(entry, prior);
      assert exceeds == ExceedsCapacity(options.sizeLimit, b.cacheSize, b.others.4.GetOr(0));
      assert expired == ExpiredAt(Arriving(b.state, b.others.1, now), now);
      var leak := if options.sizeLimit.Some? && !exceeds && expired then entry.size.value else 0;
      LeakedBound(b, a, entry, now, exceeds, expired);
      Refund(entry, prior, leak);
      RefundedCommit(b, a, entry, prior, now, exceeds, expired);
    }

    /** Takes `n` off the running total, which the table's sum stays within; of the part
        of the state a commit works on, only the total moves. */
    method Refund(ghost entry: CacheEntry<K, V>, ghost prior: Option<CacheEntry<K, V>>, n: nat)
      requires Valid() && n <= Unaccounted()
      modifies this`cacheSize
      ensures Valid()
      ensures Snap(entry, prior) == old(Snap(entry, prior)).(cacheSize := old(cacheSize) - n, unaccounted := old(Unaccounted()) - n)
    {
      cacheSize := cacheSize - n;
    }

    /** A commit from `b` to `a` as written leaves at least the size Leaked unaccounted. */
    lemma LeakedBound(b: CommitBase<K, V>, a: CommitBase<K, V>, entry: CacheEntry<K, V>, now: int, exceeds: bool, expired: bool)
      requires Commits(options.sizeLimit, b, a, entry, now) && b.unaccounted >= 0
      requires exceeds == ExceedsCapacity(options.sizeLimit, b.cacheSize, b.others.4.GetOr(0))
      requires expired == ExpiredAt(Arriving(b.state, b.others.1, now), now)
      requires options.sizeLimit.Some? ==> b.others.4.Some?
      requires a.unaccounted == Unaccounted()
      ensures options.sizeLimit.Some? && !exceeds && expired ==> b.others.4.value <= Unaccounted()
    {
    }

    /** A commit from `b` that reached `a` (as written) and has then given the size
        Leaked back has made the corrected commit. */
    lemma RefundedCommit(b: CommitBase<K, V>, a: CommitBase<K, V>, entry: CacheEntry<K, V>,
                         prior: Option<CacheEntry<K, V>>, now: int, exceeds: bool, expired: bool)
      requires Commits(options.sizeLimit, b, a, entry, now)
      requires prior == if b.prior.Some? then Some(b.prior.value.0) else None
      requires exceeds == ExceedsCapacity(options.sizeLimit, b.cacheSize, b.others.4.GetOr(0))
      requires expired == ExpiredAt(Arriving(b.state, b.others.1, now), now)
      requires var leak := if options.sizeLimit.Some? && !exceeds && expired then b.others.4.GetOr(0) else 0;
        Snap(entry, prior) == a.(cacheSize := a.cacheSize - leak, unaccounted := a.unaccounted - leak)
      requires options.sizeLimit.None? ==> b.unaccounted == 0
      ensures CommittedCorrected(b, entry, now) && Unaccounted() == b.unaccounted
    {
    }

    /** SetEntry, the commit a disposed entry sends: nothing once the cache is disposed; a
        size-limited cache refuses an entry without a size before touching anything.
        Otherwise the entry's absolute expiration is resolved, it is accessed now, a prior
        entry under its key is marked Replaced, and the capacity check runs; the entry is
        installed when it fits and is not expired, and discarded otherwise, when the prior
        entry leaves the table too. A scan may start. */
    method SetEntry(entry: CacheEntry<K, V>, now: int) returns (o: Outcome<Error>)
      requires Valid() && entry.added
      requires forall k | k in entries :: entries[k] != entry
      modifies this`entries, this`cacheSize, this`lastExpirationScan, this`scansStarted, this`compactionsQueued, entry
      modifies if entry.key in entries then {entries[entry.key]} else {}
      ensures Valid()
      ensures o.Fail? <==> !old(disposed) && options.sizeLimit.Some? && old(entry.size).None?
      ensures o.Fail? ==> o.error == InvalidOperation
      ensures old(disposed) || o.Fail? ==>
        entries == old(entries) && cacheSize == old(cacheSize) && unchanged(entry)
        && lastExpirationScan == old(lastExpirationScan) && scansStarted == old(scansStarted)
        && compactionsQueued == old(compactionsQueued)
        && (entry.key in entries ==> unchanged(entries[entry.key]))
      ensures !old(disposed) && o.Pass? ==>
        ScanStep(now) && Committed(old(Before(entry)), entry, now)
    {
      if disposed {
        o := Pass;
      } else if options.sizeLimit.Some? && entry.size.None? {
        o := Fail(InvalidOperation);
      } else {
        CommitAndScan(entry, now);
        o := Pass;
      }
    }

    /** A commit and the scan check SetEntry ends with. The check only compares the clock
        with the last scan time and queues a scan, and the commit neither reads nor writes
        either, so it is made first here; the resulting state is the same. */
    method CommitAndScan(entry: CacheEntry<K, V>, now: int)
      requires Valid() && entry.added
      requires forall k | k in entries :: entries[k] != entry
      requires options.sizeLimit.Some? ==> entry.size.Some?
      modifies this`entries, this`cacheSize, this`lastExpirationScan, this`scansStarted, this`compactionsQueued, entry
      modifies if entry.key in entries then {entries[entry.key]} else {}
      ensures Valid()
      ensures ScanStep(now) && Committed(old(Before(entry)), entry, now)
    {
      StartScanForExpiredItems(now);
      assert Before(entry) == old(Before(entry));
      var _, _ := Commit(entry, now);
    }

    /** CacheEntry.Dispose, which notifies this cache: only the first call does anything. It
        marks the entry added, puts back the scope stack the entry's constructor replaced,
        commits the entry through SetEntry and, unless that refused it, hands the entry's
        tokens and absolute expiration to the entry that is innermost again. */
    method DisposeEntry(entry: CacheEntry<K, V>, now: int) returns (o: Outcome<Error>)
      requires Valid()
      modifies this`entries, this`cacheSize, this`lastExpirationScan, this`scansStarted, this`compactionsQueued, entry
      modifies if entry.key in entries then {entries[entry.key]} else {}
      modifies entry.scope.context, Top(entry.scope.captured)
      ensures Valid()
      ensures old(entry.added) ==>
        o.Pass? && entries == old(entries) && cacheSize == old(cacheSize) && unchanged(entry)
        && unchanged(entry.scope.context)
      ensures !old(entry.added) ==>
        entry.added && old(entry.scope.context).scopes == Some(old(entry.scope.captured))
        && Notified(old(Before(entry)), entry, now, old(disposed), Peek(old(entry.scope.captured)),
                    old(StateOf(Peek(entry.scope.captured))), o)
      ensures var refused := !old(disposed) && options.sizeLimit.Some? && old(entry.size).None?;
        && (!old(entry.added) && !old(disposed) && !refused ==> ScanStep(now))
        && (old(entry.added) || old(disposed) || refused ==>
              lastExpirationScan == old(lastExpirationScan) && scansStarted == old(scansStarted))
    {
      if entry.added {
        return Pass;
      }
      var ctx := entry.scope.context;
      Open(entry);
      assert Before(entry) == old(Before(entry));
      assert StateOf(Peek(entry.scope.captured)) == old(StateOf(Peek(entry.scope.captured)));
      o := Notify(entry, now, ctx);
    }

    /** The expiry state of entry `p`, if there is one. */
    static ghost function StateOf(p: Option<CacheEntry<K, V>>): Option<ExpiryState>
      reads if p.Some? then {p.value} else {}
    {
      if p.Some? then Some(p.value.State()) else None
    }

    /** What notifying the cache and handing over the options do, from `b`, with the cache
        `disposed` or not and `par` the innermost open entry: an entry without a size is
        refused by a cache with a limit; a refused entry, or any entry once the cache is
        disposed, leaves the table and the total as they were; otherwise the entry is
        committed, as long as the open entry is neither the committed entry nor the one
        it replaces (either would have its state changed once more). Unless the entry was
        refused, an open entry other than those two gains the entry's tokens and the
        earlier of the two absolute expirations. */
    ghost predicate Notified(b: CommitBase<K, V>, entry: CacheEntry<K, V>, now: int, disposed: bool,
                             par: Option<CacheEntry<K, V>>, ps: Option<ExpiryState>, o: Outcome<Error>)
      reads this`entries, this`cacheSize, this`compactionsQueued, entries.Values`size, entry
      reads if b.prior.Some? then {b.prior.value.0} else {}
      reads if par.Some? then {par.value} else {}
    {
      var refused := !disposed && options.sizeLimit.Some? && b.others.4.None?;
      && (refused ==> o == Fail(InvalidOperation))
      && (o.Fail? ==> o.error == InvalidOperation)
      && (!refused && (par.None? || Bystander(b, entry, par)) ==> o.Pass?)
      && (disposed || refused ==> entries == b.entries && cacheSize == b.cacheSize)
      && (!disposed && o.Pass? && (par.None? || Bystander(b, entry, par)) ==> Committed(b, entry, now))
      && (!refused && Bystander(b, entry, par) && ps.Some? ==>
            par.value.State() == ps.value.(tokens := ps.value.tokens + entry.expirationTokens,
                                           absolute := MergeAbsolute(entry.absoluteExpiration, ps.value.absolute)))
    }

    /** The hand-over of options after a commit from `b` (if `committed`), which keeps
        what the commit did unless the entry that receives the options is the committed
        entry or the one it replaced. */
    method PassOn(entry: CacheEntry<K, V>, now: int, ctx: ScopeContext<CacheEntry<K, V>>, ghost b: CommitBase<K, V>,
                  ghost committed: bool, ghost ps: Option<ExpiryState>)
      returns (o: Outcome<Error>)
      requires Valid()
      requires var par := Peek(ctx.scopes.GetOr(Empty));
        && (committed && (par.None? || Bystander(b, entry, par)) ==> Committed(b, entry, now))
        && (Bystander(b, entry, par) ==> ps == StateOf(par))
      modifies ctx, ctx.TopEntries()
      ensures Valid() && Unaccounted() == old(Unaccounted())
      ensures ctx.scopes == Some(old(ctx.scopes).GetOr(Empty))
      ensures entry.Others() == old(entry.Others())
      ensures var par := Peek(old(ctx.scopes).GetOr(Empty));
        && (committed && (par.None? || Bystander(b, entry, par)) ==> Committed(b, entry, now))
        && (o.Fail? ==> o.error == InvalidOperation)
        && (par.None? || Bystander(b, entry, par) ==> o.Pass?)
        && (Bystander(b, entry, par) && ps.Some? ==>
              par.value.State() == ps.value.(tokens := ps.value.tokens + entry.expirationTokens,
                                             absolute := MergeAbsolute(entry.absoluteExpiration, ps.value.absolute)))
    {
      o := HandOver(entry, ctx);
    }

    /** The notification of the cache (SetEntry) and the hand-over of options that end
        CacheEntry.Dispose. */
    method Notify(entry: CacheEntry<K, V>, now: int, ctx: ScopeContext<CacheEntry<K, V>>) returns (o: Outcome<Error>)
      requires Valid() && entry.added
      requires forall k | k in entries :: entries[k] != entry
      modifies this`entries, this`cacheSize, this`lastExpirationScan, this`scansStarted, this`compactionsQueued, entry
      modifies if entry.key in entries then {entries[entry.key]} else {}
      modifies ctx, ctx.TopEntries()
      ensures Valid()
      ensures entry.added
      ensures ctx.scopes == if o.Pass? then Some(old(ctx.scopes).GetOr(Empty)) else old(ctx.scopes)
      ensures Notified(old(Before(entry)), entry, now, old(disposed), Peek(old(ctx.scopes).GetOr(Empty)),
                       old(StateOf(Peek(ctx.scopes.GetOr(Empty)))), o)
      ensures var refused := !old(disposed) && options.sizeLimit.Some? && old(entry.size).None?;
        && (!old(disposed) && !refused ==> ScanStep(now))
        && (old(disposed) || refused ==> lastExpirationScan == old(lastExpirationScan) && scansStarted == old(scansStarted))
    {
      ghost var b := Before(entry);
      ghost var ps := StateOf(Peek(ctx.scopes.GetOr(Empty)));
      o := SetEntry(entry, now);
      if o.Fail? {
        return;
      }
      o := PassOn(entry, now, ctx, b, !old(disposed), ps);
    }

    /** The first steps of CacheEntry.Dispose: the entry is marked added and its scope lease
        is disposed; the table is not touched. */
    method Open(entry: CacheEntry<K, V>)
      requires Valid() && !entry.added
      modifies entry, entry.scope.context
      ensures Valid() && Unaccounted() == old(Unaccounted())
      ensures forall k | k in entries :: entries[k] != entry
      ensures entry.added && entry.State() == old(entry.State()) && entry.Others() == old(entry.Others()).(5 := true)
      ensures entry.scope.context.scopes == Some(entry.scope.captured)
    {
      assert forall k | k in entries :: entries[k] != entry;
      var _ := entry.MarkAdded();
      StillValid();
      entry.scope.Dispose();
    }

    /** Each table entry's expiry state and other fields. */
    ghost function Snapshot(): map<K, (ExpiryState, EntryFields<K, V>)>
      reads this`entries, entries.Values
    {
      map k | k in entries :: (entries[k].State(), entries[k].Others())
    }

    /** Where the first loop of Compact stands, as `l` describes it: the entries still to
        visit are as they were, the visited ones have been checked at `l.now`, and
        `l.keys` lists the visited keys once each, in visiting order, with `l.cands`
        recording what the loop saw of each: the entry, whether it was found expired,
        its priority, its LastAccessed and its cost under `l.m`. */
    ghost predicate Partitioning(l: Listing<K, V>)
      reads this`entries, entries.Values
    {
      && l.pre.Keys == entries.Keys && l.rest <= entries.Keys
      && |l.keys| == |l.cands|
      && (forall i, j | 0 <= i < j < |l.keys| :: l.keys[i] != l.keys[j])
      && (forall i | 0 <= i < |l.keys| ::
            l.keys[i] in entries && l.keys[i] !in l.rest
            && l.cands[i] == Candidate(entries[l.keys[i]], ExpiredAt(l.pre[l.keys[i]].0, l.now), l.pre[l.keys[i]].1.3,
                                       l.pre[l.keys[i]].0.lastAccessed, SizeCost(l.m, l.pre[l.keys[i]].1.4)))
      && (forall k | k in entries && k !in l.rest :: k in l.keys)
      && (forall k | k in entries ::
            entries[k].key == k && entries[k].Others() == l.pre[k].1
            && entries[k].State() == if k in l.rest then l.pre[k].0 else Checked(l.pre[k].0, l.now))
    }

    /** The first loop advances by key `k` when only the entry under `k` changed, and it
        was checked at `l.now`; `c` is what the loop saw of it. */
    twostate lemma PartitionAdvance(l: Listing<K, V>, new k: K, new c: Candidate<CacheEntry<K, V>>)
      requires old(Partitioning(l)) && k in l.rest && entries == old(entries)
      requires forall k' | k' in entries && k' != k :: unchanged(entries[k'])
      requires entries[k].State() == Checked(old(entries[k].State()), l.now) && entries[k].Others() == old(entries[k].Others())
      requires c == Candidate(entries[k], ExpiredAt(old(entries[k].State()), l.now), entries[k].priority,
                              entries[k].lastAccessed, Cost(l.m, entries[k]))
      ensures Partitioning(l.(rest := l.rest - {k}, keys := l.keys + [k], cands := l.cands + [c]))
    {
    }

    /** One visit of the first loop of Compact: the entry under `k` is checked at `now`. */
    method PartitionKey(k: K, m: SizeMeasure, now: int, ghost l: Listing<K, V>) returns (c: Candidate<CacheEntry<K, V>>)
      requires Valid() && Partitioning(l) && k in l.rest && l.m == m && l.now == now
      modifies entries[k]
      ensures Valid() && Unaccounted() == old(Unaccounted())
      ensures Partitioning(l.(rest := l.rest - {k}, keys := l.keys + [k], cands := l.cands + [c]))
    {
      var e := entries[k];
      assert forall k' | k' in entries && k' != k :: entries[k'] != e;
      var expired := e.CheckExpired(now);
      StillValid();
      c := Candidate(e, expired, e.priority, e.lastAccessed, Cost(m, e));
      PartitionAdvance(l, k, c);
    }

    /** The first loop of Compact: every table entry is checked at `now` and routed to
        the lists (Route). `keys` is the enumeration order, which the table does not fix,
        and `cands` holds what the loop saw of each entry in that order. */
    method Partition(m: SizeMeasure, now: int) returns (lists: Lists<CacheEntry<K, V>>, ghost keys: seq<K>,
                                                       ghost cands: seq<Candidate<CacheEntry<K, V>>>)
      requires Valid()
      modifies entries.Values
      ensures Valid() && Unaccounted() == old(Unaccounted())
      ensures Partitioning(Listing(old(Snapshot()), {}, keys, cands, m, now))
      ensures lists == ListsOf(cands)
    {
      ghost var pre := Snapshot();
      var rest := entries.Keys;
      lists := Lists([], [], [], [], 0);
      keys, cands := [], [];
      while rest != {}
        invariant Valid() && Unaccounted() == old(Unaccounted())
        invariant Partitioning(Listing(pre, rest, keys, cands, m, now))
        invariant lists == ListsOf(cands)
        decreases |rest|
      {
        var k :| k in rest;
        var c := PartitionKey(k, m, now, Listing(pre, rest, keys, cands, m, now));
        RouteSpec(cands, c);
        lists := Route(lists, c);
        keys := keys + [k];
        cands := cands + [c];
        SetShrinks(rest, k);
        rest := rest - {k};
      }
    }

    /** ExpirePriorityBucket: nothing once the removed size meets the target; otherwise
        the bucket's entries, least recently used first, are marked Capacity and added to
        the removal list, each adding its cost, up to and including the one that makes
        the removed size reach the target (Take over SortByAccess). The cost is the one
        the candidate recorded when the table was partitioned; marking an entry expired
        does not change its size. `g` describes the passes before this one. */
    static method ExpirePriorityBucket(removed0: int, target: int, toRemove0: seq<Candidate<CacheEntry<K, V>>>,
                                       bucket: seq<Candidate<CacheEntry<K, V>>>, ghost g: Marking<K, V>)
      returns (toRemove: seq<Candidate<CacheEntry<K, V>>>, removed: int)
      requires Marked(g) && forall c | c in bucket :: c.item.key in g.objs && g.objs[c.item.key] == c.item
      modifies ItemsOf(bucket)
      ensures var t := Take(SortByAccess(bucket), removed0, target);
        toRemove == toRemove0 + t.0 && removed == t.1 && Marked(g.(done := g.done + KeysOf(t.0)))
    {
      toRemove, removed := toRemove0, removed0;
      if target <= removed {
        assert g.(done := g.done + KeysOf<K, V>([])) == g;
        return;
      }
      var sorted := SortByAccess(bucket);
      SortByAccessMembers(bucket);
      SortByAccessItems(bucket);
      TakeStart(sorted, removed, target);
      assert g.(done := g.done + KeysOf(sorted[..0])) == g;
      var i := 0;
      while i < |sorted|
        invariant 0 <= i <= |sorted| && removed < target
        invariant TakenSoFar(sorted, removed0, target, i, removed)
        invariant toRemove == toRemove0 + sorted[..i]
        invariant Marked(g.(done := g.done + KeysOf(sorted[..i])))
      {
        ghost var i0, removed1 := i, removed;
        toRemove, removed := ExpireNext(sorted, i, removed, toRemove0, toRemove, g);
        i := i + 1;
        TakeAdvance(sorted, i0, removed0, removed1, target, i, removed);
        if target <= removed {
          break;
        }
      }
      TakeStop(sorted, i, removed0, removed, target);
    }

    /** One round of the bucket pass: candidate `i` of the ordered bucket is marked
        expired for Capacity, added to the removal list, and its cost counted. */
    static method ExpireNext(sorted: seq<Candidate<CacheEntry<K, V>>>, i: nat, removed: int,
                             ghost toRemove0: seq<Candidate<CacheEntry<K, V>>>,
                             toRemove: seq<Candidate<CacheEntry<K, V>>>, ghost g: Marking<K, V>)
      returns (toRemove': seq<Candidate<CacheEntry<K, V>>>, removed': int)
      requires i < |sorted|
      requires forall c | c in sorted :: c.item.key in g.objs && g.objs[c.item.key] == c.item
      requires toRemove == toRemove0 + sorted[..i]
      requires Marked(g.(done := g.done + KeysOf(sorted[..i])))
      modifies sorted[i].item
      ensures removed' == removed + sorted[i].cost
      ensures toRemove' == toRemove0 + sorted[..i + 1]
      ensures Marked(g.(done := g.done + KeysOf(sorted[..i + 1])))
    {
      var c := sorted[i];
      assert c in sorted;
      assert sorted[..i + 1] == sorted[..i] + [c];
      KeysOfAppend(sorted[..i], c);
      MarkCapacity(c.item, g.(done := g.done + KeysOf(sorted[..i])));
      assert g.done + KeysOf(sorted[..i]) + {c.item.key} == g.done + KeysOf(sorted[..i + 1]);
      toRemove' := toRemove + [c];
      removed' := removed + c.cost;
    }

    /** One step of the bucket pass: entry `e` is marked expired for Capacity. */
    static method MarkCapacity(e: CacheEntry<K, V>, ghost g: Marking<K, V>)
      requires Marked(g) && e.key in g.objs && g.objs[e.key] == e
      modifies e
      ensures Marked(g.(done := g.done + {e.key}))
    {
      assert forall k | k in g.objs && k != e.key :: g.objs[k] != e;
      e.SetExpired(Capacity);
    }


    // ---- The rest of Compact ----

    /** The first loop of Compact, once done, in values: what it saw is Listed, and
        every entry has been checked at `l.now` and is otherwise as it was. */
    lemma MarkingBegins(l: Listing<K, V>)
      requires Partitioning(l) && l.rest == {}
      ensures Listed(l.pre, l.keys, l.cands, entries, l.m, l.now)
      ensures Marked(Marking(entries, CheckedStates(l.pre, l.now), {}))
    {
      forall k | k in entries ensures k in l.keys {
      }
    }

    /** The bucket passes change no entry's added flag or size, so Valid and the
        accounting still hold. */
    twostate lemma MarkingKeepsValid(g0: Marking<K, V>, new g: Marking<K, V>)
      requires old(Valid()) && old(Marked(g0)) && g.objs == g0.objs && g.pre == g0.pre
      requires entries == old(entries) && cacheSize == old(cacheSize) && g.objs == entries
      requires Marked(g)
      ensures Valid() && Unaccounted() == old(Unaccounted())
    {
      assert forall k | k in entries :: entries[k].Others() == old(entries[k].Others());
      StillValid();
    }

    /** Where the last loop of Compact stands, as `q` describes it: the entries under the
        keys `q.done` have been removed from the table, their size leaving the total, and
        have had their eviction callbacks run once; every other entry is still in the
        table and as in `q.pre`. */
    ghost predicate Removing(q: Marking<K, V>, unaccounted: int)
      reads this`entries, this`cacheSize, entries.Values`added, entries.Values`size, q.objs.Values
    {
      Valid() && Unaccounted() == unaccounted && q.objs.Keys <= q.pre.Keys
      && entries.Keys == q.objs.Keys - q.done
      && (forall k | k in entries :: entries[k] == q.objs[k])
      && forall k | k in q.objs ::
           var e := q.objs[k];
           e.key == k && e.State() == q.pre[k].0
           && if k in q.done then
                RanOnce(k, e.State(), e.Others(), q.pre[k].1) && e.Others() == q.pre[k].1.(2 := None, 7 := e.Others().7)
              else
                e.Others() == q.pre[k].1
    }

    /** The removal loop starts from the states the bucket passes left. */
    lemma RemovalBegins(g: Marking<K, V>)
      requires Valid() && g.objs == entries && Marked(g)
      ensures Removing(Marking(entries, MarkedStates(g), {}), Unaccounted())
    {
    }

    /** The removal loop advances by key `k` when only the entry under `k` changed and
        RemoveEntry dealt with it: removed if it was still in the table, untouched if
        not. */
    twostate lemma RemovalAdvance(q: Marking<K, V>, new k: K, new unaccounted: int)
      requires old(Removing(q, unaccounted)) && k in q.objs
      requires forall k' | k' in q.objs && k' != k :: unchanged(q.objs[k'])
      requires Valid() && Unaccounted() == unaccounted
      requires old(k in entries) ==>
        entries == old(entries) - {k} && q.objs[k].CallbacksInvoked() && q.objs[k].State() == old(q.objs[k].State())
        && q.objs[k].Others() == old(q.objs[k].Others()).(2 := None, 7 := q.objs[k].notified)
      requires old(k !in entries) ==> entries == old(entries) && unchanged(q.objs[k])
      ensures Removing(q.(done := q.done + {k}), unaccounted)
    {
    }

    /** One visit of the last loop of Compact: RemoveEntry on entry `e`. */
    method RemoveKey(e: CacheEntry<K, V>, ghost q: Marking<K, V>, ghost unaccounted: int)
      requires Removing(q, unaccounted) && e.key in q.objs && q.objs[e.key] == e
      modifies this`entries, this`cacheSize, e
      ensures Removing(q.(done := q.done + {e.key}), unaccounted)
    {
      assert forall k | k in q.objs && k != e.key :: q.objs[k] != e;
      RemoveEntry(e);
      RemovalAdvance(q, e.key, unaccounted);
    }

    /** One round of the last loop of Compact: RemoveEntry on entry `i` of the list. */
    method RemoveNext(sel: seq<Candidate<CacheEntry<K, V>>>, i: nat, ghost q: Marking<K, V>, ghost unaccounted: int)
      requires i < |sel| && Removing(q.(done := KeysOf(sel[..i])), unaccounted)
      requires forall c | c in sel :: c.item.key in q.objs && q.objs[c.item.key] == c.item
      modifies this`entries, this`cacheSize, sel[i].item
      ensures Removing(q.(done := KeysOf(sel[..i + 1])), unaccounted)
    {
      var c := sel[i];
      assert c in sel;
      KeysOfPrefix(sel, i);
      RemoveKey(c.item, q.(done := KeysOf(sel[..i])), unaccounted);
    }

    /** The last loop of Compact: RemoveEntry on each entry of the removal list, in order. */
    method RemoveAll(sel: seq<Candidate<CacheEntry<K, V>>>, ghost q: Marking<K, V>, ghost unaccounted: int)
      requires Removing(q, unaccounted) && q.done == {}
      requires forall c | c in sel :: c.item.key in q.objs && q.objs[c.item.key] == c.item
      modifies this`entries, this`cacheSize, ItemsOf(sel)
      ensures Removing(q.(done := KeysOf(sel)), unaccounted)
    {
      assert q.(done := KeysOf(sel[..0])) == q;
      for i := 0 to |sel|
        invariant Removing(q.(done := KeysOf(sel[..i])), unaccounted)
      {
        RemoveNext(sel, i, q, unaccounted);
      }
      assert sel[..|sel|] == sel;
    }

    /** The removal loop, once done, has taken exactly the keys `q.done` out of the table. */
    lemma RemovedFromTable(q: Marking<K, V>, unaccounted: int)
      requires Removing(q, unaccounted)
      ensures entries == q.objs - q.done
    {
    }

    /** The three bucket passes of Compact, Low, Normal and High in turn, each going on
        from the removal list and the removed size the one before left: the list ends up
        as Selection, and exactly the bucket part of it has been marked. */
    method MarkBuckets(lists: Lists<CacheEntry<K, V>>, target: int, ghost cands: seq<Candidate<CacheEntry<K, V>>>,
                       ghost g: Marking<K, V>)
      returns (toRemove: seq<Candidate<CacheEntry<K, V>>>)
      requires Valid() && lists == ListsOf(cands) && Marked(g) && g.done == {} && g.objs == entries
      requires forall c | c in cands :: c.item.key in g.objs && g.objs[c.item.key] == c.item
      modifies ItemsOf(cands)
      ensures Valid() && Unaccounted() == old(Unaccounted())
      ensures toRemove == Selection(cands, target)
      ensures Marked(g.(done := BucketKeys(cands, target)))
    {
      ghost var p := PlanOf(cands, target);
      ghost var l := Take(SortByAccess(lists.low), lists.removed, target);
      ghost var n := Take(SortByAccess(lists.normal), l.1, target);
      assert l.0 == p.low && n.0 == p.normal && Take(SortByAccess(lists.high), n.1, target).0 == p.high;
      ghost var dl := KeysOf(p.low);
      ghost var dn := dl + KeysOf(p.normal);
      ghost var dh := dn + KeysOf(p.high);
      assert g.done + KeysOf(p.low) == dl;
      KeysOfConcat(p.low, p.normal);
      KeysOfConcat(p.low + p.normal, p.high);
      assert dh == BucketKeys(cands, target);
      BucketsInTable(cands, g);
      var removed;
      toRemove, removed := ExpirePriorityBucket(lists.removed, target, lists.toRemove, lists.low, g);
      toRemove, removed := ExpirePriorityBucket(removed, target, toRemove, lists.normal, g.(done := dl));
      toRemove, removed := ExpirePriorityBucket(removed, target, toRemove, lists.high, g.(done := dn));
      MarkingKeepsValid(g, g.(done := dh));
    }

    /** The bucket lists hold entries of the table, each under its own key. */
    static lemma BucketsInTable(cands: seq<Candidate<CacheEntry<K, V>>>, g: Marking<K, V>)
      requires forall c | c in cands :: c.item.key in g.objs && g.objs[c.item.key] == c.item
      ensures forall c | c in ListsOf(cands).low :: c.item.key in g.objs && g.objs[c.item.key] == c.item && c.item in ItemsOf(cands)
      ensures forall c | c in ListsOf(cands).normal :: c.item.key in g.objs && g.objs[c.item.key] == c.item && c.item in ItemsOf(cands)
      ensures forall c | c in ListsOf(cands).high :: c.item.key in g.objs && g.objs[c.item.key] == c.item && c.item in ItemsOf(cands)
    {
      BucketOfMembers(cands, Low);
      BucketOfMembers(cands, Normal);
      BucketOfMembers(cands, High);
      forall c | c in cands ensures c.item in ItemsOf(cands) {
      }
    }

    /** What a compaction towards removing `target` under measure `m` at `now` has done,
        from the table `objs` whose states were `pre` and whose total was ahead of its sum
        by `unaccounted`: the first loop saw `cands` (Listed); every entry has been
        checked at `now`; the entries the bucket passes took (the unexpired part of
        Selection) have also been marked expired for Capacity; and exactly the entries of
        Selection have been removed from the table and had their callbacks run. */
    ghost predicate CompactedFrom(pre: map<K, (ExpiryState, EntryFields<K, V>)>, objs: map<K, CacheEntry<K, V>>,
                                  unaccounted: int, target: int, m: SizeMeasure, now: int,
                                  keys: seq<K>, cands: seq<Candidate<CacheEntry<K, V>>>)
      reads this`entries, this`cacheSize, entries.Values`added, entries.Values`size, objs.Values
    {
      var p := PlanOf(cands, target);
      Listed(pre, keys, cands, objs, m, now)
      && Removing(Marking(objs, MarkedStates(Marking(objs, CheckedStates(pre, now), BucketKeys(cands, target))),
                          KeysOf(Selection(cands, target))),
                  unaccounted)
    }

    /** Compact(removalSizeTarget, computeEntrySize) at `now`: the first loop checks and
        lists the entries, the three bucket passes mark the Low, Normal and High entries
        to take, and the last loop removes the expired and taken entries, in that order.
        `keys` and `cands` are what the first loop saw, in its enumeration order. */
    method CompactTo(target: int, m: SizeMeasure, now: int) returns (ghost keys: seq<K>, ghost cands: seq<Candidate<CacheEntry<K, V>>>)
      requires Valid()
      modifies this`entries, this`cacheSize, entries.Values
      ensures CompactedFrom(old(Snapshot()), old(entries), old(Unaccounted()), target, m, now, keys, cands)
      ensures entries == old(entries) - KeysOf(Selection(cands, target))
    {
      ghost var pre := Snapshot();
      ghost var u := Unaccounted();
      var lists;
      lists, keys, cands := Partition(m, now);
      MarkingBegins(Listing(pre, {}, keys, cands, m, now));
      ListedItems(pre, keys, cands, entries, m, now);
      SelectionInTable(cands, target, entries);
      ghost var g := Marking(entries, CheckedStates(pre, now), {});
      ghost var g' := g.(done := BucketKeys(cands, target));
      var toRemove := MarkBuckets(lists, target, cands, g);
      RemoveSelected(toRemove, g', u);
    }

    /** Compact(percentage): a compaction counting one per entry, towards the entry
        count times the percentage, truncated. The percentage is not checked, as in the
        source; for one in [0, 1] the target is between none and all entries. */
    method Compact(percentage: real, now: int) returns (ghost keys: seq<K>, ghost cands: seq<Candidate<CacheEntry<K, V>>>)
      requires Valid()
      modifies this`entries, this`cacheSize, entries.Values
      ensures CompactedFrom(old(Snapshot()), old(entries), old(Unaccounted()), CompactTarget(|old(entries)|, percentage),
                            UnitSize, now, keys, cands)
      ensures entries == old(entries) - KeysOf(Selection(cands, CompactTarget(|old(entries)|, percentage)))
      ensures 0.0 <= percentage <= 1.0 ==> 0 <= CompactTarget(|old(entries)|, percentage) <= |old(entries)|
    {
      if 0.0 <= percentage <= 1.0 {
        CompactTargetBounds(|entries|, percentage);
      }
      keys, cands := CompactTo(CompactTarget(|entries|, percentage), UnitSize, now);
    }

    /** OvercapacityCompaction, as the queue runs it: a compaction counting entry sizes
        towards the share of the limit when the total is above it; otherwise nothing. */
    method OvercapacityCompaction(now: int) returns (ran: bool, ghost keys: seq<K>, ghost cands: seq<Candidate<CacheEntry<K, V>>>)
      requires Valid()
      modifies this`entries, this`cacheSize, entries.Values
      ensures ran == OvercapacityTarget(old(cacheSize), options.sizeLimit, options.compactionPercentage).Some?
      ensures ran ==>
        var t := OvercapacityTarget(old(cacheSize), options.sizeLimit, options.compactionPercentage).value;
        CompactedFrom(old(Snapshot()), old(entries), old(Unaccounted()), t, EntrySize, now, keys, cands)
        && entries == old(entries) - KeysOf(Selection(cands, t))
      ensures ran ==> OvercapacityTarget(old(cacheSize), options.sizeLimit, options.compactionPercentage).value >= 1
      ensures !ran ==> entries == old(entries) && cacheSize == old(cacheSize) && Snapshot() == old(Snapshot())
    {
      var t := OvercapacityTarget(cacheSize, options.sizeLimit, options.compactionPercentage);
      ran := t.Some?;
      if ran {
        OvercapacityTargetPositive(cacheSize, options.sizeLimit, options.compactionPercentage);
        keys, cands := CompactTo(t.value, EntrySize, now);
      } else {
        keys, cands := [], [];
      }
    }

    /** Compact's last loop: the marked entries of `toRemove` leave the table one by one. */
    method RemoveSelected(toRemove: seq<Candidate<CacheEntry<K, V>>>, ghost g: Marking<K, V>, ghost u: int)
      requires Valid() && Unaccounted() == u && g.objs == entries && Marked(g)
      requires forall c | c in toRemove :: c.item.key in entries && entries[c.item.key] == c.item
      modifies this`entries, this`cacheSize, ItemsOf(toRemove)
      ensures Removing(Marking(g.objs, MarkedStates(g), KeysOf(toRemove)), u)
      ensures entries == g.objs - KeysOf(toRemove)
    {
      RemovalBegins(g);
      ghost var q := Marking(entries, MarkedStates(g), {});
      RemoveAll(toRemove, q, u);
      RemovedFromTable(q.(done := KeysOf(toRemove)), u);
    }

  }

  /** The commit of an entry that is expired on arrival, end to end, as the source is
      written: a cache limited to 10, and a new entry of size 1 whose absolute expiration
      is now. Disposing the entry commits it; the capacity check counts its size, and the
      entry is then discarded as expired. The table ends empty, yet the total is 1, so
      that much of the limit is lost to later entries. */
  method ExpiredCommitKeepsSize(now: int) returns (count: nat, total: int)
    ensures count == 0 && total == 1
  {
    var cache := new FilesCache<int, int>(MemoryCacheOptions(Some(10), 0.05, TicksPerMinute), now);
    var ctx := new ScopeContext<CacheEntry<int, int>>();
    var r := cache.CreateEntry(Some(1), ctx);
    var e := r.value;
    var _ := e.SetSize(Some(1));
    e.SetAbsoluteExpiration(Some(now));
    var _ := cache.DisposeEntry(e, now);
    count := |cache.entries|;
    total := cache.cacheSize;
  }

  /** The same commit made by CommitCorrected: the table ends empty and so does the total. */
  method ExpiredCorrectedCommitFreesSize(now: int) returns (count: nat, total: int)
    ensures count == 0 && total == 0
  {
    var cache := new FilesCache<int, int>(MemoryCacheOptions(Some(10), 0.05, TicksPerMinute), now);
    var ctx := new ScopeContext<CacheEntry<int, int>>();
    var r := cache.CreateEntry(Some(1), ctx);
    var e := r.value;
    var _ := e.SetSize(Some(1));
    e.SetAbsoluteExpiration(Some(now));
    cache.Open(e);
    cache.CommitCorrected(e, now);
    count := |cache.entries|;
    total := cache.cacheSize;
  }

  /** A commit that replaces an entry leaves the replaced entry's own fields alone: after
      a second entry is committed under key 1, the first one still holds its value and
      its priority, and it has been marked Replaced. */
  method ReplacedEntryKeepsFields(now: int) returns (value: Option<int>, priority: Priority, reason: EvictionReason)
    ensures value == Some(7) && priority == High && reason == Replaced
  {
    var cache := new FilesCache<int, int>(MemoryCacheOptions(None, 0.05, TicksPerMinute), now);
    var ctx := new ScopeContext<CacheEntry<int, int>>();
    var first := CommitFirst(cache, ctx, now);
    var r := cache.CreateEntry(Some(1), ctx);
    var second := r.value;
    cache.Open(second);
    var _, _ := cache.Commit(second, now);
    value, priority, reason := first.value, first.priority, first.evictionReason;
  }

  /** The first half of ReplacedEntryKeepsFields: an entry with value 7 and priority High
      committed under key 1 into an empty cache without a size limit. */
  method CommitFirst(cache: FilesCache<int, int>, ctx: ScopeContext<CacheEntry<int, int>>, now: int)
    returns (first: CacheEntry<int, int>)
    requires cache.Valid() && !cache.disposed && cache.entries == map[] && cache.options.sizeLimit.None?
    modifies cache, ctx
    ensures fresh(first) && cache.Valid() && !cache.disposed && cache.entries == map[1 := first]
    ensures first.value == Some(7) && first.priority == High && first.evictionReason == NoReason
  {
    var r := cache.CreateEntry(Some(1), ctx);
    first := r.value;
    first.SetValue(Some(7));
    first.SetPriority(High);
    cache.Open(first);
    var _, _ := cache.Commit(first, now);
  }
}
