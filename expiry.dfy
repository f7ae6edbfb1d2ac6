/** The expiration rules of one cache entry, as pure functions of the part of
    the entry they read and write (CacheEntry.SetExpired, CheckExpired,
    CheckForExpiredTime, CheckForExpiredTokens, PropagateOptions and the
    resolution of the relative expiration on commit). Times are ticks. */
module ExpiryRules {
  import opened Wrappers
  import opened CacheTypes

  /** The expiry part of an entry: absolute and sliding expiration, the last access,
      the expiration tokens, the expired flag and the eviction reason. */
  datatype ExpiryState = ExpiryState(
    absolute: Option<int>,
    sliding: Option<pos>,
    lastAccessed: int,
    tokens: seq<ChangeToken>,
    isExpired: bool,
    reason: EvictionReason)

  /** SetExpired: the entry is expired from now on, and the first reason it was given is kept. */
  function MarkExpired(s: ExpiryState, r: EvictionReason): (t: ExpiryState)
    ensures t.isExpired
    ensures s.reason != NoReason ==> t.reason == s.reason
    ensures s.reason == NoReason ==> t.reason == r
    ensures t.(isExpired := s.isExpired, reason := s.reason) == s
  {
    s.(isExpired := true, reason := if s.reason == NoReason then r else s.reason)
  }

  /** CheckForExpiredTime: the absolute expiration has been reached, or the entry has
      not been accessed for at least its sliding expiration. */
  predicate TimeExpired(s: ExpiryState, now: int)
  {
    (s.absolute.Some? && s.absolute.value <= now)
    || (s.sliding.Some? && now - s.lastAccessed >= s.sliding.value)
  }

  /** CheckForExpiredTokens: some expiration token has changed. */
  predicate TokenFired(tokens: seq<ChangeToken>)
  {
    exists i :: 0 <= i < |tokens| && tokens[i].hasChanged
  }

  /** What CheckExpired returns. */
  predicate ExpiredAt(s: ExpiryState, now: int)
  {
    s.isExpired || TimeExpired(s, now) || TokenFired(s.tokens)
  }

  /** The state CheckExpired leaves: an unexpired entry whose time has come is marked
      Expired, one with a changed token TokenExpired; otherwise nothing changes. */
  function Checked(s: ExpiryState, now: int): (t: ExpiryState)
    ensures t.isExpired <==> ExpiredAt(s, now)
    ensures !ExpiredAt(s, now) || s.isExpired ==> t == s
    ensures !s.isExpired && TimeExpired(s, now) ==> t == MarkExpired(s, Expired)
    ensures !s.isExpired && !TimeExpired(s, now) && TokenFired(s.tokens) ==> t == MarkExpired(s, TokenExpired)
  {
    if s.isExpired then s
    else if TimeExpired(s, now) then MarkExpired(s, Expired)
    else if TokenFired(s.tokens) then MarkExpired(s, TokenExpired)
    else s
  }

  /** Marking twice is marking once with the first reason: the first reason wins, and a
      repeated call changes nothing. */
  lemma FirstReasonWins(s: ExpiryState, r1: EvictionReason, r2: EvictionReason)
    requires r1 != NoReason
    ensures MarkExpired(MarkExpired(s, r1), r2) == MarkExpired(s, r1)
    ensures MarkExpired(MarkExpired(s, r1), r2).reason == (if s.reason == NoReason then r1 else s.reason)
  {
  }

  /** Once CheckExpired has answered true, every later check answers true and changes nothing. */
  lemma ExpiredIsSticky(s: ExpiryState, now: int, later: int)
    requires ExpiredAt(s, now)
    ensures Checked(s, now).isExpired
    ensures ExpiredAt(Checked(s, now), later)
    ensures Checked(Checked(s, now), later) == Checked(s, now)
  {
  }

  /** A check never changes the reason an entry already has, nor anything but the flag and reason. */
  lemma CheckKeepsReason(s: ExpiryState, now: int)
    ensures s.reason != NoReason ==> Checked(s, now).reason == s.reason
    ensures Checked(s, now).(isExpired := s.isExpired, reason := s.reason) == s
  {
  }

  /** A sliding expiration of five seconds, last accessed at t0, with no absolute
      expiration and no tokens: not expired four seconds later, expired for reason
      Expired six seconds later. */
  lemma SlidingExpirationScenario(t0: int)
    ensures var s := ExpiryState(None, Some(50_000_000), t0, [], false, NoReason);
      !ExpiredAt(s, t0 + 40_000_000) && Checked(s, t0 + 40_000_000) == s
      && ExpiredAt(s, t0 + 60_000_000) && Checked(s, t0 + 60_000_000).reason == Expired
  {
  }

  /** The absolute expiration SetEntry stores: a relative expiration gives the candidate
      now + relative, which replaces the explicit value when that is unset or later. */
  function ResolveAbsolute(now: int, relative: Option<pos>, absolute: Option<int>): (r: Option<int>)
    ensures relative.None? ==> r == absolute
    ensures relative.Some? && absolute.None? ==> r == Some(now + relative.value)
    ensures relative.Some? && absolute.Some? ==>
      r.Some? && r.value <= now + relative.value && r.value <= absolute.value
      && (r.value == now + relative.value || r.value == absolute.value)
  {
    var candidate := if relative.Some? then Some(now + relative.value) else absolute;
    if candidate.Some? && (absolute.None? || candidate.value < absolute.value) then candidate else absolute
  }

  /** The absolute expiration PropagateOptions leaves on the enclosing entry: the child's
      if the enclosing entry has none or a later one, otherwise its own. */
  function MergeAbsolute(child: Option<int>, parent: Option<int>): (r: Option<int>)
    ensures child.None? ==> r == parent
    ensures child.Some? && parent.None? ==> r == child
    ensures child.Some? && parent.Some? ==>
      r.Some? && r.value <= child.value && r.value <= parent.value
      && (r.value == child.value || r.value == parent.value)
  {
    if child.None? then parent
    else if parent.Some? && !(child.value < parent.value) then parent
    else child
  }

  /** Merging is symmetric and idempotent, so the order in which nested entries close
      does not change the enclosing entry's absolute expiration. */
  lemma MergeAbsoluteOrderFree(a: Option<int>, b: Option<int>, c: Option<int>)
    ensures MergeAbsolute(a, b) == MergeAbsolute(b, a)
    ensures MergeAbsolute(a, MergeAbsolute(b, c)) == MergeAbsolute(b, MergeAbsolute(a, c))
    ensures MergeAbsolute(a, MergeAbsolute(a, b)) == MergeAbsolute(a, b)
  {
  }

  /** An outer entry without absolute expiration, and a nested entry that closes with a
      relative expiration of ten seconds: the outer entry ends up expiring at now + 10 s. */
  lemma NestedPropagationScenario(now: int)
    ensures MergeAbsolute(ResolveAbsolute(now, Some(100_000_000), None), None) == Some(now + 100_000_000)
  {
  }
}
