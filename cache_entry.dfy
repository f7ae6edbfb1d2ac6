/** One cache entry (CacheEntry): its options, its expiry state, and its eviction
    callbacks; each method is proved against the expiry rules of ExpiryRules.
    Eviction callbacks run synchronously here and every call made to one is
    appended to `notified`. */
module CacheEntries {
  import opened Wrappers
  import opened CacheTypes
  import opened CacheEntryStacks
  import opened CacheEntryHelpers
  import opened ExpiryRules

  /** The calls InvokeCallbacks makes for `regs`, in registration order: one per
      registration whose delegate is not null, with the entry's key, value and reason
      and the registration's own state. */
  function Fired<K, V>(regs: seq<Registration>, key: K, value: Option<V>, reason: EvictionReason)
    : (r: seq<Notification<K, V>>)
    ensures |r| <= |regs|
    ensures forall n | n in r :: n.key == key && n.value == value && n.reason == reason
    ensures (forall i | 0 <= i < |regs| :: regs[i].callback.None?) ==> r == []
  {
    if regs == [] then []
    else
      var g := regs[|regs| - 1];
      Fired(regs[..|regs| - 1], key, value, reason)
      + (if g.callback.Some? then [Notification(g.callback.value, key, value, reason, g.state)] else [])
  }

  /** Callbacks registered later are called later. */
  lemma {:induction false} FiredAppend<K, V>(a: seq<Registration>, b: seq<Registration>, key: K, value: Option<V>,
                                             reason: EvictionReason)
    ensures Fired(a + b, key, value, reason) == Fired(a, key, value, reason) + Fired(b, key, value, reason)
    decreases |b|
  {
    if b == [] {
      assert a + b == a;
    } else {
      assert (a + b)[..|a + b| - 1] == a + b[..|b| - 1];
      assert (a + b)[|a + b| - 1] == b[|b| - 1];
      FiredAppend(a, b[..|b| - 1], key, value, reason);
    }
  }

  /** Every registration with a delegate is called exactly once. */
  lemma {:induction false} FiredCountsDelegates<K, V>(regs: seq<Registration>, key: K, value: Option<V>,
                                                      reason: EvictionReason)
    requires forall i | 0 <= i < |regs| :: regs[i].callback.Some?
    ensures |Fired(regs, key, value, reason)| == |regs|
    ensures forall i | 0 <= i < |regs| ::
      Fired(regs, key, value, reason)[i] == Notification(regs[i].callback.value, key, value, reason, regs[i].state)
  {
    if regs != [] {
      FiredCountsDelegates(regs[..|regs| - 1], key, value, reason);
    }
  }

  /** The fields of an entry outside its expiry state: value, relative expiration,
      callbacks, priority, size, added, scope lease and the notifications sent. */
  type EntryFields<K(==), V> = (Option<V>, Option<pos>, Option<seq<Registration>>, Priority, Option<nat>, bool,
                                ScopeLease<CacheEntry<K, V>>, seq<Notification<K, V>>)

  class CacheEntry<K(==), V> {
    const key: K
    var value: Option<V>
    var absoluteExpiration: Option<int>
    var absoluteExpirationRelativeToNow: Option<pos>
    var slidingExpiration: Option<pos>
    /** The expiration tokens; the source creates the list on first access, which no
        caller can tell from an empty list. */
    var expirationTokens: seq<ChangeToken>
    /** The eviction callbacks; `None` is the null list, both before the first
        registration and after the list was claimed by InvokeCallbacks. */
    var postEvictionCallbacks: Option<seq<Registration>>
    var priority: Priority
    var size: Option<nat>
    var lastAccessed: int
    var evictionReason: EvictionReason
    var isExpired: bool
    /** Set by the first Dispose; a second Dispose does nothing. */
    var added: bool
    /** The scope lease taken by the constructor. */
    var scope: ScopeLease<CacheEntry<K, V>>
    /** Every call made to an eviction callback of this entry, in order. */
    var notified: seq<Notification<K, V>>

    /** The part of the entry the expiry rules read and write. */
    ghost function State(): ExpiryState
      reads this
    {
      ExpiryState(absoluteExpiration, slidingExpiration, lastAccessed, expirationTokens, isExpired, evictionReason)
    }

    /** Everything else. */
    ghost function Others(): EntryFields<K, V>
      reads this
    {
      (value, absoluteExpirationRelativeToNow, postEvictionCallbacks, priority, size, added, scope, notified)
    }

    /** The eviction callbacks have been run once since the pre-state: the list was
        claimed, each delegate in it was called with the entry's (current) reason, and
        no field outside the expiry state other than the list and the log changed. */
    twostate predicate CallbacksInvoked()
      reads this
    {
      Others() == old(Others()).(2 := None, 7 := notified)
      && notified == old(notified) + Fired(old(postEvictionCallbacks).GetOr([]), key, value, evictionReason)
    }

    /** A new entry with every option unset and priority Normal, pushed as the current
        scope of `ctx`. The source's null checks on the key and the two delegates are
        enforced by the parameter types. */
    constructor(key: K, ctx: ScopeContext<CacheEntry<K, V>>)
      modifies ctx
      ensures this.key == key && value.None?
      ensures State() == ExpiryState(None, None, 0, [], false, NoReason)
      ensures absoluteExpirationRelativeToNow.None? && postEvictionCallbacks.None? && size.None?
      ensures priority == Normal && !added && notified == []
      ensures scope == ScopeLease(ctx, old(ctx.scopes).GetOr(Empty))
      ensures ctx.scopes == Some(Push(old(ctx.scopes).GetOr(Empty), this))
    {
      this.key := key;
      value := None;
      absoluteExpiration := None;
      absoluteExpirationRelativeToNow := None;
      slidingExpiration := None;
      expirationTokens := [];
      postEvictionCallbacks := None;
      priority := Normal;
      size := None;
      lastAccessed := 0;
      evictionReason := NoReason;
      isExpired := false;
      added := false;
      notified := [];
      scope := ScopeLease(ctx, Empty);
      new;
      scope := ctx.EnterScope(this);
    }

    method SetValue(v: Option<V>)
      modifies this
      ensures value == v && State() == old(State())
      ensures Others() == old(Others()).(0 := v)
    {
      value := v;
    }

    method SetPriority(p: Priority)
      modifies this
      ensures priority == p && State() == old(State())
      ensures Others() == old(Others()).(3 := p)
    {
      priority := p;
    }

    method SetAbsoluteExpiration(t: Option<int>)
      modifies this
      ensures State() == old(State()).(absolute := t)
      ensures Others() == old(Others())
    {
      absoluteExpiration := t;
    }

    method SetLastAccessed(t: int)
      modifies this
      ensures State() == old(State()).(lastAccessed := t)
      ensures Others() == old(Others())
    {
      lastAccessed := t;
    }

    /** The guard of Dispose: true on the first call only, which marks the entry added. */
    method MarkAdded() returns (first: bool)
      modifies this
      ensures first == !old(added) && added
      ensures State() == old(State())
      ensures Others() == old(Others()).(5 := true)
    {
      if added {
        return false;
      }
      added := true;
      first := true;
    }

    /** Rejects a relative expiration that is not positive and leaves the entry as it was. */
    method SetAbsoluteExpirationRelativeToNow(d: Option<int>) returns (o: Outcome<Error>)
      modifies this
      ensures o.Fail? <==> d.Some? && d.value <= 0
      ensures o.Fail? ==> o.error == ArgumentOutOfRange && Others() == old(Others())
      ensures o.Pass? ==> Others() == old(Others()).(1 := if d.Some? then Some(d.value as pos) else None)
      ensures State() == old(State())
    {
      if d.Some? && d.value <= 0 {
        return Fail(ArgumentOutOfRange);
      }
      absoluteExpirationRelativeToNow := if d.Some? then Some(d.value as pos) else None;
      o := Pass;
    }

    /** Rejects a sliding expiration that is not positive and leaves the entry as it was. */
    method SetSlidingExpiration(d: Option<int>) returns (o: Outcome<Error>)
      modifies this
      ensures o.Fail? <==> d.Some? && d.value <= 0
      ensures o.Fail? ==> o.error == ArgumentOutOfRange && State() == old(State())
      ensures o.Pass? ==> State() == old(State()).(sliding := if d.Some? then Some(d.value as pos) else None)
      ensures Others() == old(Others())
    {
      if d.Some? && d.value <= 0 {
        return Fail(ArgumentOutOfRange);
      }
      slidingExpiration := if d.Some? then Some(d.value as pos) else None;
      o := Pass;
    }

    /** Rejects a negative size and leaves the entry as it was; null is accepted. */
    method SetSize(n: Option<int>) returns (o: Outcome<Error>)
      modifies this
      ensures o.Fail? <==> n.Some? && n.value < 0
      ensures o.Fail? ==> o.error == ArgumentOutOfRange && Others() == old(Others())
      ensures o.Pass? ==> Others() == old(Others()).(4 := if n.Some? then Some(n.value as nat) else None)
      ensures State() == old(State())
    {
      if n.Some? && n.value < 0 {
        return Fail(ArgumentOutOfRange);
      }
      size := if n.Some? then Some(n.value as nat) else None;
      o := Pass;
    }

    /** Adds a token to the list the ExpirationTokens property hands out. */
    method AddExpirationToken(t: ChangeToken)
      modifies this
      ensures State() == old(State()).(tokens := old(expirationTokens) + [t])
      ensures Others() == old(Others())
    {
      expirationTokens := expirationTokens + [t];
    }

    /** Adds a registration to the list the PostEvictionCallbacks property hands out,
        creating the list if it is null. */
    method RegisterPostEvictionCallback(r: Registration)
      modifies this
      ensures postEvictionCallbacks == Some(old(postEvictionCallbacks).GetOr([]) + [r])
      ensures State() == old(State())
      ensures Others() == old(Others()).(2 := postEvictionCallbacks)
    {
      postEvictionCallbacks := Some(postEvictionCallbacks.GetOr([]) + [r]);
    }

    /** SetExpired: marks the entry expired, keeping the first reason it was given. */
    method SetExpired(reason: EvictionReason)
      modifies this
      ensures State() == MarkExpired(old(State()), reason)
      ensures Others() == old(Others())
    {
      if evictionReason == NoReason {
        evictionReason := reason;
      }
      isExpired := true;
    }

    method CheckForExpiredTime(now: int) returns (expired: bool)
      modifies this
      ensures expired == TimeExpired(old(State()), now)
      ensures State() == if expired then MarkExpired(old(State()), Expired) else old(State())
      ensures Others() == old(Others())
    {
      if absoluteExpiration.Some? && absoluteExpiration.value <= now {
        SetExpired(Expired);
        return true;
      }
      if slidingExpiration.Some? && now - lastAccessed >= slidingExpiration.value {
        SetExpired(Expired);
        return true;
      }
      return false;
    }

    method CheckForExpiredTokens() returns (expired: bool)
      modifies this
      ensures expired == TokenFired(old(State()).tokens)
      ensures State() == if expired then MarkExpired(old(State()), TokenExpired) else old(State())
      ensures Others() == old(Others())
    {
      var i := 0;
      while i < |expirationTokens|
        invariant 0 <= i <= |expirationTokens|
        invariant forall j | 0 <= j < i :: !expirationTokens[j].hasChanged
        invariant State() == old(State()) && Others() == old(Others())
      {
        if expirationTokens[i].hasChanged {
          SetExpired(TokenExpired);
          return true;
        }
        i := i + 1;
      }
      return false;
    }

    /** CheckExpired: already expired, or the time has come, or a token has changed; the
        entry is left in the state the expiry rules give. */
    method CheckExpired(now: int) returns (expired: bool)
      modifies this
      ensures expired == ExpiredAt(old(State()), now)
      ensures State() == Checked(old(State()), now)
      ensures Others() == old(Others())
    {
      if isExpired {
        return true;
      }
      expired := CheckForExpiredTime(now);
      if !expired {
        expired := CheckForExpiredTokens();
      }
    }

    /** InvokeEvictionCallbacks with InvokeCallbacks: claims the callback list, leaving
        null behind, and calls each delegate once in registration order. */
    method InvokeEvictionCallbacks()
      modifies this
      ensures CallbacksInvoked()
      ensures State() == old(State())
    {
      if postEvictionCallbacks.None? {
        return;
      }
      var regs := postEvictionCallbacks.value;
      postEvictionCallbacks := None;
      var i := 0;
      while i < |regs|
        invariant 0 <= i <= |regs|
        invariant notified == old(notified) + Fired(regs[..i], key, value, evictionReason)
        invariant State() == old(State()) && Others() == old(Others()).(2 := None, 7 := notified)
      {
        assert regs[..i + 1][..i] == regs[..i];
        var g := regs[i];
        if g.callback.Some? {
          notified := notified + [Notification(g.callback.value, key, value, evictionReason, g.state)];
        }
        i := i + 1;
      }
      assert regs[..i] == regs;
    }

    /** PropagateOptions: hands this entry's tokens and absolute expiration to the
        enclosing entry, which keeps the earlier of the two expirations. An entry that
        is its own enclosing entry and has tokens fails as the source's enumeration
        does, after adding the first token to itself once. */
    method PropagateOptions(parent: Option<CacheEntry<K, V>>) returns (o: Outcome<Error>)
      modifies if parent.Some? then {parent.value} else {}
      ensures parent.None? ==> o.Pass?
      ensures parent == Some(this) ==>
        (o.Fail? <==> old(expirationTokens) != [])
        && (o.Fail? ==> o.error == InvalidOperation
                        && State() == old(State()).(tokens := old(expirationTokens) + [old(expirationTokens)[0]]))
        && (o.Pass? ==> State() == old(State()))
        && Others() == old(Others())
      ensures parent.Some? && parent.value != this ==>
        o.Pass?
        && parent.value.State() == old(parent.value.State()).(
             tokens := old(parent.value.expirationTokens) + old(expirationTokens),
             absolute := MergeAbsolute(old(absoluteExpiration), old(parent.value.absoluteExpiration)))
        && parent.value.Others() == old(parent.value.Others())
    {
      if parent.None? {
        return Pass;
      }
      var p := parent.value;
      if p == this {
        if expirationTokens != [] {
          AddExpirationToken(expirationTokens[0]);
          return Fail(InvalidOperation);
        }
        return Pass;
      }
      var tokens := expirationTokens;
      var i := 0;
      while i < |tokens|
        invariant 0 <= i <= |tokens|
        invariant p.State() == old(p.State()).(tokens := old(p.expirationTokens) + tokens[..i])
        invariant p.Others() == old(p.Others())
      {
        assert tokens[..i + 1] == tokens[..i] + [tokens[i]];
        p.AddExpirationToken(tokens[i]);
        i := i + 1;
      }
      assert tokens[..i] == tokens;
      if absoluteExpiration.None? {
        return Pass;
      }
      if p.absoluteExpiration.Some? && !(absoluteExpiration.value < p.absoluteExpiration.value) {
        return Pass;
      }
      p.absoluteExpiration := absoluteExpiration;
      o := Pass;
    }
  }

  /** Eviction callbacks run at most once: a second invocation calls nothing. */
  method CallbacksRunOnce<K(==), V>(e: CacheEntry<K, V>)
    modifies e
    ensures e.CallbacksInvoked()
  {
    e.InvokeEvictionCallbacks();
    e.InvokeEvictionCallbacks();
  }

  /** Three registrations, the middle one with a null delegate: two calls, in order. */
  lemma NullDelegateSkipped<K, V>(key: K, value: Option<V>)
    ensures Fired([Registration(Some(1), 10), Registration(None, 20), Registration(Some(2), 30)], key, value, Removed)
         == [Notification(1, key, value, Removed, 10), Notification(2, key, value, Removed, 30)]
  {
    var regs := [Registration(Some(1), 10), Registration(None, 20), Registration(Some(2), 30)];
    assert regs[..2] == [Registration(Some(1), 10), Registration(None, 20)];
    assert regs[..2][..1] == [Registration(Some(1), 10)];
    assert regs[..2][..1][..0] == [];
    assert Fired(regs[..2][..1][..0], key, value, Removed) == [];
    assert Fired(regs[..2][..1], key, value, Removed) == [Notification(1, key, value, Removed, 10)];
    assert Fired(regs[..2], key, value, Removed) == [Notification(1, key, value, Removed, 10)];
  }
}
