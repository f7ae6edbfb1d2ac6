/** The ambient "current scopes" slot and scope leases (CacheEntryHelper).
    The source keeps the slot in an AsyncLocal, one per logical call context;
    here a ScopeContext object is that slot, passed explicitly to whoever reads it. */
module CacheEntryHelpers {
  import opened Wrappers
  import opened CacheEntryStacks

  class ScopeContext<T(==)> {
    /** The slot; `None` is a slot that has never been set (null). */
    var scopes: Option<Stack<T>>

    constructor()
      ensures scopes == None
    {
      scopes := None;
    }

    /** The entries a caller of Current may be handed. */
    function TopEntries(): set<T>
      reads this
    {
      Top(scopes.GetOr(Empty))
    }

    /** The stack in the slot, after putting the sentinel there if it was unset. */
    method GetOrCreateScopes() returns (s: Stack<T>)
      modifies this
      ensures s == old(scopes).GetOr(Empty)
      ensures scopes == Some(s)
    {
      if scopes.None? {
        scopes := Some(Empty);
      }
      s := scopes.value;
    }

    /** The innermost open entry (CacheEntryHelper.Current). */
    method Current() returns (r: Option<T>)
      modifies this
      ensures scopes == Some(old(scopes).GetOr(Empty))
      ensures r == Peek(old(scopes).GetOr(Empty))
      ensures old(scopes).None? ==> r.None? && scopes == Some(Empty)
      ensures r.Some? ==> r.value in old(TopEntries())
    {
      var s := GetOrCreateScopes();
      r := Peek(s);
    }

    /** Pushes `entry` and returns a lease that remembers the stack it replaced. */
    method EnterScope(entry: T) returns (lease: ScopeLease<T>)
      modifies this
      ensures lease.context == this && lease.captured == old(scopes).GetOr(Empty)
      ensures scopes == Some(Push(lease.captured, entry))
      ensures TopEntries() == {entry}
    {
      var s := GetOrCreateScopes();
      lease := ScopeLease(this, s);
      scopes := Some(Push(s, entry));
    }
  }

  /** What EnterScope hands out; disposing it puts the captured stack back. */
  datatype ScopeLease<T(==)> = ScopeLease(context: ScopeContext<T>, captured: Stack<T>) {

    /** Restores exactly the captured stack, whatever was pushed since; a second call does the same. */
    method Dispose()
      modifies context
      ensures context.scopes == Some(captured)
      ensures context.TopEntries() == Top(captured)
    {
      context.scopes := Some(captured);
    }
  }

  /** Two scopes entered and released in last-in-first-out order: after the inner
      release the outer entry is current again, after the outer release the slot
      holds the stack it held before. */
  method NestedScopes<T(==)>(ctx: ScopeContext<T>, outer: T, inner: T)
    returns (duringInner: Option<T>, afterInner: Option<T>, afterOuter: Option<T>)
    modifies ctx
    ensures duringInner == Some(inner)
    ensures afterInner == Some(outer)
    ensures afterOuter == Peek(old(ctx.scopes).GetOr(Empty))
    ensures ctx.scopes == Some(old(ctx.scopes).GetOr(Empty))
  {
    var outerLease := ctx.EnterScope(outer);
    var innerLease := ctx.EnterScope(inner);
    duringInner := ctx.Current();
    innerLease.Dispose();
    afterInner := ctx.Current();
    outerLease.Dispose();
    afterOuter := ctx.Current();
  }
}
