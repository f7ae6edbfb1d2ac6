/** The stack of entries whose construction is in progress (CacheEntryStack).
    It is immutable: a node keeps its predecessor and its entry in read-only
    fields, and Push returns a new node instead of changing the receiver. */
module CacheEntryStacks {
  import opened Wrappers

  /** `Empty` is the shared sentinel node, whose entry is null; `Frame` is a node
      made by Push. A Frame's predecessor is never null: Push passes its receiver. */
  datatype Stack<T> = Empty | Frame(previous: Stack<T>, entry: T)

  /** The innermost open entry; none for the sentinel. */
  function Peek<T>(s: Stack<T>): (r: Option<T>)
    ensures r.None? <==> s.Empty?
    ensures s.Frame? ==> r == Some(s.entry)
  {
    match s
    case Empty => None
    case Frame(_, e) => Some(e)
  }

  /** A new node on top of `s`; `s` itself is a value and stays as it was. */
  function Push<T>(s: Stack<T>, c: T): (r: Stack<T>)
    ensures Peek(r) == Some(c)
    ensures r.Frame? && r.previous == s
    ensures Entries(r) == [c] + Entries(s)
  {
    Frame(s, c)
  }

  /** The open entries, innermost first. */
  function Entries<T>(s: Stack<T>): seq<T>
  {
    match s
    case Empty => []
    case Frame(p, e) => [e] + Entries(p)
  }

  /** The entry Peek can return, as a set (the frame of a caller that changes it). */
  function Top<T>(s: Stack<T>): set<T>
  {
    match s
    case Empty => {}
    case Frame(_, e) => {e}
  }

  /** The entry below the top is the one pushed before it. */
  lemma PeekBelowPush<T>(s: Stack<T>, outer: T, inner: T)
    ensures Peek(Push(Push(s, outer), inner).previous) == Some(outer)
    ensures Entries(Push(Push(s, outer), inner)) == [inner, outer] + Entries(s)
  {
  }
}
