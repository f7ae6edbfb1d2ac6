/** The eviction policy of Compact and ExpirePriorityBucket as pure functions:
    expired entries first, then the Low, Normal and High buckets in that order,
    least recently used first within a bucket, until the removed size reaches the
    target; NeverRemove entries are never candidates. */
module Compaction {
  import opened CacheTypes

  /** One table entry as compaction sees it: the entry, whether CheckExpired found it
      expired, and the priority, LastAccessed and cost the source reads from it. */
  datatype Candidate<E> = Candidate(item: E, expired: bool, priority: Priority, lastAccessed: int, cost: int)

  /** The candidates found expired, in enumeration order (the first list of Compact). */
  function ExpiredOf<E>(cs: seq<Candidate<E>>): seq<Candidate<E>>
  {
    if cs == [] then []
    else ExpiredOf(cs[..|cs| - 1]) + (if cs[|cs| - 1].expired then [cs[|cs| - 1]] else [])
  }

  /** The unexpired candidates of priority `p`, in enumeration order (one bucket list). */
  function BucketOf<E>(cs: seq<Candidate<E>>, p: Priority): seq<Candidate<E>>
  {
    if cs == [] then []
    else
      var c := cs[|cs| - 1];
      BucketOf(cs[..|cs| - 1], p) + (if !c.expired && c.priority == p then [c] else [])
  }

  function SumCost<E>(cs: seq<Candidate<E>>): int
  {
    if cs == [] then 0 else cs[0].cost + SumCost(cs[1..])
  }

  predicate SortedByAccess<E>(cs: seq<Candidate<E>>)
  {
    forall i, j | 0 <= i < j < |cs| :: cs[i].lastAccessed <= cs[j].lastAccessed
  }

  /** Inserts `c` after every element not later than it, which keeps the sort stable. */
  function Insert<E>(sorted: seq<Candidate<E>>, c: Candidate<E>): seq<Candidate<E>>
  {
    if sorted == [] then [c]
    else if c.lastAccessed < sorted[0].lastAccessed then [c] + sorted
    else [sorted[0]] + Insert(sorted[1..], c)
  }

  /** Enumerable.OrderBy on LastAccessed: a stable sort, least recently used first. */
  function SortByAccess<E>(cs: seq<Candidate<E>>): seq<Candidate<E>>
  {
    if cs == [] then [] else Insert(SortByAccess(cs[..|cs| - 1]), cs[|cs| - 1])
  }

  /** ExpirePriorityBucket over an ordered bucket: nothing if `removed` already meets the
      target, otherwise candidates in order, each adding its cost, up to and including
      the one that makes the removed size reach the target. Returns what it took and
      the new removed size. */
  function Take<E>(sorted: seq<Candidate<E>>, removed: int, target: int): (seq<Candidate<E>>, int)
  {
    if target <= removed || sorted == [] then ([], removed)
    else
      var rest := Take(sorted[1..], removed + sorted[0].cost, target);
      ([sorted[0]] + rest.0, rest.1)
  }

  /** The four parts of a compaction, in removal order, and the removed size. */
  datatype Plan<E> = Plan(expired: seq<Candidate<E>>, low: seq<Candidate<E>>, normal: seq<Candidate<E>>,
                          high: seq<Candidate<E>>, removed: int)

  /** The three bucket passes over ordered buckets, after the expired candidates. */
  function PlanFrom<E>(expired: seq<Candidate<E>>, low: seq<Candidate<E>>, normal: seq<Candidate<E>>,
                       high: seq<Candidate<E>>, target: int): Plan<E>
  {
    var l := Take(low, SumCost(expired), target);
    var n := Take(normal, l.1, target);
    var h := Take(high, n.1, target);
    Plan(expired, l.0, n.0, h.0, h.1)
  }

  function PlanOf<E>(cs: seq<Candidate<E>>, target: int): Plan<E>
  {
    PlanFrom(ExpiredOf(cs), SortByAccess(BucketOf(cs, Low)), SortByAccess(BucketOf(cs, Normal)),
             SortByAccess(BucketOf(cs, High)), target)
  }

  /** Every candidate Compact removes, in the order it removes them. */
  function Selection<E>(cs: seq<Candidate<E>>, target: int): seq<Candidate<E>>
  {
    var p := PlanOf(cs, target);
    p.expired + p.low + p.normal + p.high
  }

  // ---- Filters ----

  lemma {:induction false} ExpiredOfMembers<E>(cs: seq<Candidate<E>>)
    ensures forall c | c in ExpiredOf(cs) :: c in cs && c.expired
    ensures forall c | c in cs && c.expired :: c in ExpiredOf(cs)
  {
    if cs != [] {
      ExpiredOfMembers(cs[..|cs| - 1]);
      assert cs == cs[..|cs| - 1] + [cs[|cs| - 1]];
    }
  }

  lemma {:induction false} BucketOfMembers<E>(cs: seq<Candidate<E>>, p: Priority)
    ensures forall c | c in BucketOf(cs, p) :: c in cs && !c.expired && c.priority == p
    ensures forall c | c in cs && !c.expired && c.priority == p :: c in BucketOf(cs, p)
  {
    if cs != [] {
      BucketOfMembers(cs[..|cs| - 1], p);
      assert cs == cs[..|cs| - 1] + [cs[|cs| - 1]];
    }
  }

  /** The lists the first loop of Compact builds: the removal list, the three bucket
      lists, and the removed size so far. */
  datatype Lists<E> = Lists(toRemove: seq<Candidate<E>>, low: seq<Candidate<E>>, normal: seq<Candidate<E>>,
                            high: seq<Candidate<E>>, removed: int)

  /** One step of that loop: an expired candidate goes to the removal list and adds its
      cost; any other goes to the list of its priority, and a NeverRemove one to none. */
  function Route<E>(l: Lists<E>, c: Candidate<E>): Lists<E>
  {
    if c.expired then l.(toRemove := l.toRemove + [c], removed := l.removed + c.cost)
    else match c.priority
      case Low => l.(low := l.low + [c])
      case Normal => l.(normal := l.normal + [c])
      case High => l.(high := l.high + [c])
      case NeverRemove => l
  }

  /** The lists after the loop has seen `cs`. */
  function ListsOf<E>(cs: seq<Candidate<E>>): Lists<E>
  {
    Lists(ExpiredOf(cs), BucketOf(cs, Low), BucketOf(cs, Normal), BucketOf(cs, High), SumCost(ExpiredOf(cs)))
  }

  /** Routing candidates one at a time builds the lists of all of them. */
  lemma RouteSpec<E>(cs: seq<Candidate<E>>, c: Candidate<E>)
    ensures Route(ListsOf(cs), c) == ListsOf(cs + [c])
  {
    var ds := cs + [c];
    assert ds[..|ds| - 1] == cs && ds[|ds| - 1] == c;
    assert ExpiredOf(ds) == ExpiredOf(cs) + (if c.expired then [c] else []);
    assert BucketOf(ds, Low) == BucketOf(cs, Low) + (if !c.expired && c.priority == Low then [c] else []);
    assert BucketOf(ds, Normal) == BucketOf(cs, Normal) + (if !c.expired && c.priority == Normal then [c] else []);
    assert BucketOf(ds, High) == BucketOf(cs, High) + (if !c.expired && c.priority == High then [c] else []);
    SumCostAppend(ExpiredOf(cs), [c]);
    if c.expired {
      assert SumCost([c]) == c.cost;
    } else {
      assert ExpiredOf(cs) + [] == ExpiredOf(cs);
    }
  }

  lemma {:induction false} SumCostAppend<E>(a: seq<Candidate<E>>, b: seq<Candidate<E>>)
    ensures SumCost(a + b) == SumCost(a) + SumCost(b)
  {
    if a == [] {
      assert a + b == b;
    } else {
      assert (a + b)[0] == a[0];
      assert (a + b)[1..] == a[1..] + b;
      SumCostAppend(a[1..], b);
    }
  }

  // ---- Sorting ----

  /** Putting an entry in front of an ordered list whose first entry it does not follow
      keeps the list ordered. */
  lemma ConsSorted<E>(c: Candidate<E>, cs: seq<Candidate<E>>)
    requires SortedByAccess(cs) && (cs == [] || c.lastAccessed <= cs[0].lastAccessed)
    ensures SortedByAccess([c] + cs)
  {
    var r := [c] + cs;
    forall i, j | 0 <= i < j < |r| ensures r[i].lastAccessed <= r[j].lastAccessed {
      if i == 0 && j > 1 {
        assert r[j] == cs[j - 1] && cs[0].lastAccessed <= cs[j - 1].lastAccessed;
      }
    }
  }

  lemma {:induction false} InsertSorted<E>(sorted: seq<Candidate<E>>, c: Candidate<E>)
    requires SortedByAccess(sorted)
    ensures Insert(sorted, c) != [] && SortedByAccess(Insert(sorted, c))
    ensures Insert(sorted, c)[0] == c || Insert(sorted, c)[0] == sorted[0]
  {
    if sorted == [] {
    } else if c.lastAccessed < sorted[0].lastAccessed {
      ConsSorted(c, sorted);
    } else {
      InsertSorted(sorted[1..], c);
      ConsSorted(sorted[0], Insert(sorted[1..], c));
    }
  }

  lemma {:induction false} InsertCount<E>(sorted: seq<Candidate<E>>, c: Candidate<E>)
    ensures multiset(Insert(sorted, c)) == multiset(sorted) + multiset{c}
    ensures |Insert(sorted, c)| == |sorted| + 1
  {
    if sorted != [] && c.lastAccessed >= sorted[0].lastAccessed {
      InsertCount(sorted[1..], c);
      assert sorted == [sorted[0]] + sorted[1..];
    }
  }

  /** Insert places one entry into an ordered list: the list stays ordered and gains
      exactly that entry (InsertStable adds that it goes after its equals). */
  lemma InsertSpec<E>(sorted: seq<Candidate<E>>, c: Candidate<E>)
    requires SortedByAccess(sorted)
    ensures SortedByAccess(Insert(sorted, c))
    ensures multiset(Insert(sorted, c)) == multiset(sorted) + multiset{c}
    ensures |Insert(sorted, c)| == |sorted| + 1
  {
    InsertSorted(sorted, c);
    InsertCount(sorted, c);
  }

  /** The order compaction uses within a bucket: least recently used first, and the
      same candidates as the bucket. */
  lemma {:induction false} SortByAccessSpec<E>(cs: seq<Candidate<E>>)
    ensures SortedByAccess(SortByAccess(cs))
    ensures multiset(SortByAccess(cs)) == multiset(cs)
    ensures |SortByAccess(cs)| == |cs|
  {
    if cs != [] {
      SortByAccessSpec(cs[..|cs| - 1]);
      InsertSpec(SortByAccess(cs[..|cs| - 1]), cs[|cs| - 1]);
      assert cs == cs[..|cs| - 1] + [cs[|cs| - 1]];
    }
  }

  /** The candidates of `cs` last accessed at time `t`, in their order in `cs`. */
  function AccessedAt<E>(cs: seq<Candidate<E>>, t: int): seq<Candidate<E>>
  {
    if cs == [] then [] else (if cs[0].lastAccessed == t then [cs[0]] else []) + AccessedAt(cs[1..], t)
  }

  lemma {:induction false} AccessedAtAppend<E>(a: seq<Candidate<E>>, b: seq<Candidate<E>>, t: int)
    ensures AccessedAt(a + b, t) == AccessedAt(a, t) + AccessedAt(b, t)
  {
    if a == [] {
      assert a + b == b;
    } else {
      var head := if a[0].lastAccessed == t then [a[0]] else [];
      assert (a + b)[0] == a[0] && (a + b)[1..] == a[1..] + b;
      assert AccessedAt(a + b, t) == head + AccessedAt(a[1..] + b, t);
      AccessedAtAppend(a[1..], b, t);
      assert AccessedAt(a, t) == head + AccessedAt(a[1..], t);
    }
  }

  /** An ordered list starting later than `t` has nothing accessed at `t`. */
  lemma {:induction false} AccessedAtNone<E>(sorted: seq<Candidate<E>>, t: int)
    requires SortedByAccess(sorted) && sorted != [] && t < sorted[0].lastAccessed
    ensures AccessedAt(sorted, t) == []
  {
    if |sorted| > 1 {
      assert sorted[0].lastAccessed <= sorted[1].lastAccessed;
      assert SortedByAccess(sorted[1..]) by {
        forall i, j | 0 <= i < j < |sorted[1..]| ensures sorted[1..][i].lastAccessed <= sorted[1..][j].lastAccessed {
          assert sorted[1..][i] == sorted[i + 1] && sorted[1..][j] == sorted[j + 1];
        }
      }
      AccessedAtNone(sorted[1..], t);
    }
  }

  /** Insert puts `c` after every candidate accessed at the same time. */
  lemma {:induction false} InsertStable<E>(sorted: seq<Candidate<E>>, c: Candidate<E>, t: int)
    requires SortedByAccess(sorted)
    ensures AccessedAt(Insert(sorted, c), t) == AccessedAt(sorted, t) + (if c.lastAccessed == t then [c] else [])
  {
    if sorted == [] {
      assert AccessedAt([c], t) == (if c.lastAccessed == t then [c] else []) + AccessedAt([], t);
    } else if c.lastAccessed < sorted[0].lastAccessed {
      assert ([c] + sorted)[0] == c && ([c] + sorted)[1..] == sorted;
      if c.lastAccessed == t {
        AccessedAtNone(sorted, t);
      }
    } else {
      assert SortedByAccess(sorted[1..]) by {
        forall i, j | 0 <= i < j < |sorted[1..]| ensures sorted[1..][i].lastAccessed <= sorted[1..][j].lastAccessed {
          assert sorted[1..][i] == sorted[i + 1] && sorted[1..][j] == sorted[j + 1];
        }
      }
      InsertStable(sorted[1..], c, t);
      var r := [sorted[0]] + Insert(sorted[1..], c);
      assert r[0] == sorted[0] && r[1..] == Insert(sorted[1..], c);
    }
  }

  /** The order compaction uses is stable: for every time, the candidates last accessed
      then keep their order from the bucket, so of two equally old entries the one
      enumerated first is removed first. */
  lemma {:induction false} SortByAccessStable<E>(cs: seq<Candidate<E>>, t: int)
    ensures AccessedAt(SortByAccess(cs), t) == AccessedAt(cs, t)
  {
    if cs != [] {
      var init, c := cs[..|cs| - 1], cs[|cs| - 1];
      var last := if c.lastAccessed == t then [c] else [];
      SortByAccessSpec(init);
      calc {
        AccessedAt(SortByAccess(cs), t);
        AccessedAt(Insert(SortByAccess(init), c), t);
        { InsertStable(SortByAccess(init), c, t); }
        AccessedAt(SortByAccess(init), t) + last;
        { SortByAccessStable(init, t); }
        AccessedAt(init, t) + last;
        { assert AccessedAt([c], t) == last + AccessedAt([], t); }
        AccessedAt(init, t) + AccessedAt([c], t);
        { AccessedAtAppend(init, [c], t); }
        AccessedAt(init + [c], t);
        { assert cs == init + [c]; }
        AccessedAt(cs, t);
      }
    }
  }

  /** The entries a list of candidates refers to. */
  ghost function ItemsOf<E>(cs: seq<Candidate<E>>): set<E>
  {
    set c | c in cs :: c.item
  }

  lemma ItemsOfAppend<E>(cs: seq<Candidate<E>>, c: Candidate<E>)
    ensures ItemsOf(cs + [c]) == ItemsOf(cs) + {c.item}
  {
  }

  lemma SortByAccessMembers<E>(cs: seq<Candidate<E>>)
    ensures forall c | c in SortByAccess(cs) :: c in cs
    ensures forall c | c in cs :: c in SortByAccess(cs)
  {
    SortByAccessSpec(cs);
    forall c | c in SortByAccess(cs) ensures c in cs {
      assert c in multiset(SortByAccess(cs));
    }
    forall c | c in cs ensures c in SortByAccess(cs) {
      assert c in multiset(cs);
    }
  }

  /** Ordering a bucket neither adds nor drops an entry. */
  lemma SortByAccessItems<E>(cs: seq<Candidate<E>>)
    ensures ItemsOf(SortByAccess(cs)) == ItemsOf(cs)
  {
    SortByAccessMembers(cs);
  }

  // ---- One bucket ----

  /** What one bucket pass takes: a prefix of the ordered bucket; the new removed size is
      the old one plus the cost taken; it stops only once the target is met or the
      bucket is exhausted; and it takes nothing once the target is already met. */
  lemma {:induction false} TakeSpec<E>(s: seq<Candidate<E>>, removed: int, target: int)
    ensures |Take(s, removed, target).0| <= |s|
    ensures Take(s, removed, target).0 == s[..|Take(s, removed, target).0|]
    ensures Take(s, removed, target).1 == removed + SumCost(Take(s, removed, target).0)
    ensures Take(s, removed, target).1 >= target || Take(s, removed, target).0 == s
    ensures target <= removed ==> Take(s, removed, target).0 == []
  {
    if !(target <= removed || s == []) {
      TakeSpec(s[1..], removed + s[0].cost, target);
      assert s == [s[0]] + s[1..];
    }
  }

  /** A bucket pass over `s` from `removed0` has taken the first `i` candidates and
      reached `removed`: what it takes is those and what a pass over the rest takes. */
  ghost predicate TakenSoFar<E>(s: seq<Candidate<E>>, removed0: int, target: int, i: nat, removed: int)
    requires i <= |s|
  {
    Take(s, removed0, target) == (s[..i] + Take(s[i..], removed, target).0, Take(s[i..], removed, target).1)
  }

  /** A bucket pass starts from the whole ordered bucket. */
  lemma TakeStart<E>(s: seq<Candidate<E>>, removed: int, target: int)
    ensures TakenSoFar(s, removed, target, 0, removed)
  {
    assert s[..0] == [] && s[0..] == s;
    assert [] + Take(s, removed, target).0 == Take(s, removed, target).0;
  }

  /** With `removed` below the target, candidate `i` is taken and the pass goes on
      from `removed` plus its cost (`next`) at candidate `j`, the one after it. */
  lemma TakeAdvance<E>(s: seq<Candidate<E>>, i: nat, removed0: int, removed: int, target: int, j: nat, next: int)
    requires i < |s| && removed < target && TakenSoFar(s, removed0, target, i, removed)
    requires j == i + 1 && next == removed + s[i].cost
    ensures TakenSoFar(s, removed0, target, j, next)
  {
    var rest := Take(s[i + 1..], removed + s[i].cost, target);
    assert s[i..][1..] == s[i + 1..];
    assert s[..i + 1] == s[..i] + [s[i]];
    assert s[..i] + ([s[i]] + rest.0) == s[..i + 1] + rest.0;
  }

  /** A bucket pass takes nothing more once the removed size meets the target or the
      bucket is exhausted. */
  lemma TakeStop<E>(s: seq<Candidate<E>>, i: nat, removed0: int, removed: int, target: int)
    requires i <= |s| && (i == |s| || target <= removed) && TakenSoFar(s, removed0, target, i, removed)
    ensures Take(s, removed0, target) == (s[..i], removed)
  {
    assert s[..i] + [] == s[..i];
  }

  /** A bucket pass never overshoots by more than its last candidate: before that one
      was taken, the removed size was still below the target. */
  lemma {:induction false} TakeMinimal<E>(s: seq<Candidate<E>>, removed: int, target: int)
    requires Take(s, removed, target).0 != []
    ensures var t := Take(s, removed, target).0;
      removed + SumCost(t[..|t| - 1]) < target
  {
    var t := Take(s, removed, target).0;
    var rest := Take(s[1..], removed + s[0].cost, target).0;
    assert t == [s[0]] + rest;
    if rest == [] {
      assert t[..|t| - 1] == [];
    } else {
      TakeMinimal(s[1..], removed + s[0].cost, target);
      assert t[..|t| - 1] == [s[0]] + rest[..|rest| - 1];
      assert (t[..|t| - 1])[1..] == rest[..|rest| - 1];
    }
  }

  lemma TakeMembers<E>(s: seq<Candidate<E>>, removed: int, target: int)
    ensures forall c :: c in Take(s, removed, target).0 ==> c in s
  {
    TakeSpec(s, removed, target);
    var t := Take(s, removed, target).0;
    forall c | c in t ensures c in s {
      var i :| 0 <= i < |t| && t[i] == c;
      assert s[i] == c;
    }
  }

  // ---- The whole policy ----

  lemma ConcatPrefix<T>(a: seq<T>, b: seq<T>, c: seq<T>, d: seq<T>)
    ensures (a + b + c + d)[..|a|] == a
    ensures forall x | x in a :: x in a + b + c + d
  {
    assert a + b + c + d == a + (b + c + d);
  }

  /** Every expired candidate is removed, and removed first. */
  lemma SelectionRemovesExpiredFirst<E>(cs: seq<Candidate<E>>, target: int)
    ensures Selection(cs, target)[..|ExpiredOf(cs)|] == ExpiredOf(cs)
    ensures forall c | c in cs && c.expired :: c in Selection(cs, target)
  {
    var p := PlanOf(cs, target);
    ConcatPrefix(p.expired, p.low, p.normal, p.high);
    ExpiredOfMembers(cs);
  }

  /** A bucket pass takes only unexpired candidates of that bucket's priority. */
  lemma BucketPassMembers<E>(cs: seq<Candidate<E>>, pr: Priority, removed: int, target: int)
    ensures forall c | c in Take(SortByAccess(BucketOf(cs, pr)), removed, target).0 ::
      c in cs && !c.expired && c.priority == pr
  {
    var sorted := SortByAccess(BucketOf(cs, pr));
    forall c | c in Take(sorted, removed, target).0 ensures c in cs && !c.expired && c.priority == pr {
      TakeMembers(sorted, removed, target);
      SortByAccessMembers(BucketOf(cs, pr));
      BucketOfMembers(cs, pr);
    }
  }

  /** Only candidates are removed, and an unexpired NeverRemove entry never is. Each
      removed candidate is expired or comes from the bucket of its own priority. */
  lemma SelectionSparesNeverRemove<E>(cs: seq<Candidate<E>>, target: int)
    ensures forall c | c in Selection(cs, target) :: c in cs && (c.expired || c.priority != NeverRemove)
    ensures forall c | c in PlanOf(cs, target).expired :: c in cs && c.expired
    ensures forall c | c in PlanOf(cs, target).low :: c in cs && !c.expired && c.priority == Low
    ensures forall c | c in PlanOf(cs, target).normal :: c in cs && !c.expired && c.priority == Normal
    ensures forall c | c in PlanOf(cs, target).high :: c in cs && !c.expired && c.priority == High
  {
    var p := PlanOf(cs, target);
    var low := Take(SortByAccess(BucketOf(cs, Low)), SumCost(p.expired), target);
    var normal := Take(SortByAccess(BucketOf(cs, Normal)), low.1, target);
    var high := Take(SortByAccess(BucketOf(cs, High)), normal.1, target);
    assert p.expired == ExpiredOf(cs);
    assert p.low == low.0 && p.normal == normal.0 && p.high == high.0;
    forall c | c in p.expired ensures c in cs && c.expired {
      ExpiredOfMembers(cs);
    }
    BucketPassMembers(cs, Low, SumCost(p.expired), target);
    BucketPassMembers(cs, Normal, low.1, target);
    BucketPassMembers(cs, High, normal.1, target);
    var sel := p.expired + p.low + p.normal + p.high;
    assert Selection(cs, target) == sel;
    forall c | c in sel ensures c in cs && (c.expired || c.priority != NeverRemove) {
      assert c in p.expired || c in p.low || c in p.normal || c in p.high;
    }
  }

  /** The bucket passes over any ordered buckets: each takes a prefix of its bucket, a
      later bucket is touched only when the earlier ones were taken whole, the passes
      stop as soon as the removed size meets the target and otherwise take everything,
      and the removed size is the cost of what was selected. */
  lemma {:induction false} PlanFromOrder<E>(expired: seq<Candidate<E>>, low: seq<Candidate<E>>,
                                            normal: seq<Candidate<E>>, high: seq<Candidate<E>>, target: int)
    ensures var p := PlanFrom(expired, low, normal, high, target);
      && |p.low| <= |low| && |p.normal| <= |normal| && |p.high| <= |high|
      && p.low == low[..|p.low|] && p.normal == normal[..|p.normal|] && p.high == high[..|p.high|]
      && (p.normal != [] ==> p.low == low)
      && (p.high != [] ==> p.low == low && p.normal == normal)
      && (p.removed >= target || (p.low == low && p.normal == normal && p.high == high))
      && p.removed == SumCost(p.expired + p.low + p.normal + p.high)
  {
    var p := PlanFrom(expired, low, normal, high, target);
    var l := Take(low, SumCost(expired), target);
    var n := Take(normal, l.1, target);
    TakeSpec(low, SumCost(expired), target);
    TakeSpec(normal, l.1, target);
    TakeSpec(high, n.1, target);
    SumCostAppend(p.expired, p.low);
    SumCostAppend(p.expired + p.low, p.normal);
    SumCostAppend(p.expired + p.low + p.normal, p.high);
  }

  /** Buckets are taken Low, then Normal, then High, each least recently used first
      (a prefix of the ordered bucket), and a later bucket is touched only when the
      earlier ones were taken whole; selection stops as soon as the removed size meets
      the target, and otherwise takes every bucket candidate. */
  lemma SelectionBucketOrder<E>(cs: seq<Candidate<E>>, target: int)
    ensures var p := PlanOf(cs, target);
      var low := SortByAccess(BucketOf(cs, Low));
      var normal := SortByAccess(BucketOf(cs, Normal));
      var high := SortByAccess(BucketOf(cs, High));
      && SortedByAccess(low) && SortedByAccess(normal) && SortedByAccess(high)
      && |p.low| <= |low| && |p.normal| <= |normal| && |p.high| <= |high|
      && p.low == low[..|p.low|] && p.normal == normal[..|p.normal|] && p.high == high[..|p.high|]
      && (p.normal != [] ==> p.low == low)
      && (p.high != [] ==> p.low == low && p.normal == normal)
      && (p.removed >= target || (p.low == low && p.normal == normal && p.high == high))
      && p.removed == SumCost(Selection(cs, target))
  {
    SortByAccessSpec(BucketOf(cs, Low));
    SortByAccessSpec(BucketOf(cs, Normal));
    SortByAccessSpec(BucketOf(cs, High));
    PlanFromOrder(ExpiredOf(cs), SortByAccess(BucketOf(cs, Low)), SortByAccess(BucketOf(cs, Normal)),
                  SortByAccess(BucketOf(cs, High)), target);
  }

  /** Compaction removes at least the target, unless it runs out of candidates it may
      remove: then every expired candidate and every Low, Normal and High one is selected. */
  lemma SelectionReachesTarget<E>(cs: seq<Candidate<E>>, target: int)
    ensures SumCost(Selection(cs, target)) >= target
         || forall c | c in cs && (c.expired || c.priority != NeverRemove) :: c in Selection(cs, target)
  {
    var p := PlanOf(cs, target);
    var low := SortByAccess(BucketOf(cs, Low));
    var normal := SortByAccess(BucketOf(cs, Normal));
    var high := SortByAccess(BucketOf(cs, High));
    SelectionBucketOrder(cs, target);
    if p.removed < target {
      assert p.low == low && p.normal == normal && p.high == high;
      ExpiredOfMembers(cs);
      forall c | c in cs && (c.expired || c.priority != NeverRemove) ensures c in Selection(cs, target) {
        ConcatMember(p.expired, p.low, p.normal, p.high, c);
        if !c.expired {
          BucketOfMembers(cs, c.priority);
          SortByAccessMembers(BucketOf(cs, c.priority));
        }
      }
    }
  }

  /** A member of any of the four parts is a member of their concatenation. */
  lemma ConcatMember<E>(a: seq<E>, b: seq<E>, c: seq<E>, d: seq<E>, x: E)
    ensures x in a + b + c + d <==> x in a || x in b || x in c || x in d
  {
  }

  /** Selection stops at the first candidate that makes the removed size reach the target:
      before the last bucket candidate it took, the target was not yet met. */
  lemma {:induction false} PlanFromMinimal<E>(expired: seq<Candidate<E>>, low: seq<Candidate<E>>,
                                              normal: seq<Candidate<E>>, high: seq<Candidate<E>>, target: int)
    requires var p := PlanFrom(expired, low, normal, high, target); p.low + p.normal + p.high != []
    ensures var p := PlanFrom(expired, low, normal, high, target);
      var s := p.expired + p.low + p.normal + p.high;
      SumCost(s[..|s| - 1]) < target
  {
    var p := PlanFrom(expired, low, normal, high, target);
    var l := Take(low, SumCost(expired), target);
    var n := Take(normal, l.1, target);
    var s := p.expired + p.low + p.normal + p.high;
    TakeSpec(low, SumCost(expired), target);
    TakeSpec(normal, l.1, target);
    SumCostAppend(p.expired, p.low);
    SumCostAppend(p.expired + p.low, p.normal);
    if p.high != [] {
      LastTakenMinimal(p.expired + p.low + p.normal, high, n.1, p.high, target);
    } else if p.normal != [] {
      assert s == p.expired + p.low + p.normal;
      LastTakenMinimal(p.expired + p.low, normal, l.1, p.normal, target);
    } else {
      assert s == p.expired + p.low;
      LastTakenMinimal(p.expired, low, SumCost(expired), p.low, target);
    }
  }

  /** When a bucket pass that started from the cost of `x` takes anything, the cost of
      `x` and all it took but the last is below the target. */
  lemma LastTakenMinimal<E>(x: seq<Candidate<E>>, bucket: seq<Candidate<E>>, base: int, taken: seq<Candidate<E>>, target: int)
    requires SumCost(x) == base && taken == Take(bucket, base, target).0 && taken != []
    ensures SumCost((x + taken)[..|x + taken| - 1]) < target
  {
    TakeMinimal(bucket, base, target);
    DropLast(x, taken, base, target);
  }

  lemma DropLast<E>(x: seq<Candidate<E>>, t: seq<Candidate<E>>, base: int, target: int)
    requires t != [] && SumCost(x) == base && base + SumCost(t[..|t| - 1]) < target
    ensures SumCost((x + t)[..|x + t| - 1]) < target
  {
    assert (x + t)[..|x + t| - 1] == x + t[..|t| - 1];
    SumCostAppend(x, t[..|t| - 1]);
  }

  /** Compaction removes no more than it needs: when it evicts any unexpired entry, the
      cost of everything it removed before the last one is below the target. */
  lemma SelectionMinimal<E>(cs: seq<Candidate<E>>, target: int)
    requires |Selection(cs, target)| > |ExpiredOf(cs)|
    ensures var s := Selection(cs, target); SumCost(s[..|s| - 1]) < target
  {
    PlanFromMinimal(ExpiredOf(cs), SortByAccess(BucketOf(cs, Low)), SortByAccess(BucketOf(cs, Normal)),
                    SortByAccess(BucketOf(cs, High)), target);
  }

  /** The eviction scenario: A (Low, accessed at t0), B (Low, accessed later) and C (High,
      accessed at t0), nothing expired, unit costs, a target of one: only A is removed. */
  lemma LeastRecentlyUsedLowGoesFirst(t0: int, t1: int)
    requires t0 < t1
    ensures var a := Candidate("A", false, Low, t0, 1);
      var b := Candidate("B", false, Low, t1, 1);
      var c := Candidate("C", false, High, t0, 1);
      Selection([a, b, c], 1) == [a]
  {
    var a := Candidate("A", false, Low, t0, 1);
    var b := Candidate("B", false, Low, t1, 1);
    var c := Candidate("C", false, High, t0, 1);
    var cs := [a, b, c];
    assert cs[..2] == [a, b] && [a, b][..1] == [a] && [a][..0] == [];
    assert ExpiredOf([a]) == [];
    assert ExpiredOf([a, b]) == [];
    assert ExpiredOf(cs) == [];
    assert BucketOf([a], Low) == [a];
    assert BucketOf([a, b], Low) == [a, b];
    assert BucketOf(cs, Low) == [a, b];
    assert SortByAccess([a]) == [a];
    assert Insert([a], b) == [a] + Insert([], b) == [a, b];
    assert SortByAccess([a, b]) == [a, b];
    assert Take([b], 1, 1) == ([], 1);
    assert [a, b][1..] == [b];
    assert [a] + [] == [a];
    assert Take([a, b], 0, 1) == ([a], 1);
  }
}
