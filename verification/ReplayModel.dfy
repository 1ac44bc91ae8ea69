/**
 What the replay of an event stream keeps about pages and live buffers
 (simulator /pagefrag_sim.py): per-page usage, tags and contributions, and what
 they have to be when recomputed from the live records.
 */
module ReplayModel {
  import opened Basics
  import opened PageFrag

  datatype Action = Post | Alloc | Reap | Free

  datatype Event = Event(time: int, seqNo: nat, action: Action, id: nat, source: string, ring: string, lane: string,
                         lifetime: string, requested: nat, aligned: nat, slot: int)

  /** `LiveRecord`; the key names the cache, and is absent for a page of its own. */
  datatype Record = Record(fragment: Fragment, key: Option<Key>, ring: string, lifetime: string, requested: nat,
                           aligned: nat, posted: bool)

  /** `PageUsage` */
  datatype Usage = Usage(requested: int, aligned: int, fragments: int, rings: map<string, int>,
                         lifetimes: map<string, int>)

  const NO_USAGE := Usage(0, 0, 0, map[], map[])

  /** `ever_rings` and `ever_lifetimes` of a page. */
  datatype Tags = Tags(rings: set<string>, lifetimes: set<string>)

  const NO_TAGS := Tags({}, {})

  type Live = map<nat, Record>

  // ----- sums over the live records -----

  datatype Metric = Requested | Aligned | Fragments | OfRing(ring: string) | OfLifetime(lifetime: string)

  function Weight(q: Metric, r: Record): nat {
    match q
    case Requested => r.requested
    case Aligned => r.aligned
    case Fragments => 1
    case OfRing(g) => if r.ring == g then 1 else 0
    case OfLifetime(l) => if r.lifetime == l then 1 else 0
  }

  /** What one live record adds to a quantity of page p. */
  function Share(q: Metric, p: nat, r: Record): nat { if r.fragment.pageId == p then Weight(q, r) else 0 }

  ghost function Sum(live: Live, p: nat, q: Metric): nat {
    if live == map[] then 0 else
      var i :| i in live;
      Share(q, p, live[i]) + Sum(live - {i}, p, q)
  }

  lemma {:induction false} SumRemove(live: Live, i: nat, p: nat, q: Metric)
    requires i in live
    ensures Sum(live, p, q) == Share(q, p, live[i]) + Sum(live - {i}, p, q)
    decreases |live|
  {
    var j :| j in live && Sum(live, p, q) == Share(q, p, live[j]) + Sum(live - {j}, p, q);
    if j != i {
      Smaller(live, j);
      Smaller(live, i);
      SumRemove(live - {j}, i, p, q);
      SumRemove(live - {i}, j, p, q);
      assert live - {j} - {i} == live - {i} - {j};
    }
  }

  lemma {:induction false} SumAdd(live: Live, i: nat, r: Record, p: nat, q: Metric)
    requires i !in live
    ensures Sum(live[i := r], p, q) == Sum(live, p, q) + Share(q, p, r)
  {
    SumRemove(live[i := r], i, p, q);
    assert live[i := r] - {i} == live;
  }

  lemma {:induction false} SumWitness(live: Live, p: nat, q: Metric) returns (i: nat)
    requires Sum(live, p, q) > 0
    ensures i in live && Share(q, p, live[i]) > 0
    decreases |live|
  {
    var j :| j in live && Sum(live, p, q) == Share(q, p, live[j]) + Sum(live - {j}, p, q);
    i := j;
    if Share(q, p, live[j]) == 0 {
      Smaller(live, j);
      i := SumWitness(live - {j}, p, q);
    }
  }

  // ----- usage agrees with the live records -----

  /** A counter has an entry exactly for what occurs, with how often. */
  ghost predicate Counts(c: map<string, int>, n: string -> nat) {
    forall s: string :: (s in c <==> n(s) > 0) && (s in c ==> c[s] == n(s))
  }

  ghost function RingCount(live: Live, p: nat): string -> nat { s => Sum(live, p, OfRing(s)) }

  ghost function LifetimeCount(live: Live, p: nat): string -> nat { s => Sum(live, p, OfLifetime(s)) }

  ghost predicate UsageAgrees(u: Usage, live: Live, p: nat) {
    && u.requested == Sum(live, p, Requested) && u.aligned == Sum(live, p, Aligned)
       && u.fragments == Sum(live, p, Fragments)
    && Counts(u.rings, RingCount(live, p)) && Counts(u.lifetimes, LifetimeCount(live, p))
  }

  function UsageOf(usage: map<nat, Usage>, p: nat): Usage { if p in usage then usage[p] else NO_USAGE }

  function TagsOf(tags: map<nat, Tags>, p: nat): Tags { if p in tags then tags[p] else NO_TAGS }

  ghost predicate UsagesAgree(usage: map<nat, Usage>, live: Live) {
    forall p: nat :: UsageAgrees(UsageOf(usage, p), live, p)
  }

  /** The live records leave no choice. */
  lemma {:induction false} OneUsage(u: Usage, u': Usage, live: Live, p: nat)
    requires UsageAgrees(u, live, p) && UsageAgrees(u', live, p)
    ensures u == u'
  {
    OneCount(u.rings, u'.rings, RingCount(live, p));
    OneCount(u.lifetimes, u'.lifetimes, LifetimeCount(live, p));
  }

  lemma {:induction false} OneCount(c: map<string, int>, c': map<string, int>, n: string -> nat)
    requires Counts(c, n) && Counts(c', n)
    ensures c == c'
  {
    forall s: string ensures s in c <==> s in c' {
      assert s in c <==> n(s) > 0;
    }
  }

  function Bump(c: map<string, int>, s: string): map<string, int> { c[s := (if s in c then c[s] else 0) + 1] }

  /** Decrement, and forget the entry at zero. */
  function Drop(c: map<string, int>, s: string): map<string, int> {
    if s in c && c[s] - 1 != 0 then c[s := c[s] - 1] else c - {s}
  }

  lemma {:induction false} BumpCounts(c: map<string, int>, n: string -> nat, n': string -> nat, k: string)
    requires Counts(c, n) && forall s :: n'(s) == n(s) + if s == k then 1 else 0
    ensures Counts(Bump(c, k), n')
  {
  }

  lemma {:induction false} DropCounts(c: map<string, int>, n: string -> nat, n': string -> nat, k: string)
    requires Counts(c, n) && forall s :: n(s) == n'(s) + if s == k then 1 else 0
    ensures Counts(Drop(c, k), n')
  {
  }

  lemma {:induction false} SameCounts(c: map<string, int>, n: string -> nat, n': string -> nat)
    requires Counts(c, n) && forall s :: n'(s) == n(s)
    ensures Counts(c, n')
  {
  }

  /** `_usage_add` */
  function UsageAdd(u: Usage, r: Record): Usage {
    Usage(u.requested + r.requested, u.aligned + r.aligned, u.fragments + 1, Bump(u.rings, r.ring),
          Bump(u.lifetimes, r.lifetime))
  }

  /** `_usage_remove` */
  function UsageRemove(u: Usage, r: Record): Usage {
    Usage(u.requested - r.requested, u.aligned - r.aligned, u.fragments - 1, Drop(u.rings, r.ring),
          Drop(u.lifetimes, r.lifetime))
  }

  lemma {:induction false} UsageAddAgrees(usage: map<nat, Usage>, live: Live, i: nat, r: Record)
    requires UsagesAgree(usage, live) && i !in live
    ensures var p := r.fragment.pageId; UsagesAgree(usage[p := UsageAdd(UsageOf(usage, p), r)], live[i := r])
  {
    var p0 := r.fragment.pageId;
    var usage' := usage[p0 := UsageAdd(UsageOf(usage, p0), r)];
    forall p: nat ensures UsageAgrees(UsageOf(usage', p), live[i := r], p) {
      UsageStoreAgrees(UsageOf(usage, p), live, i, r, p);
    }
  }

  lemma {:induction false} UsageStoreAgrees(u: Usage, live: Live, i: nat, r: Record, p: nat)
    requires UsageAgrees(u, live, p) && i !in live
    ensures UsageAgrees(if p == r.fragment.pageId then UsageAdd(u, r) else u, live[i := r], p)
  {
    hide Counts;
    var live' := live[i := r];
    SumAdd(live, i, r, p, Requested);
    SumAdd(live, i, r, p, Aligned);
    SumAdd(live, i, r, p, Fragments);
    forall s: string
      ensures RingCount(live', p)(s) == RingCount(live, p)(s) + Share(OfRing(s), p, r)
      ensures LifetimeCount(live', p)(s) == LifetimeCount(live, p)(s) + Share(OfLifetime(s), p, r)
    {
      SumAdd(live, i, r, p, OfRing(s));
      SumAdd(live, i, r, p, OfLifetime(s));
    }
    if p == r.fragment.pageId {
      BumpCounts(u.rings, RingCount(live, p), RingCount(live', p), r.ring);
      BumpCounts(u.lifetimes, LifetimeCount(live, p), LifetimeCount(live', p), r.lifetime);
    } else {
      SameCounts(u.rings, RingCount(live, p), RingCount(live', p));
      SameCounts(u.lifetimes, LifetimeCount(live, p), LifetimeCount(live', p));
    }
  }

  lemma {:induction false} UsageLoseAgrees(u: Usage, live: Live, i: nat, p: nat)
    requires UsageAgrees(u, live, p) && i in live
    ensures UsageAgrees(if p == live[i].fragment.pageId then UsageRemove(u, live[i]) else u, live - {i}, p)
  {
    hide Counts;
    var r, live' := live[i], live - {i};
    SumRemove(live, i, p, Requested);
    SumRemove(live, i, p, Aligned);
    SumRemove(live, i, p, Fragments);
    forall s: string
      ensures RingCount(live, p)(s) == RingCount(live', p)(s) + Share(OfRing(s), p, r)
      ensures LifetimeCount(live, p)(s) == LifetimeCount(live', p)(s) + Share(OfLifetime(s), p, r)
    {
      SumRemove(live, i, p, OfRing(s));
      SumRemove(live, i, p, OfLifetime(s));
    }
    if p == r.fragment.pageId {
      DropCounts(u.rings, RingCount(live, p), RingCount(live', p), r.ring);
      DropCounts(u.lifetimes, LifetimeCount(live, p), LifetimeCount(live', p), r.lifetime);
    } else {
      SameCounts(u.rings, RingCount(live, p), RingCount(live', p));
      SameCounts(u.lifetimes, LifetimeCount(live, p), LifetimeCount(live', p));
    }
  }

  lemma {:induction false} UsageRemoveAgrees(usage: map<nat, Usage>, live: Live, i: nat)
    requires UsagesAgree(usage, live) && i in live
    ensures var p := live[i].fragment.pageId;
            UsagesAgree(usage[p := UsageRemove(UsageOf(usage, p), live[i])], live - {i})
  {
    var p0 := live[i].fragment.pageId;
    var usage' := usage[p0 := UsageRemove(UsageOf(usage, p0), live[i])];
    forall p: nat ensures UsageAgrees(UsageOf(usage', p), live - {i}, p) {
      UsageLoseAgrees(UsageOf(usage, p), live, i, p);
    }
  }

  /** A page without fragments keeps no bytes, rings or lifetimes: the source's check for that never fails. */
  lemma {:induction false} EmptyUsage(u: Usage, live: Live, p: nat)
    requires UsageAgrees(u, live, p) && u.fragments == 0
    ensures u == NO_USAGE
  {
    NoneOnPage(live, p);
    forall s: string ensures RingCount(live, p)(s) == 0 && LifetimeCount(live, p)(s) == 0 {
      if Sum(live, p, OfRing(s)) > 0 {
        var i := SumWitness(live, p, OfRing(s));
        SumRemove(live, i, p, Fragments);
      }
      if Sum(live, p, OfLifetime(s)) > 0 {
        var i := SumWitness(live, p, OfLifetime(s));
        SumRemove(live, i, p, Fragments);
      }
    }
    assert u.rings == map[] && u.lifetimes == map[];
  }

  lemma {:induction false} NoneOnPage(live: Live, p: nat)
    requires Sum(live, p, Fragments) == 0
    ensures Sum(live, p, Requested) == 0 && Sum(live, p, Aligned) == 0
  {
    if Sum(live, p, Requested) > 0 {
      var i := SumWitness(live, p, Requested);
      SumRemove(live, i, p, Fragments);
    }
    if Sum(live, p, Aligned) > 0 {
      var i := SumWitness(live, p, Aligned);
      SumRemove(live, i, p, Fragments);
    }
  }

  // ----- live bytes fit their page -----

  /** Live fragments lie inside pages that are not freed, and do not overlap. */
  ghost predicate LiveFits(pages: map<nat, Page>, live: Live) {
    && (forall i :: i in live ==> RecordFits(pages, live[i]))
    && (forall i, j :: i in live && j in live && i != j ==> Disjoint(live[i].fragment, live[j].fragment))
  }

  predicate RecordFits(pages: map<nat, Page>, r: Record) {
    var f := r.fragment;
    && f.pageId in pages && !pages[f.pageId].freed
    && f.size == r.aligned && 0 <= f.offset && f.offset + f.size <= pages[f.pageId].size
  }

  /** A live fragment of page p with at least one byte. */
  predicate Occupies(live: Live, p: nat, i: nat) { i in live && live[i].fragment.pageId == p && live[i].aligned > 0 }

  lemma {:induction false} TopFragment(live: Live, p: nat, n: int, i: nat) returns (top: nat)
    requires Occupies(live, p, i)
    requires forall j :: Occupies(live, p, j) ==> live[j].fragment.offset <= n
    ensures Occupies(live, p, top)
    ensures forall j :: Occupies(live, p, j) ==> live[j].fragment.offset <= live[top].fragment.offset
    decreases n - live[i].fragment.offset
  {
    if j :| Occupies(live, p, j) && live[j].fragment.offset > live[i].fragment.offset {
      top := TopFragment(live, p, n, j);
    } else {
      top := i;
    }
  }

  /**
   Disjoint fragments inside the first n bytes have at most n bytes together: the top one leaves the rest
   below it.
   */
  lemma {:induction false} BytesBelow(live: Live, p: nat, n: nat)
    requires forall i :: Occupies(live, p, i) ==>
               var f := live[i].fragment; f.size == live[i].aligned && 0 <= f.offset && f.offset + f.size <= n
    requires forall i, j :: i in live && j in live && i != j ==> Disjoint(live[i].fragment, live[j].fragment)
    ensures Sum(live, p, Aligned) <= n
    decreases |live|
  {
    if Sum(live, p, Aligned) > 0 {
      var i := SumWitness(live, p, Aligned);
      var top := TopFragment(live, p, n, i);
      SumRemove(live, top, p, Aligned);
      Smaller(live, top);
      var rest := live - {top};
      forall j | Occupies(rest, p, j)
        ensures rest[j].fragment.offset + rest[j].fragment.size <= live[top].fragment.offset
      {
        assert Occupies(live, p, j) && Disjoint(live[j].fragment, live[top].fragment);
      }
      BytesBelow(rest, p, live[top].fragment.offset);
    }
  }

  /** The live aligned bytes on a page never exceed its size. */
  lemma {:induction false} SlackNonNegative(pages: map<nat, Page>, live: Live, p: nat)
    requires LiveFits(pages, live) && p in pages
    ensures Sum(live, p, Aligned) <= pages[p].size
  {
    forall i | Occupies(live, p, i) ensures RecordFits(pages, live[i]) {
    }
    BytesBelow(live, p, pages[p].size);
  }

  // ----- the aggregate -----

  /** The fields of `Aggregate`. */
  datatype Field =
    | UniquePages | RequestedBytes | AlignedBytes | BackingBytes | SlackBytes | CurrentMixedPages
    | HistoricalCrossLifetimePages | SameRingOnlyPages | HistoricalCrossLifetimeSlack | SameRingOnlySlack

  datatype Books = Books(pages: map<nat, Page>, usage: map<nat, Usage>, tags: map<nat, Tags>)

  /** One field of `_contribution(p)`. */
  function Part(q: Field, b: Books, p: nat): int
    requires p in b.pages
  {
    if b.pages[p].freed then 0
    else
      var u := UsageOf(b.usage, p);
      var slack := b.pages[p].size - u.aligned;
      var cross := u.fragments > 0 && |TagsOf(b.tags, p).lifetimes| > 1;
      var sameRing := u.fragments > 0 && |TagsOf(b.tags, p).rings| == 1;
      match q
      case UniquePages => 1
      case RequestedBytes => u.requested
      case AlignedBytes => u.aligned
      case BackingBytes => b.pages[p].size
      case SlackBytes => slack
      case CurrentMixedPages => if u.fragments > 0 && (|u.rings| > 1 || |u.lifetimes| > 1) then 1 else 0
      case HistoricalCrossLifetimePages => if cross then 1 else 0
      case SameRingOnlyPages => if sameRing then 1 else 0
      case HistoricalCrossLifetimeSlack => if cross then slack else 0
      case SameRingOnlySlack => if sameRing then slack else 0
  }

  /** A field summed over a set of pages from scratch. */
  ghost function Total(q: Field, b: Books, ps: set<nat>): int
    requires ps <= b.pages.Keys
  {
    if ps == {} then 0 else
      var p :| p in ps;
      Part(q, b, p) + Total(q, b, ps - {p})
  }

  lemma {:induction false} TotalRemove(q: Field, b: Books, ps: set<nat>, p: nat)
    requires ps <= b.pages.Keys && p in ps
    ensures Total(q, b, ps) == Part(q, b, p) + Total(q, b, ps - {p})
  {
    var j :| j in ps && Total(q, b, ps) == Part(q, b, j) + Total(q, b, ps - {j});
    if j != p {
      TotalRemove(q, b, ps - {j}, p);
      TotalRemove(q, b, ps - {p}, j);
      assert ps - {j} - {p} == ps - {p} - {j};
    }
  }

  /** Pages whose part is the same, and further pages whose part is zero, do not change the total. */
  lemma {:induction false} TotalSame(q: Field, b: Books, ps: set<nat>, b': Books, ps': set<nat>)
    requires ps <= b.pages.Keys && ps' <= b'.pages.Keys && ps <= ps'
    requires forall p :: p in ps ==> Part(q, b', p) == Part(q, b, p)
    requires forall p :: p in ps' && p !in ps ==> Part(q, b', p) == 0
    ensures Total(q, b', ps') == Total(q, b, ps)
    decreases |ps'|
  {
    if ps' != {} {
      var p :| p in ps' && Total(q, b', ps') == Part(q, b', p) + Total(q, b', ps' - {p});
      if p in ps {
        TotalRemove(q, b, ps, p);
        TotalSame(q, b, ps - {p}, b', ps' - {p});
      } else {
        TotalSame(q, b, ps, b', ps' - {p});
      }
    }
  }
}
