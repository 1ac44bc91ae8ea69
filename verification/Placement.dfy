/**
 Which buffers a policy puts on which pages (simulator /pagefrag_sim.py): over
 every stream that makes sense, who can ever meet on a page, and what the page's
 tags and the fields computed from them say about it.
 */
module Placement {
  import opened Basics
  import opened PageFrag
  import opened ReplayModel
  import opened Replay

  // ----- the pages and records after a sensible stream fit together -----

  ghost predicate StoreFits(policy: Policy, s: Store) {
    && Inv(s.a, s.caches) && Plain(s.a)
    && (if policy == NonPagefrag then DirectFits(s.directPages, s.nextDirectPage, s.live) else Backed(s.caches, s.live))
  }

  lemma {:induction false} FitsStart(policy: Policy)
    ensures StoreFits(policy, NEW_STORE)
  {
    InvStart({}, {});
  }

  lemma {:induction false} FitsStep(policy: Policy, s: Store, e: Event)
    requires StoreFits(policy, s) && EventOk(policy, s.live, e)
    ensures StoreFits(policy, StoreStep(policy, s, e))
  {
    hide StoreFits, FragmentStored, DirectStored, Returned;
    match e.action
    case Reap => ReapFits(policy, s, e.id);
    case Free => FreeFits(policy, s, e.id);
    case _ =>
      if policy == NonPagefrag {
        DirectStoredFits(s, e, e.action == Post);
      } else {
        var r := FragmentStoredFits(policy, s, e, e.action == Post);
      }
  }

  lemma {:induction false} ReapFits(policy: Policy, s: Store, i: nat)
    requires StoreFits(policy, s) && i in s.live
    ensures StoreFits(policy, s.(live := s.live[i := s.live[i].(posted := false)]))
  {
    hide Inv, Plain, Backed, DirectFits;
    ReapedBacked(s.caches, s.live, i);
    ReapedDirect(s.directPages, s.nextDirectPage, s.live, i);
  }

  lemma {:induction false} FreeFits(policy: Policy, s: Store, i: nat)
    requires StoreFits(policy, s) && i in s.live
    ensures StoreFits(policy, Returned(policy, s, s.live[i]).(live := s.live - {i}))
  {
    hide Inv, Plain, Backed, DirectFits, PageFrag.Free, Frame, Solo;
    var r := s.live[i];
    if policy == NonPagefrag {
      DirectHas(s.directPages, s.nextDirectPage, s.live, i);
      DirectRemove(s.directPages, s.nextDirectPage, s.live, i);
    } else {
      BackedHolds(s.caches, s.live, i);
      var k := r.key.value;
      InvSolo(s.a, s.caches, k);
      FreeSolo(s.a, s.caches[k], r.fragment);
      var o := PageFrag.Free(s.a, s.caches[k], r.fragment);
      InvStep(s.a, s.caches, k, o.a, o.c);
      FreeShape(s.a, s.caches[k], r.fragment);
      BackedRemove(s.caches, s.live, i);
    }
  }

  lemma {:induction false} DirectHas(pages: map<nat, Page>, next: nat, live: Live, i: nat)
    requires DirectFits(pages, next, live) && i in live
    ensures live[i].fragment.pageId in pages
  {
    assert RecordFits(pages, live[i]);
  }

  lemma {:induction false} DirectStoredFits(s: Store, e: Event, posted: bool)
    requires StoreFits(NonPagefrag, s) && e.id !in s.live
    ensures StoreFits(NonPagefrag, DirectStored(s, e, posted)) && s.nextDirectPage !in s.directPages
  {
    hide Inv, Plain, DirectFits, Rounded;
    var p, page := s.nextDirectPage, Page(Rounded(e.aligned), false, 1, false);
    DirectAdd(s.directPages, p, s.live, e.id, RecordFor(e, Fragment(e.id, p, 0, e.aligned), None, posted), page);
  }

  /** A fragment out of a cache: the page it is on is the cache's own, or new. */
  lemma {:induction false} FragmentStoredFits(policy: Policy, s: Store, e: Event, posted: bool) returns (r: Record)
    requires StoreFits(policy, s) && policy != NonPagefrag && e.id !in s.live && 0 < e.aligned <= CACHE_MAX_SIZE
    ensures var key := CacheKey(policy, e);
            var s' := FragmentStored(policy, s, e, posted);
            && StoreFits(policy, s') && s'.live == s.live[e.id := r] && s'.tags == Tagged(s.tags, r)
            && Carries(r, e, posted) && r.key == Some(key)
            && key in s'.caches && s'.caches == s.caches[key := s'.caches[key]]
            && s'.caches[key].page == Some(r.fragment.pageId) && r.fragment.pageId in s'.a.pages
            && (forall p :: p in s.a.pages ==> p in s'.a.pages)
            && (r.fragment.pageId in s.a.pages ==> key in s.caches && s.caches[key].page == Some(r.fragment.pageId))
  {
    hide Inv, Plain, Backed, Allocate, Solo, CacheKey, Tagged;
    var key := CacheKey(policy, e);
    var caches := WithCache(s.caches, key);
    if key !in s.caches {
      InvNewCache(s.a, s.caches, key);
      BackedMore(s.caches, s.live, key);
    }
    var c := caches[key];
    InvSolo(s.a, caches, key);
    AllocatePlain(s.a, c, e.aligned);
    AllocateResult(s.a, c, e.aligned);
    AllocateSolo(s.a, c, e.aligned);
    AllocatedPage(s.a, c, e.aligned);
    var o := Allocate(s.a, c, e.aligned);
    r := RecordFor(e, o.value.value, Some(key), posted);
    InvStep(s.a, caches, key, o.a, o.c);
    BackedAdd(caches, s.live, key, o.c, e.id, r);
    FragmentStoredIs(policy, s, e, posted, r);
  }

  // ----- where the buffers were placed -----

  /** A buffer was placed on a page, out of the cache with this key. */
  datatype Place = Place(page: nat, key: Option<Key>, event: Event)

  predicate Places(e: Event) { e.action == Post || e.action == Alloc }

  /** All placements of a stream, in order. */
  function Placements(policy: Policy, es: seq<Event>): seq<Place>
    decreases |es|
  {
    if es == [] then [] else Placements(policy, es[..|es| - 1]) + NewPlace(StoreAfter(policy, es), es[|es| - 1])
  }

  function NewPlace(s: Store, e: Event): seq<Place> {
    if Places(e) && e.id in s.live then [Place(s.live[e.id].fragment.pageId, s.live[e.id].key, e)] else []
  }

  /** What the placements have to do with the caches: a page only ever serves the one whose current page it was. */
  ghost predicate Owned(policy: Policy, s: Store, ps: seq<Place>) {
    && (forall k :: 0 <= k < |ps| ==> ps[k].page in StorePages(policy, s) && ps[k].key == KeyOf(policy, ps[k].event))
    && (forall j, k :: 0 <= j < k < |ps| && ps[j].page == ps[k].page ==>
          policy != NonPagefrag && ps[j].key == ps[k].key)
    && (policy != NonPagefrag ==> forall k, key :: 0 <= k < |ps| && key in s.caches ==>
          CurrentOnly(s.caches[key], key, ps[k]))
  }

  predicate CurrentOnly(c: Cache, key: Key, p: Place) { c.page == Some(p.page) ==> p.key == Some(key) }

  function KeyOf(policy: Policy, e: Event): Option<Key> {
    if policy == NonPagefrag then None else Some(CacheKey(policy, e))
  }

  lemma {:induction false} OwnedMore(policy: Policy, s: Store, e: Event, posted: bool, ps: seq<Place>)
    requires StoreFits(policy, s) && Owned(policy, s, ps) && policy != NonPagefrag
    requires e.id !in s.live && 0 < e.aligned <= CACHE_MAX_SIZE
    ensures var s' := FragmentStored(policy, s, e, posted);
            e.id in s'.live && Owned(policy, s', ps + [Place(s'.live[e.id].fragment.pageId, s'.live[e.id].key, e)])
  {
    hide FragmentStored, Tagged, CacheKey, StoreFits;
    var r := FragmentStoredFits(policy, s, e, posted);
    var s', key, p := FragmentStored(policy, s, e, posted), CacheKey(policy, e), r.fragment.pageId;
    var ps' := ps + [Place(p, Some(key), e)];
    forall k | 0 <= k < |ps| && ps[k].page == p ensures ps[k].key == Some(key) {
      assert CurrentOnly(s.caches[key], key, ps[k]);
    }
    forall k, j | 0 <= k < |ps'| && j in s'.caches ensures CurrentOnly(s'.caches[j], j, ps'[k]) {
      if j == key {
        assert k < |ps| ==> ps'[k] == ps[k];
      } else {
        if k < |ps| {
          assert CurrentOnly(s.caches[j], j, ps[k]);
        } else {
          CurrentApart(policy, s', j, key);
        }
      }
    }
  }

  /** Two caches have different current pages. */
  lemma {:induction false} CurrentApart(policy: Policy, s: Store, j: Key, k: Key)
    requires StoreFits(policy, s) && j in s.caches && k in s.caches && j != k
    ensures s.caches[j].page.Some? ==> s.caches[j].page != s.caches[k].page
  {
    hide CacheFits, SelfDisjoint, Refcounted, AllocatorFits;
    assert Apart(s.caches[j], s.caches[k]);
    if s.caches[j].page.Some? {
      assert Touches(s.caches[j], s.caches[j].page.value);
    }
  }

  /** What is freed or reaped is not placed anew. */
  lemma {:induction false} OwnedStays(policy: Policy, s: Store, s': Store, ps: seq<Place>)
    requires Owned(policy, s, ps) && s'.caches.Keys == s.caches.Keys
    requires forall key :: key in s.caches ==> s'.caches[key].page == s.caches[key].page
    requires forall p :: p in StorePages(policy, s) ==> p in StorePages(policy, s')
    ensures Owned(policy, s', ps)
  {
    hide CacheKey;
    forall k, key | 0 <= k < |ps| && key in s'.caches && policy != NonPagefrag
      ensures CurrentOnly(s'.caches[key], key, ps[k])
    {
      assert CurrentOnly(s.caches[key], key, ps[k]);
    }
  }

  lemma {:induction false} ReturnedPages(policy: Policy, s: Store, i: nat)
    requires StoreFits(policy, s) && i in s.live
    ensures var s' := Returned(policy, s, s.live[i]);
            && s'.caches.Keys == s.caches.Keys && s'.tags == s.tags
            && (forall key :: key in s.caches ==> s'.caches[key].page == s.caches[key].page)
            && (forall p :: p in StorePages(policy, s) ==> p in StorePages(policy, s'))
  {
    hide Inv, Plain, Backed, DirectFits, PageFrag.Free, Frame, Solo;
    var r := s.live[i];
    if policy != NonPagefrag {
      BackedHolds(s.caches, s.live, i);
      var k := r.key.value;
      InvSolo(s.a, s.caches, k);
      FreeSolo(s.a, s.caches[k], r.fragment);
      FreeShape(s.a, s.caches[k], r.fragment);
    }
  }

  // ----- tags and live records -----

  function RingsOn(ps: seq<Place>, p: nat): set<string> { set k | 0 <= k < |ps| && ps[k].page == p :: ps[k].event.ring }

  function LifetimesOn(ps: seq<Place>, p: nat): set<string> {
    set k | 0 <= k < |ps| && ps[k].page == p :: ps[k].event.lifetime
  }

  /** A page's tags are the rings and lifetimes of all buffers that were ever placed on it. */
  ghost predicate TagsRight(tags: map<nat, Tags>, ps: seq<Place>) {
    forall p: nat :: TagsOf(tags, p) == Tags(RingsOn(ps, p), LifetimesOn(ps, p))
  }

  /** The record is of the buffer that was placed here. */
  predicate IsOf(i: nat, r: Record, q: Place) {
    q.event.id == i && q.page == r.fragment.pageId && q.key == r.key && Carries(r, q.event, r.posted)
  }

  ghost predicate LivePlaced(live: Live, ps: seq<Place>) {
    forall i :: i in live ==> exists k :: 0 <= k < |ps| && IsOf(i, live[i], ps[k])
  }

  lemma {:induction false} TagsMore(tags: map<nat, Tags>, r: Record, ps: seq<Place>, q: Place)
    requires TagsRight(tags, ps) && q.page == r.fragment.pageId && q.event.ring == r.ring
    requires q.event.lifetime == r.lifetime
    ensures TagsRight(Tagged(tags, r), ps + [q])
  {
    forall p: nat ensures TagsOf(Tagged(tags, r), p) == Tags(RingsOn(ps + [q], p), LifetimesOn(ps + [q], p)) {
      OneMore(ps, q, p);
    }
  }

  lemma {:induction false} OneMore(ps: seq<Place>, q: Place, p: nat)
    ensures RingsOn(ps + [q], p) == RingsOn(ps, p) + if q.page == p then {q.event.ring} else {}
    ensures LifetimesOn(ps + [q], p) == LifetimesOn(ps, p) + if q.page == p then {q.event.lifetime} else {}
  {
    var ps' := ps + [q];
    forall x: string ensures x in RingsOn(ps', p) <==> x in RingsOn(ps, p) || (q.page == p && x == q.event.ring) {
      if x in RingsOn(ps, p) {
        var k :| 0 <= k < |ps| && ps[k].page == p && ps[k].event.ring == x;
        assert ps'[k] == ps[k];
      }
      assert ps'[|ps|] == q;
    }
    forall x: string
      ensures x in LifetimesOn(ps', p) <==> (x in LifetimesOn(ps, p) || (q.page == p && x == q.event.lifetime))
    {
      if x in LifetimesOn(ps, p) {
        var k :| 0 <= k < |ps| && ps[k].page == p && ps[k].event.lifetime == x;
        assert ps'[k] == ps[k];
      }
      assert ps'[|ps|] == q;
    }
  }

  lemma {:induction false} LiveMore(live: Live, i: nat, r: Record, ps: seq<Place>, q: Place)
    requires LivePlaced(live, ps) && IsOf(i, r, q)
    ensures LivePlaced(live[i := r], ps + [q])
  {
    hide IsOf;
    var ps', live' := ps + [q], live[i := r];
    forall j | j in live' ensures exists k :: 0 <= k < |ps'| && IsOf(j, live'[j], ps'[k]) {
      if j == i {
        assert ps'[|ps|] == q;
      } else {
        var k :| 0 <= k < |ps| && IsOf(j, live[j], ps[k]);
        assert ps'[k] == ps[k];
      }
    }
  }

  lemma {:induction false} LiveReaped(live: Live, i: nat, ps: seq<Place>)
    requires LivePlaced(live, ps) && i in live
    ensures LivePlaced(live[i := live[i].(posted := false)], ps) && LivePlaced(live - {i}, ps)
  {
    var live' := live[i := live[i].(posted := false)];
    forall j | j in live' ensures exists k :: 0 <= k < |ps| && IsOf(j, live'[j], ps[k]) {
      var k :| 0 <= k < |ps| && IsOf(j, live[j], ps[k]);
      assert IsOf(j, live'[j], ps[k]);
    }
  }

  // ----- every stream that makes sense -----

  ghost predicate Traced(policy: Policy, s: Store, ps: seq<Place>) {
    StoreFits(policy, s) && Owned(policy, s, ps) && TagsRight(s.tags, ps) && LivePlaced(s.live, ps)
  }

  lemma {:induction false} TracedStep(policy: Policy, s: Store, e: Event, ps: seq<Place>)
    requires Traced(policy, s, ps) && EventOk(policy, s.live, e)
    ensures var s' := StoreStep(policy, s, e); Traced(policy, s', ps + NewPlace(s', e))
  {
    hide StoreFits, Owned, TagsRight, LivePlaced, Tagged, FragmentStored, Returned;
    FitsStep(policy, s, e);
    var s' := StoreStep(policy, s, e);
    match e.action
    case Reap =>
      assert ps + [] == ps;
      OwnedStays(policy, s, s', ps);
      LiveReaped(s.live, e.id, ps);
    case Free =>
      assert ps + [] == ps;
      ReturnedPages(policy, s, e.id);
      OwnedStays(policy, s, s', ps);
      LiveReaped(s.live, e.id, ps);
    case _ =>
      if policy == NonPagefrag {
        DirectTraced(s, e, e.action == Post, ps);
      } else {
        FragmentTraced(policy, s, e, e.action == Post, ps);
      }
  }

  lemma {:induction false} FragmentTraced(policy: Policy, s: Store, e: Event, posted: bool, ps: seq<Place>)
    requires Traced(policy, s, ps) && policy != NonPagefrag && Places(e)
    requires e.id !in s.live && 0 < e.aligned <= CACHE_MAX_SIZE
    ensures var s' := FragmentStored(policy, s, e, posted); Traced(policy, s', ps + NewPlace(s', e))
  {
    hide StoreFits, Owned, TagsRight, LivePlaced, Tagged, FragmentStored, CacheKey;
    var r := FragmentStoredFits(policy, s, e, posted);
    OwnedMore(policy, s, e, posted, ps);
    var q := Place(r.fragment.pageId, r.key, e);
    TagsMore(s.tags, r, ps, q);
    LiveMore(s.live, e.id, r, ps, q);
  }

  lemma {:induction false} DirectTraced(s: Store, e: Event, posted: bool, ps: seq<Place>)
    requires Traced(NonPagefrag, s, ps) && Places(e) && e.id !in s.live
    ensures var s' := DirectStored(s, e, posted); Traced(NonPagefrag, s', ps + NewPlace(s', e))
  {
    hide StoreFits, TagsRight, LivePlaced, Tagged, Rounded;
    DirectStoredFits(s, e, posted);
    var r := RecordFor(e, Fragment(e.id, s.nextDirectPage, 0, e.aligned), None, posted);
    var q := Place(r.fragment.pageId, r.key, e);
    TagsMore(s.tags, r, ps, q);
    LiveMore(s.live, e.id, r, ps, q);
  }

  lemma {:induction false} TracedAfter(policy: Policy, es: seq<Event>)
    requires Sensible(policy, es)
    ensures Traced(policy, StoreAfter(policy, es), Placements(policy, es))
    decreases |es|
  {
    hide Traced, StoreStep, EventOk, NewPlace;
    if es == [] {
      TracedStart(policy);
    } else {
      TracedAfter(policy, es[..|es| - 1]);
      TracedStep(policy, StoreAfter(policy, es[..|es| - 1]), es[|es| - 1], Placements(policy, es[..|es| - 1]));
    }
  }

  lemma {:induction false} TracedStart(policy: Policy)
    ensures Traced(policy, NEW_STORE, [])
  {
    hide StoreFits;
    FitsStart(policy);
    forall p: nat ensures TagsOf(NEW_STORE.tags, p) == Tags(RingsOn([], p), LifetimesOn([], p)) {
      assert RingsOn([], p) == {} && LifetimesOn([], p) == {};
    }
  }

  // ----- who can meet on a page -----

  /** The two buffers come from one cache: by lane, by ring with the transients by lane, or by source and ring. */
  predicate OneCache(policy: Policy, e: Event, f: Event) {
    match policy
    case Shared => e.lane == f.lane
    case PerRing => if e.source == "ce" then f.source == "ce" && e.lane == f.lane
              else f.source != "ce" && e.ring == f.ring
    case SameRingOnly => e.source == f.source && e.ring == f.ring
    case NonPagefrag => false
  }

  lemma {:induction false} KeysMean(policy: Policy, e: Event, f: Event)
    requires policy != NonPagefrag
    ensures CacheKey(policy, e) == CacheKey(policy, f) <==> OneCache(policy, e, f)
  {
    var k, l := CacheKey(policy, e), CacheKey(policy, f);
    if k == l {
      assert |k| == |l| && k[0] == l[0] && k[1] == l[1] && (|k| > 2 ==> k[2] == l[2]);
    }
  }

  /** Over every stream: buffers have one cache exactly so, and buffers that were ever on one page had one cache. */
  lemma {:induction false} PageMates(policy: Policy, es: seq<Event>, j: nat, k: nat)
    requires Sensible(policy, es) && j < k < |Placements(policy, es)|
    ensures var ps := Placements(policy, es); var e, f := ps[j].event, ps[k].event;
            && (policy != NonPagefrag ==> (ps[j].key == ps[k].key <==> OneCache(policy, e, f)))
            && (ps[j].page == ps[k].page ==> OneCache(policy, e, f))
  {
    hide StoreFits, TagsRight, LivePlaced, CacheKey, OneCache;
    TracedAfter(policy, es);
    var ps := Placements(policy, es);
    if policy != NonPagefrag {
      KeysMean(policy, ps[j].event, ps[k].event);
    }
  }

  // ----- what the fields of a row count -----

  predicate LiveOn(live: Live, p: nat, i: nat) { i in live && live[i].fragment.pageId == p }

  ghost predicate InUse(live: Live, p: nat) { exists i :: LiveOn(live, p, i) }

  /** Two buffers on the page, now, of different rings or lifetimes. */
  ghost predicate MixedNow(live: Live, p: nat) {
    exists i, j :: LiveOn(live, p, i) && LiveOn(live, p, j)
                   && (live[i].ring != live[j].ring || live[i].lifetime != live[j].lifetime)
  }

  /** Two buffers of different lifetimes were placed on the page, at any time. */
  ghost predicate CrossEver(ps: seq<Place>, p: nat) {
    exists j, k :: 0 <= j < |ps| && 0 <= k < |ps| && ps[j].page == p && ps[k].page == p
                   && ps[j].event.lifetime != ps[k].event.lifetime
  }

  /** All buffers that were placed on the page, at any time, are of one ring. */
  ghost predicate OneRingEver(ps: seq<Place>, p: nat) {
    forall j, k :: 0 <= j < |ps| && 0 <= k < |ps| && ps[j].page == p && ps[k].page == p ==>
      ps[j].event.ring == ps[k].event.ring
  }

  function Indicator(b: bool): int { if b then 1 else 0 }

  /** What one page contributes to the counting fields, in terms of the events. */
  lemma {:induction false} FieldsMean(policy: Policy, es: seq<Event>, usage: map<nat, Usage>, p: nat)
    requires Sensible(policy, es) && UsagesAgree(usage, StoreAfter(policy, es).live)
    requires p in StorePages(policy, StoreAfter(policy, es))
    ensures var s, ps := StoreAfter(policy, es), Placements(policy, es);
            var b := Books(StorePages(policy, s), usage, s.tags);
            && Part(CurrentMixedPages, b, p) == Indicator(MixedNow(s.live, p))
            && Part(HistoricalCrossLifetimePages, b, p) == Indicator(InUse(s.live, p) && CrossEver(ps, p))
            && Part(SameRingOnlyPages, b, p) == Indicator(InUse(s.live, p) && OneRingEver(ps, p))
  {
    hide Traced, UsageAgrees, MixedNow, InUse, CrossEver, OneRingEver, RingsOn, LifetimesOn, StoreAfter, Placements;
    var s, ps := StoreAfter(policy, es), Placements(policy, es);
    TracedAfter(policy, es);
    assert UsageAgrees(UsageOf(usage, p), s.live, p);
    UsageMeans(UsageOf(usage, p), s.live, p);
    TagsMean(policy, s, ps, p);
    NotFreed(policy, s, ps, p);
  }

  lemma {:induction false} NotFreed(policy: Policy, s: Store, ps: seq<Place>, p: nat)
    requires Traced(policy, s, ps) && p in StorePages(policy, s)
    ensures InUse(s.live, p) ==> !StorePages(policy, s)[p].freed
    ensures MixedNow(s.live, p) ==> InUse(s.live, p)
  {
    hide Inv, Plain, Owned, TagsRight, LivePlaced, Backed, DirectFits;
    if InUse(s.live, p) {
      var i :| LiveOn(s.live, p, i);
      if policy == NonPagefrag {
        DirectLiveFits(s.directPages, s.nextDirectPage, s.live);
      } else {
        BackedFits(s.a, s.caches, s.live);
      }
      assert RecordFits(StorePages(policy, s), s.live[i]);
    }
  }

  lemma {:induction false} UsageMeans(u: Usage, live: Live, p: nat)
    requires UsageAgrees(u, live, p)
    ensures u.fragments > 0 <==> InUse(live, p)
    ensures u.fragments > 0 && (|u.rings| > 1 || |u.lifetimes| > 1) <==> MixedNow(live, p)
  {
    hide Sum;
    forall i | LiveOn(live, p, i)
      ensures u.fragments > 0 && live[i].ring in u.rings && live[i].lifetime in u.lifetimes
    {
      CountedIn(live, p, i);
    }
    if u.fragments > 0 {
      var i := SumWitness(live, p, Fragments);
      assert LiveOn(live, p, i);
    }
    if |u.rings| > 1 {
      var x, y := TwoOf(u.rings.Keys);
      var i := SumWitness(live, p, OfRing(x));
      var j := SumWitness(live, p, OfRing(y));
      assert LiveOn(live, p, i) && LiveOn(live, p, j) && live[i].ring != live[j].ring;
    }
    if |u.lifetimes| > 1 {
      var x, y := TwoOf(u.lifetimes.Keys);
      var i := SumWitness(live, p, OfLifetime(x));
      var j := SumWitness(live, p, OfLifetime(y));
      assert LiveOn(live, p, i) && LiveOn(live, p, j) && live[i].lifetime != live[j].lifetime;
    }
    if MixedNow(live, p) {
      var i, j :| LiveOn(live, p, i) && LiveOn(live, p, j)
                  && (live[i].ring != live[j].ring || live[i].lifetime != live[j].lifetime);
      if live[i].ring != live[j].ring {
        MoreThanOne(u.rings.Keys, live[i].ring, live[j].ring);
      } else {
        MoreThanOne(u.lifetimes.Keys, live[i].lifetime, live[j].lifetime);
      }
    }
  }

  lemma {:induction false} CountedIn(live: Live, p: nat, i: nat)
    requires LiveOn(live, p, i)
    ensures Sum(live, p, Fragments) > 0 && Sum(live, p, OfRing(live[i].ring)) > 0
    ensures Sum(live, p, OfLifetime(live[i].lifetime)) > 0
  {
    SumRemove(live, i, p, Fragments);
    SumRemove(live, i, p, OfRing(live[i].ring));
    SumRemove(live, i, p, OfLifetime(live[i].lifetime));
  }

  lemma {:induction false} TwoOf<T>(s: set<T>) returns (x: T, y: T)
    requires |s| > 1
    ensures x in s && y in s && x != y
  {
    x :| x in s;
    assert |s - {x}| > 0;
    y :| y in s - {x};
  }

  lemma {:induction false} MoreThanOne<T>(s: set<T>, x: T, y: T)
    requires x in s && y in s && x != y
    ensures |s| > 1
  {
    assert y in s - {x} && |s - {x}| == |s| - 1;
  }

  lemma {:induction false} TagsMean(policy: Policy, s: Store, ps: seq<Place>, p: nat)
    requires Traced(policy, s, ps)
    ensures |TagsOf(s.tags, p).lifetimes| > 1 <==> CrossEver(ps, p)
    ensures InUse(s.live, p) ==> (|TagsOf(s.tags, p).rings| == 1 <==> OneRingEver(ps, p))
  {
    hide StoreFits, Owned, IsOf;
    var rings, lifetimes := RingsOn(ps, p), LifetimesOn(ps, p);
    if |lifetimes| > 1 {
      var x, y := TwoOf(lifetimes);
    }
    if CrossEver(ps, p) {
      var j, k :| 0 <= j < |ps| && 0 <= k < |ps| && ps[j].page == p && ps[k].page == p
                  && ps[j].event.lifetime != ps[k].event.lifetime;
      MoreThanOne(lifetimes, ps[j].event.lifetime, ps[k].event.lifetime);
    }
    if InUse(s.live, p) {
      var i :| LiveOn(s.live, p, i);
      var m := PlaceOf(s.live, ps, i);
      assert ps[m].event.ring in rings;
      OneRing(ps, p, m);
    }
  }

  lemma {:induction false} PlaceOf(live: Live, ps: seq<Place>, i: nat) returns (m: nat)
    requires LivePlaced(live, ps) && i in live
    ensures m < |ps| && ps[m].page == live[i].fragment.pageId
  {
    m :| 0 <= m < |ps| && IsOf(i, live[i], ps[m]);
  }

  lemma {:induction false} OneRing(ps: seq<Place>, p: nat, m: nat)
    requires m < |ps| && ps[m].page == p
    ensures |RingsOn(ps, p)| == 1 <==> OneRingEver(ps, p)
  {
    var rings := RingsOn(ps, p);
    assert ps[m].event.ring in rings;
    if OneRingEver(ps, p) {
      assert rings == {ps[m].event.ring};
    } else {
      var j, k :| 0 <= j < |ps| && 0 <= k < |ps| && ps[j].page == p && ps[k].page == p
                  && ps[j].event.ring != ps[k].event.ring;
      MoreThanOne(rings, ps[j].event.ring, ps[k].event.ring);
    }
  }

  // ----- the policy that keeps rings apart -----

  /** Under the policy that never mixes rings, every page in use is counted as a page of one ring, and none as mixed. */
  lemma {:induction false} SameRingOnlyCounts(es: seq<Event>, usage: map<nat, Usage>)
    requires Sensible(SameRingOnly, es) && UsagesAgree(usage, StoreAfter(SameRingOnly, es).live)
    ensures var s := StoreAfter(SameRingOnly, es); var b := Books(s.a.pages, usage, s.tags);
            Total(SameRingOnlyPages, b, s.a.pages.Keys) == |UsedPages(s)|
  {
    hide InUse, OneRingEver, Part, MixedNow, CrossEver, UsagesAgree;
    var s := StoreAfter(SameRingOnly, es);
    var b := Books(s.a.pages, usage, s.tags);
    forall p | p in s.a.pages ensures Part(SameRingOnlyPages, b, p) == Indicator(InUse(s.live, p)) {
      FieldsMean(SameRingOnly, es, usage, p);
      PagesOfOneRing(es, p);
    }
    TotalIndicates(SameRingOnlyPages, b, s.a.pages.Keys, UsedPages(s));
  }

  ghost function UsedPages(s: Store): set<nat> { set p | p in s.a.pages && InUse(s.live, p) }

  lemma {:induction false} PagesOfOneRing(es: seq<Event>, p: nat)
    requires Sensible(SameRingOnly, es)
    ensures OneRingEver(Placements(SameRingOnly, es), p)
  {
    hide Sensible, Placements;
    var ps := Placements(SameRingOnly, es);
    forall j, k | 0 <= j < |ps| && 0 <= k < |ps| && ps[j].page == p && ps[k].page == p
      ensures ps[j].event.ring == ps[k].event.ring
    {
      if j < k {
        PageMates(SameRingOnly, es, j, k);
      } else if k < j {
        PageMates(SameRingOnly, es, k, j);
      }
    }
  }

  lemma {:induction false} TotalIndicates(q: Field, b: Books, ps: set<nat>, marked: set<nat>)
    requires ps <= b.pages.Keys && marked <= ps
    requires forall p :: p in ps ==> Part(q, b, p) == Indicator(p in marked)
    ensures Total(q, b, ps) == |marked|
    decreases |ps|
  {
    hide Part;
    if ps != {} {
      var p :| p in ps && Total(q, b, ps) == Part(q, b, p) + Total(q, b, ps - {p});
      TotalIndicates(q, b, ps - {p}, marked - {p});
      assert p in marked ==> |marked - {p}| == |marked| - 1;
      assert p !in marked ==> marked - {p} == marked;
    }
  }
}
