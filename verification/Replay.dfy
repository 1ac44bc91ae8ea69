/**
 `ScenarioReplay` (simulator /pagefrag_sim.py): replays a frozen stream of buffer
 events through one of four page policies, keeping an aggregate over all pages
 up to date by taking a page's contribution out before a change and putting it
 back afterwards.
 */
module Replay {
  import opened Basics
  import opened PageFrag
  import opened ReplayModel

  datatype Policy = Shared | PerRing | SameRingOnly | NonPagefrag

  /** `_cache_key`, for the policies that have caches. */
  function CacheKey(policy: Policy, e: Event): Key {
    match policy
    case Shared => ["lane", e.lane]
    case PerRing => if e.source == "ce" then ["ce-lane", e.lane] else ["ring", e.ring]
    case _ => ["owner-ring", e.source, e.ring]
  }

  /** `_allocate_direct` rounds up to whole pages. */
  function Rounded(aligned: nat): (n: nat)
    ensures aligned <= n < aligned + PAGE_SIZE && n % PAGE_SIZE == 0
  {
    (aligned + PAGE_SIZE - 1) / PAGE_SIZE * PAGE_SIZE
  }

  // ----- what the replay relies on -----

  /** Every live record holds its own live fragment of its cache. */
  ghost predicate Backed(caches: Caches, live: Live) {
    && (forall i :: i in live ==> Holds(caches, live[i]))
    && (forall i, j :: i in live && j in live && i != j ==>
          live[i].key != live[j].key || live[i].fragment.id != live[j].fragment.id)
  }

  predicate Holds(caches: Caches, r: Record) {
    && r.key.Some? && r.key.value in caches && IsLive(caches[r.key.value], r.fragment)
    && r.fragment.size == r.aligned
  }

  lemma {:induction false} BackedFits(a: Allocator, caches: Caches, live: Live)
    requires Inv(a, caches) && Backed(caches, live)
    ensures LiveFits(a.pages, live)
  {
    forall i | i in live ensures RecordFits(a.pages, live[i]) {
      var c := caches[live[i].key.value];
      assert Holds(caches, live[i]);
      assert FragmentFits(a, c, live[i].fragment.id);
    }
    forall i, j | i in live && j in live && i != j ensures Disjoint(live[i].fragment, live[j].fragment) {
      assert Holds(caches, live[i]) && Holds(caches, live[j]);
      LiveFragmentsDisjoint(System(a, caches), live[i].key.value, live[i].fragment.id, live[j].key.value,
                            live[j].fragment.id);
    }
  }

  /** Each live record has a page of its own, none of them current anywhere. */
  ghost predicate DirectFits(pages: map<nat, Page>, next: nat, live: Live) {
    && (forall p :: p in pages ==> p < next)
    && (forall i :: i in live ==> RecordFits(pages, live[i]) && live[i].key.None?)
    && (forall i, j :: i in live && j in live && i != j ==> live[i].fragment.pageId != live[j].fragment.pageId)
  }

  lemma {:induction false} DirectLiveFits(pages: map<nat, Page>, next: nat, live: Live)
    requires DirectFits(pages, next, live)
    ensures LiveFits(pages, live)
  {
  }

  function PostedIds(live: Live): set<nat> { set i | i in live && live[i].posted }

  ghost predicate StatesAgree(live: Live, posted: int, reaped: int) {
    posted == |PostedIds(live)| && posted + reaped == |live|
  }

  ghost predicate AggregateAgrees(aggregate: Field -> int, b: Books) {
    forall q: Field :: aggregate(q) == Total(q, b, b.pages.Keys)
  }

  // ----- moving one contribution -----

  /** Only the pages old and new contribute differently; other new pages contribute nothing. */
  ghost predicate OnlyPages(b: Books, b': Books, old_: Option<nat>, new_: nat) {
    && new_ in b'.pages && (new_ in b.pages ==> old_ == Some(new_))
    && (old_.Some? ==> old_.value in b.pages)
    && (forall p :: p in b.pages ==> p in b'.pages)
    && (forall q: Field, p :: p in b.pages && Some(p) != old_ ==> Part(q, b', p) == Part(q, b, p))
    && (forall q: Field, p :: p in b'.pages && p !in b.pages && p != new_ ==> Part(q, b', p) == 0)
  }

  function PartOf(q: Field, b: Books, p: Option<nat>): int {
    if p.Some? && p.value in b.pages then Part(q, b, p.value) else 0
  }

  /** Taking the old page's contribution out and putting the affected pages' back keeps the aggregate right. */
  lemma {:induction false} AggregateMove(q: Field, b: Books, b': Books, old_: Option<nat>, new_: nat)
    requires OnlyPages(b, b', old_, new_)
    ensures Total(q, b', b'.pages.Keys) ==
            Total(q, b, b.pages.Keys) - PartOf(q, b, old_) + PartOf(q, b', old_)
            + if old_ == Some(new_) then 0 else Part(q, b', new_)
  {
    var gone := if old_.Some? then {old_.value} else {};
    var ps := b.pages.Keys - gone;
    var ps' := b'.pages.Keys - gone - {new_};
    TotalSame(q, b, ps, b', ps');
    if old_.Some? {
      TotalRemove(q, b, b.pages.Keys, old_.value);
      TotalRemove(q, b', b'.pages.Keys, old_.value);
    } else {
      assert ps == b.pages.Keys;
    }
    if old_ != Some(new_) {
      TotalRemove(q, b', b'.pages.Keys - gone, new_);
      if old_.None? {
        assert b'.pages.Keys - gone == b'.pages.Keys;
      }
    } else {
      assert b'.pages.Keys - {new_} == ps';
    }
  }

  // ----- what an allocation from a cache does to the pages -----

  /** Giving up, freeing or reusing the page leaves sizes alone and adds at most one page. */
  lemma {:induction false} TurnShape(a: Allocator, c: Cache)
    requires Solo(a, c) && c.page.Some?
    ensures var t := TurnPage(a, c);
            && t.Done? && t.a.fallback == a.fallback && t.a.pfmemalloc == a.pfmemalloc
            && (t.c.page == c.page || t.c.page == Some(a.nextPage))
            && (forall p :: p in a.pages ==> p in t.a.pages && t.a.pages[p].size == a.pages[p].size)
            && (forall p :: p in t.a.pages && p !in a.pages ==> p == a.nextPage && t.a.pages[p].size == NewPage(a).size)
  {
    hide Solo;
    TurnIsDrain(a, c);
    DrainSolo(a, c);
    CurrentKnown(a, c);
    NextPageIsNew(a, c);
  }

  lemma {:induction false} AllocatedPage(a: Allocator, c: Cache, size: int)
    requires Solo(a, c) && size > 0
    ensures var r := Allocate(a, c, size);
            && r.Done? && r.c.page.Some? && r.c.page.value in r.a.pages
            && (r.c.page.value in a.pages ==> r.c.page == c.page)
  {
    hide Solo, TurnPage;
    AllocateResult(a, c, size);
    AllocateSolo(a, c, size);
    FilledSolo(a, c);
    NextPageIsNew(a, c);
    CurrentKnown(a, c);
    var a1, c1 := FilledAllocator(a, c), FilledCache(a, c);
    if c1.offset - size < 0 {
      TurnShape(a1, c1);
    }
  }

  lemma {:induction false} NextPageIsNew(a: Allocator, c: Cache)
    requires Solo(a, c)
    ensures a.nextPage !in a.pages && a.nextPage + 1 !in a.pages
  {
  }

  /** Pages other than the old and the new current one keep what a contribution looks at. */
  lemma {:induction false} AllocateParts(a: Allocator, c: Cache, size: int)
    requires Solo(a, c) && size > 0
    ensures var r := Allocate(a, c, size);
            && r.Done?
            && (forall p :: p in a.pages ==> p in r.a.pages && r.a.pages[p].size == a.pages[p].size)
            && (forall p :: p in a.pages && Some(p) != c.page ==> r.a.pages[p].freed == a.pages[p].freed)
            && (forall p :: p in r.a.pages && p !in a.pages && Some(p) != r.c.page ==> r.a.pages[p].freed)
  {
    var r := Allocate(a, c, size);
    AllocateSolo(a, c, size);
    AllocateResult(a, c, size);
    forall p | p in a.pages && Some(p) != c.page ensures r.a.pages[p].freed == a.pages[p].freed {
      if Touches(c, p) {
        var i :| i in OnPage(c.live, p);
        assert FragmentFits(a, c, i) && FragmentFits(r.a, r.c, i);
      }
    }
    forall p | p in r.a.pages && p !in a.pages && Some(p) != r.c.page ensures r.a.pages[p].freed {
      forall i | i in r.c.live ensures r.c.live[i].pageId != p {
        if i in c.live {
          assert FragmentFits(a, c, i);
        }
      }
      assert OnPage(r.c.live, p) == {};
    }
  }

  /** Without fallback or pfmemalloc refills every page has the full size. */
  predicate Plain(a: Allocator) {
    a.fallback == {} && a.pfmemalloc == {} && forall p :: p in a.pages ==> a.pages[p].size == CACHE_MAX_SIZE
  }

  lemma {:induction false} AllocatePlain(a: Allocator, c: Cache, size: int)
    requires Solo(a, c) && Plain(a) && 0 < size
    ensures var r := Allocate(a, c, size);
            r.Done? && Plain(r.a) && (r.value.Some? <==> size <= CACHE_MAX_SIZE)
  {
    hide Solo, TurnPage;
    AllocateSolo(a, c, size);
    AllocateResult(a, c, size);
    FilledSolo(a, c);
    OffsetBelow(a, c);
    var a1, c1 := FilledAllocator(a, c), FilledCache(a, c);
    assert Plain(a1);
    if c1.offset - size < 0 {
      TurnShape(a1, c1);
      assert Plain(TurnPage(a1, c1).a);
      TurnSolo(a1, c1);
    }
  }

  lemma {:induction false} OffsetBelow(a: Allocator, c: Cache)
    requires Solo(a, c) && Plain(a)
    ensures c.offset <= CACHE_MAX_SIZE
  {
  }

  // ----- the replay -----

  /** Whether the event can be replayed at this point: the id and its state, and the size if a cache must serve it. */
  predicate EventOk(policy: Policy, live: Live, e: Event) {
    match e.action
    case Post => e.id !in live && (policy == NonPagefrag || 0 < e.aligned <= CACHE_MAX_SIZE)
    case Alloc => e.id !in live && (policy == NonPagefrag || 0 < e.aligned <= CACHE_MAX_SIZE)
    case Reap => e.id in live && live[e.id].posted
    case Free => e.id in live && !live[e.id].posted
  }

  /** What the event does to the live records. */
  predicate EventDone(before: Live, after: Live, e: Event) {
    match e.action
    case Post => e.id in after && after == before[e.id := after[e.id]] && Carries(after[e.id], e, true)
    case Alloc => e.id in after && after == before[e.id := after[e.id]] && Carries(after[e.id], e, false)
    case Reap => e.id in before && after == before[e.id := before[e.id].(posted := false)]
    case Free => after == before - {e.id}
  }

  predicate Carries(r: Record, e: Event, posted: bool) {
    && r.ring == e.ring && r.lifetime == e.lifetime && r.requested == e.requested && r.aligned == e.aligned
       && r.posted == posted
  }

  // ----- what a replay amounts to -----

  /** What is kept between events, other than what is only derived from it. */
  datatype Store = Store(a: Allocator, caches: Caches, directPages: map<nat, Page>, nextDirectPage: nat, live: Live,
                         tags: map<nat, Tags>)

  const NEW_STORE := Store(Allocator({}, {}, 0, 1, map[], 0), map[], map[], 1, map[], map[])

  function StorePages(policy: Policy, s: Store): map<nat, Page> {
    if policy == NonPagefrag then s.directPages else s.a.pages
  }

  /** The record of an event's buffer on this fragment. */
  function RecordFor(e: Event, f: Fragment, key: Option<Key>, posted: bool): (r: Record)
    ensures Carries(r, e, posted) && r.fragment == f && r.key == key
  {
    Record(f, key, e.ring, e.lifetime, e.requested, e.aligned, posted)
  }

  /** A page remembers every ring and lifetime it has had. */
  function Tagged(tags: map<nat, Tags>, r: Record): map<nat, Tags> {
    var p := r.fragment.pageId;
    var t := TagsOf(tags, p);
    tags[p := Tags(t.rings + {r.ring}, t.lifetimes + {r.lifetime})]
  }

  function WithCache(caches: Caches, key: Key): (r: Caches)
    ensures key in r
  {
    if key in caches then caches else caches[key := EMPTY_CACHE]
  }

  /** A fragment out of the policy's cache for the event. */
  function FragmentStored(policy: Policy, s: Store, e: Event, posted: bool): Store {
    var key := CacheKey(policy, e);
    var caches := WithCache(s.caches, key);
    var o := Allocate(s.a, caches[key], e.aligned);
    if o.Raised? || o.value.None? then s
    else
      var r := RecordFor(e, o.value.value, Some(key), posted);
      s.(a := o.a, caches := caches[key := o.c], live := s.live[e.id := r], tags := Tagged(s.tags, r))
  }

  /** A page of its own for the event. */
  function DirectStored(s: Store, e: Event, posted: bool): Store {
    var p := s.nextDirectPage;
    var r := RecordFor(e, Fragment(e.id, p, 0, e.aligned), None, posted);
    s.(directPages := s.directPages[p := Page(Rounded(e.aligned), false, 1, false)], nextDirectPage := p + 1,
       live := s.live[e.id := r], tags := Tagged(s.tags, r))
  }

  /** The buffer's fragment, or its page, is given back. */
  function Returned(policy: Policy, s: Store, r: Record): Store {
    var p := r.fragment.pageId;
    if policy == NonPagefrag then
      if p !in s.directPages then s
      else s.(directPages := s.directPages[p := s.directPages[p].(refcount := 0, freed := true)])
    else if r.key.None? || r.key.value !in s.caches then s
    else
      var o := PageFrag.Free(s.a, s.caches[r.key.value], r.fragment);
      if o.Raised? then s else s.(a := o.a, caches := s.caches[r.key.value := o.c])
  }

  /** What an event that makes sense leads to. */
  function StoreStep(policy: Policy, s: Store, e: Event): Store {
    match e.action
    case Reap => if e.id in s.live then s.(live := s.live[e.id := s.live[e.id].(posted := false)]) else s
    case Free => if e.id in s.live then Returned(policy, s, s.live[e.id]).(live := s.live - {e.id}) else s
    case _ =>
      if policy == NonPagefrag then DirectStored(s, e, e.action == Post)
      else FragmentStored(policy, s, e, e.action == Post)
  }

  /** What a stream leads to, from nothing. */
  function StoreAfter(policy: Policy, es: seq<Event>): Store
    decreases |es|
  {
    if es == [] then NEW_STORE else StoreStep(policy, StoreAfter(policy, es[..|es| - 1]), es[|es| - 1])
  }

  /** Every event of the stream can be replayed at its turn. */
  ghost predicate Sensible(policy: Policy, es: seq<Event>)
    decreases |es|
  {
    es == [] || (
      var head := es[..|es| - 1];
      Sensible(policy, head) && EventOk(policy, StoreAfter(policy, head).live, es[|es| - 1]))
  }

  lemma {:induction false} FragmentStoredIs(policy: Policy, s: Store, e: Event, posted: bool, r: Record)
    requires var key := CacheKey(policy, e);
             var o := Allocate(s.a, WithCache(s.caches, key)[key], e.aligned);
             o.Done? && o.value.Some? && r == RecordFor(e, o.value.value, Some(key), posted)
    ensures var key := CacheKey(policy, e);
            var caches := WithCache(s.caches, key);
            var o := Allocate(s.a, caches[key], e.aligned);
            FragmentStored(policy, s, e, posted)
            == Store(o.a, caches[key := o.c], s.directPages, s.nextDirectPage, s.live[e.id := r], Tagged(s.tags, r))
  {
    hide CacheKey, WithCache, Allocate, RecordFor, Tagged;
  }

  lemma {:induction false} DirectStoredIs(s: Store, e: Event, posted: bool, r: Record)
    requires r == RecordFor(e, Fragment(e.id, s.nextDirectPage, 0, e.aligned), None, posted)
    ensures DirectStored(s, e, posted)
         == Store(s.a, s.caches, s.directPages[s.nextDirectPage := Page(Rounded(e.aligned), false, 1, false)],
                  s.nextDirectPage + 1, s.live[e.id := r], Tagged(s.tags, r))
  {
    hide Rounded, RecordFor, Tagged;
  }

  /** What is given back does not depend on the other live records. */
  lemma {:induction false} ReturnedLive(policy: Policy, s: Store, r: Record, live: Live)
    ensures Returned(policy, s.(live := live), r) == Returned(policy, s, r).(live := live)
  {
    hide PageFrag.Free;
  }

  class ScenarioReplay {
    const policy: Policy
    var a: Allocator
    var caches: Caches
    var directPages: map<nat, Page>
    var nextDirectPage: nat
    var live: Live
    var usage: map<nat, Usage>
    var tags: map<nat, Tags>
    var aggregate: Field -> int
    var posted: int
    var reaped: int
    var allocations: nat
    var directFrees: nat

    function Pages(): map<nat, Page>
      reads this
    {
      if policy == NonPagefrag then directPages else a.pages
    }

    function TheBooks(): Books
      reads this
    {
      Books(Pages(), usage, tags)
    }

    function TheStore(): Store
      reads this`a, this`caches, this`directPages, this`nextDirectPage, this`live, this`tags
    {
      StoreWith(live)
    }

    /** The same with another set of live records. */
    function StoreWith(live': Live): Store
      reads this`a, this`caches, this`directPages, this`nextDirectPage, this`tags
    {
      Store(a, caches, directPages, nextDirectPage, live', tags)
    }

    /** The pages and the live records fit together, by cache or one by one. */
    ghost predicate Placed()
      reads this
    {
      && Inv(a, caches) && Plain(a) && LiveFits(Pages(), live)
      && (if policy == NonPagefrag then DirectFits(directPages, nextDirectPage, live) else Backed(caches, live))
    }

    ghost predicate Valid()
      reads this
    {
      && Placed() && UsagesAgree(usage, live) && AggregateAgrees(aggregate, TheBooks())
         && StatesAgree(live, posted, reaped)
    }

    constructor (p: Policy)
      ensures Valid() && policy == p && TheStore() == NEW_STORE
    {
      policy := p;
      a := Allocator({}, {}, 0, 1, map[], 0);
      caches, directPages, nextDirectPage, live, usage, tags := map[], map[], 1, map[], map[], map[];
      aggregate := q => 0;
      posted, reaped, allocations, directFrees := 0, 0, 0, 0;
      new;
      InvStart({}, {});
      assert PostedIds(live) == {};
      forall p: nat ensures UsageAgrees(UsageOf(usage, p), live, p) {
        assert Counts(NO_USAGE.rings, RingCount(live, p)) && Counts(NO_USAGE.lifetimes, LifetimeCount(live, p));
      }
    }

    /** `self.aggregate.add(self._contribution(p), sign)`; false when the page's slack is negative. */
    method AddContribution(p: nat, sign: int) returns (ok: bool)
      requires p in Pages()
      modifies this`aggregate
      ensures ok <==> Pages()[p].freed || UsageOf(usage, p).aligned <= Pages()[p].size
      ensures forall q: Field :: aggregate(q) == old(aggregate)(q) + if ok then sign * Part(q, TheBooks(), p) else 0
    {
      ok := Pages()[p].freed || UsageOf(usage, p).aligned <= Pages()[p].size;
      if ok {
        var before, b := aggregate, TheBooks();
        aggregate := (q: Field) => before(q) + sign * (if p in b.pages then Part(q, b, p) else 0);
      }
    }

    /** `_usage_add` */
    method AddUsage(p: nat, r: Record)
      requires p == r.fragment.pageId
      modifies this`usage, this`tags
      ensures usage == old(usage)[p := UsageAdd(UsageOf(old(usage), p), r)]
      ensures tags == Tagged(old(tags), r)
    {
      usage := usage[p := UsageAdd(UsageOf(usage, p), r)];
      var t := TagsOf(tags, p);
      tags := tags[p := Tags(t.rings + {r.ring}, t.lifetimes + {r.lifetime})];
    }

    /** `_reap` */
    method ReapEvent(e: Event) returns (ok: bool)
      requires Valid() && e.action == Reap
      modifies this`live, this`posted, this`reaped
      ensures ok <==> EventOk(policy, old(live), e)
      ensures ok ==> Valid() && EventDone(old(live), live, e)
      ensures ok ==> TheStore() == StoreStep(policy, old(TheStore()), e)
    {
      hide Inv, LiveFits, UsagesAgree, AggregateAgrees, Backed, DirectFits;
      ok := e.id in live && live[e.id].posted;
      if ok {
        ReapedFits(Pages(), live, e.id);
        ReapedBacked(caches, live, e.id);
        ReapedDirect(directPages, nextDirectPage, live, e.id);
        ReapedUsages(usage, live, e.id);
        ReapedStates(live, posted, reaped, e.id);
        live := live[e.id := live[e.id].(posted := false)];
        posted, reaped := posted - 1, reaped + 1;
      }
    }

    /** `self.caches.setdefault(key, PageFragCache(self.allocator))` */
    method EnsureCache(e: Event) returns (key: Key)
      requires Valid() && policy != NonPagefrag
      modifies this`caches
      ensures Valid() && key == CacheKey(policy, e) && key in caches
      ensures caches == WithCache(old(caches), key)
    {
      hide Inv, LiveFits, UsagesAgree, AggregateAgrees, Backed, Plain, CacheKey;
      key := CacheKey(policy, e);
      if key !in caches {
        InvNewCache(a, caches, key);
        BackedMore(caches, live, key);
        caches := caches[key := EMPTY_CACHE];
      }
    }

    /** `cache.allocate`: when it succeeds, the record of its fragment can become live. */
    method ServeFragment(e: Event, key: Key, asPosted: bool) returns (ok: bool, r: Record)
      requires Placed() && policy != NonPagefrag && e.id !in live && key in caches
      modifies this`a, this`caches
      ensures ok <==> 0 < e.aligned <= CACHE_MAX_SIZE
      ensures ok ==> Carries(r, e, asPosted) && PlacedWith(live[e.id := r])
      ensures ok ==>
                var o := Allocate(old(a), old(caches)[key], e.aligned);
                && o.Done? && o.value == Some(r.fragment) && a == o.a && caches == old(caches)[key := o.c]
                && r == RecordFor(e, o.value.value, Some(key), asPosted)
    {
      hide Inv, LiveFits, Backed, Solo, Allocate, Plain, RecordFits;
      var c := caches[key];
      r := Record(Fragment(0, 0, 0, 0), Some(key), e.ring, e.lifetime, e.requested, e.aligned, asPosted);
      InvSolo(a, caches, key);
      if e.aligned == 0 {
        ImproperRaises(a, c, e.aligned);
      } else {
        AllocatePlain(a, c, e.aligned);
        AllocateResult(a, c, e.aligned);
        AllocateSolo(a, c, e.aligned);
      }
      var o := Allocate(a, c, e.aligned);
      if o.Raised? || o.value.None? {
        return false, r;
      }
      r := r.(fragment := o.value.value);
      InvStep(a, caches, key, o.a, o.c);
      BackedAdd(caches, live, key, o.c, e.id, r);
      a, caches := o.a, caches[key := o.c];
      BackedFits(a, caches, live[e.id := r]);
      ok := true;
    }

    /** The fragment, counted on its page; s is the state before the cache was there. */
    method ServeTagged(e: Event, key: Key, asPosted: bool, ghost s: Store) returns (ok: bool, r: Record)
      requires Placed() && policy != NonPagefrag && e.id !in live && key in caches && key == CacheKey(policy, e)
      requires s == Store(a, s.caches, directPages, nextDirectPage, live, tags) && caches == WithCache(s.caches, key)
      modifies this`a, this`caches, this`usage, this`tags
      ensures ok <==> 0 < e.aligned <= CACHE_MAX_SIZE
      ensures ok ==> Carries(r, e, asPosted) && PlacedWith(live[e.id := r])
      ensures ok ==>
                var o := Allocate(old(a), old(caches)[key], e.aligned);
                o.Done? && o.value == Some(r.fragment) && a == o.a
      ensures ok ==> usage == old(usage)[r.fragment.pageId := UsageAdd(UsageOf(old(usage), r.fragment.pageId), r)]
      ensures ok ==> tags == Tagged(old(tags), r)
      ensures ok ==> StoreWith(live[e.id := r]) == FragmentStored(policy, s, e, asPosted)
    {
      hide Inv, LiveFits, Backed, Solo, Allocate, Plain, RecordFits, CacheKey, WithCache, FragmentStored, Tagged;
      hide UsageAdd;
      ok, r := ServeFragment(e, key, asPosted);
      if ok {
        AddUsage(r.fragment.pageId, r);
        FragmentStoredIs(policy, s, e, asPosted, r);
      }
    }

    /** `_allocate_pagefrag`: the old page's contribution out, allocate, the affected pages' contributions back. */
    method AllocatePagefrag(e: Event, asPosted: bool) returns (ok: bool, r: Record)
      requires Valid() && policy != NonPagefrag && e.id !in live
      modifies this`a, this`caches, this`usage, this`tags, this`aggregate
      ensures ok <==> 0 < e.aligned <= CACHE_MAX_SIZE
      ensures ok ==>
              Carries(r, e, asPosted) && PlacedWith(live[e.id := r]) && UsagesAgree(usage, live[e.id := r])
              && AggregateAgrees(aggregate, TheBooks())
      ensures ok ==> StoreWith(live[e.id := r]) == FragmentStored(policy, old(TheStore()), e, asPosted)
    {
      hide ScenarioReplay.Valid, ScenarioReplay.PlacedWith, UsagesAgree, AggregateAgrees, CacheKey, WithCache;
      hide FragmentStored;
      ghost var s := TheStore();
      var key := EnsureCache(e);
      ok, r := AllocateFrom(e, key, asPosted, s);
    }

    /** The same with the cache in place. */
    method AllocateFrom(e: Event, key: Key, asPosted: bool, ghost s: Store) returns (ok: bool, r: Record)
      requires Valid() && policy != NonPagefrag && e.id !in live && key in caches && key == CacheKey(policy, e)
      requires s == Store(a, s.caches, directPages, nextDirectPage, live, tags) && caches == WithCache(s.caches, key)
      modifies this`a, this`caches, this`usage, this`tags, this`aggregate
      ensures ok <==> 0 < e.aligned <= CACHE_MAX_SIZE
      ensures ok ==>
              Carries(r, e, asPosted) && PlacedWith(live[e.id := r]) && UsagesAgree(usage, live[e.id := r])
              && AggregateAgrees(aggregate, TheBooks())
      ensures ok ==> StoreWith(live[e.id := r]) == FragmentStored(policy, s, e, asPosted)
    {
      hide Inv, LiveFits, UsagesAgree, AggregateAgrees, Backed, Solo, Allocate, Plain, OnlyPages, Part, RecordFits;
      hide CacheKey, WithCache, RecordFor, FragmentStored, Tagged, UsageAdd;
      ghost var a0, c, b0, agg0 := a, caches[key], TheBooks(), aggregate;
      InvSolo(a, caches, key);
      CurrentKnown(a, c);
      var oldPage := caches[key].page;
      if oldPage.Some? {
        SlackFits(a.pages, usage, live, oldPage.value);
        ok := AddContribution(oldPage.value, -1);
      }
      ok, r := ServeTagged(e, key, asPosted, s);
      if !ok {
        return;
      }
      UsageAddAgrees(b0.usage, live, e.id, r);
      TaggedOnly(b0.tags, r);
      AllocateBooks(a0, c, e.aligned, b0, TheBooks(), r);
      PutBack(oldPage, r.fragment.pageId, live[e.id := r]);
      AggregateFollows(agg0, aggregate, b0, TheBooks(), oldPage, r.fragment.pageId);
    }

    /** The contributions of the affected pages: the old and the new one, or the one page. */
    method PutBack(oldPage: Option<nat>, newPage: nat, ghost live': Live)
      requires LiveFits(Pages(), live') && UsagesAgree(usage, live')
      requires newPage in Pages() && (oldPage.Some? ==> oldPage.value in Pages())
      modifies this`aggregate
      ensures forall q: Field :: aggregate(q) == old(aggregate)(q) + PartOf(q, TheBooks(), oldPage)
                                                  + if oldPage == Some(newPage) then 0 else Part(q, TheBooks(), newPage)
    {
      hide LiveFits, UsagesAgree, Part;
      var ok;
      if oldPage.Some? {
        SlackFits(Pages(), usage, live', oldPage.value);
        ok := AddContribution(oldPage.value, 1);
      }
      if oldPage != Some(newPage) {
        SlackFits(Pages(), usage, live', newPage);
        ok := AddContribution(newPage, 1);
      }
    }

    /** `Placed` for a set of live records that is about to become the current one. */
    ghost predicate PlacedWith(live': Live)
      reads this
    {
      && Inv(a, caches) && Plain(a) && LiveFits(Pages(), live')
      && (if policy == NonPagefrag then DirectFits(directPages, nextDirectPage, live') else Backed(caches, live'))
    }

    /** The new page of `_allocate_direct`. */
    method NewDirectPage(e: Event, asPosted: bool) returns (r: Record)
      requires Placed() && policy == NonPagefrag && e.id !in live
      modifies this`directPages, this`nextDirectPage
      ensures r == RecordFor(e, Fragment(e.id, old(nextDirectPage), 0, e.aligned), None, asPosted)
      ensures PlacedWith(live[e.id := r]) && nextDirectPage == old(nextDirectPage) + 1
      ensures var p := old(nextDirectPage);
              p !in old(directPages)
              && directPages == old(directPages)[p := Page(Rounded(e.aligned), false, 1, false)]
    {
      hide Inv, LiveFits, DirectFits, Plain, Rounded;
      var p := nextDirectPage;
      var page := Page(Rounded(e.aligned), false, 1, false);
      r := Record(Fragment(e.id, p, 0, e.aligned), None, e.ring, e.lifetime, e.requested, e.aligned, asPosted);
      DirectAdd(directPages, p, live, e.id, r, page);
      DirectLiveFits(directPages[p := page], p + 1, live[e.id := r]);
      nextDirectPage := nextDirectPage + 1;
      directPages := directPages[p := page];
    }

    /** The new page, with the buffer counted on it. */
    method DirectTagged(e: Event, asPosted: bool) returns (r: Record)
      requires Placed() && policy == NonPagefrag && e.id !in live
      modifies this`directPages, this`nextDirectPage, this`usage, this`tags
      ensures Carries(r, e, asPosted) && PlacedWith(live[e.id := r])
      ensures var p := r.fragment.pageId;
              && p !in old(directPages) && p in directPages && directPages == old(directPages)[p := directPages[p]]
              && !directPages[p].freed
              && usage == old(usage)[p := UsageAdd(UsageOf(old(usage), p), r)] && tags == Tagged(old(tags), r)
      ensures StoreWith(live[e.id := r]) == DirectStored(old(TheStore()), e, asPosted)
    {
      hide Inv, LiveFits, DirectFits, Plain, Rounded, DirectStored, Tagged, UsageAdd;
      r := NewDirectPage(e, asPosted);
      AddUsage(r.fragment.pageId, r);
      DirectStoredIs(old(TheStore()), e, asPosted, r);
    }

    /** `_allocate_direct`: a page-rounded page of its own. */
    method AllocateDirect(e: Event, asPosted: bool) returns (r: Record)
      requires Valid() && policy == NonPagefrag && e.id !in live
      modifies this`directPages, this`nextDirectPage, this`usage, this`tags, this`aggregate
      ensures Carries(r, e, asPosted) && PlacedWith(live[e.id := r]) && UsagesAgree(usage, live[e.id := r])
      ensures AggregateAgrees(aggregate, TheBooks())
      ensures StoreWith(live[e.id := r]) == DirectStored(old(TheStore()), e, asPosted)
    {
      hide Inv, LiveFits, UsagesAgree, AggregateAgrees, DirectFits, Plain, OnlyPages, Part, Rounded;
      hide DirectStored, RecordFor, Tagged, UsageAdd;
      ghost var b0, agg0 := TheBooks(), aggregate;
      r := DirectTagged(e, asPosted);
      var p := r.fragment.pageId;
      UsageAddAgrees(b0.usage, live, e.id, r);
      TaggedOnly(b0.tags, r);
      NewPageBooks(b0, TheBooks(), p);
      SlackFits(directPages, usage, live[e.id := r], p);
      var ok := AddContribution(p, 1);
      AggregateFollows(agg0, aggregate, b0, TheBooks(), None, p);
    }

    /** `_allocate` */
    method AllocateEvent(e: Event) returns (ok: bool)
      requires Valid() && (e.action == Post || e.action == Alloc)
      modifies this`a, this`caches, this`usage, this`tags, this`aggregate, this`directPages, this`nextDirectPage,
               this`live, this`posted, this`reaped, this`allocations
      ensures ok <==> EventOk(policy, old(live), e)
      ensures ok ==> Valid() && EventDone(old(live), live, e)
      ensures ok ==> TheStore() == StoreStep(policy, old(TheStore()), e)
    {
      hide Inv, LiveFits, UsagesAgree, AggregateAgrees, Backed, DirectFits, Plain, StatesAgree;
      hide FragmentStored, DirectStored;
      if e.id in live {
        return false;
      }
      var r;
      if policy == NonPagefrag {
        r := AllocateDirect(e, e.action == Post);
        ok := true;
      } else {
        ok, r := AllocatePagefrag(e, e.action == Post);
        if !ok {
          return;
        }
      }
      AddedStates(live, posted, reaped, e.id, r);
      live := live[e.id := r];
      allocations := allocations + 1;
      if e.action == Post {
        posted := posted + 1;
      } else {
        reaped := reaped + 1;
      }
    }

    /** `_free` */
    method FreeEvent(e: Event) returns (ok: bool)
      requires Valid() && e.action == Action.Free
      modifies this`a, this`caches, this`usage, this`aggregate, this`directPages, this`live, this`reaped,
               this`directFrees
      ensures ok <==> EventOk(policy, old(live), e)
      ensures ok ==> Valid() && EventDone(old(live), live, e)
      ensures ok ==> TheStore() == StoreStep(policy, old(TheStore()), e)
    {
      hide Inv, LiveFits, UsagesAgree, AggregateAgrees, Backed, DirectFits, Plain, StatesAgree, OnlyPages, Part;
      hide RecordFits, Returned;
      if e.id !in live || live[e.id].posted {
        return false;
      }
      RemovedStates(live, posted, reaped, e.id);
      Release(e.id);
      reaped := reaped - 1;
      ok := true;
    }

    /** The record of this id goes: out with its page's contribution, free, and back in. */
    method Release(id: nat)
      requires Placed() && UsagesAgree(usage, live) && AggregateAgrees(aggregate, TheBooks()) && id in live
      modifies this`a, this`caches, this`usage, this`aggregate, this`directPages, this`live, this`directFrees
      ensures Placed() && UsagesAgree(usage, live) && AggregateAgrees(aggregate, TheBooks()) && live == old(live) - {id}
      ensures TheStore() == Returned(policy, old(TheStore()), old(live)[id]).(live := live)
    {
      hide Inv, LiveFits, UsagesAgree, AggregateAgrees, Backed, DirectFits, Plain, OnlyPages, Part, RecordFits;
      hide Returned;
      var r := live[id];
      var p := r.fragment.pageId;
      ghost var live0, b0, agg0 := live, TheBooks(), aggregate;
      LivePage(Pages(), live, id);
      SlackFits(Pages(), usage, live, p);
      var ok := AddContribution(p, -1);
      live := live - {id};
      UsageRemoveAgrees(usage, live0, id);
      usage := usage[p := UsageRemove(UsageOf(usage, p), r)];
      ReturnedLive(policy, old(TheStore()), r, live);
      GiveBack(r, live0, id);
      FreedBooks(b0, TheBooks(), p);
      SlackFits(Pages(), usage, live, p);
      ok := AddContribution(p, 1);
      AggregateFollows(agg0, aggregate, b0, TheBooks(), Some(p), p);
    }

    /** The page or the fragment goes back; live is what is left. */
    method GiveBack(r: Record, ghost live0: Live, ghost i: nat)
      requires PlacedWith(live0) && i in live0 && live0[i] == r && live == live0 - {i}
      requires r.fragment.pageId in Pages()
      modifies this`a, this`caches, this`directPages, this`directFrees
      ensures Placed() && TheStore() == Returned(policy, old(TheStore()), r)
      ensures Pages().Keys == old(Pages()).Keys && r.fragment.pageId in Pages()
      ensures forall p :: p in Pages() ==> Pages()[p].size == old(Pages())[p].size
      ensures forall p :: p in Pages() && p != r.fragment.pageId ==> Pages()[p].freed == old(Pages())[p].freed
    {
      hide Inv, LiveFits, Backed, DirectFits, Plain, PageFrag.Free, Frame, Solo;
      var p := r.fragment.pageId;
      if policy == NonPagefrag {
        DirectRemove(directPages, nextDirectPage, live0, i);
        directPages := directPages[p := directPages[p].(refcount := 0, freed := true)];
        directFrees := directFrees + 1;
        DirectLiveFits(directPages, nextDirectPage, live);
      } else {
        BackedHolds(caches, live0, i);
        var k := r.key.value;
        InvSolo(a, caches, k);
        FreeSolo(a, caches[k], r.fragment);
        ghost var a0, caches0 := a, caches;
        var o := PageFrag.Free(a, caches[k], r.fragment);
        InvStep(a, caches, k, o.a, o.c);
        FreeShape(a, caches[k], r.fragment);
        BackedRemove(caches, live0, i);
        a, caches := o.a, caches[k := o.c];
        BackedFits(a, caches, live);
      }
    }

    /** `_process` */
    method Process(e: Event) returns (ok: bool)
      requires Valid()
      modifies this`a, this`caches, this`usage, this`tags, this`aggregate, this`directPages, this`nextDirectPage,
               this`live,
               this`posted, this`reaped, this`allocations, this`directFrees
      ensures ok <==> EventOk(policy, old(live), e)
      ensures ok ==> Valid() && EventDone(old(live), live, e)
      ensures ok ==> TheStore() == StoreStep(policy, old(TheStore()), e)
    {
      hide ScenarioReplay.Valid, EventOk, EventDone, StoreStep;
      match e.action {
        case Post => ok := AllocateEvent(e);
        case Alloc => ok := AllocateEvent(e);
        case Reap => ok := ReapEvent(e);
        case Free => ok := FreeEvent(e);
      }
    }
  }

  /** The check on a contribution's slack cannot fail. */
  lemma {:induction false} SlackFits(pages: map<nat, Page>, usage: map<nat, Usage>, live: Live, p: nat)
    requires LiveFits(pages, live) && UsagesAgree(usage, live) && p in pages
    ensures UsageOf(usage, p).aligned <= pages[p].size
  {
    SlackNonNegative(pages, live, p);
    assert UsageAgrees(UsageOf(usage, p), live, p);
  }

  lemma {:induction false} CurrentKnown(a: Allocator, c: Cache)
    requires Solo(a, c)
    ensures c.page.Some? ==> c.page.value in a.pages
  {
  }

  lemma {:induction false} BackedMore(caches: Caches, live: Live, k: Key)
    requires Backed(caches, live) && k !in caches
    ensures Backed(caches[k := EMPTY_CACHE], live)
  {
    forall i | i in live ensures Holds(caches[k := EMPTY_CACHE], live[i]) {
      assert Holds(caches, live[i]);
    }
  }

  lemma {:induction false} BackedAdd(caches: Caches, live: Live, k: Key, c': Cache, i: nat, r: Record)
    requires Backed(caches, live) && k in caches && i !in live && r.key == Some(k)
    requires var f := r.fragment; f.id !in caches[k].live && c'.live == caches[k].live[f.id := f] && f.size == r.aligned
    ensures Backed(caches[k := c'], live[i := r])
  {
    forall j | j in live
      ensures Holds(caches[k := c'], live[j]) && (live[j].key != r.key || live[j].fragment.id != r.fragment.id)
    {
      assert Holds(caches, live[j]);
    }
  }

  lemma {:induction false} BackedHolds(caches: Caches, live: Live, i: nat)
    requires Backed(caches, live) && i in live
    ensures Holds(caches, live[i])
  {
  }

  lemma {:induction false} BackedRemove(caches: Caches, live: Live, i: nat)
    requires Backed(caches, live) && i in live && Holds(caches, live[i])
    ensures var k := live[i].key.value; var c := caches[k];
            forall c': Cache :: c'.live == c.live - {live[i].fragment.id} ==> Backed(caches[k := c'], live - {i})
  {
    var k := live[i].key.value;
    forall c': Cache, j | c'.live == caches[k].live - {live[i].fragment.id} && j in live - {i}
      ensures Holds(caches[k := c'], live[j])
    {
      assert Holds(caches, live[j]);
    }
  }

  /** The pages after an allocation from a cache, for the contributions. */
  lemma {:induction false} TaggedOnly(tags: map<nat, Tags>, r: Record)
    ensures var p := r.fragment.pageId; p in Tagged(tags, r) && Tagged(tags, r) == tags[p := Tagged(tags, r)[p]]
  {
  }

  lemma {:induction false} AllocateBooks(a: Allocator, c: Cache, size: int, b: Books, b': Books, r: Record)
    requires Solo(a, c) && size > 0 && b.pages == a.pages
    requires var o := Allocate(a, c, size);
             && o.Done? && o.value == Some(r.fragment) && b'.pages == o.a.pages
             && b'.usage == b.usage[r.fragment.pageId := UsageAdd(UsageOf(b.usage, r.fragment.pageId), r)]
             && r.fragment.pageId in b'.tags && b'.tags == b.tags[r.fragment.pageId := b'.tags[r.fragment.pageId]]
    ensures OnlyPages(b, b', c.page, r.fragment.pageId)
    ensures r.fragment.pageId in b'.pages && (c.page.Some? ==> c.page.value in b'.pages)
  {
    hide Solo, Allocate;
    AllocatedPage(a, c, size);
    AllocateParts(a, c, size);
    AllocateResult(a, c, size);
    CurrentKnown(a, c);
    var new_ := r.fragment.pageId;
    forall q: Field, p | p in b.pages && Some(p) != c.page ensures Part(q, b', p) == Part(q, b, p) {
      assert p != new_;
    }
  }

  lemma {:induction false} NewPageBooks(b: Books, b': Books, p: nat)
    requires p !in b.pages && p in b'.pages && b'.pages == b.pages[p := b'.pages[p]]
    requires p in b'.usage && b'.usage == b.usage[p := b'.usage[p]] && p in b'.tags
    requires b'.tags == b.tags[p := b'.tags[p]]
    ensures OnlyPages(b, b', None, p)
  {
  }

  lemma {:induction false} FreedBooks(b: Books, b': Books, p: nat)
    requires p in b.pages && b'.pages.Keys == b.pages.Keys && b'.tags == b.tags
    requires p in b'.usage && b'.usage == b.usage[p := b'.usage[p]]
    requires forall q :: q in b.pages ==> b'.pages[q].size == b.pages[q].size
    requires forall q :: q in b.pages && q != p ==> b'.pages[q].freed == b.pages[q].freed
    ensures OnlyPages(b, b', Some(p), p)
  {
  }

  lemma {:induction false} AggregateFollows(before: Field -> int, after: Field -> int, b: Books, b': Books,
                                            old_: Option<nat>, new_: nat)
    requires AggregateAgrees(before, b) && OnlyPages(b, b', old_, new_) && new_ in b'.pages
    requires forall q: Field ::
               after(q) == before(q) - PartOf(q, b, old_) + PartOf(q, b', old_)
                           + if old_ == Some(new_) then 0 else Part(q, b', new_)
    ensures AggregateAgrees(after, b')
  {
    forall q: Field ensures after(q) == Total(q, b', b'.pages.Keys) {
      AggregateMove(q, b, b', old_, new_);
    }
  }

  lemma {:induction false} DirectAdd(pages: map<nat, Page>, p: nat, live: Live, i: nat, r: Record, page: Page)
    requires DirectFits(pages, p, live) && i !in live && !page.freed && page.size >= r.aligned
    requires r.key.None? && r.fragment.pageId == p && r.fragment.offset == 0 && r.fragment.size == r.aligned
    ensures p !in pages && DirectFits(pages[p := page], p + 1, live[i := r])
  {
    forall j | j in live ensures RecordFits(pages[p := page], live[j]) && live[j].fragment.pageId != p {
      assert RecordFits(pages, live[j]);
    }
  }

  lemma {:induction false} DirectRemove(pages: map<nat, Page>, next: nat, live: Live, i: nat)
    requires DirectFits(pages, next, live) && i in live && live[i].fragment.pageId in pages
    ensures var p := live[i].fragment.pageId;
            DirectFits(pages[p := pages[p].(refcount := 0, freed := true)], next, live - {i})
  {
    forall j | j in live - {i}
      ensures live[j].fragment.pageId != live[i].fragment.pageId && RecordFits(pages, live[j])
    {
    }
  }

  lemma {:induction false} LivePage(pages: map<nat, Page>, live: Live, i: nat)
    requires LiveFits(pages, live) && i in live
    ensures live[i].fragment.pageId in pages
  {
    assert RecordFits(pages, live[i]);
  }

  /** Freeing a fragment looks at no page but its own. */
  lemma {:induction false} FreeShape(a: Allocator, c: Cache, f: Fragment)
    requires Solo(a, c) && Plain(a) && IsLive(c, f)
    ensures var o := PageFrag.Free(a, c, f);
            && o.Done? && Plain(o.a) && o.a.pages.Keys == a.pages.Keys && f.pageId in a.pages
            && (forall p :: p in a.pages ==> o.a.pages[p].size == a.pages[p].size)
            && (forall p :: p in a.pages && p != f.pageId ==> o.a.pages[p] == a.pages[p])
  {
    FragmentHolds(a, c, f);
    SoloFits(a, c);
    FreeDone(a, c, f);
    hide Solo, PageFrag.Free;
  }

  lemma {:induction false} SoloFits(a: Allocator, c: Cache)
    requires Solo(a, c)
    ensures AllocatorFits(a)
  {
  }

  lemma {:induction false} AddedStates(live: Live, posted: int, reaped: int, i: nat, r: Record)
    requires StatesAgree(live, posted, reaped) && i !in live
    ensures StatesAgree(live[i := r], if r.posted then posted + 1 else posted, if r.posted then reaped else reaped + 1)
  {
    StoreSize(live, i, r);
    assert PostedIds(live[i := r]) == if r.posted then PostedIds(live) + {i} else PostedIds(live);
  }

  lemma {:induction false} StoreSize(live: Live, i: nat, r: Record)
    requires i !in live
    ensures |live[i := r]| == |live| + 1
  {
    assert live[i := r].Keys == live.Keys + {i};
    assert |live[i := r]| == |live[i := r].Keys| && |live| == |live.Keys|;
  }

  lemma {:induction false} RemovedStates(live: Live, posted: int, reaped: int, i: nat)
    requires StatesAgree(live, posted, reaped) && i in live && !live[i].posted
    ensures StatesAgree(live - {i}, posted, reaped - 1)
  {
    assert PostedIds(live - {i}) == PostedIds(live);
    assert (live - {i}).Keys == live.Keys - {i} && |live - {i}| == |(live - {i}).Keys| && |live| == |live.Keys|;
  }

  lemma {:induction false} ReapedFits(pages: map<nat, Page>, live: Live, i: nat)
    requires i in live
    ensures LiveFits(pages, live) ==> LiveFits(pages, live[i := live[i].(posted := false)])
  {
  }

  lemma {:induction false} ReapedBacked(caches: Caches, live: Live, i: nat)
    requires i in live
    ensures Backed(caches, live) ==> Backed(caches, live[i := live[i].(posted := false)])
  {
  }

  lemma {:induction false} ReapedDirect(pages: map<nat, Page>, next: nat, live: Live, i: nat)
    requires i in live
    ensures DirectFits(pages, next, live) ==> DirectFits(pages, next, live[i := live[i].(posted := false)])
  {
  }

  lemma {:induction false} ReapedUsages(usage: map<nat, Usage>, live: Live, i: nat)
    requires UsagesAgree(usage, live) && i in live
    ensures UsagesAgree(usage, live[i := live[i].(posted := false)])
  {
    var live' := live[i := live[i].(posted := false)];
    assert live' - {i} == live - {i};
    forall p: nat ensures UsageAgrees(UsageOf(usage, p), live', p) {
      forall q ensures Sum(live', p, q) == Sum(live, p, q) {
        SumRemove(live, i, p, q);
        SumRemove(live', i, p, q);
      }
      SameCounts(UsageOf(usage, p).rings, RingCount(live, p), RingCount(live', p));
      SameCounts(UsageOf(usage, p).lifetimes, LifetimeCount(live, p), LifetimeCount(live', p));
    }
  }

  lemma {:induction false} ReapedStates(live: Live, posted: int, reaped: int, i: nat)
    requires StatesAgree(live, posted, reaped) && i in live && live[i].posted
    ensures StatesAgree(live[i := live[i].(posted := false)], posted - 1, reaped + 1)
  {
    var live' := live[i := live[i].(posted := false)];
    assert PostedIds(live') == PostedIds(live) - {i};
    assert live'.Keys == live.Keys && |live'| == |live'.Keys| && |live| == |live.Keys|;
  }
}
