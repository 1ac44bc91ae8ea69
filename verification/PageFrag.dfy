/**
 The page-fragment allocator (simulator /pagefrag_sim.py): a physical allocator
 that hands out pages, and any number of caches that cut fragments from their
 current page and share the allocator. The operations are functions on the
 values of the objects; the classes in PageFragCache carry them out in place.
 */
module PageFrag {
  import opened Basics

  const PAGE_SIZE: nat := 4096
  const CACHE_MAX_SIZE: nat := 32768
  const CACHE_BIAS: nat := CACHE_MAX_SIZE + 1

  datatype Page = Page(size: nat, pfmemalloc: bool, refcount: int, freed: bool)

  datatype Fragment = Fragment(id: nat, pageId: nat, offset: int, size: int)

  /** The fields of a `PhysicalAllocator`. */
  datatype Allocator = Allocator(fallback: set<nat>, pfmemalloc: set<nat>, attempts: nat, nextPage: nat,
                                 pages: map<nat, Page>, frees: nat)

  /** The fields of a `PageFragCache`, with the current page named by its id. */
  datatype Cache = Cache(page: Option<nat>, offset: int, bias: int, pfmemalloc: bool, refills: nat, reuses: nat,
                         nextFragment: nat, live: map<nat, Fragment>)

  /** The exceptions the objects raise. */
  datatype Error = SizeNotPositive | BiasExceeded | LiveReferences | DoubleFree | UnknownFragment | NegativeRefcount
    | MissingPage

  /** What an operation leaves behind; the result is there unless an exception was raised. */
  datatype Outcome<+T> = Done(a: Allocator, c: Cache, value: T) | Raised(error: Error)

  /** `PhysicalAllocator.allocate` */
  function NewPage(a: Allocator): Page {
    Page(if a.attempts + 1 in a.fallback then PAGE_SIZE else CACHE_MAX_SIZE, a.attempts + 1 in a.pfmemalloc, 1, false)
  }

  /** `PhysicalAllocator.free_page` */
  function FreePage(a: Allocator, p: nat): Option<Allocator>
    requires p in a.pages
  {
    var pg := a.pages[p];
    if pg.refcount != 0 || pg.freed then None
    else Some(a.(pages := a.pages[p := pg.(freed := true)], frees := a.frees + 1))
  }

  /** `_refill`: a fresh page with the full bias on top of its own reference. */
  function RefillAllocator(a: Allocator): Allocator {
    var pg := NewPage(a);
    a.(attempts := a.attempts + 1, nextPage := a.nextPage + 1,
       pages := a.pages[a.nextPage := pg.(refcount := pg.refcount + CACHE_MAX_SIZE)])
  }

  function RefillCache(a: Allocator, c: Cache): Cache {
    var pg := NewPage(a);
    c.(page := Some(a.nextPage), offset := pg.size, bias := CACHE_BIAS, pfmemalloc := pg.pfmemalloc,
       refills := c.refills + 1)
  }

  function SetRefcount(a: Allocator, p: nat, n: int): Allocator
    requires p in a.pages
  {
    a.(pages := a.pages[p := a.pages[p].(refcount := n)])
  }

  /** The page-exhausted branch of `allocate`: the old page is given up, freed, or reused. */
  function TurnPage(a: Allocator, c: Cache): Outcome<()>
    requires c.page.Some?
  {
    var p := c.page.value;
    if p !in a.pages then Raised(MissingPage)
    else
      var rest := a.pages[p].refcount - c.bias;
      var a1 := SetRefcount(a, p, rest);
      if rest < 0 then Raised(BiasExceeded)
      else if rest != 0 then Done(RefillAllocator(a1), RefillCache(a1, c), ())
      else if c.pfmemalloc then
        var a2 := FreePage(a1, p);
        if a2.None? then Raised(DoubleFree) else Done(RefillAllocator(a2.value), RefillCache(a2.value, c), ())
      else Done(SetRefcount(a1, p, CACHE_BIAS), c.(bias := CACHE_BIAS, reuses := c.reuses + 1), ())
  }

  /** Cut `size` bytes below `offset` from the current page. */
  function Cut(a: Allocator, c: Cache, offset: int, size: int): Outcome<Option<Fragment>>
    requires c.page.Some?
  {
    var f := Fragment(c.nextFragment, c.page.value, offset, size);
    Done(a, c.(bias := c.bias - 1, offset := offset, nextFragment := c.nextFragment + 1, live := c.live[f.id := f]),
         Some(f))
  }

  /** `PageFragCache.allocate`; None when the page is too small for the fragment. */
  function Allocate(a: Allocator, c: Cache, size: int): Outcome<Option<Fragment>> {
    if size <= 0 then Raised(SizeNotPositive)
    else
      var a1, c1 := FilledAllocator(a, c), FilledCache(a, c);
      if c1.offset - size >= 0 then Cut(a1, c1, c1.offset - size, size)
      else
        var t := TurnPage(a1, c1);
        if t.Raised? then Raised(t.error)
        else if t.c.page.None? || t.c.page.value !in t.a.pages then Raised(MissingPage)
        else
          var top := if t.c.page == c1.page then t.a.pages[t.c.page.value].size else t.c.offset;
          if top - size < 0 then Done(t.a, t.c, None) else Cut(t.a, t.c, top - size, size)
  }

  predicate IsLive(c: Cache, f: Fragment) { f.id in c.live && c.live[f.id] == f }

  /** `PageFragCache.free` */
  function Free(a: Allocator, c: Cache, f: Fragment): Outcome<()> {
    if !IsLive(c, f) then Raised(UnknownFragment)
    else if f.pageId !in a.pages then Raised(MissingPage)
    else
      var c1 := c.(live := c.live - {f.id});
      var n := a.pages[f.pageId].refcount - 1;
      var a1 := SetRefcount(a, f.pageId, n);
      if n < 0 then Raised(NegativeRefcount)
      else if n != 0 then Done(a1, c1, ())
      else
        var a2 := FreePage(a1, f.pageId);
        if a2.None? then Raised(DoubleFree) else Done(a2.value, c1, ())
  }

  /** `PageFragCache.drain` */
  function Drain(a: Allocator, c: Cache): Outcome<()> {
    if c.page.None? then Done(a, c, ())
    else
      var p := c.page.value;
      if p !in a.pages then Raised(MissingPage)
      else
        var c1 := c.(page := None, offset := 0, bias := 0, pfmemalloc := false);
        var n := a.pages[p].refcount - c.bias;
        var a1 := SetRefcount(a, p, n);
        if n < 0 then Raised(BiasExceeded)
        else if n != 0 then Done(a1, c1, ())
        else
          var a2 := FreePage(a1, p);
          if a2.None? then Raised(DoubleFree) else Done(a2.value, c1, ())
  }

  // ----- counting references -----

  /** The live fragments of one cache that lie on page p. */
  function OnPage(live: map<nat, Fragment>, p: nat): set<nat> { set i | i in live && live[i].pageId == p }

  /** The references of one cache to page p: its live fragments there, and the bias if p is its current page. */
  function Share(c: Cache, p: nat): int {
    |OnPage(c.live, p)| + if c.page == Some(p) then c.bias else 0
  }

  type Key = seq<string>

  type Caches = map<Key, Cache>

  /** All references to page p, recomputed from the caches. */
  ghost function References(caches: Caches, p: nat): int {
    if caches == map[] then 0 else
      var k :| k in caches;
      Share(caches[k], p) + References(caches - {k}, p)
  }

  lemma {:induction false} ReferencesRemove(caches: Caches, k: Key, p: nat)
    requires k in caches
    ensures References(caches, p) == Share(caches[k], p) + References(caches - {k}, p)
    decreases |caches|
  {
    var j :| j in caches && References(caches, p) == Share(caches[j], p) + References(caches - {j}, p);
    if j != k {
      Smaller(caches, j);
      Smaller(caches, k);
      ReferencesRemove(caches - {j}, k, p);
      ReferencesRemove(caches - {k}, j, p);
      assert caches - {j} - {k} == caches - {k} - {j};
    }
  }

  lemma {:induction false} Smaller<K, V>(m: map<K, V>, k: K)
    requires k in m
    ensures |m - {k}| < |m|
  {
    assert (m - {k}).Keys == m.Keys - {k};
    assert |m - {k}| == |(m - {k}).Keys| && |m| == |m.Keys|;
  }

  /** Replacing one cache changes the references by that cache's share. */
  lemma {:induction false} ReferencesPut(caches: Caches, k: Key, c: Cache, p: nat)
    ensures References(caches[k := c], p) == References(caches - {k}, p) + Share(c, p)
    ensures k in caches ==> References(caches, p) == References(caches - {k}, p) + Share(caches[k], p)
    ensures k !in caches ==> caches - {k} == caches
  {
    ReferencesRemove(caches[k := c], k, p);
    assert caches[k := c] - {k} == caches - {k};
    if k in caches {
      ReferencesRemove(caches, k, p);
    }
  }

  // ----- the invariant -----

  /** One cache by itself: its current page and bias, and where its fragments may lie. */
  predicate CacheFits(a: Allocator, c: Cache) {
    && (c.page.None? ==> c.offset == 0 && c.bias == 0)
    && (c.page.Some? ==>
          && c.page.value in a.pages && !a.pages[c.page.value].freed
          && 0 <= c.offset <= a.pages[c.page.value].size
          && c.offset < c.bias <= CACHE_BIAS
          && c.pfmemalloc == a.pages[c.page.value].pfmemalloc)
    && (forall i :: i in c.live ==> FragmentFits(a, c, i))
  }

  /** A live fragment lies on a page that is not freed, inside its bounds, and above the cut of the current page. */
  predicate FragmentFits(a: Allocator, c: Cache, i: nat)
    requires i in c.live
  {
    var f := c.live[i];
    && f.id == i < c.nextFragment
    && f.pageId in a.pages && !a.pages[f.pageId].freed
    && f.size > 0 && 0 <= f.offset && f.offset + f.size <= a.pages[f.pageId].size
    && (c.page == Some(f.pageId) ==> c.offset <= f.offset)
  }

  predicate Disjoint(f: Fragment, g: Fragment) {
    f.pageId != g.pageId || f.offset + f.size <= g.offset || g.offset + g.size <= f.offset
  }

  predicate SelfDisjoint(c: Cache) {
    forall i, j :: i in c.live && j in c.live && i != j ==> Disjoint(c.live[i], c.live[j])
  }

  /** The cache refers to page p. */
  predicate Touches(c: Cache, p: nat) { c.page == Some(p) || OnPage(c.live, p) != {} }

  /** The two caches refer to different pages. */
  ghost predicate Apart(c: Cache, d: Cache) {
    forall p: nat :: !(Touches(c, p) && Touches(d, p))
  }

  predicate PagesFit(a: Allocator) {
    forall p :: p in a.pages ==>
      && p < a.nextPage && (a.pages[p].size == PAGE_SIZE || a.pages[p].size == CACHE_MAX_SIZE)
      && (a.pages[p].freed <==> a.pages[p].refcount == 0)
  }

  function FreedPages(a: Allocator): set<nat> { set p | p in a.pages && a.pages[p].freed }

  predicate AllocatorFits(a: Allocator) { PagesFit(a) && a.frees == |FreedPages(a)| }

  /** A cache is the only one that refers to its pages. */
  ghost predicate Owns(a: Allocator, c: Cache) {
    forall p: nat :: Touches(c, p) ==> p in a.pages && a.pages[p].refcount == Share(c, p)
  }

  /** What the operations need of the allocator and the one cache they work on. */
  ghost predicate Solo(a: Allocator, c: Cache) {
    AllocatorFits(a) && CacheFits(a, c) && SelfDisjoint(c) && Owns(a, c)
  }

  /** Everything that holds after any sequence of operations on any number of caches. */
  ghost predicate Inv(a: Allocator, caches: Caches) {
    && AllocatorFits(a)
    && (forall k :: k in caches ==> CacheFits(a, caches[k]) && SelfDisjoint(caches[k]))
    && (forall j, k :: j in caches && k in caches && j != k ==> Apart(caches[j], caches[k]))
    && Refcounted(a, caches)
  }

  ghost predicate Refcounted(a: Allocator, caches: Caches) {
    forall p :: p in a.pages ==> a.pages[p].refcount == References(caches, p)
  }

  // ----- one cache -----

  /** What an operation on c may change: only pages of c and new pages, and those it lets go of are freed. */
  ghost predicate Frame(a: Allocator, c: Cache, a': Allocator, c': Cache) {
    && a.nextPage <= a'.nextPage
    && (forall p :: p in a.pages ==>
        p in a'.pages && a'.pages[p].size == a.pages[p].size
        && (a.pages[p].freed ==> a'.pages[p].freed))
    && (forall p: nat :: p in a.pages && !Touches(c, p) ==> a'.pages[p] == a.pages[p] && !Touches(c', p))
    && (forall p: nat :: p in a'.pages && (Touches(c, p) || p !in a.pages) && !Touches(c', p) ==>
        a'.pages[p].refcount == 0)
  }

  lemma {:induction false} ShareZero(c: Cache, p: nat)
    requires !Touches(c, p)
    ensures Share(c, p) == 0
  {
  }

  /** The cache after giving up its current page. */
  function Detached(c: Cache): Cache { c.(page := None, offset := 0, bias := 0, pfmemalloc := false) }

  lemma {:induction false} DetachedFits(a: Allocator, c: Cache, a': Allocator)
    requires CacheFits(a, c) && SelfDisjoint(c)
    requires forall p :: p in a.pages ==> p in a'.pages && a'.pages[p].size == a.pages[p].size
    requires forall p :: p in a.pages && OnPage(c.live, p) != {} ==> a'.pages[p].freed == a.pages[p].freed
    ensures CacheFits(a', Detached(c)) && SelfDisjoint(Detached(c))
  {
    forall i | i in c.live ensures FragmentFits(a', Detached(c), i) {
      assert FragmentFits(a, c, i) && i in OnPage(c.live, c.live[i].pageId);
    }
  }

  /** Giving up the current page never fails; the page is freed exactly when no fragment is left on it. */
  lemma {:induction false} DrainSolo(a: Allocator, c: Cache)
    requires Solo(a, c)
    ensures var d := Drain(a, c);
            d.Done? && Solo(d.a, d.c) && Frame(a, c, d.a, d.c) && d.c.page.None? && d.c.live == c.live
              && d.a.nextPage == a.nextPage
    ensures c.page.Some? ==> (Drain(a, c).a.pages[c.page.value].freed <==> OnPage(c.live, c.page.value) == {})
  {
    hide SelfDisjoint, Frame, Owns;
    if c.page.None? {
      NothingDetached(a, c);
    } else {
      var p := c.page.value;
      var n := a.pages[p].refcount - c.bias;
      var a1 := SetRefcount(a, p, n);
      CurrentShare(a, c);
      if n == 0 {
        FreedOne(a, a1, p);
        DetachedFits(a, c, FreePage(a1, p).value);
        DetachedFrame(a, c, FreePage(a1, p).value);
      } else {
        assert FreedPages(a1) == FreedPages(a);
        DetachedFits(a, c, a1);
        DetachedFrame(a, c, a1);
      }
    }
  }

  lemma {:induction false} NothingDetached(a: Allocator, c: Cache)
    requires Owns(a, c)
    ensures Frame(a, c, a, c)
  {
    hide Touches;
  }

  /** The references to the current page that are not bias are its live fragments. */
  lemma {:induction false} CurrentShare(a: Allocator, c: Cache)
    requires Owns(a, c) && c.page.Some?
    ensures var p := c.page.value; p in a.pages && a.pages[p].refcount - c.bias == |OnPage(c.live, p)|
  {
    assert Touches(c, c.page.value);
  }

  /** Only the current page changes when it is given up, and it keeps the references of its live fragments. */
  lemma {:induction false} DetachedFrame(a: Allocator, c: Cache, a': Allocator)
    requires Owns(a, c) && c.page.Some? && c.page.value in a.pages && c.page.value in a'.pages
    requires var p := c.page.value;
             && a'.nextPage == a.nextPage && a'.pages == a.pages[p := a'.pages[p]]
             && a'.pages[p].size == a.pages[p].size && (a.pages[p].freed ==> a'.pages[p].freed)
             && a'.pages[p].refcount == |OnPage(c.live, p)|
    ensures Owns(a', Detached(c)) && Frame(a, c, a', Detached(c))
  {
    var p := c.page.value;
    forall q: nat ensures q != p ==> Touches(Detached(c), q) == Touches(c, q) && Share(Detached(c), q) == Share(c, q) {
    }
    assert Touches(c, p) && Share(Detached(c), p) == |OnPage(c.live, p)|;
  }

  /** Freeing the page whose last reference has just gone keeps the allocator's books. */
  lemma {:induction false} FreedOne(a: Allocator, a1: Allocator, p: nat)
    requires AllocatorFits(a) && p in a.pages && !a.pages[p].freed && a1 == SetRefcount(a, p, 0)
    ensures FreePage(a1, p).Some? && AllocatorFits(FreePage(a1, p).value)
  {
    assert FreedPages(FreePage(a1, p).value) == FreedPages(a) + {p};
  }

  /** A fresh page for a cache that has none. */
  lemma {:induction false} RefillSolo(a: Allocator, c: Cache)
    requires Solo(a, c) && c.page.None?
    ensures var a' := RefillAllocator(a); var c' := RefillCache(a, c);
            Solo(a', c') && Frame(a, c, a', c') && c'.page == Some(a.nextPage) && OnPage(c'.live, a.nextPage) == {}
            && c'.offset == a'.pages[a.nextPage].size
  {
    var a' := RefillAllocator(a);
    var c' := RefillCache(a, c);
    assert a.nextPage !in a.pages;
    assert !Touches(c, a.nextPage);
    assert FreedPages(a') == FreedPages(a);
    forall i | i in c.live ensures FragmentFits(a', c', i) {
      assert FragmentFits(a, c, i);
    }
    forall p: nat ensures Touches(c', p) <==> Touches(c, p) || p == a.nextPage {
    }
  }

  /** The fragment that Cut makes. */
  function CutFragment(c: Cache, offset: int, size: int): Fragment
    requires c.page.Some?
  {
    Fragment(c.nextFragment, c.page.value, offset, size)
  }

  lemma {:induction false} CutOnPage(a: Allocator, c: Cache, f: Fragment)
    requires CacheFits(a, c) && f.id == c.nextFragment
    ensures f.id !in c.live
    ensures forall p: nat :: OnPage(c.live[f.id := f], p) == OnPage(c.live, p) + if p == f.pageId then {f.id} else {}
  {
    assert f.id in c.live ==> FragmentFits(a, c, f.id);
    forall p: nat ensures OnPage(c.live[f.id := f], p) == OnPage(c.live, p) + if p == f.pageId then {f.id} else {} {
    }
  }

  lemma {:induction false} CutFits(a: Allocator, c: Cache, offset: int, size: int)
    requires CacheFits(a, c) && SelfDisjoint(c) && c.page.Some? && size > 0 && offset >= 0 && offset + 1 < c.bias
    requires offset + size <= a.pages[c.page.value].size
    requires offset + size <= c.offset || OnPage(c.live, c.page.value) == {}
    ensures var r := Cut(a, c, offset, size); CacheFits(a, r.c) && SelfDisjoint(r.c)
  {
    var f := CutFragment(c, offset, size);
    var c' := Cut(a, c, offset, size).c;
    forall i | i in c.live
      ensures FragmentFits(a, c', i) && Disjoint(c.live[i], f) && i != f.id
    {
      assert FragmentFits(a, c, i);
      assert c.live[i].pageId == f.pageId ==> i in OnPage(c.live, f.pageId);
    }
  }

  /** Cutting a fragment that fits below the others. */
  lemma {:induction false} CutSolo(a: Allocator, c: Cache, offset: int, size: int)
    requires Solo(a, c) && c.page.Some? && size > 0 && offset >= 0 && offset + 1 < c.bias
    requires offset + size <= a.pages[c.page.value].size
    requires offset + size <= c.offset || OnPage(c.live, c.page.value) == {}
    ensures var r := Cut(a, c, offset, size); Solo(r.a, r.c) && Frame(a, c, r.a, r.c)
  {
    var f := CutFragment(c, offset, size);
    var c' := Cut(a, c, offset, size).c;
    CutFits(a, c, offset, size);
    CutOnPage(a, c, f);
    forall p: nat ensures Touches(c', p) == Touches(c, p) && Share(c', p) == Share(c, p) {
    }
  }

  /** The current page is no larger than the bias. */
  lemma {:induction false} CurrentSize(a: Allocator, c: Cache)
    requires Solo(a, c) && c.page.Some?
    ensures var p := c.page.value; p in a.pages && c.offset <= a.pages[p].size < CACHE_BIAS && c.offset < c.bias
  {
    hide Owns, SelfDisjoint;
  }

  lemma {:induction false} CutBelow(a: Allocator, c: Cache, size: int)
    requires Solo(a, c) && c.page.Some? && 0 < size <= c.offset
    ensures var r := Cut(a, c, c.offset - size, size); Solo(r.a, r.c) && Frame(a, c, r.a, r.c)
  {
    hide Solo, Frame, OnPage, Cut;
    CurrentSize(a, c);
    CutSolo(a, c, c.offset - size, size);
  }

  lemma {:induction false} CutTop(a: Allocator, c: Cache, size: int)
    requires Solo(a, c) && c.page.Some? && c.bias == CACHE_BIAS && OnPage(c.live, c.page.value) == {}
    requires c.page.value in a.pages && 0 < size <= a.pages[c.page.value].size
    ensures var r := Cut(a, c, a.pages[c.page.value].size - size, size); Solo(r.a, r.c) && Frame(a, c, r.a, r.c)
  {
    hide Solo, Frame, OnPage, Cut;
    CurrentSize(a, c);
    CutSolo(a, c, a.pages[c.page.value].size - size, size);
  }

  /** One operation after another stays within the frame, if pages let go of are not taken up again. */
  lemma {:induction false} FrameTrans(a: Allocator, c: Cache, b: Allocator, d: Cache, e: Allocator, g: Cache)
    requires Frame(a, c, b, d) && Frame(b, d, e, g)
    ensures Frame(a, c, e, g)
  {
    forall p: nat | p in e.pages && (Touches(c, p) || p !in a.pages) && !Touches(g, p)
      ensures e.pages[p].refcount == 0
    {
      if p in b.pages && !Touches(d, p) {
        assert e.pages[p] == b.pages[p];
      }
    }
  }

  /** Turning the page is draining the cache and refilling it, unless the page can be reused. */
  lemma {:induction false} TurnIsDrain(a: Allocator, c: Cache)
    requires Solo(a, c) && c.page.Some?
    ensures var t := TurnPage(a, c); var d := Drain(a, c); var p := c.page.value;
            if OnPage(c.live, p) == {} && !c.pfmemalloc
            then t == Done(SetRefcount(SetRefcount(a, p, 0), p, CACHE_BIAS),
                           c.(bias := CACHE_BIAS, reuses := c.reuses + 1), ())
            else t == Done(RefillAllocator(d.a), RefillCache(d.a, d.c), ())
  {
    hide SelfDisjoint, Frame, Owns;
    DrainSolo(a, c);
    var p := c.page.value;
    CurrentShare(a, c);
    var a1 := SetRefcount(a, p, a.pages[p].refcount - c.bias);
    if OnPage(c.live, p) == {} {
      FreedOne(a, a1, p);
    }
  }

  /** A reused page has no live fragment, and carries the full bias again. */
  lemma {:induction false} ReuseSolo(a: Allocator, c: Cache)
    requires Solo(a, c) && c.page.Some? && OnPage(c.live, c.page.value) == {}
    ensures var a' := SetRefcount(SetRefcount(a, c.page.value, 0), c.page.value, CACHE_BIAS);
            var c' := c.(bias := CACHE_BIAS, reuses := c.reuses + 1);
            Solo(a', c') && Frame(a, c, a', c')
  {
    var a' := SetRefcount(SetRefcount(a, c.page.value, 0), c.page.value, CACHE_BIAS);
    var c' := c.(bias := CACHE_BIAS, reuses := c.reuses + 1);
    assert FreedPages(a') == FreedPages(a);
    forall i | i in c.live ensures FragmentFits(a', c', i) {
      assert FragmentFits(a, c, i);
    }
    forall p: nat ensures Touches(c', p) == Touches(c, p) {
    }
  }

  /** Turning the page never raises: the bias never exceeds the references, and no page is freed twice. */
  lemma {:induction false} TurnSolo(a: Allocator, c: Cache)
    requires Solo(a, c) && c.page.Some?
    ensures var t := TurnPage(a, c);
            t.Done? && Solo(t.a, t.c) && Frame(a, c, t.a, t.c) && t.c.page.Some? && t.c.page.value in t.a.pages
              && t.c.bias == CACHE_BIAS
            && OnPage(t.c.live, t.c.page.value) == {} && t.c.live == c.live && t.c.nextFragment == c.nextFragment
            && (t.c.page != c.page ==> t.c.offset == t.a.pages[t.c.page.value].size)
  {
    TurnIsDrain(a, c);
    if OnPage(c.live, c.page.value) == {} && !c.pfmemalloc {
      ReuseSolo(a, c);
    } else {
      var d := Drain(a, c);
      DrainSolo(a, c);
      RefillSolo(d.a, d.c);
      FrameTrans(a, c, d.a, d.c, RefillAllocator(d.a), RefillCache(d.a, d.c));
    }
  }

  /** The cache has a current page after the first step of a request. */
  function FilledAllocator(a: Allocator, c: Cache): Allocator { if c.page.None? then RefillAllocator(a) else a }

  function FilledCache(a: Allocator, c: Cache): Cache { if c.page.None? then RefillCache(a, c) else c }

  lemma {:induction false} FilledSolo(a: Allocator, c: Cache)
    requires Solo(a, c)
    ensures var a1, c1 := FilledAllocator(a, c), FilledCache(a, c);
            Solo(a1, c1) && Frame(a, c, a1, c1) && c1.page.Some? && c1.live == c.live
              && c1.nextFragment == c.nextFragment
  {
    if c.page.None? {
      RefillSolo(a, c);
    } else {
      FrameRefl(a, c);
    }
  }

  /** A request of positive size never raises, and keeps everything in order. */
  lemma {:induction false} AllocateSolo(a: Allocator, c: Cache, size: int)
    requires Solo(a, c) && size > 0
    ensures var r := Allocate(a, c, size); r.Done? && Solo(r.a, r.c) && Frame(a, c, r.a, r.c)
  {
    hide Solo, Frame, TurnPage, RefillAllocator, RefillCache;
    var a1, c1 := FilledAllocator(a, c), FilledCache(a, c);
    FilledSolo(a, c);
    if c1.offset - size >= 0 {
      var r := Cut(a1, c1, c1.offset - size, size);
      CutBelow(a1, c1, size);
      FrameTrans(a, c, a1, c1, r.a, r.c);
    } else {
      TurnSolo(a1, c1);
      var t := TurnPage(a1, c1);
      FrameTrans(a, c, a1, c1, t.a, t.c);
      var top := t.a.pages[t.c.page.value].size;
      if top - size >= 0 {
        var r := Cut(t.a, t.c, top - size, size);
        CutTop(t.a, t.c, size);
        FrameTrans(a, c, t.a, t.c, r.a, r.c);
      }
    }
  }

  lemma {:induction false} FrameRefl(a: Allocator, c: Cache)
    requires Owns(a, c)
    ensures Frame(a, c, a, c)
  {
  }

  /**
   When a request returns a fragment, it is a new one of the given size on the current page; else the page is
   too small.
   */
  lemma {:induction false} AllocateResult(a: Allocator, c: Cache, size: int)
    requires Solo(a, c) && size > 0
    ensures var r := Allocate(a, c, size);
            && r.c.page.Some? && r.c.page.value in r.a.pages
            && match r.value
               case Some(f) =>
                 f.size == size && f.id == c.nextFragment && f.id !in c.live
                 && Some(f.pageId) == r.c.page && r.c.live == c.live[f.id := f]
               case None =>
                 r.a.pages[r.c.page.value].size < size && r.c.live == c.live
                 && OnPage(c.live, r.c.page.value) == {}
  {
    var a1, c1 := FilledAllocator(a, c), FilledCache(a, c);
    assert c.nextFragment in c.live ==> FragmentFits(a, c, c.nextFragment);
    FilledSolo(a, c);
    if c1.offset - size < 0 {
      TurnSolo(a1, c1);
    }
  }

  /** The bytes of the next page that the allocator gives. */
  function NextSize(a: Allocator): nat { if a.attempts + 1 in a.fallback then PAGE_SIZE else CACHE_MAX_SIZE }

  /** The fragment at the end of the first `top` bytes of a page, or none when they are too few. */
  function EndOf(c: Cache, page: nat, top: int, size: int): Option<Fragment> {
    if size <= top then Some(Fragment(c.nextFragment, page, top - size, size)) else None
  }

  /**
   Where a request is served: below what has been cut from the current page, as long as it fits there; on the same
   page from its end again, if it does not, no live fragment is on the page, and the page is not from the emergency
   reserve; and otherwise on a new page, when the old one is freed if and only if no live fragment is on it.
   */
  lemma {:induction false} AllocateExactly(a: Allocator, c: Cache, size: int)
    requires Solo(a, c) && size > 0
    ensures var r := Allocate(a, c, size);
            && (c.page.None? && size <= NextSize(a) ==>
                  r.value == EndOf(c, a.nextPage, NextSize(a), size) && r.c.page == Some(a.nextPage))
            && (c.page.Some? && size <= c.offset ==>
                  r.value == EndOf(c, c.page.value, c.offset, size) && r.c.page == c.page && r.a == a)
            && (c.page.Some? || size <= NextSize(a) ==> r.value.Some? ==> r.c.offset == r.value.value.offset)
            && (c.page.Some? && size > c.offset ==>
                  var p := c.page.value; var empty := OnPage(c.live, p) == {};
                  && p in a.pages && p in r.a.pages
                  && if empty && !c.pfmemalloc
                     then r.value == EndOf(c, p, a.pages[p].size, size) && r.c.page == c.page
                          && r.a.nextPage == a.nextPage && r.a.frees == a.frees && r.c.reuses == c.reuses + 1
                     else r.value == EndOf(c, a.nextPage, NextSize(a), size) && r.c.page == Some(a.nextPage)
                          && (r.a.pages[p].freed <==> empty) && r.c.refills == c.refills + 1)
  {
    hide Solo, OnPage, Allocate, EndOf, Drain;
    if c.page.Some? && size > c.offset {
      ServedElsewhere(a, c, size);
    } else {
      ServedHere(a, c, size);
    }
  }

  lemma {:induction false} ServedHere(a: Allocator, c: Cache, size: int)
    requires size > 0 && (c.page.Some? ==> size <= c.offset)
    ensures var r := Allocate(a, c, size);
            && (c.page.None? && size <= NextSize(a) ==>
                  r.Done? && r.value == EndOf(c, a.nextPage, NextSize(a), size) && r.c.page == Some(a.nextPage)
                  && r.value.Some? && r.c.offset == r.value.value.offset)
            && (c.page.Some? ==>
                  r.Done? && r.value == EndOf(c, c.page.value, c.offset, size) && r.c.page == c.page && r.a == a
                  && r.value.Some? && r.c.offset == r.value.value.offset)
  {
  }

  lemma {:induction false} ServedElsewhere(a: Allocator, c: Cache, size: int)
    requires Solo(a, c) && size > 0 && c.page.Some? && size > c.offset
    ensures var r := Allocate(a, c, size); var p := c.page.value; var empty := OnPage(c.live, p) == {};
            && r.Done? && p in a.pages && p in r.a.pages
            && (if empty && !c.pfmemalloc
                then r.value == EndOf(c, p, a.pages[p].size, size) && r.c.page == c.page
                     && r.a.nextPage == a.nextPage && r.a.frees == a.frees && r.c.reuses == c.reuses + 1
                else r.value == EndOf(c, a.nextPage, NextSize(a), size) && r.c.page == Some(a.nextPage)
                     && (r.a.pages[p].freed <==> empty) && r.c.refills == c.refills + 1)
            && (r.value.Some? ==> r.c.offset == r.value.value.offset)
  {
    hide Solo, OnPage, TurnPage, Drain;
    TurnIsDrain(a, c);
    TurnSolo(a, c);
    DrainSolo(a, c);
    DrainOnly(a, c);
    Refilled(Drain(a, c).a, Drain(a, c).c);
  }

  lemma {:induction false} Refilled(a: Allocator, c: Cache)
    ensures RefillCache(a, c).page == Some(a.nextPage) && RefillCache(a, c).offset == NextSize(a)
    ensures RefillAllocator(a).pages == a.pages[a.nextPage := RefillAllocator(a).pages[a.nextPage]]
    ensures RefillCache(a, c).nextFragment == c.nextFragment && RefillCache(a, c).refills == c.refills + 1
  {
  }

  /** Giving up the page changes only what is known of it. */
  lemma {:induction false} DrainOnly(a: Allocator, c: Cache)
    requires Solo(a, c) && c.page.Some?
    ensures var d := Drain(a, c); var p := c.page.value;
            && d.Done? && p in a.pages && p < a.nextPage && p in d.a.pages && d.a.nextPage == a.nextPage
            && d.a.attempts == a.attempts
            && d.a.fallback == a.fallback && d.c.nextFragment == c.nextFragment && d.c.refills == c.refills
  {
    DrainSolo(a, c);
    CurrentShare(a, c);
  }

  /** A page is taken into use again in place only when no live fragment is on it. */
  lemma {:induction false} ReuseOnlyEmpty(a: Allocator, c: Cache, size: int)
    requires Solo(a, c) && size > 0
    ensures var r := Allocate(a, c, size);
            r.c.reuses != c.reuses ==>
              && r.c.page.Some? && OnPage(c.live, r.c.page.value) == {}
              && r.c.page == FilledCache(a, c).page && size > FilledCache(a, c).offset
  {
    var a1, c1 := FilledAllocator(a, c), FilledCache(a, c);
    FilledSolo(a, c);
    if c1.offset - size < 0 {
      TurnSolo(a1, c1);
      TurnIsDrain(a1, c1);
      if c.page.None? {
        RefillSolo(a, c);
      }
      ReusesKept(a1, c1);
    }
  }

  lemma {:induction false} ReusesKept(a: Allocator, c: Cache)
    requires Solo(a, c) && c.page.Some?
    ensures TurnPage(a, c).Done?
    ensures TurnPage(a, c).c.reuses != c.reuses ==>
              OnPage(c.live, c.page.value) == {} && TurnPage(a, c).c.page == c.page
  {
    TurnIsDrain(a, c);
    DrainSolo(a, c);
  }

  lemma {:induction false} WithoutFragment(a: Allocator, c: Cache, a': Allocator, f: Fragment)
    requires CacheFits(a, c) && SelfDisjoint(c) && f.id in c.live && c.live[f.id] == f
    requires forall p :: p in a.pages ==>
             p in a'.pages && a'.pages[p].size == a.pages[p].size
             && a'.pages[p].pfmemalloc == a.pages[p].pfmemalloc
    requires forall p: nat :: p in a.pages && Touches(c.(live := c.live - {f.id}), p) ==>
             a'.pages[p].freed == a.pages[p].freed
    ensures CacheFits(a', c.(live := c.live - {f.id})) && SelfDisjoint(c.(live := c.live - {f.id}))
  {
    var c' := c.(live := c.live - {f.id});
    forall i | i in c'.live ensures FragmentFits(a', c', i) {
      assert FragmentFits(a, c, i) && i in OnPage(c'.live, c.live[i].pageId);
    }
    assert c.page.Some? ==> Touches(c', c.page.value);
  }

  /** Freeing a live fragment takes one reference from its page, and frees the page with the last one. */
  lemma {:induction false} FreeDone(a: Allocator, c: Cache, f: Fragment)
    requires AllocatorFits(a) && f.id in c.live && c.live[f.id] == f && f.pageId in a.pages
    requires a.pages[f.pageId].refcount >= 1 && !a.pages[f.pageId].freed
    ensures var r := Free(a, c, f); var pg := a.pages[f.pageId];
            && r.Done? && r.c == c.(live := c.live - {f.id}) && AllocatorFits(r.a) && r.a.nextPage == a.nextPage
            && r.a.pages == a.pages[f.pageId := pg.(refcount := pg.refcount - 1, freed := pg.refcount == 1)]
  {
    var p := f.pageId;
    var a1 := SetRefcount(a, p, a.pages[p].refcount - 1);
    if a.pages[p].refcount == 1 {
      FreedOne(a, a1, p);
    } else {
      assert FreedPages(a1) == FreedPages(a);
    }
  }

  /**
   Freeing a live fragment never raises; its page is freed exactly when it was the last reference, and is not
   current then.
   */
  lemma {:induction false} FreeSolo(a: Allocator, c: Cache, f: Fragment)
    requires Solo(a, c) && f.id in c.live && c.live[f.id] == f
    ensures var r := Free(a, c, f);
            && r.Done? && Solo(r.a, r.c) && Frame(a, c, r.a, r.c) && r.c == c.(live := c.live - {f.id})
            && f.pageId in r.a.pages
            && (r.a.pages[f.pageId].freed <==> c.page != Some(f.pageId) && OnPage(c.live, f.pageId) == {f.id})
  {
    hide AllocatorFits;
    FragmentHolds(a, c, f);
    FreeDone(a, c, f);
    hide Free;
    var a' := Free(a, c, f).a;
    SoloPages(a, c);
    WithoutFragment(a, c, a', f);
    FreedFrame(a, c, a', f);
  }

  lemma {:induction false} SoloPages(a: Allocator, c: Cache)
    requires Solo(a, c)
    ensures PagesFit(a)
  {
  }

  /**
   A live fragment holds one reference of its page; the page loses its last one exactly with its last, not
   current fragment.
   */
  lemma {:induction false} FragmentHolds(a: Allocator, c: Cache, f: Fragment)
    requires Solo(a, c) && f.id in c.live && c.live[f.id] == f
    ensures f.pageId in a.pages && a.pages[f.pageId].refcount >= 1 && !a.pages[f.pageId].freed && Touches(c, f.pageId)
    ensures a.pages[f.pageId].refcount == 1 <==> c.page != Some(f.pageId) && OnPage(c.live, f.pageId) == {f.id}
    ensures forall p: nat :: Touches(c.(live := c.live - {f.id}), p) && p == f.pageId ==> a.pages[f.pageId].refcount > 1
  {
    hide SelfDisjoint, AllocatorFits;
    assert FragmentFits(a, c, f.id);
    FreedOnPage(c, f);
    var on := OnPage(c.live, f.pageId);
    assert f.id in on;
    assert on == {f.id} <==> |on| == 1 by {
      if |on| == 1 {
        assert |on - {f.id}| == 0;
      }
    }
  }

  lemma {:induction false} FreedFrame(a: Allocator, c: Cache, a': Allocator, f: Fragment)
    requires Owns(a, c) && PagesFit(a) && f.id in c.live && c.live[f.id] == f && f.pageId in a.pages
    requires f.pageId in a'.pages && a'.nextPage == a.nextPage && a'.pages == a.pages[f.pageId := a'.pages[f.pageId]]
    requires a'.pages[f.pageId].refcount == a.pages[f.pageId].refcount - 1
    requires a'.pages[f.pageId].size == a.pages[f.pageId].size
    requires a.pages[f.pageId].freed ==> a'.pages[f.pageId].freed
    ensures var c' := c.(live := c.live - {f.id}); Owns(a', c') && Frame(a, c, a', c')
  {
    hide Touches, Share;
    FreedTouches(c, f);
  }

  /** The cache has one reference less to the fragment's page, and the same ones to every other page. */
  lemma {:induction false} FreedTouches(c: Cache, f: Fragment)
    requires f.id in c.live && c.live[f.id] == f
    ensures var c' := c.(live := c.live - {f.id});
            && Touches(c, f.pageId) && Share(c', f.pageId) == Share(c, f.pageId) - 1
            && (!Touches(c', f.pageId) ==> Share(c', f.pageId) == 0)
            && (forall p: nat :: p != f.pageId ==> Touches(c', p) == Touches(c, p) && Share(c', p) == Share(c, p))
  {
    FreedOnPage(c, f);
    assert f.id in OnPage(c.live, f.pageId);
  }

  lemma {:induction false} FreedOnPage(c: Cache, f: Fragment)
    requires f.id in c.live && c.live[f.id] == f
    ensures forall p: nat :: OnPage(c.live - {f.id}, p) == OnPage(c.live, p) - {f.id}
    ensures forall p: nat :: p != f.pageId ==> OnPage(c.live - {f.id}, p) == OnPage(c.live, p)
    ensures |OnPage(c.live - {f.id}, f.pageId)| == |OnPage(c.live, f.pageId)| - 1
  {
    forall p: nat ensures OnPage(c.live - {f.id}, p) == OnPage(c.live, p) - {f.id} {
    }
    forall p: nat | p != f.pageId ensures OnPage(c.live - {f.id}, p) == OnPage(c.live, p) {
    }
    assert f.id in OnPage(c.live, f.pageId);
  }

  // ----- many caches -----

  /** Caches that do not refer to a page contribute nothing to it. */
  lemma {:induction false} ReferencesNone(caches: Caches, p: nat)
    requires forall k :: k in caches ==> !Touches(caches[k], p)
    ensures References(caches, p) == 0
    decreases |caches|
  {
    if caches != map[] {
      var k :| k in caches && References(caches, p) == Share(caches[k], p) + References(caches - {k}, p);
      Smaller(caches, k);
      ShareZero(caches[k], p);
      ReferencesNone(caches - {k}, p);
    }
  }

  /** Each cache sees the shared allocator as if it were alone. */
  lemma {:induction false} InvSolo(a: Allocator, caches: Caches, k: Key)
    requires Inv(a, caches) && k in caches
    ensures Solo(a, caches[k])
  {
    var c := caches[k];
    forall p: nat | Touches(c, p) ensures p in a.pages && a.pages[p].refcount == Share(c, p) {
      if c.page != Some(p) {
        var i :| i in OnPage(c.live, p);
        assert FragmentFits(a, c, i);
      }
      ReferencesRemove(caches, k, p);
      forall j | j in caches - {k} ensures !Touches((caches - {k})[j], p) {
        assert Apart(c, caches[j]);
      }
      ReferencesNone(caches - {k}, p);
    }
  }

  /** What one cache does within its frame leaves the others as they were. */
  lemma {:induction false} OthersKept(a: Allocator, c: Cache, a': Allocator, c': Cache, d: Cache)
    requires CacheFits(a, d) && Apart(c, d) && Frame(a, c, a', c')
    ensures CacheFits(a', d) && Apart(c', d)
  {
    forall p: nat | Touches(d, p) ensures p in a.pages && a'.pages[p] == a.pages[p] && !Touches(c', p) {
      if d.page != Some(p) {
        var i :| i in OnPage(d.live, p);
        assert FragmentFits(a, d, i);
      }
    }
    assert d.page.Some? ==> Touches(d, d.page.value);
    forall i | i in d.live ensures FragmentFits(a', d, i) {
      assert FragmentFits(a, d, i) && i in OnPage(d.live, d.live[i].pageId);
    }
  }

  lemma {:induction false} RefcountedStep(a: Allocator, caches: Caches, k: Key, a': Allocator, c': Cache)
    requires Inv(a, caches) && k in caches && Solo(a', c') && Frame(a, caches[k], a', c')
    ensures Refcounted(a', caches[k := c'])
  {
    var c := caches[k];
    forall p | p in a'.pages ensures a'.pages[p].refcount == References(caches[k := c'], p) {
      ReferencesPut(caches, k, c', p);
      if Touches(c, p) || Touches(c', p) || p !in a.pages {
        forall j | j in caches - {k} ensures !Touches((caches - {k})[j], p) {
          OthersKept(a, c, a', c', caches[j]);
          if Touches(caches[j], p) && p !in a.pages {
            InvSolo(a, caches, j);
          }
        }
        ReferencesNone(caches - {k}, p);
      }
    }
  }

  lemma {:induction false} InvStep(a: Allocator, caches: Caches, k: Key, a': Allocator, c': Cache)
    requires Inv(a, caches) && k in caches && Solo(a', c') && Frame(a, caches[k], a', c')
    ensures Inv(a', caches[k := c'])
  {
    hide CacheFits, SelfDisjoint, Apart, AllocatorFits, Frame, Owns, Refcounted;
    RefcountedStep(a, caches, k, a', c');
    forall j | j in caches && j != k ensures CacheFits(a', caches[j]) && Apart(c', caches[j]) && Apart(caches[j], c') {
      assert Apart(caches[k], caches[j]);
      OthersKept(a, caches[k], a', c', caches[j]);
      ApartBoth(c', caches[j]);
    }
  }

  lemma {:induction false} ApartBoth(c: Cache, d: Cache)
    requires Apart(c, d)
    ensures Apart(d, c)
  {
    hide Touches;
  }

  const EMPTY_CACHE := Cache(None, 0, 0, false, 0, 0, 1, map[])

  lemma {:induction false} InvNewCache(a: Allocator, caches: Caches, k: Key)
    requires Inv(a, caches) && k !in caches
    ensures Inv(a, caches[k := EMPTY_CACHE])
  {
    hide CacheFits, SelfDisjoint, Touches, AllocatorFits, References, Share, Apart;
    EmptyCacheFits(a);
    forall j | j in caches ensures Apart(caches[j], EMPTY_CACHE) && Apart(EMPTY_CACHE, caches[j]) {
      EmptyCacheApart(caches[j]);
    }
    forall p | p in a.pages ensures References(caches[k := EMPTY_CACHE], p) == References(caches, p) {
      ReferencesPut(caches, k, EMPTY_CACHE, p);
      EmptyCacheShare(p);
    }
  }

  lemma {:induction false} EmptyCacheFits(a: Allocator)
    ensures CacheFits(a, EMPTY_CACHE) && SelfDisjoint(EMPTY_CACHE)
  {
  }

  lemma {:induction false} EmptyCacheShare(p: nat)
    ensures Share(EMPTY_CACHE, p) == 0 && !Touches(EMPTY_CACHE, p)
  {
    assert OnPage(EMPTY_CACHE.live, p) == {};
  }

  lemma {:induction false} EmptyCacheApart(c: Cache)
    ensures Apart(c, EMPTY_CACHE) && Apart(EMPTY_CACHE, c)
  {
    forall p: nat ensures !Touches(EMPTY_CACHE, p) {
      EmptyCacheShare(p);
    }
  }

  // ----- runs -----

  /** A request to one of the caches, or a new cache. */
  datatype Request = CacheRequest(k: Key) | AllocateRequest(k: Key, size: int) | FreeRequest(k: Key, f: Fragment)
    | DrainRequest(k: Key)

  datatype System = System(a: Allocator, caches: Caches)

  /** What is left after a request; None when it raised an exception. */
  function Serve(s: System, r: Request): Option<System> {
    if r.CacheRequest? then Some(if r.k in s.caches then s else System(s.a, s.caches[r.k := EMPTY_CACHE]))
    else if r.k !in s.caches then None
    else
      match r
      case AllocateRequest(k, size) =>
        var o := Allocate(s.a, s.caches[k], size);
        if o.Raised? then None else Some(System(o.a, s.caches[k := o.c]))
      case FreeRequest(k, f) =>
        var o := Free(s.a, s.caches[k], f);
        if o.Raised? then None else Some(System(o.a, s.caches[k := o.c]))
      case DrainRequest(k) =>
        var o := Drain(s.a, s.caches[k]);
        if o.Raised? then None else Some(System(o.a, s.caches[k := o.c]))
  }

  /** A request a caller may make: to a cache there is, for a positive size, for a fragment that is live. */
  predicate Proper(s: System, r: Request) {
    match r
    case CacheRequest(_) => true
    case AllocateRequest(k, size) => k in s.caches && size > 0
    case FreeRequest(k, f) => k in s.caches && IsLive(s.caches[k], f)
    case DrainRequest(k) => k in s.caches
  }

  /** Exactly the improper requests raise an exception, and the others keep the invariant. */
  lemma {:induction false} ServeKeepsInv(s: System, r: Request)
    requires Inv(s.a, s.caches)
    ensures Serve(s, r).Some? <==> Proper(s, r)
    ensures Proper(s, r) ==> Inv(Serve(s, r).value.a, Serve(s, r).value.caches) && NeverTwice(s.a, Serve(s, r).value.a)
  {
    hide Inv, Solo, Frame, Allocate, Free, Drain;
    match r {
      case CacheRequest(k) =>
        if k !in s.caches {
          InvNewCache(s.a, s.caches, k);
        }
      case AllocateRequest(k, size) =>
        if k in s.caches {
          ImproperRaises(s.a, s.caches[k], size);
        }
        if Proper(s, r) {
          InvSolo(s.a, s.caches, k);
          AllocateSolo(s.a, s.caches[k], size);
          var o := Allocate(s.a, s.caches[k], size);
          InvStep(s.a, s.caches, k, o.a, o.c);
          FrameNeverTwice(s.a, s.caches[k], o.a, o.c);
        }
      case FreeRequest(k, f) =>
        if k in s.caches {
          UnknownRaises(s.a, s.caches[k], f);
        }
        if Proper(s, r) {
          InvSolo(s.a, s.caches, k);
          FreeSolo(s.a, s.caches[k], f);
          var o := Free(s.a, s.caches[k], f);
          InvStep(s.a, s.caches, k, o.a, o.c);
          FrameNeverTwice(s.a, s.caches[k], o.a, o.c);
        }
      case DrainRequest(k) =>
        if Proper(s, r) {
          InvSolo(s.a, s.caches, k);
          DrainSolo(s.a, s.caches[k]);
          var o := Drain(s.a, s.caches[k]);
          InvStep(s.a, s.caches, k, o.a, o.c);
          FrameNeverTwice(s.a, s.caches[k], o.a, o.c);
        }
    }
  }

  lemma {:induction false} ImproperRaises(a: Allocator, c: Cache, size: int)
    ensures size <= 0 ==> Allocate(a, c, size).Raised?
  {
  }

  lemma {:induction false} UnknownRaises(a: Allocator, c: Cache, f: Fragment)
    ensures !IsLive(c, f) ==> Free(a, c, f).Raised?
  {
  }

  /** Pages stay known, and a freed page stays freed. */
  predicate NeverTwice(a: Allocator, a': Allocator) {
    forall p :: p in a.pages ==>
      p in a'.pages && a'.pages[p].size == a.pages[p].size
      && (a.pages[p].freed ==> a'.pages[p].freed)
  }

  lemma {:induction false} FrameNeverTwice(a: Allocator, c: Cache, a': Allocator, c': Cache)
    requires Frame(a, c, a', c')
    ensures NeverTwice(a, a')
  {
  }

  /** A run of requests; it ends early, at None, if one of them raises. */
  function Run(s: System, rs: seq<Request>): Option<System>
    decreases |rs|
  {
    if rs == [] then Some(s)
    else
      var next := Serve(s, rs[0]);
      if next.None? then None else Run(next.value, rs[1..])
  }

  predicate AllProper(s: System, rs: seq<Request>)
    decreases |rs|
  {
    rs == [] || (Proper(s, rs[0]) && Serve(s, rs[0]).Some? && AllProper(Serve(s, rs[0]).value, rs[1..]))
  }

  lemma {:induction false} InvStart(fallback: set<nat>, pfmemalloc: set<nat>)
    ensures Inv(Allocator(fallback, pfmemalloc, 0, 1, map[], 0), map[])
  {
    assert FreedPages(Allocator(fallback, pfmemalloc, 0, 1, map[], 0)) == {};
  }

  /** Over whole runs: no exception as long as every request is proper, and the invariant at the end. */
  lemma {:induction false} RunKeepsInv(s: System, rs: seq<Request>)
    requires Inv(s.a, s.caches)
    ensures Run(s, rs).Some? <==> AllProper(s, rs)
    ensures Run(s, rs).Some? ==> Inv(Run(s, rs).value.a, Run(s, rs).value.caches) && NeverTwice(s.a, Run(s, rs).value.a)
    decreases |rs|
  {
    if rs != [] {
      ServeKeepsInv(s, rs[0]);
      if Serve(s, rs[0]).Some? {
        RunKeepsInv(Serve(s, rs[0]).value, rs[1..]);
      }
    }
  }

  /** Any two live fragments occupy disjoint byte ranges inside their pages, whichever caches they belong to. */
  lemma {:induction false} LiveFragmentsDisjoint(s: System, j: Key, x: nat, k: Key, y: nat)
    requires Inv(s.a, s.caches) && j in s.caches && k in s.caches && x in s.caches[j].live && y in s.caches[k].live
    requires j != k || x != y
    ensures var f, g := s.caches[j].live[x], s.caches[k].live[y];
            && f.pageId in s.a.pages && 0 <= f.offset && f.size > 0 && f.offset + f.size <= s.a.pages[f.pageId].size
            && Disjoint(f, g)
  {
    assert FragmentFits(s.a, s.caches[j], x);
    var f, g := s.caches[j].live[x], s.caches[k].live[y];
    if j != k && f.pageId == g.pageId {
      assert x in OnPage(s.caches[j].live, f.pageId) && y in OnPage(s.caches[k].live, f.pageId);
      assert Apart(s.caches[j], s.caches[k]);
      assert Touches(s.caches[j], f.pageId) && Touches(s.caches[k], f.pageId);
    }
  }

  /** A page is freed exactly when nothing refers to it; a current page never is, since its bias is at least one. */
  lemma {:induction false} FreedExactly(s: System, p: nat)
    requires Inv(s.a, s.caches) && p in s.a.pages
    ensures s.a.pages[p].freed <==> References(s.caches, p) == 0
    ensures forall k :: k in s.caches && s.caches[k].page == Some(p) ==> !s.a.pages[p].freed && s.caches[k].bias >= 1
  {
  }

  /** When all caches are drained and all fragments freed, every page has been freed, exactly once. */
  lemma {:induction false} AllReturned(s: System)
    requires Inv(s.a, s.caches)
    requires forall k :: k in s.caches ==> s.caches[k].page.None? && s.caches[k].live == map[]
    ensures forall p :: p in s.a.pages ==> s.a.pages[p].freed
    ensures s.a.frees == |s.a.pages|
  {
    forall p | p in s.a.pages ensures s.a.pages[p].freed {
      forall k | k in s.caches ensures !Touches(s.caches[k], p) {
        assert OnPage(s.caches[k].live, p) == {};
      }
      ReferencesNone(s.caches, p);
    }
    assert FreedPages(s.a) == s.a.pages.Keys;
    assert |s.a.pages| == |s.a.pages.Keys|;
  }
}
