/**
 The two classes of the simulator that own pages and cut fragments, updating
 their fields step by step. Each method does what the function of the same name
 in PageFrag says, on the values of its fields; an exception is an error result.
 */
module PageFragCache {
  import opened Basics
  import opened PageFrag

  datatype Result<+T> = Ok(value: T) | Err(error: Error)

  class PhysicalAllocator {
    var fallbackRefills: set<nat>
    var pfmemallocRefills: set<nat>
    var refillAttempts: nat
    var nextPageId: nat
    var pages: map<nat, Page>
    var frees: nat

    function Value(): Allocator
      reads this
    {
      Allocator(fallbackRefills, pfmemallocRefills, refillAttempts, nextPageId, pages, frees)
    }

    constructor (fallback: set<nat>, pfmemalloc: set<nat>)
      ensures Value() == Allocator(fallback, pfmemalloc, 0, 1, map[], 0) && Inv(Value(), map[])
    {
      fallbackRefills, pfmemallocRefills := fallback, pfmemalloc;
      refillAttempts, nextPageId, pages, frees := 0, 1, map[], 0;
      new;
      InvStart(fallback, pfmemalloc);
    }

    /** `allocate`: the id of a new page with one reference. */
    method AllocatePage() returns (p: nat)
      modifies this
      ensures p == old(nextPageId) && p in pages
      ensures Value() == old(Value()).(attempts := old(refillAttempts) + 1, nextPage := p + 1,
                                       pages := old(pages)[p := NewPage(old(Value()))])
    {
      p := nextPageId;
      refillAttempts := refillAttempts + 1;
      var size := if refillAttempts in fallbackRefills then PAGE_SIZE else CACHE_MAX_SIZE;
      pages := pages[p := Page(size, refillAttempts in pfmemallocRefills, 1, false)];
      nextPageId := nextPageId + 1;
    }

    method SetReferences(p: nat, n: int)
      requires p in pages
      modifies this`pages
      ensures Value() == SetRefcount(old(Value()), p, n) && p in pages
    {
      pages := pages[p := pages[p].(refcount := n)];
    }

    /** `free_page` */
    method FreePage(p: nat) returns (r: Result<()>)
      requires p in pages
      modifies this`pages, this`frees
      ensures var f := PageFrag.FreePage(old(Value()), p);
              if f.Some? then r.Ok? && Value() == f.value else r.Err? && Value() == old(Value())
    {
      if pages[p].refcount != 0 {
        return Err(LiveReferences);
      }
      if pages[p].freed {
        return Err(DoubleFree);
      }
      pages := pages[p := pages[p].(freed := true)];
      frees := frees + 1;
      r := Ok(());
    }
  }

  class PageFragCache {
    const allocator: PhysicalAllocator
    var page: Option<nat>
    var offset: int
    var bias: int
    var pfmemalloc: bool
    var refills: nat
    var reuses: nat
    var nextFragmentId: nat
    var live: map<nat, Fragment>

    function Value(): Cache
      reads this
    {
      Cache(page, offset, bias, pfmemalloc, refills, reuses, nextFragmentId, live)
    }

    /** The current page, if there is one, is a page of the allocator. */
    predicate Linked()
      reads this, allocator
    {
      page.Some? ==> page.value in allocator.pages
    }

    constructor (a: PhysicalAllocator)
      ensures allocator == a && Value() == EMPTY_CACHE
    {
      allocator := a;
      page, offset, bias, pfmemalloc := None, 0, 0, false;
      refills, reuses, nextFragmentId, live := 0, 0, 1, map[];
    }

    /** `_refill` */
    method Refill()
      modifies this, allocator
      ensures allocator.Value() == RefillAllocator(old(allocator.Value()))
      ensures Value() == RefillCache(old(allocator.Value()), old(Value())) && Linked()
    {
      var p := allocator.AllocatePage();
      allocator.SetReferences(p, allocator.pages[p].refcount + CACHE_MAX_SIZE);
      page := Some(p);
      offset := allocator.pages[p].size;
      bias := CACHE_BIAS;
      pfmemalloc := allocator.pages[p].pfmemalloc;
      refills := refills + 1;
    }

    /** `allocate`; the result is Ok(None) when the page is too small for the fragment. */
    method Allocate(size: int) returns (r: Result<Option<Fragment>>)
      requires Linked()
      modifies this, allocator
      ensures var o := PageFrag.Allocate(old(allocator.Value()), old(Value()), size);
              if o.Done? then r == Ok(o.value) && allocator.Value() == o.a && Value() == o.c else r.Err?
    {
      if size <= 0 {
        return Err(SizeNotPositive);
      }
      if page.None? {
        Refill();
      }
      var newOffset := offset - size;
      if newOffset < 0 {
        var oldPage := page;
        var t := Turn();
        if t.Err? {
          return Err(t.error);
        }
        newOffset := if page == oldPage then allocator.pages[page.value].size - size else offset - size;
        if newOffset < 0 {
          return Ok(None);
        }
      }
      bias := bias - 1;
      offset := newOffset;
      var f := Fragment(nextFragmentId, page.value, newOffset, size);
      nextFragmentId := nextFragmentId + 1;
      live := live[f.id := f];
      r := Ok(Some(f));
    }

    /** The branch of `allocate` that gives up or reuses the exhausted page. */
    method Turn() returns (r: Result<()>)
      requires page.Some? && Linked()
      modifies this, allocator
      ensures var o := TurnPage(old(allocator.Value()), old(Value()));
              if o.Done? then r.Ok? && allocator.Value() == o.a && Value() == o.c && page.Some? && Linked() else r.Err?
    {
      var p := page.value;
      allocator.SetReferences(p, allocator.pages[p].refcount - bias);
      var rest := allocator.pages[p].refcount;
      if rest < 0 {
        return Err(BiasExceeded);
      }
      if rest != 0 {
        Refill();
      } else if pfmemalloc {
        var f := allocator.FreePage(p);
        if f.Err? {
          return Err(f.error);
        }
        Refill();
      } else {
        allocator.SetReferences(p, CACHE_BIAS);
        bias := CACHE_BIAS;
        reuses := reuses + 1;
      }
      r := Ok(());
    }

    /** `free` */
    method Free(f: Fragment) returns (r: Result<()>)
      requires forall i :: i in live ==> live[i].pageId in allocator.pages
      modifies this, allocator
      ensures var o := PageFrag.Free(old(allocator.Value()), old(Value()), f);
              if o.Done? then r.Ok? && allocator.Value() == o.a && Value() == o.c else r.Err?
    {
      var known := f.id in live && live[f.id] == f;
      live := live - {f.id};
      if !known {
        return Err(UnknownFragment);
      }
      allocator.SetReferences(f.pageId, allocator.pages[f.pageId].refcount - 1);
      if allocator.pages[f.pageId].refcount < 0 {
        return Err(NegativeRefcount);
      }
      r := Ok(());
      if allocator.pages[f.pageId].refcount == 0 {
        r := allocator.FreePage(f.pageId);
      }
    }

    /** `drain` */
    method Drain() returns (r: Result<()>)
      requires Linked()
      modifies this, allocator
      ensures var o := PageFrag.Drain(old(allocator.Value()), old(Value()));
              if o.Done? then r.Ok? && allocator.Value() == o.a && Value() == o.c else r.Err?
    {
      r := Ok(());
      if page.None? {
        return;
      }
      var p := page.value;
      allocator.SetReferences(p, allocator.pages[p].refcount - bias);
      if allocator.pages[p].refcount < 0 {
        return Err(BiasExceeded);
      }
      if allocator.pages[p].refcount == 0 {
        r := allocator.FreePage(p);
        if r.Err? {
          return;
        }
      }
      page, offset, bias, pfmemalloc := None, 0, 0, false;
    }
  }
}
