/**
 The receive-buffer ownership tracker itself (tools/rxown.c). Each method is
 what one probe handler does while it holds the lock; a handler that looks at an
 entry and later at a return takes and gives the data kept for that one call, so
 any other handler may run in between. 16-bit page counts wrap as they do in the
 source, and so do byte counters below zero.
 */
module RxOwn {
  import opened Basics
  import opened RxOwnModel
  import opened RxOwnRuns
  import opened RxOwnSteps
  import opened RxOwnExact

  class Tracker {
    var records: Records
    var bySkb: map<nat, nat>
    var pages: Pages
    var infos: RingInfos
    var accounts: Accounts
    var pagings: Pagings
    var flows: Flows
    var callers: Callers
    var unscoped: Unscoped
    var totals: Totals
    var observed: Observed
    var recordCount: nat
    var trackedPageCount: nat
    var nextGeneration: nat
    var warned: bool
    ghost var born: map<nat, Identity>

    /** Every counter equals what the live records and pages say it should be. */
    ghost predicate Counted()
      reads this`records, this`bySkb, this`pages, this`infos, this`accounts, this`pagings, this`callers, this`unscoped
      reads this`recordCount, this`trackedPageCount, this`nextGeneration, this`warned, this`born
    {
      && AccountsAgree(accounts, unscoped, records)
      && PagesAgree(pages, records)
      && RingPagesAgree(pagings, pages)
      && CallersAgree(callers, records)
      && TablesAgree(records, bySkb)
      && SlotsAgree(records, infos)
      && GenerationsAgree(records, nextGeneration, born)
      && recordCount == |records| <= MAX_RECORDS
      && trackedPageCount == |pages| <= MAX_PAGES
      && !warned
    }

    /** And nothing that came in is unaccounted for. */
    ghost predicate Valid()
      reads this
    {
      Counted() && RingsConserved(flows, accounts) && TotalsConserved(totals, unscoped, |records|)
    }

    /** A freshly loaded tracker: nothing is known yet. */
    constructor ()
      ensures Valid() && records == map[] && nextGeneration == 0
    {
      records, bySkb, pages := map[], map[], map[];
      infos := seq<RingInfo>(MAX_RINGS,
                             i => RingInfo(false, Scope(0, 0, 0, 0), None, 0, 0, false, false, 0, 0, 0, 0, 0));
      accounts := seq<Account>(MAX_RINGS, i => Account(ZEROS, ZEROS, ZEROS));
      pagings := seq<Paging>(MAX_RINGS, i => Paging(ZEROS, ZEROS));
      flows := seq<Flow>(MAX_RINGS, i => Flow(0, 0, 0, 0, 0));
      callers := seq<Caller>(MAX_CALLERS, i => Caller(false, 0, 0, 0, 0, 0, 0, 0));
      unscoped, totals := Unscoped(0, 0, 0), Totals(0, 0, 0, 0);
      observed := Observed(0, 0, 0, 0, 0, 0, 0, 0, 0, 0, 0);
      recordCount, trackedPageCount, nextGeneration, warned := 0, 0, 0, false;
      born := map[];
    }

    // ----- the accounting helpers -----

    /** `rxown_account_add_locked`: m is the set of records that are to be accounted for, rec included. */
    method AccountAdd(rec: Record, ghost m: Records)
      requires rec.head in m && m[rec.head] == rec && AccountsAgree(accounts, unscoped, m - {rec.head})
      modifies this`accounts, this`unscoped
      ensures AccountsAgree(accounts, unscoped, m)
      ensures if rec.slot >= 0 then unscoped == old(unscoped) else accounts == old(accounts)
    {
      hide AccountsAgree;
      var i, s := rec.slot, rec.state;
      if i >= 0 {
        var a := accounts[i];
        accounts := accounts[i := Account(
          SetState(a.current, s, a.current[s] + 1),
          SetState(a.requested, s, a.requested[s] + rec.requested),
          SetState(a.aligned, s, a.aligned[s] + rec.aligned))];
      } else {
        unscoped := Unscoped(unscoped.current + 1, unscoped.requested + rec.requested, unscoped.aligned + rec.aligned);
      }
      AccountsFollow(old(accounts), old(unscoped), accounts, unscoped, m - {rec.head}, m, rec.head);
    }

    /** `rxown_account_remove_locked`: neither the guard nor a subtraction goes below zero. */
    method AccountRemove(rec: Record, ghost m: Records)
      requires rec.head in m && m[rec.head] == rec && AccountsAgree(accounts, unscoped, m)
      modifies this`accounts, this`unscoped
      ensures AccountsAgree(accounts, unscoped, m - {rec.head})
      ensures if rec.slot >= 0 then unscoped == old(unscoped) else accounts == old(accounts)
    {
      hide AccountsAgree;
      OwnAccount(accounts, unscoped, m, rec.head);
      var i, s := rec.slot, rec.state;
      if i >= 0 {
        var a := accounts[i];
        accounts := accounts[i := Account(
          SetState(a.current, s, Dec(a.current[s])),
          SetState(a.requested, s, Sub64(a.requested[s], rec.requested)),
          SetState(a.aligned, s, Sub64(a.aligned[s], rec.aligned)))];
      } else {
        unscoped := Unscoped(Dec(unscoped.current), Sub64(unscoped.requested, rec.requested),
                             Sub64(unscoped.aligned, rec.aligned));
      }
      AccountsFollow(old(accounts), old(unscoped), accounts, unscoped, m, m - {rec.head}, rec.head);
    }

    /** The record of head h becomes rec', and its account moves with it. */
    method Reaccount(h: nat, rec': Record)
      requires h in records && records[h].head == h && rec'.head == h && AccountsAgree(accounts, unscoped, records)
      modifies this`records, this`accounts, this`unscoped
      ensures records == old(records)[h := rec'] && AccountsAgree(accounts, unscoped, records)
      ensures old(records)[h].slot >= 0 && rec'.slot >= 0 ==> unscoped == old(unscoped)
      ensures old(records)[h].slot < 0 && rec'.slot >= 0 ==> unscoped.current + 1 == old(unscoped).current
      ensures CurrentMoved(old(accounts), accounts, old(records), records, h)
    {
      StoreRemove(records, h, rec');
      SumStore(records, records[h := rec'], h, UnscopedCount);
      AccountRemove(records[h], records);
      records := records[h := rec'];
      AccountAdd(rec', records);
      CurrentFollows(old(accounts), accounts, old(unscoped), unscoped, old(records), records, h);
    }

    // ----- the page helpers -----

    /** A ring's buffer in state s appears on page p: the page is counted for the ring when it is the first. */
    method PageEnter(p: nat, i: int, s: State)
      requires 0 <= i < MAX_RINGS && p in pages && RingPagesAgree(pagings, pages)
      requires pages[p].ringState[i][s] + 1 < 0x1_0000
      modifies this`pages, this`pagings
      ensures RingPagesAgree(pagings, pages)
      ensures var pg := old(pages)[p]; pages == old(pages)[p := WithCount(pg, i, s, pg.ringState[i][s] + 1)]
    {
      var pg := pages[p];
      var count := pg.ringState[i][s];
      if count == 0 {
        var g := pagings[i];
        pagings := pagings[i := Paging(
          SetState(g.uniquePages, s, g.uniquePages[s] + 1),
          SetState(g.backing, s, g.backing[s] + Backing(pg.order)))];
      }
      var after := WithCount(pg, i, s, Inc16(count));
      RingPagesStore(old(pagings), pages, pagings, p, after);
      pages := pages[p := after];
    }

    /** A ring's buffer in state s leaves page p: the page is dropped for the ring when it was the last. */
    method PageLeave(p: nat, i: int, s: State)
      requires 0 <= i < MAX_RINGS && p in pages && RingPagesAgree(pagings, pages)
      requires pages[p].ringState[i][s] > 0
      modifies this`pages, this`pagings
      ensures RingPagesAgree(pagings, pages)
      ensures var pg := old(pages)[p]; pages == old(pages)[p := WithCount(pg, i, s, pg.ringState[i][s] - 1)]
    {
      var pg := pages[p];
      var count: nat := pg.ringState[i][s] - 1;
      var after := WithCount(pg, i, s, count);
      PageSumPut(pages, p, after);
      if count == 0 {
        var g := pagings[i];
        assert PageShare(pg, i, s, false) == 1 && PageShare(pg, i, s, true) == Backing(pg.order);
        pagings := pagings[i := Paging(
          SetState(g.uniquePages, s, Sub64(g.uniquePages[s], 1)),
          SetState(g.backing, s, Sub64(g.backing[s], Backing(pg.order))))];
      }
      RingPagesStore(old(pagings), pages, pagings, p, after);
      pages := pages[p := after];
    }

    // ----- transitions -----

    /** The page half of `rxown_transition_locked`. */
    method TransitionPage(h: nat, newState: State)
      requires PagesAgree(pages, records) && RingPagesAgree(pagings, pages) && |records| <= MAX_RECORDS
      requires h in records && records[h].slot >= 0 && records[h].state != newState
      modifies this`pages, this`pagings
      ensures PagesAgree(pages, records[h := records[h].(state := newState)]) && RingPagesAgree(pagings, pages)
      ensures SameHistory(old(pages), pages)
    {
      hide PagesAgree, RingPagesAgree, Moved;
      var rec := records[h];
      if rec.pageTracked {
        OwnCountsPositive(pages, records, h);
      }
      if rec.pageTracked && rec.page in pages {
        var p := rec.page;
        if pages[p].ringState[rec.slot][rec.state] > 0 {
          PageLeave(p, rec.slot, rec.state);
        }
        PageEnter(p, rec.slot, newState);
        StateMoved(old(pages)[p], pages[p], records, h, newState);
      }
      PagesRestate(old(pages), records, h, rec.(state := newState), pages);
    }

    /** `rxown_transition_locked` for the record of head h. */
    method Transition(h: nat, newState: State)
      requires Counted() && h in records
      modifies this`records, this`pages, this`pagings, this`accounts, this`unscoped
      ensures Counted()
      ensures var r := old(records)[h];
              records == if r.slot < 0 then old(records) else old(records)[h := r.(state := newState)]
      ensures unscoped == old(unscoped) && SameHistory(old(pages), pages)
      ensures CurrentMoved(old(accounts), accounts, old(records), records, h)
    {
      var rec := records[h];
      if rec.slot < 0 || rec.state == newState {
        assert records == records[h := rec];
      } else {
        TransitionMoves(h, newState);
      }
    }

    /** `rxown_transition_locked` past its early return. */
    method TransitionMoves(h: nat, newState: State)
      requires Counted() && h in records && records[h].slot >= 0 && records[h].state != newState
      requires records[h].head == h && infos[records[h].slot].used
      modifies this`records, this`pages, this`pagings, this`accounts, this`unscoped
      ensures Counted()
      ensures records == old(records)[h := old(records)[h].(state := newState)]
      ensures unscoped == old(unscoped) && SameHistory(old(pages), pages)
      ensures CurrentMoved(old(accounts), accounts, old(records), records, h)
    {
      hide AccountsAgree, PagesAgree, RingPagesAgree, CallersAgree, TablesAgree, SlotsAgree, GenerationsAgree;
      hide CurrentMoved;
      TransitionPage(h, newState);
      Reaccount(h, records[h].(state := newState));
      RestatedCallers(old(records), h, records[h], callers);
      RestatedTables(old(records), h, records[h], bySkb);
      RestatedGenerations(old(records), h, records[h], nextGeneration, born);
      RestatedSlots(old(records), h, records[h], infos);
      SameCount(old(pages), pages);
    }
  
    // ----- promotion to a ring -----

    /** The page half of `rxown_promote_to_ring_locked`. */
    method PromotePage(h: nat, slot: RingSlot)
      requires PagesAgree(pages, records) && RingPagesAgree(pagings, pages) && |records| <= MAX_RECORDS
      requires h in records && records[h].slot < 0 && slot >= 0
      modifies this`pages, this`pagings
      ensures PagesAgree(pages, records[h := records[h].(slot := slot)]) && RingPagesAgree(pagings, pages)
      ensures pages.Keys == old(pages).Keys
      ensures HistoryOf(pages) == PromotedHistory(old(HistoryOf(pages)), records[h], slot)
    {
      hide PagesAgree, RingPagesAgree, Moved, HistoryOf;
      var rec := records[h];
      HistoryKeys(pages);
      if rec.pageTracked {
        OwnCountsPositive(pages, records, h);
      }
      if rec.pageTracked && rec.page in pages {
        var p := rec.page;
        var pg := pages[p];
        if pg.unscoped > 0 {
          pg := pg.(unscoped := pg.unscoped - 1);
        }
        RingPagesRelabel(pagings, pages, p, pg);
        pages := pages[p := pg];
        PageEnter(p, slot, rec.state);
        pg := pages[p].(historyRings := pages[p].historyRings + {slot});
        RingPagesRelabel(pagings, pages, p, pg);
        pages := pages[p := pg];
        RingMoved(old(pages)[p], pages[p], records, h, slot);
        assert pages == old(pages)[p := pages[p]];
        HistoryPut(old(pages), p, pages[p]);
        HistoryAt(old(pages), p);
      }
      PagesRestate(old(pages), records, h, rec.(slot := slot), pages);
    }

    /** The event counters of `rxown_promote_to_ring_locked`. */
    method CountPromotion(callerSlot: CallerSlot, slot: RingSlot)
      requires slot >= 0 && CallersAgree(callers, records)
      modifies this`totals, this`flows, this`callers
      ensures CallersAgree(callers, records)
      ensures flows == old(flows)[slot := old(flows)[slot].(allocations := old(flows)[slot].allocations + 1)]
      ensures totals == old(totals).(unscopedAllocations := Dec(old(totals).unscopedAllocations),
                                     scopedAllocations := old(totals).scopedAllocations + 1)
    {
      totals := totals.(unscopedAllocations := Dec(totals.unscopedAllocations),
                        scopedAllocations := totals.scopedAllocations + 1);
      flows := flows[slot := flows[slot].(allocations := flows[slot].allocations + 1)];
      if callerSlot >= 0 {
        var c := callers[callerSlot];
        callers := callers[callerSlot := c.(scopedAllocations := c.scopedAllocations + 1)];
        CallersFrame(old(callers), callers, records);
      }
    }

    /** `rxown_promote_to_ring_locked`: the buffer of head h turns out to belong to the ring in this slot. */
    method Promote(h: nat, slot: RingSlot)
      requires Valid() && h in records && records[h].slot < 0 && slot >= 0 && infos[slot].used
      requires records[h].head == h && records[h].state == ALLOCATED
      modifies this`records, this`pages, this`pagings, this`accounts, this`unscoped, this`totals, this`flows,
               this`callers
      ensures Valid()
      ensures records == old(records)[h := old(records)[h].(slot := slot)]
      ensures HistoryOf(pages) == PromotedHistory(old(HistoryOf(pages)), old(records)[h], slot)
    {
      hide AccountsAgree, PagesAgree, RingPagesAgree, CallersAgree, TablesAgree, SlotsAgree, GenerationsAgree;
      hide CurrentMoved, RingsConserved, SameBuffer, HistoryOf, PromotedHistory;
      PromotePage(h, slot);
      SameKeys(old(pages), pages);
      Reaccount(h, records[h].(slot := slot));
      ghost var rec := records[h];
      Relabelled(old(records)[h], slot);
      RestatedCallers(old(records), h, rec, callers);
      CountPromotion(records[h].callerSlot, slot);
      RestatedTables(old(records), h, rec, bySkb);
      RestatedGenerations(old(records), h, rec, nextGeneration, born);
      RestatedSlots(old(records), h, rec, infos);
      PromotedConserved(old(flows), flows, old(accounts), accounts, old(records), h, slot);
    }

    // ----- slots -----

    /** `rxown_find_ring_by_ptr_locked` */
    method FindRingByPtr(ring: nat) returns (r: RingSlot)
      ensures r >= 0 ==> infos[r].used && infos[r].scope.ring == ring
      ensures forall i :: 0 <= i < (if r >= 0 then r else MAX_RINGS) ==> !(infos[i].used && infos[i].scope.ring == ring)
    {
      r := -1;
      for i := 0 to MAX_RINGS
        invariant forall j :: 0 <= j < i ==> !(infos[j].used && infos[j].scope.ring == ring)
      {
        if infos[i].used && infos[i].scope.ring == ring {
          return i;
        }
      }
    }

    /** `rxown_find_ring_by_idr_locked` */
    method FindRingByIdr(idr: nat) returns (r: RingSlot)
      ensures r >= 0 ==> infos[r].used && infos[r].idr == Some(idr)
      ensures forall i :: 0 <= i < (if r >= 0 then r else MAX_RINGS) ==> !(infos[i].used && infos[i].idr == Some(idr))
    {
      r := -1;
      for i := 0 to MAX_RINGS
        invariant forall j :: 0 <= j < i ==> !(infos[j].used && infos[j].idr == Some(idr))
      {
        if infos[i].used && infos[i].idr == Some(idr) {
          return i;
        }
      }
    }

    /** `rxown_get_ring_locked`: the ring's slot, a fresh slot, or -1 when all are taken. */
    method GetRing(scope: Scope) returns (r: RingSlot)
      modifies this`infos, this`observed
      ensures r >= 0 ==> infos[r].used && infos[r].scope.ring == scope.ring
      ensures r < 0 ==> infos == old(infos) && forall i :: 0 <= i < MAX_RINGS ==>
              infos[i].used && infos[i].scope.ring != scope.ring
      ensures infos == old(infos) || (r >= 0 && !old(infos)[r].used && (forall i :: 0 <= i < r ==> old(infos)[i].used)
                                      && (forall i :: !IsRing(old(infos), i, scope.ring))
                                      && infos == old(infos)[r := old(infos)[r].(used := true, scope := scope)])
    {
      r := FindRingByPtr(scope.ring);
      if r >= 0 {
        return;
      }
      for i := 0 to MAX_RINGS
        invariant infos == old(infos)
        invariant forall j :: 0 <= j < i ==> infos[j].used
      {
        if !infos[i].used {
          infos := infos[i := infos[i].(used := true, scope := scope)];
          return i;
        }
      }
      observed := observed.(ringCapacityFailures := observed.ringCapacityFailures + 1);
    }

    /** `rxown_get_caller_locked`: the caller's slot, a fresh slot, or -1 when all are taken. */
    method GetCaller(addr: nat) returns (r: CallerSlot)
      requires CallersAgree(callers, records)
      modifies this`callers, this`observed
      ensures CallersAgree(callers, records)
      ensures r >= 0 ==> callers[r].used && callers[r].addr == addr
      ensures r < 0 ==> callers == old(callers) && forall i :: 0 <= i < MAX_CALLERS ==>
              callers[i].used && callers[i].addr != addr
      ensures callers == old(callers) || (r >= 0 && !old(callers)[r].used
                                          && callers == old(callers)[r := old(callers)[r].(used := true, addr := addr)])
    {
      r := -1;
      for i := 0 to MAX_CALLERS
        invariant forall j :: 0 <= j < i ==> !(callers[j].used && callers[j].addr == addr)
      {
        if callers[i].used && callers[i].addr == addr {
          return i;
        }
      }
      for i := 0 to MAX_CALLERS
        invariant callers == old(callers)
        invariant forall j :: 0 <= j < i ==> callers[j].used
      {
        if !callers[i].used {
          callers := callers[i := callers[i].(used := true, addr := addr)];
          CallersFrame(old(callers), callers, records);
          return i;
        }
      }
      observed := observed.(callerCapacityFailures := observed.callerCapacityFailures + 1);
    }

    // ----- a buffer is allocated -----

    /**
     `rxown_page_add_locked` for a record without ring; base is what was tracked before an empty page may have
     been added.
     */
    method PageAdd(rec: Record, ghost base: Pages, ghost m: Records)
      requires PagesAgree(base, m) && RingPagesAgree(pagings, pages) && |m| < MAX_RECORDS
      requires rec.head !in m && rec.slot < 0 && rec.pageTracked == (rec.page in pages)
      requires rec.page in base || !rec.pageTracked ==> pages == base
      requires rec.page !in base && rec.pageTracked ==> pages == base[rec.page := EmptyPage(pages[rec.page].order)]
      modifies this`pages
      ensures PagesAgree(pages, m[rec.head := rec]) && RingPagesAgree(pagings, pages)
      ensures pages.Keys == old(pages).Keys && |pages| == |old(pages)|
      ensures HistoryOf(pages) == JoinedHistory(HistoryOf(base), rec)
    {
      hide PagesAgree, RingPagesAgree, Moved, HistoryOf;
      HistoryKeys(base);
      if !rec.pageTracked {
        PagesIgnore(pages, m, rec.head, rec);
        return;
      }
      var pg := pages[rec.page];
      PageRoom(base, m, rec.page);
      var after := pg.(unscoped := Inc16(pg.unscoped), total := Inc16(pg.total),
                       historyUnscoped := pg.historyUnscoped || !rec.scopeCandidate);
      RingPagesRelabel(pagings, pages, rec.page, after);
      UnscopedMoved(pg, after, m, rec.head, rec);
      PagesGain(base, m, rec.head, rec, pg, after);
      pages := pages[rec.page := after];
      assert pages == base[rec.page := after];
      HistoryPut(base, rec.page, after);
      if rec.page in base {
        HistoryAt(base, rec.page);
      }
      SameKeys(old(pages), pages);
    }

    /**
     What the handler on the return of the buffer allocation does before it takes
     the lock: the new record draws its generation. Other handlers may run before
     the record enters, so records enter in any order of their generations.
     */
    method DrawGeneration(recordOk: bool) returns (generation: Option<nat>)
      requires Valid()
      modifies this`nextGeneration, this`observed
      ensures Valid() && (generation.Some? <==> recordOk) && old(nextGeneration) <= nextGeneration
      ensures generation.Some? ==>
                old(nextGeneration) < generation.value <= nextGeneration && generation.value !in born
    {
      hide AccountsAgree, PagesAgree, RingPagesAgree, CallersAgree, TablesAgree, SlotsAgree, GenerationsAgree;
      hide RingsConserved, TotalsConserved;
      if !recordOk {
        observed := observed.(recordAllocFailures := observed.recordAllocFailures + 1);
        return None;
      }
      nextGeneration := nextGeneration + 1;
      GenerationsLater(records, nextGeneration - 1, nextGeneration, born);
      generation := Some(nextGeneration);
    }

    /** Whether the handler on the allocation's return gets as far as tracking the buffer. */
    ghost predicate Accepts(head: nat, skb: nat)
      reads this
    {
      |records| < MAX_RECORDS && head !in records && skb !in bySkb
    }

    /**
     The locked part of the handler on the return of the buffer allocation: track
     the new buffer, if there is room. Its generation is any that was drawn and
     that no record has had.
     */
    method NetdevAllocReturn(call: AllocCall, skb: nat, head: nat, page: nat, order: nat, aligned: nat,
                             generation: nat, pageOk: bool)
      requires Valid() && 1 <= generation <= nextGeneration && generation !in born
      modifies this
      ensures Valid() && nextGeneration == old(nextGeneration)
      ensures infos == old(infos) && flows == old(flows) && accounts == old(accounts)
      ensures if old(Accepts(head, skb))
              then && head in records && records == old(records)[head := records[head]]
                   && bySkb == old(bySkb)[skb := head]
                   && IsNew(records[head], call, skb, head, page, aligned, generation)
                   && (records[head].pageTracked <==> page in pages)
                   && (page in pages <==> old(Traceable(page, pageOk)))
                   && HistoryOf(pages) == JoinedHistory(old(HistoryOf(pages)), records[head])
                   && (records[head].callerSlot >= 0 ==> callers[records[head].callerSlot].addr == call.caller)
              else records == old(records) && bySkb == old(bySkb) && pages == old(pages)
      ensures Extends(old(born), born) && born.Keys <= old(born).Keys + {generation}
    {
      hide AccountsAgree, PagesAgree, RingPagesAgree, CallersAgree, TablesAgree, SlotsAgree, GenerationsAgree;
      hide RingsConserved, IsNew, HistoryOf, JoinedHistory;
      if recordCount >= MAX_RECORDS {
        observed := observed.(recordCapacityFailures := observed.recordCapacityFailures + 1);
      } else if head in records {
        observed := observed.(headCollisions := observed.headCollisions + 1);
      } else if skb in bySkb {
        observed := observed.(skbCollisions := observed.skbCollisions + 1);
      } else {
        Track(call, skb, head, page, order, aligned, generation, pageOk);
      }
    }

    /** The page is tracked, or there is room and memory to track it. */
    predicate Traceable(page: nat, pageOk: bool)
      reads this`pages
    {
      page in pages || (|pages| < MAX_PAGES && pageOk)
    }

    /** Start tracking the buffer's page, if there is room. */
    method TrackPage(page: nat, order: nat, pageOk: bool)
      requires RingPagesAgree(pagings, pages) && trackedPageCount == |pages| <= MAX_PAGES
      modifies this`pages, this`trackedPageCount, this`observed
      ensures RingPagesAgree(pagings, pages) && trackedPageCount == |pages| <= MAX_PAGES
      ensures page in pages <==> old(Traceable(page, pageOk))
      ensures page !in pages ==> pages == old(pages)
      ensures page in old(pages) ==> pages == old(pages)
      ensures page in pages && page !in old(pages) ==> pages == old(pages)[page := EmptyPage(order)]
    {
      if page in pages {
        return;
      }
      hide RingPagesAgree;
      if trackedPageCount < MAX_PAGES && pageOk {
        var empty := EmptyPage(order);
        RingPagesTrack(pagings, pages, page, empty);
        StoreCount(pages, page, empty);
        pages := pages[page := empty];
        trackedPageCount := trackedPageCount + 1;
      } else if trackedPageCount < MAX_PAGES {
        observed := observed.(pageAllocFailures := observed.pageAllocFailures + 1);
      } else {
        observed := observed.(pageCapacityFailures := observed.pageCapacityFailures + 1);
      }
    }

    /** The part of the handler after its collision checks. */
    method Track(call: AllocCall, skb: nat, head: nat, page: nat, order: nat, aligned: nat,
                 generation: nat, pageOk: bool)
      requires Valid() && |records| < MAX_RECORDS && head !in records && skb !in bySkb
      requires 1 <= generation <= nextGeneration && generation !in born
      modifies this`records, this`bySkb, this`pages, this`callers, this`unscoped, this`accounts, this`totals,
               this`observed,
               this`recordCount, this`trackedPageCount, this`born
      ensures Valid() && accounts == old(accounts)
      ensures Extends(old(born), born) && born.Keys <= old(born).Keys + {generation}
      ensures head in records && records == old(records)[head := records[head]] && bySkb == old(bySkb)[skb := head]
      ensures IsNew(records[head], call, skb, head, page, aligned, generation)
      ensures (records[head].pageTracked <==> page in pages) && (page in pages <==> old(Traceable(page, pageOk)))
      ensures HistoryOf(pages) == JoinedHistory(old(HistoryOf(pages)), records[head])
      ensures records[head].callerSlot >= 0 ==> callers[records[head].callerSlot].addr == call.caller
    {
      hide AccountsAgree, PagesAgree, RingPagesAgree, CallersAgree, TablesAgree, SlotsAgree, GenerationsAgree;
      hide RingsConserved, TotalsConserved, Extends, IsNew, CanJoin, HistoryOf, JoinedHistory;
      var callerSlot := GetCaller(call.caller);
      var rec := NewRecord(call, skb, head, page, aligned, generation, callerSlot);
      MayJoin(rec, records, bySkb, infos, nextGeneration, born);
      TrackOn(rec, order, pageOk);
      TrackedIsNew(rec, call, skb, head, page, aligned, generation, page in pages);
    }

    /** The record as built so far finds out whether its page is tracked, and enters. */
    method TrackOn(rec: Record, order: nat, pageOk: bool)
      requires Valid() && |records| < MAX_RECORDS && rec.head !in records && rec.slot < 0
      requires CanJoin(rec, records, bySkb, infos, nextGeneration, born)
      modifies this`records, this`bySkb, this`pages, this`callers, this`unscoped, this`accounts, this`totals,
               this`observed, this`recordCount, this`trackedPageCount, this`born
      ensures Valid() && accounts == old(accounts)
      ensures Extends(old(born), born) && born.Keys <= old(born).Keys + {rec.generation}
      ensures records == old(records)[rec.head := rec.(pageTracked := rec.page in pages)]
      ensures bySkb == old(bySkb)[rec.skb := rec.head]
      ensures rec.page in pages <==> old(Traceable(rec.page, pageOk))
      ensures HistoryOf(pages) == JoinedHistory(old(HistoryOf(pages)), records[rec.head])
      ensures forall c :: 0 <= c < MAX_CALLERS ==> callers[c].addr == old(callers)[c].addr
    {
      hide AccountsAgree, PagesAgree, RingPagesAgree, CallersAgree, TablesAgree, SlotsAgree, GenerationsAgree;
      hide RingsConserved, TotalsConserved, Extends, CanJoin, Tracker.Joins, HistoryOf, JoinedHistory;
      ReadyToJoin(rec);
      EnterPage(rec, order, pageOk);
    }

    lemma {:induction false} ReadyToJoin(rec: Record)
      requires Valid() && CanJoin(rec, records, bySkb, infos, nextGeneration, born)
      ensures Joins(rec)
    {
      hide AccountsAgree, PagesAgree, RingPagesAgree, CallersAgree, TablesAgree, SlotsAgree, GenerationsAgree;
      hide RingsConserved, TotalsConserved, CanJoin;
    }

    /** The same, for the parts of the state that change. */
    method EnterPage(rec: Record, order: nat, pageOk: bool)
      requires AccountsAgree(accounts, unscoped, records) && PagesAgree(pages, records)
      requires RingPagesAgree(pagings, pages)
      requires CallersAgree(callers, records) && Joins(rec) && trackedPageCount == |pages| <= MAX_PAGES
      requires |records| < MAX_RECORDS && rec.head !in records && rec.slot < 0
      modifies this`records, this`bySkb, this`pages, this`callers, this`unscoped, this`accounts, this`totals,
               this`observed, this`recordCount, this`trackedPageCount, this`born
      ensures AccountsAgree(accounts, unscoped, records) && PagesAgree(pages, records) && RingPagesAgree(pagings, pages)
      ensures CallersAgree(callers, records) && Joined() && trackedPageCount == |pages| <= MAX_PAGES
      ensures accounts == old(accounts) && records == old(records)[rec.head := rec.(pageTracked := rec.page in pages)]
      ensures bySkb == old(bySkb)[rec.skb := rec.head] && (rec.page in old(pages) ==> rec.page in pages)
      ensures HistoryOf(pages) == JoinedHistory(old(HistoryOf(pages)), records[rec.head])
      ensures rec.page in pages <==> old(Traceable(rec.page, pageOk))
      ensures forall c :: 0 <= c < MAX_CALLERS ==> callers[c].addr == old(callers)[c].addr
      ensures Extends(old(born), born) && born.Keys <= old(born).Keys + {rec.generation}
    {
      hide AccountsAgree, PagesAgree, RingPagesAgree, CallersAgree, TablesAgree, SlotsAgree, GenerationsAgree;
      hide TotalsConserved, Extends, CanJoin, HistoryOf, JoinedHistory;
      TrackPage(rec.page, order, pageOk);
      JoinsTracked(rec, records, bySkb, infos, nextGeneration, born, rec.page in pages);
      Enter(rec.(pageTracked := rec.page in pages), old(pages));
    }

    /** The new record joins its page, if that is tracked, and everything else. */
    method Enter(rec: Record, ghost base: Pages)
      requires AccountsAgree(accounts, unscoped, records) && PagesAgree(base, records) && RingPagesAgree(pagings, pages)
      requires CallersAgree(callers, records) && Joins(rec) && |records| < MAX_RECORDS && rec.head !in records
      requires rec.slot < 0
      requires rec.pageTracked == (rec.page in pages) && (rec.page in base || !rec.pageTracked ==> pages == base)
      requires rec.page !in base && rec.pageTracked ==> pages == base[rec.page := EmptyPage(pages[rec.page].order)]
      modifies this`records, this`bySkb, this`pages, this`callers, this`unscoped, this`accounts, this`totals,
               this`recordCount, this`born
      ensures AccountsAgree(accounts, unscoped, records) && PagesAgree(pages, records) && RingPagesAgree(pagings, pages)
      ensures CallersAgree(callers, records) && Joined()
      ensures accounts == old(accounts) && records == old(records)[rec.head := rec]
      ensures bySkb == old(bySkb)[rec.skb := rec.head]
      ensures pages.Keys == old(pages).Keys && |pages| == |old(pages)|
      ensures HistoryOf(pages) == JoinedHistory(HistoryOf(base), rec)
      ensures forall c :: 0 <= c < MAX_CALLERS ==> callers[c].addr == old(callers)[c].addr
      ensures Extends(old(born), born) && born.Keys <= old(born).Keys + {rec.generation}
    {
      hide AccountsAgree, PagesAgree, RingPagesAgree, CallersAgree, TablesAgree, SlotsAgree, GenerationsAgree;
      hide TotalsConserved, Extends, CanJoin, HistoryOf, JoinedHistory;
      PageAdd(rec, base, records);
      CountAllocation(rec, records);
      Insert(rec);
    }

    ghost predicate Joins(rec: Record)
      reads this
    {
      CanJoin(rec, records, bySkb, infos, nextGeneration, born) && TotalsConserved(totals, unscoped, |records|)
        && recordCount == |records|
    }

    ghost predicate Joined()
      reads this
    {
      && TablesAgree(records, bySkb) && SlotsAgree(records, infos) && GenerationsAgree(records, nextGeneration, born)
      && TotalsConserved(totals, unscoped, |records|) && recordCount == |records| <= MAX_RECORDS
    }

    /** The caller's counters for a new buffer. */
    method CountAllocation(rec: Record, ghost m: Records)
      requires CallersAgree(callers, m) && rec.head !in m
      modifies this`callers
      ensures CallersAgree(callers, m[rec.head := rec])
      ensures forall c :: 0 <= c < MAX_CALLERS ==> callers[c].addr == old(callers)[c].addr
    {
      if rec.callerSlot >= 0 {
        var c := callers[rec.callerSlot];
        callers := callers[rec.callerSlot := c.(allocations := c.allocations + 1, live := c.live + 1,
                                                requested := c.requested + rec.requested,
                                                  aligned := c.aligned + rec.aligned)];
      }
      CallersGain(old(callers), callers, m, rec.head, rec);
    }

    /** The record enters the tables and every account. */
    method Insert(rec: Record)
      requires AccountsAgree(accounts, unscoped, records) && Joins(rec)
      modifies this`records, this`bySkb, this`unscoped, this`accounts, this`totals, this`recordCount, this`born
      ensures AccountsAgree(accounts, unscoped, records) && Joined()
      ensures accounts == old(accounts) && records == old(records)[rec.head := rec]
      ensures bySkb == old(bySkb)[rec.skb := rec.head]
      ensures Extends(old(born), born) && born.Keys <= old(born).Keys + {rec.generation}
    {
      hide AccountsAgree, PagesAgree, RingPagesAgree, CallersAgree, TablesAgree, SlotsAgree, GenerationsAgree;
      hide TotalsConserved, CanJoin, Extends;
      ghost var m := records;
      JoinFacts(rec, records, bySkb, infos, nextGeneration, born);
      InsertTables(rec);
      InsertAccounts(rec, m);
    }

    /** The new record, outside every ring, is counted; m is the set of records before it. */
    method InsertAccounts(rec: Record, ghost m: Records)
      requires AccountsAgree(accounts, unscoped, m) && TotalsConserved(totals, unscoped, |m|)
      requires rec.head !in m && rec.slot < 0
      modifies this`unscoped, this`accounts, this`totals
      ensures AccountsAgree(accounts, unscoped, m[rec.head := rec]) && accounts == old(accounts)
      ensures TotalsConserved(totals, unscoped, |m| + 1)
    {
      hide AccountsAgree, TotalsConserved;
      StoreRemove(m, rec.head, rec);
      AccountAdd(rec, m[rec.head := rec]);
      UnscopedGain(old(accounts), old(unscoped), accounts, unscoped, m, rec.head, rec);
      TotalsGain(totals, old(unscoped), unscoped, |m|);
      totals := totals.(allocations := totals.allocations + 1, unscopedAllocations := totals.unscopedAllocations + 1);
    }

    /** The record enters the two hash tables. */
    method InsertTables(rec: Record)
      requires CanJoin(rec, records, bySkb, infos, nextGeneration, born) && recordCount == |records|
      modifies this`records, this`bySkb, this`recordCount, this`born
      ensures TablesAgree(records, bySkb) && SlotsAgree(records, infos)
      ensures GenerationsAgree(records, nextGeneration, born)
      ensures recordCount == |records| == |old(records)| + 1 <= MAX_RECORDS
      ensures records == old(records)[rec.head := rec] && bySkb == old(bySkb)[rec.skb := rec.head]
      ensures Extends(old(born), born) && born.Keys <= old(born).Keys + {rec.generation}
    {
      hide TablesAgree, SlotsAgree, GenerationsAgree, CanJoin, Extends;
      JoinTables(rec, records, bySkb, infos, nextGeneration, born);
      records := records[rec.head := rec];
      bySkb := bySkb[rec.skb := rec.head];
      recordCount := recordCount + 1;
      born := born[rec.generation := Identity(rec.head, rec.skb, rec.page)];
    }

    // ----- a buffer is entered into a ring's table -----

    /** The ring a scoped buffer belongs to: the one with this table, or the scope's own if it has no other table. */
    method ScopedRing(idrSlot: RingSlot, pending: Scope, idr: nat) returns (slot: RingSlot)
      requires SlotsAgree(records, infos)
      requires if idrSlot >= 0 then HasTable(infos, idrSlot, idr) else forall i :: !HasTable(infos, i, idr)
      modifies this`infos, this`observed
      ensures SlotsAgree(records, infos) && UsedStays(old(infos), infos)
      ensures RingFound(old(infos), infos, Some(pending), idr, slot)
    {
      hide SlotsAgree, UsedStays, Available;
      if idrSlot >= 0 {
        UsedStill(infos);
        return idrSlot;
      }
      ghost var was := infos;
      slot := GetRing(pending);
      KnownTable(records, was, infos, pending, idr, slot);
      if slot >= 0 && infos[slot].idr.Some? && infos[slot].idr != Some(idr) {
        slot := -1;
      }
      if slot >= 0 {
        infos := infos[slot := infos[slot].(idr := Some(idr))];
        TakenAgree(records, was, infos, pending, idr, slot);
      } else {
        UsedStill(infos);
      }
    }

    /**
     The handler on the entry of `idr_alloc`. It is tracked if and only if a ring has the table, or the buffer
     waits for a ring that may have it; then the buffer is promoted to that ring. A tracked call remembers which
     record, by its generation, the buffer had at this moment.
     */
    method IdrAllocEntry(skb: nat, idr: nat, scope: Option<Scope>, start: nat, end: nat) returns (call: IdrAllocCall)
      requires Valid()
      modifies this
      ensures Valid() && born == old(born) && nextGeneration == old(nextGeneration) && UsedStays(old(infos), infos)
      ensures bySkb == old(bySkb) && (call.tracked <==> call.slot >= 0)
      ensures call.tracked <==> if old(Waits(skb, scope)).Some? then Available(old(infos), scope.value.ring, idr)
                                else exists i :: HasTable(old(infos), i, idr)
      ensures RingFound(old(infos), infos, old(Waits(skb, scope)), idr, call.slot)
      ensures call.tracked ==> HasTable(infos, call.slot, idr)
      ensures call == IdrAllocCall(call.tracked, old(Waits(skb, scope)).Some?,
                                   call.tracked && !old(Waits(skb, scope)).Some?,
                                   idr, skb, call.generation, start, end, call.slot)
      ensures records == if call.tracked && call.scoped
                         then old(records)[bySkb[skb] := old(records)[bySkb[skb]].(slot := call.slot)]
                         else old(records)
      ensures HistoryOf(pages) == if call.tracked && call.scoped
                                  then PromotedHistory(old(HistoryOf(pages)), old(records)[bySkb[skb]], call.slot)
                                  else old(HistoryOf(pages))
      ensures call.generation == if call.tracked && skb in bySkb && bySkb[skb] in records
                                    && records[bySkb[skb]].slot == call.slot
                                 then records[bySkb[skb]].generation else 0
      ensures call.generation != 0 ==> call.generation in born
    {
      hide AccountsAgree, PagesAgree, RingPagesAgree, CallersAgree, TablesAgree, SlotsAgree, GenerationsAgree;
      hide RingsConserved, TotalsConserved, RingFound, UsedStays, Available, HistoryOf, PromotedHistory;
      call := IdrAllocCall(false, false, false, idr, skb, 0, start, end, -1);
      var idrSlot := FindRingByIdr(idr);
      var slot := idrSlot;
      ghost var was, waits := infos, Waits(skb, scope);
      TableFound(infos, idr, idrSlot);
      UsedStill(infos);
      if Waits(skb, scope).Some? {
        var h := bySkb[skb];
        CandidateFacts(records, bySkb, infos, skb);
        slot := ScopedRing(idrSlot, records[h].pending, idr);
        RingFoundExactly(was, infos, waits, idr, slot);
        if slot >= 0 {
          Promote(h, slot);
        }
        call := call.(scoped := true);
      } else {
        RingFoundExactly(was, infos, waits, idr, slot);
        call := call.(reinject := slot >= 0);
      }
      if slot < 0 {
        return;
      }
      if skb in bySkb && bySkb[skb] in records && records[bySkb[skb]].slot == slot {
        call := call.(generation := records[bySkb[skb]].generation);
        BornRecord(records, nextGeneration, born, bySkb[skb]);
      }
      call := call.(slot := slot, tracked := true);
    }

    function Waits(skb: nat, scope: Option<Scope>): Option<Scope>
      reads this`records, this`bySkb
    {
      WaitsFor(records, bySkb, skb, scope)
    }

    /** What the two handlers on a ring's table keep up to date about its size. */
    method SampleTable(slot: RingSlot, sample: bool, exact: int, step: int)
      requires slot >= 0 && Counted()
      modifies this`infos
      ensures Counted() && UsedStays(old(infos), infos) && SameRings(old(infos), infos)
      ensures infos == old(infos)[slot := if sample
                                  then old(infos)[slot].(actualIdr := exact, actualValid := true, resample := false)
                                          else old(infos)[slot].(actualIdr := old(infos)[slot].actualIdr + step)]
    {
      hide AccountsAgree, PagesAgree, RingPagesAgree, CallersAgree, TablesAgree, SlotsAgree, GenerationsAgree;
      var r := infos[slot];
      infos := infos[slot := if sample then r.(actualIdr := exact, actualValid := true, resample := false)
                             else r.(actualIdr := r.actualIdr + step)];
      SlotsLater(records, old(infos), infos);
    }

    /** The buffer the call was about, if it is still the one the entry saw and not posted yet. */
    predicate MayPost(call: IdrAllocCall)
      requires call.slot >= 0
      reads this
    {
      call.generation != 0 && call.skb in bySkb && bySkb[call.skb] in records &&
      var r := records[bySkb[call.skb]];
      r.generation == call.generation && r.slot == call.slot && (r.state == ALLOCATED || r.state == REAPED)
    }

    /**
     The handler on the return of `idr_alloc`. It posts the buffer that the entry
     of the same call saw, or nothing: seen is who had the remembered generation
     at the entry, and no other record is ever posted, whatever became of the
     skb pointer in between.
     */
    method IdrAllocReturn(call: IdrAllocCall, id: int, sample: bool, exact: int, ghost seen: Identity)
      requires Valid()
      requires call.tracked ==> call.slot >= 0 && infos[call.slot].used
      requires call.generation != 0 ==> call.generation in born && born[call.generation] == seen
      modifies this
      ensures Valid() && born == old(born) && nextGeneration == old(nextGeneration)
      ensures UsedStays(old(infos), infos) && SameRings(old(infos), infos) && bySkb == old(bySkb)
      ensures call.tracked && id >= 0 && old(MayPost(call)) ==>
                PostsSeen(old(records), records, call, id, seen) && seen.head == bySkb[call.skb]
                  && flows[call.slot].posts == old(flows)[call.slot].posts + 1
      ensures records != old(records) ==> call.generation != 0
      ensures PostsCall(old(Now()), Now(), call, id)
      ensures !(call.tracked && id >= 0 && old(call.slot >= 0 && MayPost(call))) ==>
              records == old(records) && flows == old(flows)
    {
      hide AccountsAgree, PagesAgree, RingPagesAgree, CallersAgree, TablesAgree, SlotsAgree, GenerationsAgree;
      hide RingsConserved, TotalsConserved, CurrentMoved, PostsSeen, MayPost, CallReturned, CallPosted, PostsCall;
      ghost var was, may := Now(), call.slot >= 0 && MayPost(call);
      MayPostIs(call);
      NothingReturned(was, call, id);
      if !call.tracked {
        return;
      }
      var slot := call.slot;
      var r := CallReturned(infos[slot], call, id < 0);
      if id < 0 {
        infos := infos[slot := r];
        SlotsLater(records, old(infos), infos);
        ReturnedSo(was, Now(), call, id, may);
        return;
      }
      var posted := PostSeen(call, id, seen);
      infos := infos[slot := CallPosted(r, call, posted)];
      SlotsLater(records, old(infos), infos);
      SampleTable(slot, sample, exact, 1);
      ReturnedSo(was, Now(), call, id, may);
    }

    lemma {:induction false} MayPostIs(call: IdrAllocCall)
      ensures call.slot >= 0 ==>
                (MayPost(call) <==> call.generation != 0 && Postable(Now(), call.skb, call.generation, call.slot))
    {
    }

    /** Posts the buffer the entry saw, if it is still there to be posted. */
    method PostSeen(call: IdrAllocCall, id: int, ghost seen: Identity) returns (posted: bool)
      requires Valid() && call.slot >= 0 && id >= 0
      requires call.generation != 0 ==> call.generation in born && born[call.generation] == seen
      modifies this`records, this`pages, this`pagings, this`accounts, this`unscoped, this`flows
      ensures Valid() && posted == old(MayPost(call)) && HistoryOf(pages) == old(HistoryOf(pages))
      ensures posted ==>
              call.generation != 0 && PostsSeen(old(records), records, call, id, seen)
              && seen.head == bySkb[call.skb]
      ensures posted ==>
              flows == old(flows)[call.slot := old(flows)[call.slot].(posts := old(flows)[call.slot].posts + 1)]
      ensures !posted ==> records == old(records) && flows == old(flows)
      ensures posted ==> bySkb[call.skb] in old(records)
                         && records == old(records)[bySkb[call.skb] :=
                                                    old(records)[bySkb[call.skb]].(state := POSTED, bufId := id)]
    {
      hide AccountsAgree, PagesAgree, RingPagesAgree, CallersAgree, TablesAgree, SlotsAgree, GenerationsAgree;
      hide RingsConserved, TotalsConserved;
      posted := MayPost(call);
      if posted {
        PostedBuffer(records, bySkb, nextGeneration, born, call.skb, seen);
        Post(bySkb[call.skb], id);
      }
    }

    /** The buffer of head h is posted under the given id. */
    method Post(h: nat, id: int)
      requires Valid() && h in records && records[h].head == h && records[h].slot >= 0 && records[h].state != POSTED
      modifies this`records, this`pages, this`pagings, this`accounts, this`unscoped, this`flows
      ensures Valid() && records == old(records)[h := old(records)[h].(state := POSTED, bufId := id)]
      ensures HistoryOf(pages) == old(HistoryOf(pages))
      ensures var i := old(records)[h].slot;
              flows == old(flows)[i := old(flows)[i].(posts := old(flows)[i].posts + 1)]
    {
      hide Tracker.Counted, RingsConserved, TotalsConserved, CurrentMoved, HistoryOf, SameHistory;
      ghost var ps := pages;
      var slot := records[h].slot;
      Relabel(h, id);
      ghost var m := records;
      Transition(h, POSTED);
      flows := flows[slot := flows[slot].(posts := flows[slot].posts + 1)];
      PostedConserved(old(flows), flows, old(accounts), accounts, m, h);
      SameHistoryOf(ps, pages);
      SameKeys(m, records);
    }

    /** The buffer of head h is taken back from the ring. */
    method Reap(h: nat, id: int)
      requires Valid() && h in records && records[h].head == h && records[h].slot >= 0 && records[h].state == POSTED
      modifies this`records, this`pages, this`pagings, this`accounts, this`unscoped, this`flows
      ensures Valid() && records == old(records)[h := old(records)[h].(state := REAPED, bufId := id)]
      ensures HistoryOf(pages) == old(HistoryOf(pages))
      ensures var i := old(records)[h].slot;
              flows == old(flows)[i := old(flows)[i].(reaps := old(flows)[i].reaps + 1)]
    {
      hide Tracker.Counted, RingsConserved, TotalsConserved, CurrentMoved, HistoryOf, SameHistory;
      ghost var ps := pages;
      var slot := records[h].slot;
      Relabel(h, id);
      ghost var m := records;
      Transition(h, REAPED);
      flows := flows[slot := flows[slot].(reaps := flows[slot].reaps + 1)];
      ReapedConserved(old(flows), flows, old(accounts), accounts, m, h);
      SameHistoryOf(ps, pages);
      SameKeys(m, records);
    }

    /** Storing a buffer id changes no count. */
    method Relabel(h: nat, id: int)
      requires Counted() && h in records && records[h].head == h
      modifies this`records
      ensures Counted() && records == old(records)[h := old(records)[h].(bufId := id)] && |records| == |old(records)|
    {
      hide AccountsAgree, PagesAgree, RingPagesAgree, CallersAgree, TablesAgree, SlotsAgree, GenerationsAgree;
      hide SameBuffer;
      ghost var m := records;
      records := records[h := records[h].(bufId := id)];
      Renumbered(m[h], id);
      RenumberedAccounts(accounts, unscoped, infos, m, h, id);
      RenumberedPages(pages, m, h, id);
      RestatedCallers(m, h, records[h], callers);
      RestatedTables(m, h, records[h], bySkb);
      RestatedGenerations(m, h, records[h], nextGeneration, born);
    }

    // ----- a buffer is taken out of a ring's table -----

    /** The handler on the entry of `idr_remove`. */
    method IdrRemoveEntry(idr: nat, id: nat) returns (call: IdrRemoveCall)
      requires Valid()
      ensures call.idr == idr && call.id == id
      ensures if call.tracked then HasTable(infos, call.slot, idr) else forall i :: !HasTable(infos, i, idr)
    {
      var slot := FindRingByIdr(idr);
      call := IdrRemoveCall(slot >= 0, idr, id, slot);
    }

    /** The removed buffer is one that the call's ring has posted. */
    predicate MayReap(call: IdrRemoveCall, skb: Option<nat>)
      reads this
    {
      skb.Some? && skb.value in bySkb && bySkb[skb.value] in records &&
      records[bySkb[skb.value]].slot == call.slot && records[bySkb[skb.value]].state == POSTED
    }

    lemma {:induction false} FoundBySkb(skb: nat)
      requires Counted() && skb in bySkb
      ensures bySkb[skb] in records && records[bySkb[skb]].head == bySkb[skb]
    {
      CandidateFacts(records, bySkb, infos, skb);
    }

    /** A buffer that the tracker does not know was removed from the ring's table. */
    method CountUntracked(slot: RingSlot)
      requires slot >= 0 && Counted()
      modifies this`infos, this`observed
      ensures Counted() && UsedStays(old(infos), infos) && SameRings(old(infos), infos)
      ensures infos == old(infos)[slot := old(infos)[slot].(untrackedRemoves := old(infos)[slot].untrackedRemoves + 1)]
    {
      hide AccountsAgree, PagesAgree, RingPagesAgree, CallersAgree, TablesAgree, SlotsAgree, GenerationsAgree;
      infos := infos[slot := infos[slot].(untrackedRemoves := infos[slot].untrackedRemoves + 1)];
      SlotsLater(records, old(infos), infos);
      observed := observed.(idrRemoveUnmatched := observed.idrRemoveUnmatched + 1);
    }

    /** The handler on the return of `idr_remove`: a posted buffer of the ring is reaped, and nothing else changes. */
    method IdrRemoveReturn(call: IdrRemoveCall, skb: Option<nat>, sample: bool, exact: int)
      requires Valid()
      requires call.tracked ==> call.slot >= 0 && infos[call.slot].used
      modifies this
      ensures Valid() && born == old(born) && nextGeneration == old(nextGeneration)
      ensures UsedStays(old(infos), infos) && SameRings(old(infos), infos) && bySkb == old(bySkb)
      ensures ReapsCall(old(Now()), Now(), call, skb)
      ensures if call.tracked && old(MayReap(call, skb))
              then var h := bySkb[skb.value];
                   && records == old(records)[h := old(records)[h].(state := REAPED, bufId := call.id)]
                   && flows[call.slot].reaps == old(flows)[call.slot].reaps + 1
              else records == old(records) && flows == old(flows)
    {
      hide Tracker.Counted, RingsConserved, TotalsConserved;
      if !call.tracked {
        return;
      }
      var slot := call.slot;
      SampleTable(slot, sample, exact, if skb.Some? && infos[slot].actualIdr > 0 then -1 else 0);
      if skb.None? {
        return;
      }
      if !(skb.value in bySkb && bySkb[skb.value] in records && records[bySkb[skb.value]].slot == slot) {
        CountUntracked(slot);
        return;
      }
      if records[bySkb[skb.value]].state == POSTED {
        FoundBySkb(skb.value);
        Reap(bySkb[skb.value], call.id);
      }
    }

    // ----- a buffer is released -----

    /** The handler on the release of an skb: its record can no longer be found by that pointer. */
    method SkbRelease(skb: nat, head: nat)
      requires Valid()
      modifies this`records, this`bySkb, this`observed
      ensures Valid()
      ensures if head in old(records) && old(records)[head].skbLinked && old(records)[head].skb == skb
              then records == old(records)[head := old(records)[head].(skbLinked := false)]
                   && bySkb == old(bySkb) - {skb}
              else records == old(records) && bySkb == old(bySkb)
    {
      hide AccountsAgree, PagesAgree, RingPagesAgree, CallersAgree, TablesAgree, SlotsAgree, GenerationsAgree;
      hide RingsConserved, TotalsConserved;
      if head !in records {
        return;
      }
      observed := observed.(skbReleases := observed.skbReleases + 1);
      if records[head].skbLinked && records[head].skb == skb {
        Unlinked(accounts, unscoped, infos, records, head);
        UnlinkedPages(pages, records, head);
        UnlinkedCallers(callers, records, head);
        UnlinkedTables(records, bySkb, nextGeneration, born, head);
        records := records[head := records[head].(skbLinked := false)];
        bySkb := bySkb - {skb};
      }
    }

    /** `rxown_page_remove_locked`; m is the set of records before rec went. */
    method PageRemove(rec: Record, ghost m: Records)
      requires PagesAgree(pages, m) && RingPagesAgree(pagings, pages) && |m| <= MAX_RECORDS
      requires rec.head in m && m[rec.head] == rec && trackedPageCount == |pages|
      modifies this`pages, this`pagings, this`trackedPageCount, this`warned
      ensures PagesAgree(pages, m - {rec.head}) && RingPagesAgree(pagings, pages)
      ensures trackedPageCount == |pages| <= |old(pages)| && warned == old(warned)
      ensures HistoryOf(pages) == LeftHistory(old(HistoryOf(pages)), rec, rec.page !in pages)
    {
      hide PagesAgree, RingPagesAgree, Moved, HistoryOf;
      HistoryKeys(pages);
      if !rec.pageTracked {
        PagesForget(pages, m, rec.head);
        return;
      }
      OwnCountsPositive(pages, m, rec.head);
      var p := rec.page;
      if rec.slot >= 0 {
        var bad := pages[p].ringState[rec.slot][rec.state] == 0;
        warned := warned || bad;
        if bad {
          return;
        }
        PageLeave(p, rec.slot, rec.state);
      } else if pages[p].unscoped > 0 {
        var pg := pages[p].(unscoped := pages[p].unscoped - 1, historyUnscoped := pages[p].historyUnscoped
                            || rec.scopeCandidate);
        RingPagesRelabel(pagings, pages, p, pg);
        pages := pages[p := pg];
      }
      assert pages == old(pages)[p := pages[p]];
      HistoryLeaves(old(pages), pages[p], rec);
      DropTotal(rec, old(pages), m);
    }

    /** The tail of `rxown_page_remove_locked`: base is what was tracked before rec's own count went. */
    method DropTotal(rec: Record, ghost base: Pages, ghost m: Records)
      requires PagesAgree(base, m) && RingPagesAgree(pagings, pages) && trackedPageCount == |pages|
      requires rec.head in m && m[rec.head] == rec && rec.pageTracked && rec.page in pages && rec.page in base
      requires pages[rec.page].total == base[rec.page].total > 0 && pages == base[rec.page := pages[rec.page]]
      requires CountLeft(base[rec.page], pages[rec.page], rec)
      modifies this`pages, this`trackedPageCount
      ensures PagesAgree(pages, m - {rec.head}) && RingPagesAgree(pagings, pages)
      ensures trackedPageCount == |pages| <= |old(pages)|
      ensures HistoryOf(pages) == if rec.page in pages then old(HistoryOf(pages))
              else old(HistoryOf(pages)) - {rec.page}
    {
      hide PagesAgree, RingPagesAgree, Moved, CountLeft, HistoryOf;
      var p := rec.page;
      var pg := pages[p].(total := Dec(pages[p].total));
      RingPagesRelabel(pagings, pages, p, pg);
      LeftMoved(base[p], pages[p], pg, m, rec);
      PagesLose(base, m, rec.head, pg);
      pages := pages[p := pg];
      SameKeys(old(pages), pages);
      assert base[p := pg] == pages && base - {p} == pages - {p};
      HistoryPut(old(pages), p, pg);
      HistoryAt(old(pages), p);
      HistoryDrop(pages, p);
      HistorySame(HistoryOf(old(pages)), p);
      if pg.total == 0 {
        RingPagesForget(pagings, pages, p);
        RemoveCount(pages, p);
        pages := pages - {p};
        trackedPageCount := Dec(trackedPageCount);
      }
    }

    /** The handler on the release of a buffer head: the record is forgotten everywhere. */
    method PageFree(head: nat)
      requires Valid()
      modifies this
      ensures Valid() && born == old(born) && nextGeneration == old(nextGeneration) && infos == old(infos)
      ensures records == old(records) - {head}
      ensures if head in old(records)
              then var rec := old(records)[head];
                   && bySkb == (if rec.skbLinked then old(bySkb) - {rec.skb} else old(bySkb))
                   && totals.releases == old(totals).releases + 1
                   && HistoryOf(pages) == LeftHistory(old(HistoryOf(pages)), rec, rec.page !in pages)
                   && flows == FlowsReleased(old(flows), rec)
              else bySkb == old(bySkb) && totals == old(totals) && flows == old(flows) && pages == old(pages)
    {
      hide HistoryOf, LeftHistory;
      hide AccountsAgree, PagesAgree, RingPagesAgree, CallersAgree, TablesAgree, SlotsAgree, GenerationsAgree;
      hide RingsConserved, TotalsConserved, FlowsReleased, Forgettable;
      if head in records {
        ForgetTables(records, bySkb, infos, nextGeneration, born, head);
        Forget(records[head]);
      } else {
        observed := observed.(pageFreeUnmatched := observed.pageFreeUnmatched + 1);
        NothingToRemove(records, head);
      }
    }

    /** The record leaves the tables, its page and its accounts. */
    method Forget(rec: Record)
      requires Valid() && rec.head in records && records[rec.head] == rec
      requires Forgettable(records, bySkb, infos, nextGeneration, born, rec)
      modifies this`records, this`bySkb, this`pages, this`pagings, this`accounts, this`unscoped, this`totals,
               this`flows, this`callers, this`recordCount, this`trackedPageCount, this`warned
      ensures Valid() && records == old(records) - {rec.head}
      ensures bySkb == (if rec.skbLinked then old(bySkb) - {rec.skb} else old(bySkb))
      ensures totals.releases == old(totals).releases + 1 && flows == FlowsReleased(old(flows), rec)
      ensures HistoryOf(pages) == LeftHistory(old(HistoryOf(pages)), rec, rec.page !in pages)
    {
      hide HistoryOf, LeftHistory;
      hide AccountsAgree, PagesAgree, RingPagesAgree, CallersAgree, TablesAgree, SlotsAgree, GenerationsAgree;
      hide RingsConserved, TotalsConserved, FlowsReleased, Forgettable;
      ghost var m := records;
      Unhook(rec);
      Settle(rec, m);
    }

    /** The record's page and its accounts; m is the set of records before it went. */
    method Settle(rec: Record, ghost m: Records)
      requires rec.head in m && m[rec.head] == rec && |m| <= MAX_RECORDS && trackedPageCount == |pages|
      requires PagesAgree(pages, m) && RingPagesAgree(pagings, pages)
      requires AccountsAgree(accounts, unscoped, m) && CallersAgree(callers, m)
      requires RingsConserved(flows, accounts) && TotalsConserved(totals, unscoped, |m|)
      modifies this`pages, this`pagings, this`accounts, this`unscoped, this`totals, this`flows, this`callers,
               this`trackedPageCount, this`warned
      ensures PagesAgree(pages, m - {rec.head}) && RingPagesAgree(pagings, pages)
      ensures trackedPageCount == |pages| <= |old(pages)| && warned == old(warned)
      ensures AccountsAgree(accounts, unscoped, m - {rec.head}) && CallersAgree(callers, m - {rec.head})
      ensures RingsConserved(flows, accounts) && TotalsConserved(totals, unscoped, |m - {rec.head}|)
      ensures flows == FlowsReleased(old(flows), rec) && totals == old(totals).(releases := old(totals).releases + 1)
      ensures HistoryOf(pages) == LeftHistory(old(HistoryOf(pages)), rec, rec.page !in pages)
    {
      hide AccountsAgree, PagesAgree, RingPagesAgree, CallersAgree, RingsConserved, TotalsConserved, FlowsReleased;
      hide HistoryOf, LeftHistory;
      PageRemove(rec, m);
      Discharge(rec, m);
    }

    /** The record leaves the two hash tables. */
    method Unhook(rec: Record)
      requires Forgettable(records, bySkb, infos, nextGeneration, born, rec) && recordCount == |records| <= MAX_RECORDS
      modifies this`records, this`bySkb, this`recordCount
      ensures records == old(records) - {rec.head} && recordCount == |records| <= MAX_RECORDS
      ensures bySkb == (if rec.skbLinked then old(bySkb) - {rec.skb} else old(bySkb))
      ensures TablesAgree(records, bySkb) && SlotsAgree(records, infos)
      ensures GenerationsAgree(records, nextGeneration, born)
    {
      hide TablesAgree, SlotsAgree, GenerationsAgree, Forgettable;
      Forgotten(records, bySkb, infos, nextGeneration, born, rec);
      records := records - {rec.head};
      recordCount := Dec(recordCount);
      if rec.skbLinked {
        bySkb := bySkb - {rec.skb};
      }
    }

    /** The accounts and event counters of a release. */
    method Discharge(rec: Record, ghost m: Records)
      requires rec.head in m && m[rec.head] == rec && AccountsAgree(accounts, unscoped, m) && CallersAgree(callers, m)
      requires RingsConserved(flows, accounts) && TotalsConserved(totals, unscoped, |m|)
      modifies this`accounts, this`unscoped, this`totals, this`flows, this`callers
      ensures AccountsAgree(accounts, unscoped, m - {rec.head}) && CallersAgree(callers, m - {rec.head})
      ensures RingsConserved(flows, accounts) && TotalsConserved(totals, unscoped, |m - {rec.head}|)
      ensures flows == FlowsReleased(old(flows), rec) && totals == old(totals).(releases := old(totals).releases + 1)
    {
      hide AccountsAgree, CallersAgree, RingsConserved, TotalsConserved;
      AccountRemove(rec, m);
      CountRelease(rec, m);
      ReleasedConserved(old(flows), flows, old(accounts), accounts, old(unscoped), unscoped, m, rec.head);
      ReleasedTotals(old(totals), totals, old(accounts), old(unscoped), accounts, unscoped, m, rec.head);
    }

    /** The event counters of a release. */
    method CountRelease(rec: Record, ghost m: Records)
      requires rec.head in m && m[rec.head] == rec && CallersAgree(callers, m)
      modifies this`totals, this`flows, this`callers
      ensures CallersAgree(callers, m - {rec.head})
      ensures totals == old(totals).(releases := old(totals).releases + 1)
      ensures flows == FlowsReleased(old(flows), rec)
    {
      if rec.slot >= 0 && rec.state == POSTED {
        flows := flows[rec.slot := flows[rec.slot].(releaseWhilePosted := flows[rec.slot].releaseWhilePosted + 1)];
      }
      totals := totals.(releases := totals.releases + 1);
      if rec.slot >= 0 {
        flows := flows[rec.slot := flows[rec.slot].(releases := flows[rec.slot].releases + 1)];
      }
      if rec.callerSlot >= 0 {
        OwnCaller(callers, m, rec.head);
        var c := callers[rec.callerSlot];
        callers := callers[rec.callerSlot := c.(live := Dec(c.live), releases := c.releases + 1,
                                                requested := Sub64(c.requested, rec.requested),
                                                  aligned := Sub64(c.aligned, rec.aligned))];
      }
      CallersLose(old(callers), callers, m, rec.head);
    }

    // ----- the snapshot -----

    /** The page half of `rxown_take_snapshot`: every tracked page is in exactly one of the four classes. */
    method SnapshotPages() returns (snap: PageClasses)
      requires Valid()
      ensures snap.tracked == |pages| && Tallied(snap, pages)
      ensures snap.unscopedOnly + snap.singleRing + snap.crossRing + snap.ringUnscoped == snap.tracked
      ensures snap.crossLifetime + snap.sameRing == snap.singleRing
    {
      hide AccountsAgree, PagesAgree, RingPagesAgree, CallersAgree, TablesAgree, SlotsAgree, GenerationsAgree;
      hide RingsConserved, TotalsConserved;
      hide Tallied, Class, Partitioned, Tally, Split;
      snap := PageClasses(0, 0, 0, 0, 0, 0, 0);
      var todo := pages;
      ghost var seen: Pages := map[];
      TallyNothing();
      SplitStart(pages);
      while todo != map[]
        invariant Split(pages, todo, seen) && Tallied(snap, seen) && Partitioned(snap)
        decreases |todo|
      {
        var p :| p in todo;
        var pg := todo[p];
        SplitStep(pages, todo, seen, p);
        PageOwned(pages, records, p);
        var origins, owners := CountOwners(pg);
        TallyOne(snap, seen, p, pg);
        snap := Tally(snap, pg, origins, owners);
        todo := todo - {p};
        seen := seen[p := pg];
      }
      SplitEnd(pages, seen);
      TallyTotal(snap, pages);
    }

    /** The two inner loops of the snapshot: which rings have a buffer on the page. */
    method CountOwners(pg: Page) returns (origins: nat, owners: set<int>)
      ensures owners == RingOwners(pg) && origins == |owners|
    {
      origins, owners := 0, {};
      for i := 0 to MAX_RINGS
        invariant owners == (set j | j in RingOwners(pg) && j < i) && origins == |owners|
      {
        var present := false;
        for s := 0 to 3
          invariant present <==> exists t :: 0 <= t < s && pg.ringState[i][t] != 0
        {
          present := present || pg.ringState[i][s] != 0;
        }
        assert present <==> i in RingOwners(pg) by {
          assert present <==> pg.ringState[i][0] != 0 || pg.ringState[i][1] != 0 || pg.ringState[i][2] != 0;
        }
        if present {
          owners := owners + {i};
          origins := origins + 1;
        }
      }
    }

    /** `scoped_records` of the snapshot: with the buffers outside every ring it accounts for all records. */
    method SnapshotScoped() returns (scoped: nat)
      requires Valid()
      ensures scoped + unscoped.current == recordCount
    {
      hide AccountsAgree, PagesAgree, RingPagesAgree, CallersAgree, TablesAgree, SlotsAgree, GenerationsAgree;
      hide RingsConserved, TotalsConserved;
      scoped := 0;
      SumNothing(records, ScopedBelow(0, 0));
      for i := 0 to MAX_RINGS
        invariant scoped == Sum(records, ScopedBelow(i, 0))
      {
        for s := 0 to 3
          invariant scoped == Sum(records, ScopedBelow(i, s))
        {
          ScopedStep(accounts, unscoped, records, i, s);
          scoped := scoped + accounts[i].current[s];
        }
        SumSame(records, ScopedBelow(i, 3), ScopedBelow(i + 1, 0));
      }
      ScopedAll(accounts, unscoped, records);
    }

    // ----- runs -----

    ghost function Now(): Moment
      reads this`records, this`bySkb, this`infos, this`pages
    {
      Moment(records, bySkb, infos, HistoryOf(pages))
    }

    /**
     Any sequence of handler activations, each on the data some earlier entry
     handler left for its call: entries and returns of different calls interleave
     freely. Every state on the way is valid, each step does exactly what it has
     to, and a call only ever posts the buffer that its own entry saw: trace holds
     the tables and the rings after each step.
     */
    method Run(steps: seq<Step>) returns (ghost trace: seq<Moment>)
      requires Valid()
      modifies this
      ensures Valid()
      ensures RunSafe(steps, trace) && trace[0] == old(Now()) && trace[|steps|] == Now()
      ensures RunExact(steps, trace)
    {
      hide Tracker.Valid, CallsAgree, DrawnAgree, RecordsFollow, CallsFollow, Traced, RunSafe, StepTaken, CallsKnown,
           MomentOk, StepExact, HistoryOf, RunExact;
      var calls := Calls(map[], map[]);
      var drawn: map<nat, nat> := map[];
      ghost var seen: map<nat, Identity> := map[];
      trace := [Now()];
      ghost var first := Now();
      NothingWaits(infos, nextGeneration, born);
      TracedStart(steps, first);
      MomentNow();
      ExactStart(steps, first);
      for i := 0 to |steps|
        invariant Valid() && CallsAgree(calls, seen, infos, born) && DrawnAgree(drawn, nextGeneration, born)
        invariant Traced(calls, seen, steps, trace, i, first, Now())
        invariant ExactTo(steps, trace, i) && trace[i] == Now() && CallsKnown(drawn, calls, steps, trace, i)
      {
        ghost var drawn0, calls0, seen0, now := drawn, calls, seen, Now();
        drawn, calls, seen := TakeStep(steps[i], drawn, calls, seen);
        TracedStep(calls0, seen0, calls, seen, steps, trace, i, first, now, Now());
        MomentNow();
        ExactStep(drawn0, calls0, steps, trace, i, Now(), drawn, calls);
        trace := trace + [Now()];
      }
      TracedEnd(calls, seen, steps, trace, first, Now());
      ExactEnd(steps, trace);
    }

    lemma {:induction false} MomentNow()
      requires Valid()
      ensures MomentOk(Now())
    {
      PagesRemembered(pages, records);
      hide AccountsAgree, PagesAgree, RingPagesAgree, CallersAgree, TablesAgree, SlotsAgree;
      hide RingsConserved, TotalsConserved;
    }

    /** One handler activation. */
    method TakeStep(step: Step, drawn: map<nat, nat>, calls: Calls, ghost seen: map<nat, Identity>)
      returns (drawn': map<nat, nat>, calls': Calls, ghost seen': map<nat, Identity>)
      requires Valid() && CallsAgree(calls, seen, infos, born) && DrawnAgree(drawn, nextGeneration, born)
      modifies this
      ensures Valid() && CallsAgree(calls', seen', infos, born) && DrawnAgree(drawn', nextGeneration, born)
      ensures RecordsFollow(step, calls, seen, old(records), records)
      ensures CallsFollow(step, calls, seen, calls', seen', Now())
      ensures StepTaken(step, drawn, calls, old(Now()), Now(), drawn', calls')
    {
      hide Tracker.Valid, CallsAgree, DrawnAgree, NothingPosted, PostsSeen, StepTaken;
      drawn', calls', seen' := drawn, calls, seen;
      if step.NetdevDraw? || step.NetdevAlloc? {
        drawn' := AllocStep(step, drawn, calls, seen);
      } else if step.SkbReleased? || step.HeadFreed? {
        BufferStep(step, drawn, calls, seen);
      } else if step.IdrAllocIn? {
        calls', seen' := AllocEntryStep(step, drawn, calls, seen);
      } else if step.IdrAllocOut? {
        calls', seen' := AllocReturnStep(step, drawn, calls, seen);
      } else {
        calls' := RemoveTableStep(step, drawn, calls, seen);
      }
    }

    /** The two halves of the handler on the return of a buffer allocation. */
    method AllocStep(step: Step, drawn: map<nat, nat>, ghost calls: Calls, ghost seen: map<nat, Identity>)
      returns (drawn': map<nat, nat>)
      requires Valid() && CallsAgree(calls, seen, infos, born) && DrawnAgree(drawn, nextGeneration, born)
      requires step.NetdevDraw? || step.NetdevAlloc?
      modifies this
      ensures Valid() && CallsAgree(calls, seen, infos, born) && DrawnAgree(drawn', nextGeneration, born)
      ensures NothingPosted(old(records), records)
      ensures StepTaken(step, drawn, calls, old(Now()), Now(), drawn', calls)
    {
      hide AccountsAgree, PagesAgree, RingPagesAgree, CallersAgree, TablesAgree, SlotsAgree, GenerationsAgree;
      hide RingsConserved, TotalsConserved, CallsAgree, Extends, DrawnAgree;
      drawn' := drawn;
      match step {
        case NetdevDraw(c, recordOk) =>
          var generation := DrawGeneration(recordOk);
          DrawnMore(drawn, old(nextGeneration), nextGeneration, born, c, generation);
          if generation.Some? {
            drawn' := drawn[c := generation.value];
          }
        case NetdevAlloc(c, call, skb, head, page, order, aligned, pageOk) =>
          if c in drawn {
            DrawnFact(drawn, nextGeneration, born, c);
            NetdevAllocReturn(call, skb, head, page, order, aligned, drawn[c], pageOk);
            CallsLater(calls, seen, old(infos), infos, old(born), born);
            DrawnUsed(drawn, nextGeneration, old(born), born, c);
            drawn' := drawn - {c};
          }
        case _ =>
      }
    }

    /** The handlers on the end of a buffer. */
    method BufferStep(step: Step, ghost drawn: map<nat, nat>, ghost calls: Calls, ghost seen: map<nat, Identity>)
      requires Valid() && CallsAgree(calls, seen, infos, born) && (step.SkbReleased? || step.HeadFreed?)
      modifies this
      ensures Valid() && CallsAgree(calls, seen, infos, born)
      ensures born == old(born) && nextGeneration == old(nextGeneration) && NothingPosted(old(records), records)
      ensures StepTaken(step, drawn, calls, old(Now()), Now(), drawn, calls)
    {
      hide AccountsAgree, PagesAgree, RingPagesAgree, CallersAgree, TablesAgree, SlotsAgree, GenerationsAgree;
      hide RingsConserved, TotalsConserved, CallsAgree, FlowsReleased, HistoryOf, LeftHistory;
      match step {
        case SkbReleased(skb, head) =>
          SkbRelease(skb, head);
        case HeadFreed(head) =>
          PageFree(head);
          HistoryKeys(pages);
        case _ =>
      }
    }

    /** What the entry of a call has just found is who had the remembered generation. */
    lemma {:induction false} EntrySaw(call: IdrAllocCall, skb: nat)
      requires Counted() && skb in bySkb && bySkb[skb] in records && call.generation in born
      requires var r := records[bySkb[skb]]; r.generation == call.generation && r.slot == call.slot
      ensures CallSaw(call, skb, born[call.generation], Now())
    {
      hide AccountsAgree, PagesAgree, RingPagesAgree, CallersAgree, TablesAgree, SlotsAgree, GenerationsAgree;
      FoundBySkb(skb);
      BornRecord(records, nextGeneration, born, bySkb[skb]);
      assert Finds(Now(), skb, records[bySkb[skb]]);
    }

    /** The handler on the entry of `idr_alloc`, whose data is kept for the return of the same call. */
    method AllocEntryStep(step: Step, ghost drawn: map<nat, nat>, calls: Calls, ghost seen: map<nat, Identity>)
      returns (calls': Calls, ghost seen': map<nat, Identity>)
      requires Valid() && CallsAgree(calls, seen, infos, born) && step.IdrAllocIn?
      modifies this
      ensures Valid() && CallsAgree(calls', seen', infos, born)
      ensures born == old(born) && nextGeneration == old(nextGeneration)
      ensures RecordsFollow(step, calls, seen, old(records), records)
      ensures CallsFollow(step, calls, seen, calls', seen', Now())
      ensures StepTaken(step, drawn, calls, old(Now()), Now(), drawn, calls')
    {
      hide Tracker.Counted, RingsConserved, TotalsConserved, CallsAgree, UsedStays, PostsSeen, MayPost, CallSaw;
      hide Enters, CallFrom, PostsCall, RingFound, Available, MomentOk;
      var c := step.c;
      var call := IdrAllocEntry(step.skb, step.idr, step.scope, step.start, step.end);
      MomentNow();
      seen' := if call.generation != 0 then seen[c := born[call.generation]] else seen;
      calls' := calls.(allocs := calls.allocs[c := call]);
      if call.generation != 0 {
        EntrySaw(call, step.skb);
      }
      AllocCalled(calls, seen, old(infos), infos, born, c, call);
      EnteredSo(old(Now()), Now(), call, step.skb, step.idr, step.scope);
    }

    /** The handler on the return of `idr_alloc`, with the data of the call it belongs to. */
    method AllocReturnStep(step: Step, ghost drawn: map<nat, nat>, calls: Calls, ghost seen: map<nat, Identity>)
      returns (calls': Calls, ghost seen': map<nat, Identity>)
      requires Valid() && CallsAgree(calls, seen, infos, born) && step.IdrAllocOut?
      modifies this
      ensures Valid() && CallsAgree(calls', seen', infos, born)
      ensures born == old(born) && nextGeneration == old(nextGeneration)
      ensures RecordsFollow(step, calls, seen, old(records), records)
      ensures CallsFollow(step, calls, seen, calls', seen', Now())
      ensures StepTaken(step, drawn, calls, old(Now()), Now(), drawn, calls')
    {
      hide Tracker.Counted, RingsConserved, TotalsConserved, CallsAgree, UsedStays, PostsSeen, MayPost, CallSaw;
      hide Enters, CallFrom, PostsCall, RingFound, Available, MomentOk;
      calls', seen' := calls, seen;
      var c := step.c;
      if c in calls.allocs {
        AllocCallFacts(calls, seen, infos, born, c);
        ghost var who := if c in seen then seen[c] else Identity(0, 0, 0);
        IdrAllocReturn(calls.allocs[c], step.id, step.sample, step.exact, who);
        calls' := calls.(allocs := calls.allocs - {c});
        AllocReturned(calls, seen, old(infos), infos, born, c);
      }
    }

    /** The handlers on `idr_remove`, with the data of the call they belong to. */
    method RemoveTableStep(step: Step, ghost drawn: map<nat, nat>, calls: Calls, ghost seen: map<nat, Identity>)
      returns (calls': Calls)
      requires Valid() && CallsAgree(calls, seen, infos, born) && (step.IdrRemoveIn? || step.IdrRemoveOut?)
      modifies this
      ensures Valid() && CallsAgree(calls', seen, infos, born) && calls'.allocs == calls.allocs
      ensures born == old(born) && nextGeneration == old(nextGeneration) && NothingPosted(old(records), records)
      ensures StepTaken(step, drawn, calls, old(Now()), Now(), drawn, calls')
    {
      hide Tracker.Counted, RingsConserved, TotalsConserved, CallsAgree, UsedStays, MayReap;
      calls' := calls;
      match step {
        case IdrRemoveIn(c, idr, id) =>
          var call := IdrRemoveEntry(idr, id);
          calls' := calls.(removes := calls.removes[c := call]);
          RemoveCalled(calls, seen, infos, born, c, call);
        case IdrRemoveOut(c, skb, sample, exact) =>
          if c in calls.removes {
            RemoveCallFacts(calls, seen, infos, born, c);
            IdrRemoveReturn(calls.removes[c], skb, sample, exact);
            calls' := calls.(removes := calls.removes - {c});
            RemoveReturned(calls, seen, old(infos), infos, born, c);
          }
      }
    }
  }
}
