/**
 What one step of the ownership tracker does to the numbers it keeps
 (tools/rxown.c), on values: for each kind of change, that the numbers agree with
 the live records again.
 */
module RxOwnSteps {
  import opened Basics
  import opened RxOwnModel

  function Inc16(x: nat): nat { (x + 1) % 0x1_0000 }

  function Sub64(a: nat, b: nat): nat { if b <= a then a - b else (a - b) % 0x1_0000_0000_0000_0000 }

  /** Decrement behind the source's "if nonzero" guard. */
  function Dec(x: nat): nat { if x > 0 then x - 1 else x }

  function SetState(c: PerState, s: State, n: nat): PerState { c[s := n] }

  function WithCount(pg: Page, i: int, s: State, n: nat): Page
    requires 0 <= i < MAX_RINGS
  {
    pg.(ringState := pg.ringState[i := SetState(pg.ringState[i], s, n)])
  }

  /** The same pages are tracked, with the same order and history. */
  predicate SameHistory(before: Pages, after: Pages) {
    after.Keys == before.Keys &&
    forall p :: p in before ==>
      && after[p].order == before[p].order
      && after[p].historyRings == before[p].historyRings
      && after[p].historyUnscoped == before[p].historyUnscoped
  }

  lemma {:induction false} HistoryKeys(ps: Pages)
    ensures HistoryOf(ps).Keys == ps.Keys
  {
  }

  lemma {:induction false} HistoryAt(ps: Pages, p: nat)
    requires p in ps
    ensures p in HistoryOf(ps) && HistoryOf(ps)[p] == History(ps[p].historyRings, ps[p].historyUnscoped)
  {
  }

  /** The page as its last or not last record of some kind leaves. */
  lemma {:induction false} HistoryLeaves(ps: Pages, pg: Page, r: Record)
    requires r.pageTracked && r.page in ps && pg.historyRings == ps[r.page].historyRings
    requires pg.historyUnscoped == (ps[r.page].historyUnscoped || (r.slot < 0 && r.scopeCandidate))
    ensures HistoryOf(ps[r.page := pg]) == LeftHistory(HistoryOf(ps), r, false)
    ensures HistoryOf(ps[r.page := pg]) - {r.page} == LeftHistory(HistoryOf(ps), r, true)
  {
  }

  lemma {:induction false} HistorySame(hs: Histories, p: nat)
    requires p in hs
    ensures hs[p := hs[p]] == hs
  {
  }

  lemma {:induction false} SameHistoryOf(before: Pages, after: Pages)
    requires SameHistory(before, after)
    ensures HistoryOf(after) == HistoryOf(before)
  {
  }

  lemma {:induction false} SameKeys<V>(before: map<nat, V>, after: map<nat, V>)
    requires before.Keys == after.Keys
    ensures |after| == |before|
  {
    assert |before| == |before.Keys| && |after| == |after.Keys|;
  }

  /** A new reference without ring appears on the page. */
  lemma {:induction false} UnscopedMoved(before: Page, after: Page, m: Records, h: nat, r: Record)
    requires h !in m && r.pageTracked && r.slot < 0
    requires after.ringState == before.ringState && after.unscoped == before.unscoped + 1
    requires after.total == before.total + 1
    ensures Moved(before, after, r.page, m, m[h := r], h)
  {
  }

  lemma {:induction false} SameCount(before: Pages, after: Pages)
    requires SameHistory(before, after)
    ensures |after| == |before|
  {
    SameKeys(before, after);
  }

  /** One reference on the page moves from the record's old state to its new one. */
  lemma {:induction false} StateMoved(before: Page, after: Page, m: Records, h: nat, s: State)
    requires h in m && m[h].pageTracked && m[h].slot >= 0 && m[h].state != s
    requires before.ringState[m[h].slot][m[h].state] > 0
    requires var r := m[h];
             var left := WithCount(before, r.slot, r.state, before.ringState[r.slot][r.state] - 1);
             after == WithCount(left, r.slot, s, left.ringState[r.slot][s] + 1)
    ensures Moved(before, after, m[h].page, m, m[h := m[h].(state := s)], h)
  {
  }

  /** What the handlers on the buffer allocation remember between entry and return. */
  datatype AllocCall = AllocCall(requested: nat, caller: nat, scope: Option<Scope>)

  /** What the handlers on `idr_alloc` remember. */
  datatype IdrAllocCall = IdrAllocCall(
    tracked: bool, scoped: bool, reinject: bool, idr: nat, skb: nat, generation: nat, start: nat, end: nat,
      slot: RingSlot)

  /** What the handlers on `idr_remove` remember. */
  datatype IdrRemoveCall = IdrRemoveCall(tracked: bool, idr: nat, id: nat, slot: RingSlot)

  /** The data of the calls that have been entered and have not returned. */
  datatype Calls = Calls(allocs: map<nat, IdrAllocCall>, removes: map<nat, IdrRemoveCall>)

  /** Every waiting call refers to a ring in use, and its remembered generation to what its entry saw. */
  ghost predicate CallsAgree(calls: Calls, seen: map<nat, Identity>, infos: RingInfos, born: map<nat, Identity>) {
    && (forall c :: c in calls.allocs && calls.allocs[c].tracked ==>
        calls.allocs[c].slot >= 0 && infos[calls.allocs[c].slot].used)
    && (forall c :: c in calls.allocs && calls.allocs[c].generation != 0 ==>
          && calls.allocs[c].tracked && c in seen && calls.allocs[c].generation in born
          && born[calls.allocs[c].generation] == seen[c])
    && (forall c :: c in calls.removes && calls.removes[c].tracked ==>
        calls.removes[c].slot >= 0 && infos[calls.removes[c].slot].used)
  }

  lemma {:induction false} CallsLater(calls: Calls, seen: map<nat, Identity>, infos: RingInfos, infos': RingInfos,
                                      born: map<nat, Identity>, born': map<nat, Identity>)
    requires CallsAgree(calls, seen, infos, born) && infos' == infos && Extends(born, born')
    ensures CallsAgree(calls, seen, infos', born')
  {
  }

  lemma {:induction false} AllocCalled(calls: Calls, seen: map<nat, Identity>, infos: RingInfos, infos': RingInfos,
                                       born: map<nat, Identity>, c: nat, call: IdrAllocCall)
    requires CallsAgree(calls, seen, infos, born) && UsedStays(infos, infos')
    requires call.tracked ==> call.slot >= 0 && infos'[call.slot].used
    requires call.generation != 0 ==> call.tracked && call.generation in born
    ensures CallsAgree(calls.(allocs := calls.allocs[c := call]),
                       if call.generation != 0 then seen[c := born[call.generation]] else seen, infos', born)
  {
  }

  lemma {:induction false} AllocCallFacts(calls: Calls, seen: map<nat, Identity>, infos: RingInfos,
                                          born: map<nat, Identity>, c: nat)
    requires CallsAgree(calls, seen, infos, born) && c in calls.allocs
    ensures var call := calls.allocs[c];
            && (call.tracked ==> call.slot >= 0 && infos[call.slot].used)
            && (call.generation != 0 ==> c in seen && call.generation in born && born[call.generation] == seen[c])
  {
  }

  lemma {:induction false} AllocReturned(calls: Calls, seen: map<nat, Identity>, infos: RingInfos, infos': RingInfos,
                                         born: map<nat, Identity>, c: nat)
    requires CallsAgree(calls, seen, infos, born) && UsedStays(infos, infos')
    ensures CallsAgree(calls.(allocs := calls.allocs - {c}), seen, infos', born)
  {
  }

  lemma {:induction false} RemoveCalled(calls: Calls, seen: map<nat, Identity>, infos: RingInfos,
                                        born: map<nat, Identity>, c: nat, call: IdrRemoveCall)
    requires CallsAgree(calls, seen, infos, born)
    requires call.tracked ==> call.slot >= 0 && infos[call.slot].used
    ensures CallsAgree(calls.(removes := calls.removes[c := call]), seen, infos, born)
  {
  }

  lemma {:induction false} RemoveCallFacts(calls: Calls, seen: map<nat, Identity>, infos: RingInfos,
                                           born: map<nat, Identity>, c: nat)
    requires CallsAgree(calls, seen, infos, born) && c in calls.removes
    ensures calls.removes[c].tracked ==> calls.removes[c].slot >= 0 && infos[calls.removes[c].slot].used
  {
  }

  lemma {:induction false} RemoveReturned(calls: Calls, seen: map<nat, Identity>, infos: RingInfos, infos': RingInfos,
                                          born: map<nat, Identity>, c: nat)
    requires CallsAgree(calls, seen, infos, born) && UsedStays(infos, infos')
    ensures CallsAgree(calls.(removes := calls.removes - {c}), seen, infos', born)
  {
  }

  /** One activation of a handler; c names the call an entry and a return belong to. */
  datatype Step =
    | NetdevDraw(c: nat, recordOk: bool)
    | NetdevAlloc(c: nat, alloc: AllocCall, skb: nat, head: nat, page: nat, order: nat, aligned: nat, pageOk: bool)
    | IdrAllocIn(c: nat, skb: nat, idr: nat, scope: Option<Scope>, start: nat, end: nat)
    | IdrAllocOut(c: nat, id: int, sample: bool, exact: int)
    | IdrRemoveIn(c: nat, idr: nat, rid: nat)
    | IdrRemoveOut(c: nat, removed: Option<nat>, sample: bool, exact: int)
    | SkbReleased(skb: nat, head: nat)
    | HeadFreed(head: nat)

  // ----- page classes -----

  datatype PageClass = UnscopedOnly | SingleRing | CrossRing | RingUnscoped | Unowned

  datatype PageClasses = PageClasses(tracked: nat, singleRing: nat, crossRing: nat, ringUnscoped: nat,
                                     unscopedOnly: nat,
                                     crossLifetime: nat, sameRing: nat)

  /** The rings with a buffer on the page, in any state. */
  function RingOwners(pg: Page): set<int> {
    set i | 0 <= i < MAX_RINGS
      && (pg.ringState[i][ALLOCATED] != 0 || pg.ringState[i][POSTED] != 0 || pg.ringState[i][REAPED] != 0)
  }

  function Class(pg: Page): PageClass {
    var n := |RingOwners(pg)|;
    if pg.unscoped != 0 then (if n == 0 then UnscopedOnly else RingUnscoped)
    else if n == 0 then Unowned else if n == 1 then SingleRing else CrossRing
  }

  function InClass(ps: Pages, c: PageClass): set<nat> { set p | p in ps && Class(ps[p]) == c }

  /** A page of one ring that has had a buffer of another ring, or of none. */
  predicate HasOutlived(pg: Page) { pg.historyUnscoped || !(pg.historyRings <= RingOwners(pg)) }

  /** The pages of one ring that have, or have not, had other buffers before. */
  function OfOneRing(ps: Pages, outlived: bool): set<nat> {
    set p | p in ps && Class(ps[p]) == SingleRing && HasOutlived(ps[p]) == outlived
  }

  /** The snapshot's class counters are the sizes of the classes, and of the two parts of the single-ring pages. */
  predicate Tallied(snap: PageClasses, ps: Pages) {
    && snap.crossLifetime == |OfOneRing(ps, true)| && snap.sameRing == |OfOneRing(ps, false)|
    && snap.tracked == |ps|
    && snap.unscopedOnly == |InClass(ps, UnscopedOnly)| && snap.singleRing == |InClass(ps, SingleRing)|
    && snap.crossRing == |InClass(ps, CrossRing)| && snap.ringUnscoped == |InClass(ps, RingUnscoped)|
  }

  /** The classes do not overlap and leave nothing out. */
  predicate Partitioned(snap: PageClasses) {
    && snap.unscopedOnly + snap.singleRing + snap.crossRing + snap.ringUnscoped == snap.tracked
    && snap.crossLifetime + snap.sameRing == snap.singleRing
  }

  /** What the snapshot counts for one page. */
  function Tally(snap: PageClasses, pg: Page, origins: nat, owners: set<int>): PageClasses {
    var hasUnscoped := pg.unscoped != 0;
    var a := snap.(tracked := snap.tracked + 1);
    var b := if origins == 0 && hasUnscoped then a.(unscopedOnly := a.unscopedOnly + 1)
             else if origins == 1 && !hasUnscoped then a.(singleRing := a.singleRing + 1)
             else if origins > 1 && !hasUnscoped then a.(crossRing := a.crossRing + 1)
             else a;
    var c := if origins > 0 && hasUnscoped then b.(ringUnscoped := b.ringUnscoped + 1) else b;
    if origins == 1 && !hasUnscoped then
      if pg.historyUnscoped || pg.historyRings - owners != {} then c.(crossLifetime := c.crossLifetime + 1)
      else c.(sameRing := c.sameRing + 1)
    else c
  }

  /** The pages are those still to do and those seen, without overlap. */
  ghost predicate Split(ps: Pages, todo: Pages, seen: Pages) {
    (forall p :: p in ps <==> p in todo || p in seen) && (forall p :: p in todo ==> p !in seen && todo[p] == ps[p])
    && (forall p :: p in seen ==> seen[p] == ps[p])
  }

  lemma {:induction false} SplitStart(ps: Pages)
    ensures Split(ps, ps, map[])
  {
  }

  lemma {:induction false} SplitStep(ps: Pages, todo: Pages, seen: Pages, p: nat)
    requires Split(ps, todo, seen) && p in todo
    ensures p in ps && todo[p] == ps[p] && p !in seen && Split(ps, todo - {p}, seen[p := todo[p]])
    ensures |todo - {p}| < |todo|
  {
    RemoveCount(todo, p);
  }

  lemma {:induction false} SplitEnd(ps: Pages, seen: Pages)
    requires Split(ps, map[], seen)
    ensures seen == ps
  {
  }

  lemma {:induction false} TallyNothing()
    ensures Tallied(PageClasses(0, 0, 0, 0, 0, 0, 0), map[]) && Partitioned(PageClasses(0, 0, 0, 0, 0, 0, 0))
  {
    var none: Pages := map[];
    forall c: PageClass ensures InClass(none, c) == {} {
    }
    assert OfOneRing(none, true) == {} && OfOneRing(none, false) == {};
  }

  /** One more page of this class is counted. */
  predicate CountsOne(snap: PageClasses, snap': PageClasses, c: PageClass, outlived: bool) {
    && snap'.tracked == snap.tracked + 1
    && snap'.unscopedOnly == snap.unscopedOnly + (if c == UnscopedOnly then 1 else 0)
    && snap'.singleRing == snap.singleRing + (if c == SingleRing then 1 else 0)
    && snap'.crossRing == snap.crossRing + (if c == CrossRing then 1 else 0)
    && snap'.ringUnscoped == snap.ringUnscoped + (if c == RingUnscoped then 1 else 0)
    && snap'.crossLifetime == snap.crossLifetime + (if c == SingleRing && outlived then 1 else 0)
    && snap'.sameRing == snap.sameRing + (if c == SingleRing && !outlived then 1 else 0)
  }

  /** The counters that a page counts for are those of its class. */
  lemma {:induction false} TallyByClass(snap: PageClasses, pg: Page)
    requires Class(pg) != Unowned
    ensures CountsOne(snap, Tally(snap, pg, |RingOwners(pg)|, RingOwners(pg)), Class(pg), HasOutlived(pg))
  {
    hide RingOwners;
    assert pg.historyRings - RingOwners(pg) != {} <==> !(pg.historyRings <= RingOwners(pg)) by {
      if pg.historyRings - RingOwners(pg) == {} {
        assert forall i :: i in pg.historyRings ==> i !in pg.historyRings - RingOwners(pg);
      }
    }
  }

  lemma {:induction false} TallyOne(snap: PageClasses, seen: Pages, p: nat, pg: Page)
    requires Tallied(snap, seen) && Partitioned(snap) && p !in seen && Class(pg) != Unowned
    ensures var owners := RingOwners(pg);
            var snap' := Tally(snap, pg, |owners|, owners); Tallied(snap', seen[p := pg]) && Partitioned(snap')
  {
    hide Class, Tally, RingOwners, HasOutlived, Tallied, Partitioned, CountsOne;
    TallyByClass(snap, pg);
    var snap' := Tally(snap, pg, |RingOwners(pg)|, RingOwners(pg));
    TalliedNext(snap, snap', seen, p, pg);
    PartitionedNext(snap, snap', Class(pg), HasOutlived(pg));
  }

  lemma {:induction false} PartitionedNext(snap: PageClasses, snap': PageClasses, c: PageClass, outlived: bool)
    requires Partitioned(snap) && CountsOne(snap, snap', c, outlived) && c != Unowned
    ensures Partitioned(snap')
  {
  }

  lemma {:induction false} TalliedNext(snap: PageClasses, snap': PageClasses, seen: Pages, p: nat, pg: Page)
    requires Tallied(snap, seen) && p !in seen && CountsOne(snap, snap', Class(pg), HasOutlived(pg))
    ensures Tallied(snap', seen[p := pg])
  {
    hide Class, HasOutlived, InClass, OfOneRing;
    StoreCount(seen, p, pg);
    ClassPut(seen, p, pg, UnscopedOnly);
    ClassPut(seen, p, pg, SingleRing);
    ClassPut(seen, p, pg, CrossRing);
    ClassPut(seen, p, pg, RingUnscoped);
    OneRingPut(seen, p, pg, true);
    OneRingPut(seen, p, pg, false);
  }

  lemma {:induction false} OneRingPut(seen: Pages, p: nat, pg: Page, outlived: bool)
    requires p !in seen
    ensures |OfOneRing(seen[p := pg], outlived)|
         == |OfOneRing(seen, outlived)| + if Class(pg) == SingleRing && HasOutlived(pg) == outlived then 1 else 0
  {
    hide Class, HasOutlived;
    var seen' := seen[p := pg];
    if Class(pg) == SingleRing && HasOutlived(pg) == outlived {
      assert OfOneRing(seen', outlived) == OfOneRing(seen, outlived) + {p};
    } else {
      assert OfOneRing(seen', outlived) == OfOneRing(seen, outlived);
    }
  }

  lemma {:induction false} TallyTotal(snap: PageClasses, ps: Pages)
    requires Tallied(snap, ps) && Partitioned(snap)
    ensures snap.tracked == |ps|
    ensures snap.unscopedOnly + snap.singleRing + snap.crossRing + snap.ringUnscoped == snap.tracked
    ensures snap.crossLifetime + snap.sameRing == snap.singleRing
  {
  }

  lemma {:induction false} ClassPut(seen: Pages, p: nat, pg: Page, c: PageClass)
    requires p !in seen
    ensures |InClass(seen[p := pg], c)| == |InClass(seen, c)| + if Class(pg) == c then 1 else 0
  {
    hide Class;
    var seen' := seen[p := pg];
    if Class(pg) == c {
      assert InClass(seen', c) == InClass(seen, c) + {p};
    } else {
      assert InClass(seen', c) == InClass(seen, c);
    }
  }

  lemma {:induction false} ScopedStep(a: Accounts, un: Unscoped, m: Records, i: int, s: State)
    requires AccountsAgree(a, un, m) && 0 <= i < MAX_RINGS
    ensures Sum(m, ScopedBelow(i, s + 1)) == Sum(m, ScopedBelow(i, s)) + a[i].current[s]
  {
    SumAdds(m, ScopedBelow(i, s + 1), ScopedBelow(i, s), RingCount(i, s));
  }

  lemma {:induction false} ScopedAll(a: Accounts, un: Unscoped, m: Records)
    requires AccountsAgree(a, un, m)
    ensures Sum(m, ScopedBelow(MAX_RINGS, 0)) + un.current == |m|
  {
    SumAdds(m, Live, ScopedBelow(MAX_RINGS, 0), UnscopedCount);
    SumLive(m);
  }

  /** A tracked page belongs to a ring or to a buffer without ring. */
  lemma {:induction false} PageOwned(ps: Pages, m: Records, p: nat)
    requires PagesAgree(ps, m) && p in ps
    ensures Class(ps[p]) != Unowned
  {
    hide PagesAgree, RingOwners;
    var i := SomeOwner(ps, m, p);
    assert i >= 0 ==> |RingOwners(ps[p])| != 0;
  }

  lemma {:induction false} SomeOwner(ps: Pages, m: Records, p: nat) returns (i: RingSlot)
    requires PagesAgree(ps, m) && p in ps
    ensures if i >= 0 then i in RingOwners(ps[p]) else ps[p].unscoped > 0
  {
    assert PageAgrees(p, ps[p], m);
    var h := SumWitness(m, PageTotal(p));
    var r := m[h];
    i := r.slot;
    if i >= 0 {
      SumRemove(m, h, PageRing(p, i, r.state));
      assert ps[p].ringState[i][r.state] > 0;
    } else {
      SumRemove(m, h, PageUnscoped(p));
    }
  }

  lemma {:induction false} SumNothing(m: Records, q: Metric)
    requires forall r: Record :: Share(q, r) == 0
    ensures Sum(m, q) == 0
  {
    if Sum(m, q) > 0 {
      var h := SumWitness(m, q);
    }
  }

  lemma {:induction false} SumSame(m: Records, a: Metric, b: Metric)
    requires forall r: Record :: Share(a, r) == Share(b, r)
    ensures Sum(m, a) == Sum(m, b)
  {
    SumBounded(m, a, b);
    SumBounded(m, b, a);
  }

  lemma {:induction false} PostedBuffer(m: Records, bySkb: map<nat, nat>, next: nat, born: map<nat, Identity>,
                                        skb: nat, seen: Identity)
    requires TablesAgree(m, bySkb) && GenerationsAgree(m, next, born) && skb in bySkb && bySkb[skb] in m
    requires m[bySkb[skb]].generation in born && born[m[bySkb[skb]].generation] == seen
    ensures var h := bySkb[skb]; m[h].head == h && m[h].skb == skb && seen == Identity(h, skb, m[h].page)
  {
  }

  lemma {:induction false} Renumbered(r: Record, id: int)
    ensures SameBuffer(r, r.(bufId := id))
  {
  }

  lemma {:induction false} RenumberedAccounts(a: Accounts, un: Unscoped, infos: RingInfos, m: Records, h: nat, id: int)
    requires AccountsAgree(a, un, m) && SlotsAgree(m, infos) && h in m
    ensures var m' := m[h := m[h].(bufId := id)]; AccountsAgree(a, un, m') && SlotsAgree(m', infos)
  {
    var m' := m[h := m[h].(bufId := id)];
    assert m - {h} == m' - {h};
    AccountsFollow(a, un, a, un, m, m', h);
  }

  lemma {:induction false} RenumberedPages(ps: Pages, m: Records, h: nat, id: int)
    requires PagesAgree(ps, m) && h in m
    ensures PagesAgree(ps, m[h := m[h].(bufId := id)])
  {
    PagesRestate(ps, m, h, m[h].(bufId := id), ps);
  }

  lemma {:induction false} PostedConserved(flows: Flows, flows': Flows, a: Accounts, a': Accounts, m: Records, h: nat)
    requires RingsConserved(flows, a) && h in m && m[h].slot >= 0 && m[h].state != POSTED
    requires CurrentMoved(a, a', m, m[h := m[h].(state := POSTED)], h)
    requires flows' == flows[m[h].slot := flows[m[h].slot].(posts := flows[m[h].slot].posts + 1)]
    ensures RingsConserved(flows', a')
  {
    MovedBetween(a, a', m, h, POSTED);
  }

  lemma {:induction false} ReapedConserved(flows: Flows, flows': Flows, a: Accounts, a': Accounts, m: Records, h: nat)
    requires RingsConserved(flows, a) && h in m && m[h].slot >= 0 && m[h].state == POSTED
    requires CurrentMoved(a, a', m, m[h := m[h].(state := REAPED)], h)
    requires flows' == flows[m[h].slot := flows[m[h].slot].(reaps := flows[m[h].slot].reaps + 1)]
    ensures RingsConserved(flows', a')
  {
    MovedBetween(a, a', m, h, REAPED);
  }

  /** One buffer leaves its state and enters another one, in its own ring only. */
  lemma {:induction false} MovedBetween(a: Accounts, a': Accounts, m: Records, h: nat, s: State)
    requires h in m && m[h].slot >= 0 && m[h].state != s
    requires CurrentMoved(a, a', m, m[h := m[h].(state := s)], h)
    ensures var i := m[h].slot; a'[i].current[s] == a[i].current[s] + 1
    ensures var i := m[h].slot; a'[i].current[m[h].state] + 1 == a[i].current[m[h].state]
    ensures forall i, t: State :: 0 <= i < MAX_RINGS && (i != m[h].slot || (t != s && t != m[h].state)) ==>
              a'[i].current[t] == a[i].current[t]
  {
    var m' := m[h := m[h].(state := s)];
    assert Shares(RingCount(m[h].slot, s), m, h) == 0 && Shares(RingCount(m[h].slot, s), m', h) == 1;
    assert Shares(RingCount(m[h].slot, m[h].state), m, h) == 1 && Shares(RingCount(m[h].slot, m[h].state), m', h) == 0;
    forall i, t: State | 0 <= i < MAX_RINGS && (i != m[h].slot || (t != s && t != m[h].state))
      ensures a'[i].current[t] == a[i].current[t]
    {
      assert Shares(RingCount(i, t), m, h) == 0 && Shares(RingCount(i, t), m', h) == 0;
    }
  }

  /** A release is counted for the record's ring, and separately if the buffer was posted at that moment. */
  function FlowsReleased(flows: Flows, r: Record): Flows {
    if r.slot < 0 then flows
    else
      var f := flows[r.slot];
      var posted := if r.state == POSTED then 1 else 0;
      flows[r.slot := f.(releases := f.releases + 1, releaseWhilePosted := f.releaseWhilePosted + posted)]
  }

  lemma {:induction false} NothingToRemove(m: Records, h: nat)
    requires h !in m
    ensures m - {h} == m
  {
  }

  lemma {:induction false} Unlinked(a: Accounts, un: Unscoped, infos: RingInfos, m: Records, h: nat)
    requires AccountsAgree(a, un, m) && SlotsAgree(m, infos) && h in m
    ensures var m' := m[h := m[h].(skbLinked := false)];
            AccountsAgree(a, un, m') && SlotsAgree(m', infos) && |m'| == |m|
  {
    var r' := m[h].(skbLinked := false);
    var m' := m[h := r'];
    StoreRemove(m, h, r');
    AccountsFollow(a, un, a, un, m, m', h);
    assert m'.Keys == m.Keys;
    assert |m'| == |m'.Keys| && |m| == |m.Keys|;
  }

  lemma {:induction false} UnlinkedPages(ps: Pages, m: Records, h: nat)
    requires PagesAgree(ps, m) && h in m
    ensures PagesAgree(ps, m[h := m[h].(skbLinked := false)])
  {
    PagesRestate(ps, m, h, m[h].(skbLinked := false), ps);
  }

  lemma {:induction false} UnlinkedCallers(cs: Callers, m: Records, h: nat)
    requires CallersAgree(cs, m) && h in m
    ensures CallersAgree(cs, m[h := m[h].(skbLinked := false)])
  {
    var r' := m[h].(skbLinked := false);
    var m' := m[h := r'];
    StoreRemove(m, h, r');
    forall c | 0 <= c < MAX_CALLERS ensures CallerAgrees(cs[c], m', c) {
      CallerStore(m, m', h, c);
    }
  }

  lemma {:induction false} UnlinkedTables(m: Records, bySkb: map<nat, nat>, next: nat, born: map<nat, Identity>, h: nat)
    requires TablesAgree(m, bySkb) && GenerationsAgree(m, next, born) && h in m && m[h].skbLinked
    ensures var m' := m[h := m[h].(skbLinked := false)];
            TablesAgree(m', bySkb - {m[h].skb}) && GenerationsAgree(m', next, born)
  {
  }

  /** A record of an untracked page goes without changing a page. */
  lemma {:induction false} PagesForget(ps: Pages, m: Records, h: nat)
    requires PagesAgree(ps, m) && h in m && !m[h].pageTracked
    ensures PagesAgree(ps, m - {h})
  {
    var m' := m - {h};
    assert m - {h} == m' - {h};
    forall p | p in ps ensures PageAgrees(p, ps[p], m') && ps[p].total > 0 {
      PagesElsewhere(ps, m, m', h, p);
    }
  }

  /** The record's one reference is gone from its own count of the page. */
  predicate CountLeft(before: Page, after: Page, r: Record) {
    if r.slot >= 0
    then before.ringState[r.slot][r.state] > 0 && after.unscoped == before.unscoped
         && after.ringState == WithCount(before, r.slot, r.state, before.ringState[r.slot][r.state] - 1).ringState
    else before.unscoped > 0 && after.unscoped == before.unscoped - 1 && after.ringState == before.ringState
  }

  lemma {:induction false} LeftMoved(before: Page, counted: Page, after: Page, m: Records, r: Record)
    requires r.head in m && m[r.head] == r && r.pageTracked && before.total > 0 && CountLeft(before, counted, r)
    requires after == counted.(total := before.total - 1)
    ensures Moved(before, after, r.page, m, m - {r.head}, r.head)
  {
  }

  lemma {:induction false} RemoveCount<V>(m: map<nat, V>, k: nat)
    requires k in m
    ensures |m - {k}| == |m| - 1
  {
    assert (m - {k}).Keys == m.Keys - {k};
    assert |m - {k}| == |(m - {k}).Keys| && |m| == |m.Keys|;
  }

  lemma {:induction false} ForgetTables(m: Records, bySkb: map<nat, nat>, infos: RingInfos, next: nat,
                                        born: map<nat, Identity>, h: nat)
    requires TablesAgree(m, bySkb) && SlotsAgree(m, infos) && GenerationsAgree(m, next, born) && h in m
    ensures m[h].head == h && Forgettable(m, bySkb, infos, next, born, m[h])
  {
    hide TablesAgree, SlotsAgree, GenerationsAgree;
    RemoveCount(m, h);
    TablesForget(m, bySkb, h);
    SlotsForget(m, infos, h);
    GenerationsForget(m, next, born, h);
  }

  lemma {:induction false} TablesForget(m: Records, bySkb: map<nat, nat>, h: nat)
    requires TablesAgree(m, bySkb) && h in m
    ensures m[h].head == h && TablesAgree(m - {h}, if m[h].skbLinked then bySkb - {m[h].skb} else bySkb)
  {
  }

  lemma {:induction false} SlotsForget(m: Records, infos: RingInfos, h: nat)
    requires SlotsAgree(m, infos)
    ensures SlotsAgree(m - {h}, infos)
  {
  }

  lemma {:induction false} GenerationsForget(m: Records, next: nat, born: map<nat, Identity>, h: nat)
    requires GenerationsAgree(m, next, born)
    ensures GenerationsAgree(m - {h}, next, born)
  {
  }

  /** What is left of the tables once the record has gone. */
  ghost predicate Forgettable(m: Records, bySkb: map<nat, nat>, infos: RingInfos, next: nat, born: map<nat, Identity>,
                              r: Record) {
    && |m - {r.head}| == |m| - 1
    && TablesAgree(m - {r.head}, if r.skbLinked then bySkb - {r.skb} else bySkb)
    && SlotsAgree(m - {r.head}, infos) && GenerationsAgree(m - {r.head}, next, born)
  }

  lemma {:induction false} Forgotten(m: Records, bySkb: map<nat, nat>, infos: RingInfos, next: nat,
                                     born: map<nat, Identity>, r: Record)
    requires Forgettable(m, bySkb, infos, next, born, r)
    ensures |m - {r.head}| == |m| - 1
    ensures TablesAgree(m - {r.head}, if r.skbLinked then bySkb - {r.skb} else bySkb)
    ensures SlotsAgree(m - {r.head}, infos) && GenerationsAgree(m - {r.head}, next, born)
  {
  }

  lemma {:induction false} OwnCaller(cs: Callers, m: Records, h: nat)
    requires CallersAgree(cs, m) && h in m && m[h].callerSlot >= 0
    ensures var c := cs[m[h].callerSlot]; c.live > 0 && m[h].requested <= c.requested && m[h].aligned <= c.aligned
  {
    var c := m[h].callerSlot;
    assert CallerAgrees(cs[c], m, c);
    SumRemove(m, h, CallerLive(c));
    SumRemove(m, h, CallerRequested(c));
    SumRemove(m, h, CallerAligned(c));
  }

  lemma {:induction false} CallersLose(before: Callers, after: Callers, m: Records, h: nat)
    requires CallersAgree(before, m) && h in m
    requires var r := m[h]; var c := r.callerSlot;
             if c < 0 then after == before
             else var b := before[c];
                  && b.live > 0 && r.requested <= b.requested && r.aligned <= b.aligned
                  && after == before[c := b.(live := b.live - 1, releases := b.releases + 1,
                                             requested := b.requested - r.requested, aligned := b.aligned - r.aligned)]
    ensures CallersAgree(after, m - {h})
  {
    var m' := m - {h};
    assert m - {h} == m' - {h};
    forall c | 0 <= c < MAX_CALLERS ensures CallerAgrees(after[c], m', c) {
      CallerStore(m, m', h, c);
      assert CallerAgrees(before[c], m, c);
    }
  }

  lemma {:induction false} ReleasedConserved(flows: Flows, flows': Flows, a: Accounts, a': Accounts, un: Unscoped,
                                             un': Unscoped, m: Records, h: nat)
    requires AccountsAgree(a, un, m) && AccountsAgree(a', un', m - {h}) && h in m && RingsConserved(flows, a)
    requires flows' == FlowsReleased(flows, m[h])
    ensures RingsConserved(flows', a')
  {
    var m' := m - {h};
    assert m - {h} == m' - {h};
    CurrentFollows(a, a', un, un', m, m', h);
    forall i, s: State | 0 <= i < MAX_RINGS
      ensures a'[i].current[s] + (if m[h].slot == i && m[h].state == s then 1 else 0) == a[i].current[s]
    {
      assert Shares(RingCount(i, s), m', h) == 0;
    }
  }

  lemma {:induction false} ReleasedTotals(t: Totals, t': Totals, a: Accounts, un: Unscoped, a': Accounts,
                                          un': Unscoped, m: Records, h: nat)
    requires AccountsAgree(a, un, m) && AccountsAgree(a', un', m - {h}) && h in m && TotalsConserved(t, un, |m|)
    requires t' == t.(releases := t.releases + 1)
    ensures TotalsConserved(t', un', |m - {h}|)
  {
    var m' := m - {h};
    assert m - {h} == m' - {h};
    SumStore(m, m', h, UnscopedCount);
    RemoveCount(m, h);
  }

  /** The one change is that the record seen at the entry is posted, under the returned id. */
  predicate PostsSeen(before: Records, after: Records, call: IdrAllocCall, id: int, seen: Identity) {
    && id >= 0 && seen.head in before
    && var r := before[seen.head];
       && after == before[seen.head := r.(state := POSTED, bufId := id)]
       && r.state != POSTED && r.slot == call.slot && r.generation == call.generation
       && seen == Identity(r.head, r.skb, r.page)
  }

  /** The ring's own counters at the start of a returning `idr_alloc`. */
  function CallReturned(r: RingInfo, call: IdrAllocCall, failed: bool): (r': RingInfo)
    ensures r'.used == r.used && r'.scope == r.scope && r'.idr == r.idr
  {
    var counted := if call.reinject then r.(reinjectAllocations := r.reinjectAllocations + 1) else r;
    if failed then counted.(idrAllocFailures := counted.idrAllocFailures + 1) else counted
  }

  /** The same after the buffer was posted, or was not. */
  function CallPosted(r: RingInfo, call: IdrAllocCall, posted: bool): (r': RingInfo)
    ensures r'.used == r.used && r'.scope == r.scope && r'.idr == r.idr
  {
    var counted := if !call.reinject then r
                   else if posted then r.(reinjectPosts := r.reinjectPosts + 1)
                   else r.(knownIdrAllocUnmatched := r.knownIdrAllocUnmatched + 1);
    var bufsMax := if call.start == 0 then call.end else if call.end > 1 then (call.end - 1) / 3 else call.end;
    if call.scoped then counted.(bufsMax := bufsMax) else counted
  }

  /** A slot in use stays in use. */
  predicate UsedStays(before: RingInfos, after: RingInfos) {
    forall i :: 0 <= i < MAX_RINGS && before[i].used ==> after[i].used
  }

  /** Only what is counted about the rings has changed. */
  predicate SameRings(before: RingInfos, after: RingInfos) {
    forall i :: 0 <= i < MAX_RINGS ==>
      after[i].used == before[i].used && after[i].scope == before[i].scope && after[i].idr == before[i].idr
  }

  lemma {:induction false} SlotsLater(m: Records, before: RingInfos, after: RingInfos)
    requires SlotsAgree(m, before) && SameRings(before, after)
    ensures SlotsAgree(m, after) && UsedStays(before, after)
  {
    assert forall i, idr :: HasTable(after, i, idr) ==> HasTable(before, i, idr);
    assert forall i, ring :: IsRing(after, i, ring) ==> IsRing(before, i, ring);
  }

  /** The ring that waits for a table gets it, in its own slot or in the first free one. */
  ghost predicate TakesTable(before: RingInfos, after: RingInfos, scope: Scope, idr: nat, slot: RingSlot) {
    && slot >= 0
    && after == before[slot := before[slot].(used := true, idr := Some(idr),
                                             scope := if before[slot].used then before[slot].scope else scope)]
    && (forall i :: !HasTable(before, i, idr))
    && if before[slot].used then before[slot].scope.ring == scope.ring && before[slot].idr.None?
       else (forall i :: !IsRing(before, i, scope.ring)) && (forall i :: 0 <= i < slot ==> before[i].used)
  }

  /** A ring has this table; or the ring itself is known with no table or this one; or it is not, and a slot is free. */
  ghost predicate Available(infos: RingInfos, ring: nat, idr: nat) {
    || (exists i :: HasTable(infos, i, idr))
    || (exists i :: IsRing(infos, i, ring) && (infos[i].idr.None? || infos[i].idr == Some(idr)))
    || ((forall i :: !IsRing(infos, i, ring)) && exists i :: 0 <= i < MAX_RINGS && !infos[i].used)
  }

  /** The ring found for a table, on behalf of a buffer that waits for the ring of this scope, or of none. */
  ghost predicate RingFound(before: RingInfos, after: RingInfos, waits: Option<Scope>, idr: nat, slot: RingSlot) {
    if slot < 0 then
      && after == before
      && if waits.Some? then !Available(before, waits.value.ring, idr) else forall i :: !HasTable(before, i, idr)
    else
      || (HasTable(before, slot, idr) && after == before)
      || (waits.Some? && TakesTable(before, after, waits.value, idr, slot))
  }

  /** The ring that the buffer of this skb waits for, if a call is made in the scope that it waits for. */
  function WaitsFor(m: Records, bySkb: map<nat, nat>, skb: nat, scope: Option<Scope>): Option<Scope> {
    if scope.Some? && skb in bySkb && bySkb[skb] in m && m[bySkb[skb]].scopeCandidate && m[bySkb[skb]].slot < 0
       && m[bySkb[skb]].pending.ring == scope.value.ring
    then Some(m[bySkb[skb]].pending) else None
  }

  /** So it is found exactly when one has the table, or may have it; and then it does. */
  lemma {:induction false} RingFoundExactly(before: RingInfos, after: RingInfos, waits: Option<Scope>, idr: nat,
                                            slot: RingSlot)
    requires RingFound(before, after, waits, idr, slot)
    ensures slot >= 0 <==> if waits.Some? then Available(before, waits.value.ring, idr)
                           else exists i :: HasTable(before, i, idr)
    ensures slot >= 0 ==> HasTable(after, slot, idr)
  {
    if slot >= 0 && !HasTable(before, slot, idr) {
      assert before[slot].used ==> IsRing(before, slot, waits.value.ring);
    }
  }

  /** Without a buffer that waits nothing changes; and with one whose ring may not have the table. */
  lemma {:induction false} RingFoundSame(before: RingInfos, after: RingInfos, waits: Option<Scope>, idr: nat,
                                         slot: RingSlot)
    requires RingFound(before, after, waits, idr, slot)
    ensures waits.None? || slot < 0 ==> after == before
  {
  }

  lemma {:induction false} UsedStill(infos: RingInfos)
    ensures UsedStays(infos, infos)
  {
  }

  /** The ring with the table, as searched for, is all there is to find without a scope. */
  lemma {:induction false} TableFound(infos: RingInfos, idr: nat, slot: RingSlot)
    requires slot >= 0 ==> infos[slot].used && infos[slot].idr == Some(idr)
    requires slot < 0 ==> forall i :: 0 <= i < MAX_RINGS ==> !(infos[i].used && infos[i].idr == Some(idr))
    ensures if slot >= 0 then HasTable(infos, slot, idr) else forall i :: !HasTable(infos, i, idr)
    ensures RingFound(infos, infos, None, idr, slot)
  {
  }

  /** A ring that is known has a table; one that is new has none yet. */
  lemma {:induction false} KnownTable(m: Records, before: RingInfos, after: RingInfos, scope: Scope, idr: nat,
                                      slot: RingSlot)
    requires SlotsAgree(m, before) && forall i :: !HasTable(before, i, idr)
    requires slot >= 0 ==> after[slot].used && after[slot].scope.ring == scope.ring
    requires slot < 0 ==> after == before && forall i :: 0 <= i < MAX_RINGS ==>
                                               before[i].used && before[i].scope.ring != scope.ring
    requires after == before || (slot >= 0 && !before[slot].used
                                 && after == before[slot := before[slot].(used := true, scope := scope)])
    ensures after != before ==> after[slot].idr.None?
    ensures after == before ==> !Available(before, scope.ring, idr)
    ensures slot >= 0 && after == before ==> after[slot].idr.Some? && after[slot].idr != Some(idr)
  {
    if slot >= 0 && after == before {
      assert IsRing(before, slot, scope.ring);
      assert !HasTable(before, slot, idr);
    }
  }

  lemma {:induction false} TakenAgree(m: Records, before: RingInfos, after: RingInfos, scope: Scope, idr: nat,
                                      slot: RingSlot)
    requires SlotsAgree(m, before) && TakesTable(before, after, scope, idr, slot)
    ensures SlotsAgree(m, after) && UsedStays(before, after)
  {
    forall i, j, d | HasTable(after, i, d) && HasTable(after, j, d) ensures i == j {
      assert i != slot ==> HasTable(before, i, d);
      assert j != slot ==> HasTable(before, j, d);
    }
    forall i, j, ring | IsRing(after, i, ring) && IsRing(after, j, ring) ensures i == j {
      assert i != slot || before[slot].used ==> IsRing(before, i, ring);
      assert j != slot || before[slot].used ==> IsRing(before, j, ring);
    }
  }

  lemma {:induction false} BornRecord(m: Records, next: nat, born: map<nat, Identity>, h: nat)
    requires GenerationsAgree(m, next, born) && h in m
    ensures m[h].generation in born && born[m[h].generation] == Identity(h, m[h].skb, m[h].page)
  {
  }

  lemma {:induction false} CandidateFacts(m: Records, bySkb: map<nat, nat>, infos: RingInfos, skb: nat)
    requires TablesAgree(m, bySkb) && SlotsAgree(m, infos) && skb in bySkb
    ensures var h := bySkb[skb];
            h in m && m[h].head == h && m[h].skb == skb
            && (m[h].slot < 0 ==> m[h].state == ALLOCATED)
  {
  }

  /** A record as it is when its buffer has just been allocated. */
  predicate IsNew(r: Record, call: AllocCall, skb: nat, head: nat, page: nat, aligned: nat, generation: nat) {
    && r.head == head && r.skb == skb && r.page == page && r.generation == generation
    && r.requested == call.requested && r.aligned == aligned && r.bufId == -1
    && r.slot == -1 && r.state == ALLOCATED && r.skbLinked
    && r.scopeCandidate == call.scope.Some? && (r.scopeCandidate ==> r.pending == call.scope.value)
  }

  lemma {:induction false} TrackedIsNew(r: Record, call: AllocCall, skb: nat, head: nat, page: nat, aligned: nat,
                                        generation: nat, tracked: bool)
    requires IsNew(r, call, skb, head, page, aligned, generation)
    ensures IsNew(r.(pageTracked := tracked), call, skb, head, page, aligned, generation)
  {
  }

  function NewRecord(call: AllocCall, skb: nat, head: nat, page: nat, aligned: nat, generation: nat,
                     callerSlot: CallerSlot): (r: Record)
    ensures IsNew(r, call, skb, head, page, aligned, generation)
    ensures r.head == head && r.skb == skb && r.page == page && r.generation == generation
    ensures r.skbLinked && r.slot < 0 && r.state == ALLOCATED && !r.pageTracked && r.callerSlot == callerSlot
  {
    var pending := if call.scope.Some? then call.scope.value else Scope(0, 0, 0, 0);
    Record(head, skb, page, generation, call.requested, aligned, -1, -1, ALLOCATED, true, false, callerSlot, pending,
           call.scope.Some?)
  }

  /** Nothing that was ever known about a generation is forgotten or changed. */
  predicate Extends(before: map<nat, Identity>, after: map<nat, Identity>) {
    forall g :: g in before ==> g in after && after[g] == before[g]
  }

  lemma {:induction false} GenerationsLater(m: Records, n: nat, n': nat, born: map<nat, Identity>)
    requires GenerationsAgree(m, n, born) && n' == n + 1
    ensures GenerationsAgree(m, n', born) && n' !in born
  {
  }

  /** The generations that handlers have drawn for records that have not entered yet: no two alike, and none born. */
  ghost predicate DrawnAgree(drawn: map<nat, nat>, next: nat, born: map<nat, Identity>) {
    && (forall c :: c in drawn ==> 1 <= drawn[c] <= next && drawn[c] !in born)
    && (forall c, d :: c in drawn && d in drawn && drawn[c] == drawn[d] ==> c == d)
  }

  lemma {:induction false} NothingWaits(infos: RingInfos, next: nat, born: map<nat, Identity>)
    ensures CallsAgree(Calls(map[], map[]), map[], infos, born) && DrawnAgree(map[], next, born)
  {
  }

  lemma {:induction false} DrawnMore(drawn: map<nat, nat>, next: nat, next': nat, born: map<nat, Identity>, c: nat,
                                     generation: Option<nat>)
    requires DrawnAgree(drawn, next, born) && next <= next'
    requires generation.Some? ==> next < generation.value <= next' && generation.value !in born
    ensures DrawnAgree(if generation.Some? then drawn[c := generation.value] else drawn, next', born)
  {
  }

  lemma {:induction false} DrawnFact(drawn: map<nat, nat>, next: nat, born: map<nat, Identity>, c: nat)
    requires DrawnAgree(drawn, next, born) && c in drawn
    ensures 1 <= drawn[c] <= next && drawn[c] !in born
  {
  }

  lemma {:induction false} DrawnUsed(drawn: map<nat, nat>, next: nat, born: map<nat, Identity>,
                                     born': map<nat, Identity>, c: nat)
    requires DrawnAgree(drawn, next, born) && c in drawn && born'.Keys <= born.Keys + {drawn[c]}
    ensures DrawnAgree(drawn - {c}, next, born')
  {
  }

  /** A page has room for one more reference. */
  lemma {:induction false} PageRoom(ps: Pages, m: Records, p: nat)
    requires PagesAgree(ps, m) && |m| < MAX_RECORDS
    ensures p in ps ==> ps[p].unscoped < MAX_RECORDS && ps[p].total < MAX_RECORDS
  {
    if p in ps {
      SumBounded(m, PageUnscoped(p), Live);
      SumBounded(m, PageTotal(p), Live);
      SumLive(m);
    }
  }

  /** A record of an untracked page changes no page. */
  lemma {:induction false} PagesIgnore(ps: Pages, m: Records, h: nat, r: Record)
    requires PagesAgree(ps, m) && h !in m && !r.pageTracked
    ensures PagesAgree(ps, m[h := r])
  {
    var m' := m[h := r];
    assert m - {h} == m' - {h};
    forall p | p in ps ensures PageAgrees(p, ps[p], m') && ps[p].total > 0 {
      PagesElsewhere(ps, m, m', h, p);
    }
  }

  lemma {:induction false} CallersGain(before: Callers, after: Callers, m: Records, h: nat, r: Record)
    requires CallersAgree(before, m) && h !in m
    requires var c := r.callerSlot;
             if c < 0 then after == before
             else var b := before[c];
                  after == before[c := b.(allocations := b.allocations + 1, live := b.live + 1,
                                          requested := b.requested + r.requested, aligned := b.aligned + r.aligned)]
    ensures CallersAgree(after, m[h := r])
  {
    var m' := m[h := r];
    StoreRemove(m, h, r);
    forall c | 0 <= c < MAX_CALLERS ensures CallerAgrees(after[c], m', c) {
      CallerStore(m, m', h, c);
      assert CallerAgrees(before[c], m, c);
    }
  }

  /** The record may join the tables: it is new to them. */
  ghost predicate CanJoin(r: Record, m: Records, bySkb: map<nat, nat>, infos: RingInfos, next: nat,
                          born: map<nat, Identity>) {
    && TablesAgree(m, bySkb) && SlotsAgree(m, infos) && GenerationsAgree(m, next, born)
    && |m| < MAX_RECORDS && r.head !in m && r.skb !in bySkb
    && 1 <= r.generation <= next && r.generation !in born
    && r.skbLinked && r.slot < 0 && r.state == ALLOCATED
  }

  lemma {:induction false} MayJoin(r: Record, m: Records, bySkb: map<nat, nat>, infos: RingInfos, next: nat,
                                   born: map<nat, Identity>)
    requires TablesAgree(m, bySkb) && SlotsAgree(m, infos) && GenerationsAgree(m, next, born)
    requires |m| < MAX_RECORDS && r.head !in m && r.skb !in bySkb
    requires 1 <= r.generation <= next && r.generation !in born
    requires r.skbLinked && r.slot < 0 && r.state == ALLOCATED
    ensures CanJoin(r, m, bySkb, infos, next, born)
  {
  }

  lemma {:induction false} JoinsTracked(r: Record, m: Records, bySkb: map<nat, nat>, infos: RingInfos, next: nat,
                                        born: map<nat, Identity>, tracked: bool)
    requires CanJoin(r, m, bySkb, infos, next, born)
    ensures CanJoin(r.(pageTracked := tracked), m, bySkb, infos, next, born)
  {
  }

  lemma {:induction false} JoinFacts(r: Record, m: Records, bySkb: map<nat, nat>, infos: RingInfos, next: nat,
                                     born: map<nat, Identity>)
    requires CanJoin(r, m, bySkb, infos, next, born)
    ensures r.head !in m && r.slot < 0
  {
  }

  lemma {:induction false} JoinTables(r: Record, m: Records, bySkb: map<nat, nat>, infos: RingInfos, next: nat,
                                      born: map<nat, Identity>)
    requires CanJoin(r, m, bySkb, infos, next, born)
    ensures r.head !in m && r.slot < 0 && |m[r.head := r]| == |m| + 1 <= MAX_RECORDS
    ensures TablesAgree(m[r.head := r], bySkb[r.skb := r.head]) && SlotsAgree(m[r.head := r], infos)
    ensures GenerationsAgree(m[r.head := r], next, born[r.generation := Identity(r.head, r.skb, r.page)])
    ensures Extends(born, born[r.generation := Identity(r.head, r.skb, r.page)])
  {
    hide TablesAgree, SlotsAgree, GenerationsAgree;
    StoreCount(m, r.head, r);
    JoinHashes(r, m, bySkb);
    JoinSlots(r, m, infos);
    NewGeneration(m, r.head, r, next, born);
  }

  lemma {:induction false} JoinHashes(r: Record, m: Records, bySkb: map<nat, nat>)
    requires TablesAgree(m, bySkb) && r.head !in m && r.skb !in bySkb && r.skbLinked
    ensures TablesAgree(m[r.head := r], bySkb[r.skb := r.head])
  {
  }

  lemma {:induction false} JoinSlots(r: Record, m: Records, infos: RingInfos)
    requires SlotsAgree(m, infos) && r.slot < 0 && r.state == ALLOCATED
    ensures SlotsAgree(m[r.head := r], infos)
  {
    hide RingsDistinct;
  }

  lemma {:induction false} TotalsGain(t: Totals, un: Unscoped, un': Unscoped, n: nat)
    requires TotalsConserved(t, un, n) && un'.current == un.current + 1
    ensures TotalsConserved(t.(allocations := t.allocations + 1, unscopedAllocations := t.unscopedAllocations + 1),
                            un', n + 1)
  {
  }

  lemma {:induction false} StoreCount<V>(m: map<nat, V>, h: nat, r: V)
    requires h !in m
    ensures |m[h := r]| == |m| + 1
  {
    assert m[h := r].Keys == m.Keys + {h};
    assert |m[h := r]| == |m[h := r].Keys| && |m| == |m.Keys|;
  }

  lemma {:induction false} NewGeneration(m: Records, h: nat, r: Record, next: nat, born: map<nat, Identity>)
    requires GenerationsAgree(m, next, born) && h !in m
    requires 1 <= r.generation <= next && r.generation !in born
    ensures var born' := born[r.generation := Identity(h, r.skb, r.page)];
            GenerationsAgree(m[h := r], next, born') && Extends(born, born')
  {
  }

  lemma {:induction false} UnscopedGain(a: Accounts, un: Unscoped, a': Accounts, un': Unscoped, m: Records, h: nat,
                                        r: Record)
    requires AccountsAgree(a, un, m) && AccountsAgree(a', un', m[h := r]) && h !in m && r.slot < 0
    ensures un'.current == un.current + 1
  {
    assert m - {h} == m[h := r] - {h};
    SumStore(m, m[h := r], h, UnscopedCount);
  }

  lemma {:induction false} Relabelled(r: Record, slot: RingSlot)
    ensures SameBuffer(r, r.(slot := slot))
  {
  }

  /** The same ring counts on a page mean the same page counters. */
  lemma {:induction false} RingPagesRelabel(pagings: Pagings, ps: Pages, p: nat, pg: Page)
    requires RingPagesAgree(pagings, ps) && p in ps && pg.ringState == ps[p].ringState && pg.order == ps[p].order
    ensures RingPagesAgree(pagings, ps[p := pg])
  {
    RingPagesStore(pagings, ps, pagings, p, pg);
  }

  /** The record's one reference on the page moves from "no ring" to the ring. */
  lemma {:induction false} RingMoved(before: Page, after: Page, m: Records, h: nat, slot: RingSlot)
    requires h in m && m[h].pageTracked && m[h].slot < 0 && slot >= 0 && before.unscoped > 0
    requires var s := m[h].state;
             after.ringState == WithCount(before, slot, s, before.ringState[slot][s] + 1).ringState
             && after.unscoped == before.unscoped - 1 && after.total == before.total
    ensures Moved(before, after, m[h].page, m, m[h := m[h].(slot := slot)], h)
  {
  }

  lemma {:induction false} CallersFrame(before: Callers, after: Callers, m: Records)
    requires CallersAgree(before, m)
    requires forall c :: 0 <= c < MAX_CALLERS ==>
               after[c] == before[c].(used := after[c].used, addr := after[c].addr,
                                      scopedAllocations := after[c].scopedAllocations)
    ensures CallersAgree(after, m)
  {
  }

  lemma {:induction false} PromotedConserved(flows: Flows, flows': Flows, a: Accounts, a': Accounts, m: Records,
                                             h: nat, slot: RingSlot)
    requires RingsConserved(flows, a) && slot >= 0 && h in m && m[h].slot < 0 && m[h].state == ALLOCATED
    requires CurrentMoved(a, a', m, m[h := m[h].(slot := slot)], h)
    requires flows' == flows[slot := flows[slot].(allocations := flows[slot].allocations + 1)]
    ensures RingsConserved(flows', a')
  {
    var m' := m[h := m[h].(slot := slot)];
    forall i, s: State | 0 <= i < MAX_RINGS
      ensures a'[i].current[s] == a[i].current[s] + if i == slot && s == ALLOCATED then 1 else 0
    {
      assert Shares(RingCount(i, s), m, h) == 0;
      assert Shares(RingCount(i, s), m', h) == if i == slot && s == ALLOCATED then 1 else 0;
    }
  }
}
