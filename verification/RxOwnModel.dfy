/**
 The data of the receive-buffer ownership tracker (tools/rxown.c): one record per
 tracked buffer head, one entry per tracked page, and the counters kept beside
 them. What every counter has to equal is stated here as a sum over the live
 records.
 */
module RxOwnModel {
  import opened Basics

  const MAX_RINGS := 16
  const MAX_RECORDS := 32768
  const MAX_PAGES := 8192
  const MAX_CALLERS := 32
  const PAGE_SIZE := 4096

  /** `enum rxown_state`, used as an index. */
  type State = s: nat | s < 3

  const ALLOCATED: State := 0
  const POSTED: State := 1
  const REAPED: State := 2

  /** A slot of a fixed table, or -1 for none. */
  type RingSlot = i: int | -1 <= i < MAX_RINGS
  type CallerSlot = i: int | -1 <= i < MAX_CALLERS

  datatype Record = Record(
    head: nat, skb: nat, page: nat, generation: nat, requested: nat, aligned: nat, bufId: int,
    slot: RingSlot, state: State, skbLinked: bool, pageTracked: bool, callerSlot: CallerSlot,
    pending: Scope, scopeCandidate: bool)

  /** What a replenish or monitor scope contributes to a buffer allocated inside it. */
  datatype Scope = Scope(ring: nat, macId: int, mgr: nat, kind: nat)

  /** One counter for each state. */
  type PerState = c: seq<nat> | |c| == 3 witness [0, 0, 0]

  const ZEROS: PerState := [0, 0, 0]

  /** `ring_state` of a page: one counter for each ring and state. */
  type PerRing = t: seq<PerState> | |t| == MAX_RINGS witness seq<PerState>(MAX_RINGS, i => ZEROS)

  datatype Page = Page(ringState: PerRing, unscoped: nat, total: nat, order: nat, historyRings: set<int>,
                       historyUnscoped: bool)

  /*
   The fields of one `struct rxown_ring`, in four groups. The tracker keeps each
   group in a table indexed by the ring's slot.
   */

  /** What the ring is, and the counters that only observe calls. */
  datatype RingInfo = RingInfo(
    used: bool, scope: Scope, idr: Option<nat>, bufsMax: nat, actualIdr: int, actualValid: bool, resample: bool,
    idrAllocFailures: nat, untrackedRemoves: nat, reinjectAllocations: nat, reinjectPosts: nat,
      knownIdrAllocUnmatched: nat)

  /** Buffers and bytes currently in each state. */
  datatype Account = Account(current: PerState, requested: PerState, aligned: PerState)

  /** Pages and their bytes currently used in each state. */
  datatype Paging = Paging(uniquePages: PerState, backing: PerState)

  /** What happened to the ring's buffers so far. */
  datatype Flow = Flow(allocations: nat, posts: nat, reaps: nat, releases: nat, releaseWhilePosted: nat)

  /** The buffers that belong to no ring yet. */
  datatype Unscoped = Unscoped(current: nat, requested: nat, aligned: nat)

  datatype Caller = Caller(used: bool, addr: nat, allocations: nat, live: nat, releases: nat, requested: nat,
                           aligned: nat, scopedAllocations: nat)

  /** The counters of `struct rxown_global` that the conservation laws are about. */
  datatype Totals = Totals(allocations: nat, scopedAllocations: nat, unscopedAllocations: nat, releases: nat)

  /** The counters of `struct rxown_global` that only observe. */
  datatype Observed = Observed(
    skbReleases: nat, recordAllocFailures: nat, recordCapacityFailures: nat, pageAllocFailures: nat,
    pageCapacityFailures: nat, ringCapacityFailures: nat, callerCapacityFailures: nat, headCollisions: nat,
    skbCollisions: nat, pageFreeUnmatched: nat, idrRemoveUnmatched: nat)

  type Records = map<nat, Record>
  type Pages = map<nat, Page>

  /** What is remembered about a tracked page: the rings it has had, and whether it has had a buffer of none. */
  datatype History = History(rings: set<int>, unscoped: bool)

  type Histories = map<nat, History>

  function HistoryOf(ps: Pages): Histories { map p | p in ps :: History(ps[p].historyRings, ps[p].historyUnscoped) }

  /** A buffer without ring comes to its page: if no scope is known for it, it never gets one. */
  function JoinedHistory(hs: Histories, r: Record): Histories {
    if !r.pageTracked then hs
    else
      var h := if r.page in hs then hs[r.page] else History({}, false);
      hs[r.page := h.(unscoped := h.unscoped || !r.scopeCandidate)]
  }

  /** The buffer turns out to be the ring's. */
  function PromotedHistory(hs: Histories, r: Record, slot: RingSlot): Histories {
    if !r.pageTracked || r.page !in hs then hs
    else hs[r.page := hs[r.page].(rings := hs[r.page].rings + {slot})]
  }

  /** The buffer leaves; one that still waits for its ring leaves as a buffer without ring. */
  function LeftHistory(hs: Histories, r: Record, last: bool): Histories {
    if !r.pageTracked || r.page !in hs then hs
    else if last then hs - {r.page}
    else hs[r.page := hs[r.page].(unscoped := hs[r.page].unscoped || (r.slot < 0 && r.scopeCandidate))]
  }

  lemma {:induction false} HistoryPut(ps: Pages, p: nat, pg: Page)
    ensures HistoryOf(ps[p := pg]) == HistoryOf(ps)[p := History(pg.historyRings, pg.historyUnscoped)]
  {
  }

  lemma {:induction false} HistoryDrop(ps: Pages, p: nat)
    ensures HistoryOf(ps - {p}) == HistoryOf(ps) - {p}
  {
  }

  function Backing(order: nat): (b: nat)
    ensures b > 0
  {
    if order == 0 then PAGE_SIZE else 2 * Backing(order - 1)
  }

  // ----- sums over the live records -----

  /** The quantities the tracker counts incrementally. */
  datatype Metric =
    | RingCount(ring: int, st: State) | RingRequested(ring: int, st: State) | RingAligned(ring: int, st: State)
    | UnscopedCount | UnscopedRequested | UnscopedAligned
    | PageRing(page: nat, ring: int, st: State) | PageUnscoped(page: nat) | PageTotal(page: nat)
    | CallerLive(caller: int) | CallerRequested(caller: int) | CallerAligned(caller: int)
    | ScopedBelow(ring: int, bound: nat) | Live

  /** What one live record adds to a quantity. */
  function Share(q: Metric, r: Record): nat {
    match q
    case RingCount(i, s) => if r.slot == i && r.state == s then 1 else 0
    case RingRequested(i, s) => if r.slot == i && r.state == s then r.requested else 0
    case RingAligned(i, s) => if r.slot == i && r.state == s then r.aligned else 0
    case UnscopedCount => if r.slot < 0 then 1 else 0
    case UnscopedRequested => if r.slot < 0 then r.requested else 0
    case UnscopedAligned => if r.slot < 0 then r.aligned else 0
    case PageRing(p, i, s) => if r.pageTracked && r.page == p && r.slot == i && r.state == s then 1 else 0
    case PageUnscoped(p) => if r.pageTracked && r.page == p && r.slot < 0 then 1 else 0
    case PageTotal(p) => if r.pageTracked && r.page == p then 1 else 0
    case CallerLive(c) => if r.callerSlot == c then 1 else 0
    case CallerRequested(c) => if r.callerSlot == c then r.requested else 0
    case CallerAligned(c) => if r.callerSlot == c then r.aligned else 0
    case ScopedBelow(i, n) => if r.slot >= 0 && (r.slot < i || (r.slot == i && r.state < n)) then 1 else 0
    case Live => 1
  }

  /** A quantity recomputed from scratch. */
  ghost function Sum(m: Records, q: Metric): nat {
    if m == map[] then 0 else
      var h :| h in m;
      Share(q, m[h]) + Sum(m - {h}, q)
  }

  lemma {:induction false} SumRemove(m: Records, h: nat, q: Metric)
    requires h in m
    ensures Sum(m, q) == Share(q, m[h]) + Sum(m - {h}, q)
    decreases |m|
  {
    var g :| g in m && Sum(m, q) == Share(q, m[g]) + Sum(m - {g}, q);
    if g != h {
      assert |(m - {g}).Keys| < |m.Keys| by { assert (m - {g}).Keys == m.Keys - {g}; }
      assert |(m - {h}).Keys| < |m.Keys| by { assert (m - {h}).Keys == m.Keys - {h}; }
      SumRemove(m - {g}, h, q);
      SumRemove(m - {h}, g, q);
      assert m - {g} - {h} == m - {h} - {g};
    }
  }

  /** Storing one record changes every sum by that record's share. */
  lemma {:induction false} SumPut(m: Records, h: nat, r: Record)
    ensures forall q :: Sum(m[h := r], q) == Share(q, r) + Sum(m - {h}, q)
    ensures h in m ==> forall q :: Sum(m, q) == Share(q, m[h]) + Sum(m - {h}, q)
    ensures h !in m ==> m - {h} == m
  {
    forall q ensures Sum(m[h := r], q) == Share(q, r) + Sum(m - {h}, q) {
      SumRemove(m[h := r], h, q);
      assert m[h := r] - {h} == m - {h};
    }
    if h in m {
      forall q ensures Sum(m, q) == Share(q, m[h]) + Sum(m - {h}, q) {
        SumRemove(m, h, q);
      }
    }
  }

  /** A quantity whose shares are bounded by those of another is bounded by it. */
  lemma {:induction false} SumBounded(m: Records, q: Metric, big: Metric)
    requires forall r: Record :: Share(q, r) <= Share(big, r)
    ensures Sum(m, q) <= Sum(m, big)
    decreases |m|
  {
    if m != map[] {
      var h :| h in m && Sum(m, q) == Share(q, m[h]) + Sum(m - {h}, q);
      assert |(m - {h}).Keys| < |m.Keys| by { assert (m - {h}).Keys == m.Keys - {h}; }
      SumBounded(m - {h}, q, big);
      SumRemove(m, h, big);
    }
  }

  /** Shares that add up for every record add up in total. */
  lemma {:induction false} SumAdds(m: Records, q: Metric, a: Metric, b: Metric)
    requires forall r: Record :: Share(q, r) == Share(a, r) + Share(b, r)
    ensures Sum(m, q) == Sum(m, a) + Sum(m, b)
    decreases |m|
  {
    if m != map[] {
      var h :| h in m && Sum(m, q) == Share(q, m[h]) + Sum(m - {h}, q);
      assert |(m - {h}).Keys| < |m.Keys| by { assert (m - {h}).Keys == m.Keys - {h}; }
      SumAdds(m - {h}, q, a, b);
      SumRemove(m, h, a);
      SumRemove(m, h, b);
    }
  }

  lemma {:induction false} SumLive(m: Records)
    ensures Sum(m, Live) == |m|
    decreases |m|
  {
    if m != map[] {
      var h :| h in m && Sum(m, Live) == 1 + Sum(m - {h}, Live);
      assert (m - {h}).Keys == m.Keys - {h};
      assert |m.Keys| == |(m - {h}).Keys| + 1;
      SumLive(m - {h});
    }
  }

  /** A sum that is positive is positive because of some record. */
  lemma {:induction false} SumWitness(m: Records, q: Metric) returns (h: nat)
    requires Sum(m, q) > 0
    ensures h in m && Share(q, m[h]) > 0
    decreases |m|
  {
    var g :| g in m && Sum(m, q) == Share(q, m[g]) + Sum(m - {g}, q);
    h := g;
    if Share(q, m[g]) == 0 {
      assert |(m - {g}).Keys| < |m.Keys| by { assert (m - {g}).Keys == m.Keys - {g}; }
      h := SumWitness(m - {g}, q);
    }
  }

  // ----- sums over the tracked pages -----

  /** What one page adds to the number or the backing bytes of the pages a ring uses in a state. */
  function PageShare(pg: Page, i: int, s: State, bytes: bool): nat
    requires 0 <= i < MAX_RINGS
  {
    if pg.ringState[i][s] == 0 then 0 else if bytes then Backing(pg.order) else 1
  }

  ghost function PageSum(ps: Pages, i: int, s: State, bytes: bool): nat
    requires 0 <= i < MAX_RINGS
  {
    if ps == map[] then 0 else
      var p :| p in ps;
      PageShare(ps[p], i, s, bytes) + PageSum(ps - {p}, i, s, bytes)
  }

  lemma {:induction false} PageSumRemove(ps: Pages, p: nat, i: int, s: State, bytes: bool)
    requires 0 <= i < MAX_RINGS && p in ps
    ensures PageSum(ps, i, s, bytes) == PageShare(ps[p], i, s, bytes) + PageSum(ps - {p}, i, s, bytes)
    decreases |ps|
  {
    var g :| g in ps && PageSum(ps, i, s, bytes) == PageShare(ps[g], i, s, bytes) + PageSum(ps - {g}, i, s, bytes);
    if g != p {
      assert |(ps - {g}).Keys| < |ps.Keys| by { assert (ps - {g}).Keys == ps.Keys - {g}; }
      assert |(ps - {p}).Keys| < |ps.Keys| by { assert (ps - {p}).Keys == ps.Keys - {p}; }
      PageSumRemove(ps - {g}, p, i, s, bytes);
      PageSumRemove(ps - {p}, g, i, s, bytes);
      assert ps - {g} - {p} == ps - {p} - {g};
    }
  }

  lemma {:induction false} PageSumPut(ps: Pages, p: nat, pg: Page)
    ensures forall i, s: State, b :: 0 <= i < MAX_RINGS ==>
              PageSum(ps[p := pg], i, s, b) == PageShare(pg, i, s, b) + PageSum(ps - {p}, i, s, b)
    ensures p in ps ==> forall i, s: State, b :: 0 <= i < MAX_RINGS ==>
              PageSum(ps, i, s, b) == PageShare(ps[p], i, s, b) + PageSum(ps - {p}, i, s, b)
    ensures p !in ps ==> ps - {p} == ps
  {
    var ps' := ps[p := pg];
    forall i, s: State, b | 0 <= i < MAX_RINGS
      ensures PageSum(ps', i, s, b) == PageShare(pg, i, s, b) + PageSum(ps - {p}, i, s, b)
    {
      PageSumRemove(ps', p, i, s, b);
      assert ps' - {p} == ps - {p};
    }
    if p in ps {
      forall i, s: State, b | 0 <= i < MAX_RINGS
        ensures PageSum(ps, i, s, b) == PageShare(ps[p], i, s, b) + PageSum(ps - {p}, i, s, b)
      {
        PageSumRemove(ps, p, i, s, b);
      }
    }
  }

  // ----- the counters agree with the records -----

  type Accounts = t: seq<Account> | |t| == MAX_RINGS witness seq(MAX_RINGS, i => Account(ZEROS, ZEROS, ZEROS))
  type Pagings = t: seq<Paging> | |t| == MAX_RINGS witness seq(MAX_RINGS, i => Paging(ZEROS, ZEROS))
  type Flows = t: seq<Flow> | |t| == MAX_RINGS witness seq(MAX_RINGS, i => Flow(0, 0, 0, 0, 0))
  type Callers = t: seq<Caller> | |t| == MAX_CALLERS witness seq(MAX_CALLERS, i => Caller(false, 0, 0, 0, 0, 0, 0, 0))
  type RingInfos = t: seq<RingInfo> | |t| == MAX_RINGS
    witness seq(MAX_RINGS, i => RingInfo(false, Scope(0, 0, 0, 0), None, 0, 0, false, false, 0, 0, 0, 0, 0))

  /** Per ring and state, and for records without a ring: how many, and how many bytes. */
  ghost predicate AccountsAgree(accounts: Accounts, un: Unscoped, m: Records) {
    && (forall i, s: State :: 0 <= i < MAX_RINGS ==>
          && accounts[i].current[s] == Sum(m, RingCount(i, s))
          && accounts[i].requested[s] == Sum(m, RingRequested(i, s))
          && accounts[i].aligned[s] == Sum(m, RingAligned(i, s)))
    && un.current == Sum(m, UnscopedCount)
    && un.requested == Sum(m, UnscopedRequested)
    && un.aligned == Sum(m, UnscopedAligned)
  }

  /** One page: its reference counts, by ring and state, without ring, and in all. */
  ghost predicate PageAgrees(p: nat, pg: Page, m: Records) {
    && (forall i, s: State :: 0 <= i < MAX_RINGS ==> pg.ringState[i][s] == Sum(m, PageRing(p, i, s)))
    && pg.unscoped == Sum(m, PageUnscoped(p))
    && pg.total == Sum(m, PageTotal(p))
  }

  /** A page is tracked exactly while a record refers to it, and its counts agree. */
  ghost predicate PagesAgree(ps: Pages, m: Records) {
    && (forall p :: p in ps ==> PageAgrees(p, ps[p], m) && ps[p].total > 0)
    && (forall h :: h in m && m[h].pageTracked ==> m[h].page in ps)
  }

  /** Per ring and state: on how many tracked pages the ring has buffers, and their bytes. */
  ghost predicate RingPagesAgree(pagings: Pagings, ps: Pages) {
    forall i, s: State :: 0 <= i < MAX_RINGS ==>
      && pagings[i].uniquePages[s] == PageSum(ps, i, s, false)
      && pagings[i].backing[s] == PageSum(ps, i, s, true)
  }

  /** Storing one page keeps the page counters right if each moves by the change of that page's share. */
  lemma {:induction false} RingPagesStore(before: Pagings, ps: Pages, after: Pagings, p: nat, pg: Page)
    requires RingPagesAgree(before, ps) && p in ps
    requires forall i, s: State :: 0 <= i < MAX_RINGS ==>
               && after[i].uniquePages[s] + PageShare(ps[p], i, s, false)
                  == before[i].uniquePages[s] + PageShare(pg, i, s, false)
               && after[i].backing[s] + PageShare(ps[p], i, s, true) == before[i].backing[s] + PageShare(pg, i, s, true)
    ensures RingPagesAgree(after, ps[p := pg])
  {
    PageSumPut(ps, p, pg);
  }

  ghost predicate CallerAgrees(caller: Caller, m: Records, c: int) {
    && caller.live == Sum(m, CallerLive(c))
    && caller.requested == Sum(m, CallerRequested(c))
    && caller.aligned == Sum(m, CallerAligned(c))
    && caller.allocations == caller.releases + caller.live
  }

  ghost predicate CallersAgree(cs: Callers, m: Records) {
    forall c :: 0 <= c < MAX_CALLERS ==> CallerAgrees(cs[c], m, c)
  }

  /** Nothing is lost in a ring: what was posted was reaped, is posted, or was released while posted. */
  ghost predicate RingsConserved(flows: Flows, accounts: Accounts) {
    forall i :: 0 <= i < MAX_RINGS ==>
      var c := accounts[i].current;
      && flows[i].posts == flows[i].reaps + c[POSTED] + flows[i].releaseWhilePosted
      && flows[i].allocations == flows[i].releases + c[ALLOCATED] + c[POSTED] + c[REAPED]
  }

  /** Nothing is lost overall: what was allocated was released or is still tracked. */
  ghost predicate TotalsConserved(t: Totals, un: Unscoped, live: nat) {
    && t.allocations == t.releases + live
    && t.scopedAllocations + t.unscopedAllocations == t.allocations
    && un.current <= t.unscopedAllocations
  }

  /** The two hash tables of records fit together. */
  ghost predicate TablesAgree(m: Records, bySkb: map<nat, nat>) {
    && (forall h :: h in m ==> m[h].head == h)
    && (forall h :: h in m && m[h].skbLinked ==> m[h].skb in bySkb && bySkb[m[h].skb] == h)
    && (forall k :: k in bySkb ==> bySkb[k] in m && m[bySkb[k]].skb == k && m[bySkb[k]].skbLinked)
  }

  /** The ring in this slot has this table. */
  predicate HasTable(infos: RingInfos, i: int, idr: nat) {
    0 <= i < MAX_RINGS && infos[i].used && infos[i].idr == Some(idr)
  }

  /** This slot is the ring's. */
  predicate IsRing(infos: RingInfos, i: int, ring: nat) {
    0 <= i < MAX_RINGS && infos[i].used && infos[i].scope.ring == ring
  }

  /** A ring in use has a table, and no two slots have the same ring or the same table. */
  ghost predicate RingsDistinct(infos: RingInfos) {
    && (forall i :: 0 <= i < MAX_RINGS ==> (infos[i].used <==> infos[i].idr.Some?))
    && (forall i, j, idr :: HasTable(infos, i, idr) && HasTable(infos, j, idr) ==> i == j)
    && (forall i, j, ring :: IsRing(infos, i, ring) && IsRing(infos, j, ring) ==> i == j)
  }

  /** A buffer outside every ring has not been posted yet; rings in use are marked used, and are all different. */
  ghost predicate SlotsAgree(m: Records, infos: RingInfos) {
    && (forall h :: h in m && m[h].slot < 0 ==> m[h].state == ALLOCATED)
    && (forall h :: h in m && m[h].slot >= 0 ==> infos[m[h].slot].used)
    && RingsDistinct(infos)
  }

  /** Who a record is: this never changes while the record lives, and no two records share a generation. */
  datatype Identity = Identity(head: nat, skb: nat, page: nat)

  ghost predicate GenerationsAgree(m: Records, next: nat, born: map<nat, Identity>) {
    && (forall h :: h in m ==> 1 <= m[h].generation <= next)
    && (forall h :: h in m ==> m[h].generation in born && born[m[h].generation] == Identity(h, m[h].skb, m[h].page))
    && (forall g :: g in born ==> 1 <= g <= next)
    && (forall h, k :: h in m && k in m && m[h].generation == m[k].generation ==> h == k)
  }

  // ----- consequences of agreement -----

  /** No 16-bit page count can overflow: a page has at most as many references as there are records. */
  lemma {:induction false} PageCountsFit(p: nat, ps: Pages, m: Records, i: int, s: State)
    requires PagesAgree(ps, m) && p in ps && 0 <= i < MAX_RINGS && |m| <= MAX_RECORDS
    ensures ps[p].ringState[i][s] <= ps[p].total && ps[p].unscoped <= ps[p].total
    ensures ps[p].total <= MAX_RECORDS < 0x1_0000
  {
    SumBounded(m, PageRing(p, i, s), PageTotal(p));
    SumBounded(m, PageUnscoped(p), PageTotal(p));
    SumBounded(m, PageTotal(p), Live);
    SumLive(m);
  }

  /** A record of a tracked page has a nonzero count there, so no guard or warning can fire. */
  lemma {:induction false} OwnCountsPositive(ps: Pages, m: Records, h: nat)
    requires PagesAgree(ps, m) && h in m && m[h].pageTracked && |m| <= MAX_RECORDS
    ensures m[h].page in ps
    ensures var r := m[h]; var pg := ps[r.page];
            && 0 < pg.total <= MAX_RECORDS
            && (r.slot >= 0 ==> 0 < pg.ringState[r.slot][r.state])
            && (r.slot < 0 ==> 0 < pg.unscoped)
            && (forall i, s: State :: 0 <= i < MAX_RINGS ==> pg.ringState[i][s] <= MAX_RECORDS)
  {
    var r := m[h];
    SumPut(m, h, r);
    assert r.slot >= 0 ==> Share(PageRing(r.page, r.slot, r.state), r) == 1;
    assert r.slot < 0 ==> Share(PageUnscoped(r.page), r) == 1;
    forall i, s: State | 0 <= i < MAX_RINGS ensures ps[r.page].ringState[i][s] <= MAX_RECORDS {
      PageCountsFit(r.page, ps, m, i, s);
    }
    PageCountsFit(r.page, ps, m, 0, ALLOCATED);
  }

  /** A missing record counts nowhere. */
  function Shares(q: Metric, m: Records, h: nat): nat { if h in m then Share(q, m[h]) else 0 }

  /** Storing a record and taking it out again. */
  lemma {:induction false} StoreRemove(m: Records, h: nat, r: Record)
    ensures m[h := r] - {h} == m - {h}
    ensures h !in m ==> m - {h} == m
  {
  }

  lemma {:induction false} SumStore(m: Records, m': Records, h: nat, q: Metric)
    requires m - {h} == m' - {h}
    ensures Sum(m', q) + Shares(q, m, h) == Sum(m, q) + Shares(q, m', h)
  {
    if h in m {
      SumRemove(m, h, q);
    } else {
      assert m - {h} == m;
    }
    if h in m' {
      SumRemove(m', h, q);
    } else {
      assert m' - {h} == m';
    }
  }

  /** The counts of page p moved from before to after by what the record h adds in m' instead of in m. */
  ghost predicate Moved(before: Page, after: Page, p: nat, m: Records, m': Records, h: nat) {
    && (forall i, s: State :: 0 <= i < MAX_RINGS ==>
          after.ringState[i][s] + Shares(PageRing(p, i, s), m, h)
            == before.ringState[i][s] + Shares(PageRing(p, i, s), m', h))
    && after.unscoped + Shares(PageUnscoped(p), m, h) == before.unscoped + Shares(PageUnscoped(p), m', h)
    && after.total + Shares(PageTotal(p), m, h) == before.total + Shares(PageTotal(p), m', h)
  }

  /** The accounts moved by what the record h adds in m' instead of in m. */
  ghost predicate AccountsMoved(before: Accounts, un: Unscoped, after: Accounts, un': Unscoped, m: Records,
                                m': Records, h: nat) {
    && (forall i, s: State :: 0 <= i < MAX_RINGS ==>
          && after[i].current[s] + Shares(RingCount(i, s), m, h)
             == before[i].current[s] + Shares(RingCount(i, s), m', h)
          && after[i].requested[s] + Shares(RingRequested(i, s), m, h)
             == before[i].requested[s] + Shares(RingRequested(i, s), m', h)
          && after[i].aligned[s] + Shares(RingAligned(i, s), m, h)
             == before[i].aligned[s] + Shares(RingAligned(i, s), m', h))
    && un'.current + Shares(UnscopedCount, m, h) == un.current + Shares(UnscopedCount, m', h)
    && un'.requested + Shares(UnscopedRequested, m, h) == un.requested + Shares(UnscopedRequested, m', h)
    && un'.aligned + Shares(UnscopedAligned, m, h) == un.aligned + Shares(UnscopedAligned, m', h)
  }

  lemma {:induction false} AccountsFollow(before: Accounts, un: Unscoped, after: Accounts, un': Unscoped, m: Records,
                                          m': Records, h: nat)
    requires AccountsAgree(before, un, m) && m - {h} == m' - {h} && AccountsMoved(before, un, after, un', m, m', h)
    ensures AccountsAgree(after, un', m')
  {
    forall i, s: State | 0 <= i < MAX_RINGS
      ensures after[i].current[s] == Sum(m', RingCount(i, s))
      ensures after[i].requested[s] == Sum(m', RingRequested(i, s))
      ensures after[i].aligned[s] == Sum(m', RingAligned(i, s))
    {
      SumStore(m, m', h, RingCount(i, s));
      SumStore(m, m', h, RingRequested(i, s));
      SumStore(m, m', h, RingAligned(i, s));
    }
    SumStore(m, m', h, UnscopedCount);
    SumStore(m, m', h, UnscopedRequested);
    SumStore(m, m', h, UnscopedAligned);
  }

  /** A record's own buffers and bytes are in its account. */
  lemma {:induction false} OwnAccount(accounts: Accounts, un: Unscoped, m: Records, h: nat)
    requires AccountsAgree(accounts, un, m) && h in m
    ensures var r := m[h];
            if r.slot >= 0
            then var a := accounts[r.slot];
                 a.current[r.state] > 0 && r.requested <= a.requested[r.state]
                 && r.aligned <= a.aligned[r.state]
            else un.current > 0 && r.requested <= un.requested && r.aligned <= un.aligned
  {
    var r := m[h];
    if r.slot >= 0 {
      SumRemove(m, h, RingCount(r.slot, r.state));
      SumRemove(m, h, RingRequested(r.slot, r.state));
      SumRemove(m, h, RingAligned(r.slot, r.state));
    } else {
      SumRemove(m, h, UnscopedCount);
      SumRemove(m, h, UnscopedRequested);
      SumRemove(m, h, UnscopedAligned);
    }
  }

  lemma {:induction false} PageAfterStore(p: nat, before: Page, after: Page, m: Records, m': Records, h: nat)
    requires m - {h} == m' - {h} && PageAgrees(p, before, m) && Moved(before, after, p, m, m', h)
    ensures PageAgrees(p, after, m')
  {
    forall i, s: State | 0 <= i < MAX_RINGS ensures after.ringState[i][s] == Sum(m', PageRing(p, i, s)) {
      SumStore(m, m', h, PageRing(p, i, s));
    }
    SumStore(m, m', h, PageUnscoped(p));
    SumStore(m, m', h, PageTotal(p));
  }

  /** The record refers to page p, in m or in m'. */
  predicate Refers(m: Records, h: nat, p: nat) { h in m && m[h].pageTracked && m[h].page == p }

  lemma {:induction false} PagesElsewhere(ps: Pages, m: Records, m': Records, h: nat, p: nat)
    requires PagesAgree(ps, m) && m - {h} == m' - {h} && p in ps && !Refers(m, h, p) && !Refers(m', h, p)
    ensures PageAgrees(p, ps[p], m')
  {
    PageAfterStore(p, ps[p], ps[p], m, m', h);
  }

  /** A record moves between rings or states without leaving its page. */
  lemma {:induction false} PagesRestate(ps: Pages, m: Records, h: nat, r': Record, ps': Pages)
    requires PagesAgree(ps, m) && h in m && r'.page == m[h].page && r'.pageTracked == m[h].pageTracked
    requires if m[h].pageTracked
             then r'.page in ps' && ps' == ps[r'.page := ps'[r'.page]]
                  && Moved(ps[r'.page], ps'[r'.page], r'.page, m, m[h := r'], h)
             else ps' == ps
    ensures PagesAgree(ps', m[h := r'])
  {
    var m' := m[h := r'];
    assert m - {h} == m' - {h};
    forall p | p in ps' ensures PageAgrees(p, ps'[p], m') && ps'[p].total > 0 {
      if Refers(m, h, p) {
        PageAfterStore(p, ps[p], ps'[p], m, m', h);
      } else {
        PagesElsewhere(ps, m, m', h, p);
      }
    }
  }

  /** A page nobody refers to has nothing to count. */
  lemma {:induction false} UntrackedPage(ps: Pages, m: Records, p: nat)
    requires PagesAgree(ps, m) && p !in ps
    ensures Sum(m, PageTotal(p)) == 0 && Sum(m, PageUnscoped(p)) == 0
    ensures forall i, s: State :: Sum(m, PageRing(p, i, s)) == 0
  {
    if Sum(m, PageTotal(p)) > 0 {
      var h := SumWitness(m, PageTotal(p));
    }
    SumBounded(m, PageUnscoped(p), PageTotal(p));
    forall i, s: State ensures Sum(m, PageRing(p, i, s)) == 0 {
      SumBounded(m, PageRing(p, i, s), PageTotal(p));
    }
  }

  /** A record comes to page p, tracked already or from now on: every other page keeps its counts. */
  lemma {:induction false} PagesGain(ps: Pages, m: Records, h: nat, r: Record, before: Page, after: Page)
    requires PagesAgree(ps, m) && h !in m && r.pageTracked
    requires if r.page in ps then before == ps[r.page] else before == EmptyPage(before.order)
    requires Moved(before, after, r.page, m, m[h := r], h)
    ensures PagesAgree(ps[r.page := after], m[h := r])
  {
    var m' := m[h := r];
    var ps' := ps[r.page := after];
    assert m - {h} == m' - {h};
    if r.page !in ps {
      UntrackedPage(ps, m, r.page);
    }
    PageAfterStore(r.page, before, after, m, m', h);
    forall p | p in ps' ensures PageAgrees(p, ps'[p], m') && ps'[p].total > 0 {
      if p != r.page {
        PagesElsewhere(ps, m, m', h, p);
      }
    }
  }

  function EmptyPage(order: nat): Page {
    Page(seq<PerState>(MAX_RINGS, i => ZEROS), 0, 0, order, {}, false)
  }

  /** A record leaves page p, which is forgotten when it was the last. */
  lemma {:induction false} PagesLose(ps: Pages, m: Records, h: nat, after: Page)
    requires PagesAgree(ps, m) && h in m && m[h].pageTracked
    requires Moved(ps[m[h].page], after, m[h].page, m, m - {h}, h)
    ensures PagesAgree(if after.total == 0 then ps - {m[h].page} else ps[m[h].page := after], m - {h})
    ensures after.total == 0 ==> forall i, s: State :: 0 <= i < MAX_RINGS ==> after.ringState[i][s] == 0
  {
    var m' := m - {h};
    var page := m[h].page;
    var ps' := if after.total == 0 then ps - {page} else ps[page := after];
    assert m - {h} == m' - {h};
    PageAfterStore(page, ps[page], after, m, m', h);
    forall p | p in ps' ensures PageAgrees(p, ps'[p], m') && ps'[p].total > 0 {
      if p != page {
        PagesElsewhere(ps, m, m', h, p);
      }
    }
    if after.total == 0 {
      forall k | k in m' && m'[k].pageTracked ensures m'[k].page in ps' {
        SumRemove(m', k, PageTotal(page));
      }
      forall i, s: State | 0 <= i < MAX_RINGS ensures after.ringState[i][s] == 0 {
        SumBounded(m', PageRing(page, i, s), PageTotal(page));
      }
    }
  }

  /** Forgetting a page that no ring uses changes no page counter. */
  lemma {:induction false} RingPagesForget(pagings: Pagings, ps: Pages, p: nat)
    requires RingPagesAgree(pagings, ps) && p in ps
    requires forall i, s: State :: 0 <= i < MAX_RINGS ==> ps[p].ringState[i][s] == 0
    ensures RingPagesAgree(pagings, ps - {p})
  {
    PageSumPut(ps, p, ps[p]);
  }

  /** Nor does starting to track an empty page. */
  lemma {:induction false} RingPagesTrack(pagings: Pagings, ps: Pages, p: nat, pg: Page)
    requires RingPagesAgree(pagings, ps) && p !in ps
    requires forall i, s: State :: 0 <= i < MAX_RINGS ==> pg.ringState[i][s] == 0
    ensures RingPagesAgree(pagings, ps[p := pg])
  {
    PageSumPut(ps, p, pg);
  }

  // ----- one record changes -----

  /** Per ring and state, the number of buffers moved by what the record h is in m' instead of in m. */
  ghost predicate CurrentMoved(before: Accounts, after: Accounts, m: Records, m': Records, h: nat) {
    forall i, s: State :: 0 <= i < MAX_RINGS ==>
      after[i].current[s] + Shares(RingCount(i, s), m, h) == before[i].current[s] + Shares(RingCount(i, s), m', h)
  }

  lemma {:induction false} CurrentFollows(before: Accounts, after: Accounts, un: Unscoped, un': Unscoped, m: Records,
                                          m': Records, h: nat)
    requires AccountsAgree(before, un, m) && AccountsAgree(after, un', m') && m - {h} == m' - {h}
    ensures CurrentMoved(before, after, m, m', h)
  {
    forall i, s: State | 0 <= i < MAX_RINGS
      ensures after[i].current[s] + Shares(RingCount(i, s), m, h)
              == before[i].current[s] + Shares(RingCount(i, s), m', h)
    {
      SumStore(m, m', h, RingCount(i, s));
    }
  }

  /** Only the ring, the state and the buffer id of a record ever change. */
  predicate SameBuffer(r: Record, r': Record) {
    r' == r.(slot := r'.slot, state := r'.state, bufId := r'.bufId)
  }

  /** Such a change touches neither the callers nor the tables. */
  lemma {:induction false} RestatedCallers(m: Records, h: nat, r': Record, cs: Callers)
    requires h in m && SameBuffer(m[h], r') && CallersAgree(cs, m)
    ensures |m[h := r']| == |m| && CallersAgree(cs, m[h := r'])
  {
    var m' := m[h := r'];
    assert m'.Keys == m.Keys;
    assert |m'| == |m'.Keys| && |m| == |m.Keys|;
    StoreRemove(m, h, r');
    forall c | 0 <= c < MAX_CALLERS ensures CallerAgrees(cs[c], m', c) {
      CallerStore(m, m', h, c);
    }
  }

  /** The caller sums move by what the record h adds in m' instead of in m. */
  lemma {:induction false} CallerStore(m: Records, m': Records, h: nat, c: int)
    requires m - {h} == m' - {h}
    ensures Sum(m', CallerLive(c)) + Shares(CallerLive(c), m, h) == Sum(m, CallerLive(c)) + Shares(CallerLive(c), m', h)
    ensures Sum(m', CallerRequested(c)) + Shares(CallerRequested(c), m, h)
            == Sum(m, CallerRequested(c)) + Shares(CallerRequested(c), m', h)
    ensures Sum(m', CallerAligned(c)) + Shares(CallerAligned(c), m, h)
            == Sum(m, CallerAligned(c)) + Shares(CallerAligned(c), m', h)
  {
    SumStore(m, m', h, CallerLive(c));
    SumStore(m, m', h, CallerRequested(c));
    SumStore(m, m', h, CallerAligned(c));
  }

  lemma {:induction false} RestatedTables(m: Records, h: nat, r': Record, bySkb: map<nat, nat>)
    requires h in m && SameBuffer(m[h], r') && TablesAgree(m, bySkb)
    ensures TablesAgree(m[h := r'], bySkb)
  {
  }

  lemma {:induction false} RestatedGenerations(m: Records, h: nat, r': Record, next: nat, born: map<nat, Identity>)
    requires h in m && SameBuffer(m[h], r') && GenerationsAgree(m, next, born)
    ensures GenerationsAgree(m[h := r'], next, born)
  {
  }

  lemma {:induction false} RestatedSlots(m: Records, h: nat, r': Record, infos: RingInfos)
    requires SlotsAgree(m, infos) && r'.slot >= 0 && infos[r'.slot].used
    ensures SlotsAgree(m[h := r'], infos)
  {
  }
}
