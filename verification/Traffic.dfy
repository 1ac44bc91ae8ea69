/**
 What the traffic of a simulation has to be (simulator /pagefrag_sim.py): when
 the events of a rate come, what an event of each kind says, and which other
 event explains it. Nothing here depends on how a stream is built.
 */
module Traffic {
  import opened Basics
  import opened ReplayModel
  import opened Stream

  datatype Config = Config(
    duration: int, sample: int, radios: int, dataCapacity: int, monitorCapacity: int,
    dataRate: real, monitorRate: real, ceRate: real, dataHold: int, monitorHold: int, ceHold: int,
    jitterPercent: int, burstMax: int, laneWeights: seq<int>)
  {
    /** `validate` raises nothing. */
    predicate Valid() {
      && duration > 0 && sample > 0 && radios > 0 && dataCapacity > 0 && monitorCapacity > 0
      && dataRate >= 0.0 && monitorRate >= 0.0 && ceRate >= 0.0
      && dataHold > 0 && monitorHold > 0 && ceHold > 0
      && 0 <= jitterPercent <= 100 && burstMax > 0
      && laneWeights != [] && (forall i :: 0 <= i < |laneWeights| ==> laneWeights[i] > 0)
    }

    /** The number of ring slots, each of which always holds one posted buffer. */
    function Capacity(): int { SlotsOf(radios) }

    function SlotsOf(n: int): int { n * (dataCapacity + monitorCapacity) }

    /** How many slots a ring has; data rings and monitor rings differ in their first letter. */
    function RingCapacity(ring: string): int { if ring != "" && ring[0] == 'd' then dataCapacity else monitorCapacity }

    /** How long a buffer that has left its ring, or never had one, is held before the jitter. */
    function Hold(source: string): int {
      if source == "data" then dataHold else if source == "monitor_status" then monitorHold else ceHold
    }
  }

  function RingName(prefix: string, radio: nat): string { prefix + Digits(radio) }

  lemma {:induction false} RingLetter(prefix: string, radio: nat)
    requires prefix != ""
    ensures RingName(prefix, radio) != "" && RingName(prefix, radio)[0] == prefix[0]
  {
  }

  // ----- sorted times -----

  predicate Ascending(ts: seq<int>) { forall i, j :: 0 <= i < j < |ts| ==> ts[i] <= ts[j] }

  function InsertTime(ts: seq<int>, t: int): (r: seq<int>)
    ensures multiset(r) == multiset(ts) + multiset{t}
  {
    if ts == [] then [t]
    else
      assert ts == [ts[0]] + ts[1..];
      if t <= ts[0] then [t] + ts else [ts[0]] + InsertTime(ts[1..], t)
  }

  /** `sorted(times)` */
  function SortTimes(ts: seq<int>): (r: seq<int>)
    ensures multiset(r) == multiset(ts)
  {
    if ts == [] then [] else
      assert ts == [ts[0]] + ts[1..];
      InsertTime(SortTimes(ts[1..]), ts[0])
  }

  lemma {:induction false} InsertTimeAscends(ts: seq<int>, t: int)
    requires Ascending(ts)
    ensures Ascending(InsertTime(ts, t))
  {
    if ts != [] && t > ts[0] {
      InsertTimeAscends(ts[1..], t);
      var rest := InsertTime(ts[1..], t);
      forall k | 0 <= k < |rest| ensures ts[0] <= rest[k] {
        assert rest[k] in multiset(rest);
        assert rest[k] in ts[1..] || rest[k] == t;
      }
    }
  }

  lemma {:induction false} SortTimesAscends(ts: seq<int>)
    ensures Ascending(SortTimes(ts))
  {
    if ts != [] {
      SortTimesAscends(ts[1..]);
      InsertTimeAscends(SortTimes(ts[1..]), ts[0]);
    }
  }

  /** How many of the times are before b. */
  function Earlier(ts: seq<int>, b: int): nat {
    if ts == [] then 0 else (if ts[0] < b then 1 else 0) + Earlier(ts[1..], b)
  }

  lemma {:induction false} EarlierInserted(ts: seq<int>, t: int, b: int)
    ensures Earlier(InsertTime(ts, t), b) == Earlier(ts, b) + if t < b then 1 else 0
  {
    if ts == [] {
      assert [t][1..] == [];
    } else if t <= ts[0] {
      assert ([t] + ts)[1..] == ts;
    } else {
      EarlierInserted(ts[1..], t, b);
      assert ([ts[0]] + InsertTime(ts[1..], t))[1..] == InsertTime(ts[1..], t);
    }
  }

  lemma {:induction false} EarlierSorted(ts: seq<int>, b: int)
    ensures Earlier(SortTimes(ts), b) == Earlier(ts, b)
  {
    if ts != [] {
      EarlierSorted(ts[1..], b);
      EarlierInserted(SortTimes(ts[1..]), ts[0], b);
    }
  }

  /** If only the first k times can be before b, no more than k are. */
  lemma {:induction false} FewEarlier(ts: seq<int>, k: nat, b: int)
    requires k <= |ts| && forall i :: k <= i < |ts| ==> ts[i] >= b
    ensures Earlier(ts, b) <= k
  {
    if ts != [] {
      FewEarlier(ts[1..], if k == 0 then 0 else k - 1, b);
    }
  }

  /** If all of the first k times are before b, at least k are. */
  lemma {:induction false} ManyEarlier(ts: seq<int>, k: nat, b: int)
    requires k <= |ts| && forall i :: 0 <= i < k ==> ts[i] < b
    ensures Earlier(ts, b) >= k
  {
    if k > 0 {
      ManyEarlier(ts[1..], k - 1, b);
    }
  }

  lemma {:induction false} SortKeepsLength(ts: seq<int>)
    ensures |SortTimes(ts)| == |ts|
  {
    var s := SortTimes(ts);
    assert |s| == |multiset(s)| && |ts| == |multiset(ts)|;
  }

  /** Once the times are sorted, the k-th is no earlier than the bound of time k was, where the bounds ascend. */
  lemma {:induction false} SortedAfter(ts: seq<int>, low: seq<int>, k: nat)
    requires |low| == |ts| == |SortTimes(ts)| && Ascending(low) && k < |ts|
    requires forall i :: 0 <= i < |ts| ==> low[i] <= ts[i]
    ensures low[k] <= SortTimes(ts)[k]
  {
    hide SortTimes, Earlier;
    var s := SortTimes(ts);
    SortTimesAscends(ts);
    if s[k] < low[k] {
      EarlierSorted(ts, low[k]);
      FewEarlier(ts, k, low[k]);
      ManyEarlier(s, k + 1, low[k]);
    }
  }

  lemma {:induction false} SortedUntil(ts: seq<int>, high: seq<int>, k: nat)
    requires |high| == |ts| == |SortTimes(ts)| && Ascending(high) && k < |ts|
    requires forall i :: 0 <= i < |ts| ==> ts[i] <= high[i]
    ensures SortTimes(ts)[k] <= high[k]
  {
    hide SortTimes, Earlier;
    var s := SortTimes(ts);
    SortTimesAscends(ts);
    if s[k] > high[k] {
      EarlierSorted(ts, high[k] + 1);
      ManyEarlier(ts, k + 1, high[k] + 1);
      FewEarlier(s, k, high[k] + 1);
    }
  }

  // ----- the times of a rate -----

  /** How many events a rate gives over the duration, rounded half up. */
  function EventCount(rate: real, duration: int): nat
    requires rate >= 0.0 && duration > 0
  {
    (rate * duration as real / 1000000000.0 + 0.5).Floor
  }

  function Clamp(t: int, duration: int): (r: int)
    requires duration >= 1
    ensures 1 <= r <= duration && (1 <= t <= duration ==> r == t)
  {
    var low := if t > 1 then t else 1;
    if low < duration then low else duration
  }

  /** The k-th of n places that divide the duration evenly. */
  function Anchor(k: int, n: nat, duration: int): int { (k + 1) * duration / (n + 1) }

  /** What lies between two of the places. */
  function Gap(n: nat, duration: int): (r: int)
    requires duration >= 1
    ensures r >= 1
  {
    if duration / (n + 1) > 1 then duration / (n + 1) else 1
  }

  /** How far the events of a burst are apart. */
  function Spacing(gap: int): (r: int)
    ensures 1 <= r <= 100000
  {
    var fine := if gap / 100 < 100000 then gap / 100 else 100000;
    if fine > 1 then fine else 1
  }

  /** The k-th event comes no earlier than a third of a gap before the earliest place its burst can start at. */
  function Earliest(c: Config, n: nat, k: nat): int
    requires c.Valid()
  {
    var first := if k < c.burstMax then 0 else k - c.burstMax + 1;
    Clamp(Anchor(first, n, c.duration) - Gap(n, c.duration) / 3, c.duration)
  }

  /** It comes no later than a third of a gap and the length of a burst after its own place. */
  function Latest(c: Config, n: nat, k: nat): int
    requires c.Valid()
  {
    var gap := Gap(n, c.duration);
    Clamp(Anchor(k, n, c.duration) + gap / 3 + (c.burstMax - 1) * Spacing(gap), c.duration)
  }

  /** As many times as the rate asks for, ascending, each near its even share of the simulated time. */
  predicate Spread(c: Config, rate: real, ts: seq<int>)
    requires c.Valid() && rate >= 0.0
  {
    && |ts| == EventCount(rate, c.duration) && Ascending(ts)
    && forall k :: 0 <= k < |ts| ==> Earliest(c, |ts|, k) <= ts[k] <= Latest(c, |ts|, k)
  }

  lemma {:induction false} AnchorAscends(j: int, k: int, n: nat, duration: int)
    requires j <= k && duration >= 1
    ensures Anchor(j, n, duration) <= Anchor(k, n, duration)
  {
    assert (k - j) * duration >= 0;
    assert (j + 1) * duration <= (k + 1) * duration;
    DivideAscends((j + 1) * duration, (k + 1) * duration, n + 1);
  }

  lemma {:induction false} DivideAscends(a: int, b: int, d: int)
    requires a <= b && d > 0
    ensures a / d <= b / d
  {
    var p, q := a / d, b / d;
    assert p * d <= a && b < q * d + d;
    if p > q {
      WithinBurst(1, p - q, d);
    }
  }

  /** Event `within` of a burst that starts as event `start`, moved by a third of a gap at most, is near its place. */
  lemma {:induction false} BurstNear(c: Config, n: nat, start: nat, within: nat, jitter: int)
    requires c.Valid() && within < c.burstMax
    requires -(Gap(n, c.duration) / 3) <= jitter <= Gap(n, c.duration) / 3
    ensures var gap := Gap(n, c.duration);
            var t := Clamp(Anchor(start, n, c.duration) + jitter + within * Spacing(gap), c.duration);
            Earliest(c, n, start + within) <= t <= Latest(c, n, start + within)
  {
    hide Anchor, Spacing, Gap, Clamp;
    var k := start + within;
    var first := if k < c.burstMax then 0 else k - c.burstMax + 1;
    var gap := Gap(n, c.duration);
    AnchorAscends(first, start, n, c.duration);
    AnchorAscends(start, k, n, c.duration);
    WithinBurst(within, c.burstMax - 1, Spacing(gap));
    var moved := Anchor(start, n, c.duration) + jitter + within * Spacing(gap);
    ClampAscends(Anchor(first, n, c.duration) - gap / 3, moved, c.duration);
    ClampAscends(moved, Anchor(k, n, c.duration) + gap / 3 + (c.burstMax - 1) * Spacing(gap), c.duration);
  }

  lemma {:induction false} WithinBurst(within: int, last: int, spacing: int)
    requires 0 <= within <= last && spacing >= 0
    ensures 0 <= within * spacing <= last * spacing
  {
    assert (last - within) * spacing >= 0;
  }

  lemma {:induction false} ClampAscends(t: int, u: int, duration: int)
    requires t <= u && duration >= 1
    ensures Clamp(t, duration) <= Clamp(u, duration)
  {
  }

  lemma {:induction false} BoundsAscend(c: Config, n: nat, j: nat, k: nat)
    requires c.Valid() && j <= k
    ensures Earliest(c, n, j) <= Earliest(c, n, k) && Latest(c, n, j) <= Latest(c, n, k)
  {
    hide Anchor, Spacing, Gap;
    AnchorAscends(if j < c.burstMax then 0 else j - c.burstMax + 1, if k < c.burstMax then 0 else k - c.burstMax + 1, n,
                  c.duration);
    AnchorAscends(j, k, n, c.duration);
  }

  /** Sorting the times of all bursts spreads them. */
  lemma {:induction false} SortedSpread(c: Config, rate: real, ts: seq<int>)
    requires c.Valid() && rate >= 0.0 && |ts| == EventCount(rate, c.duration)
    requires forall k :: 0 <= k < |ts| ==> Earliest(c, |ts|, k) <= ts[k] <= Latest(c, |ts|, k)
    ensures Spread(c, rate, SortTimes(ts))
  {
    hide Earliest, Latest, SortTimes;
    var n := |ts|;
    var s := SortTimes(ts);
    var low: seq<int> := seq(n, (k: nat) => Earliest(c, n, k));
    var high: seq<int> := seq(n, (k: nat) => Latest(c, n, k));
    forall j, k | 0 <= j < k < n ensures low[j] <= low[k] && high[j] <= high[k] {
      BoundsAscend(c, n, j, k);
    }
    SortTimesAscends(ts);
    SortKeepsLength(ts);
    forall k | 0 <= k < n ensures Earliest(c, n, k) <= s[k] <= Latest(c, n, k) {
      SortedAfter(ts, low, k);
      SortedUntil(ts, high, k);
      assert low[k] == Earliest(c, n, k) && high[k] == Latest(c, n, k);
    }
  }

  lemma {:induction false} SpreadInside(c: Config, rate: real, ts: seq<int>)
    requires c.Valid() && rate >= 0.0 && Spread(c, rate, ts)
    ensures forall k :: 0 <= k < |ts| ==> 1 <= ts[k] <= c.duration
  {
    hide Anchor, Gap, Spacing;
    forall k | 0 <= k < |ts| ensures 1 <= ts[k] <= c.duration {
      assert Earliest(c, |ts|, k) <= ts[k] <= Latest(c, |ts|, k);
    }
  }

  // ----- when the events of one kind come -----

  predicate IsKind(e: Event, action: Action, source: string) { e.action == action && e.source == source }

  /** The times of the events of one action and source, in the order of the stream. */
  function TimesOf(es: seq<Event>, action: Action, source: string): seq<int>
    decreases |es|
  {
    if es == [] then []
    else
      var e := es[|es| - 1];
      TimesOf(es[..|es| - 1], action, source) + if IsKind(e, action, source) then [e.time] else []
  }

  lemma {:induction false} TimesOfOne(es: seq<Event>, e: Event, action: Action, source: string)
    ensures TimesOf(es + [e], action, source)
         == TimesOf(es, action, source) + if IsKind(e, action, source) then [e.time] else []
  {
    assert (es + [e])[..|es|] == es;
  }

  lemma {:induction false} TimesOfConcat(a: seq<Event>, b: seq<Event>, action: Action, source: string)
    ensures TimesOf(a + b, action, source) == TimesOf(a, action, source) + TimesOf(b, action, source)
    decreases |b|
  {
    if b == [] {
      assert a + b == a;
    } else {
      var n := |b| - 1;
      assert (a + b)[..|a + b| - 1] == a + b[..n];
      TimesOfConcat(a, b[..n], action, source);
    }
  }

  lemma {:induction false} TimesOfNone(es: seq<Event>, action: Action, source: string)
    requires forall i :: 0 <= i < |es| ==> !IsKind(es[i], action, source)
    ensures TimesOf(es, action, source) == []
    decreases |es|
  {
    if es != [] {
      TimesOfNone(es[..|es| - 1], action, source);
    }
  }

  /** Every time of a kind is the time of an event of that kind. */
  lemma {:induction false} TimeOf(es: seq<Event>, i: nat, action: Action, source: string)
    requires i < |es| && IsKind(es[i], action, source)
    ensures exists j :: 0 <= j < |TimesOf(es, action, source)| && TimesOf(es, action, source)[j] == es[i].time
    decreases |es|
  {
    var n := |es| - 1;
    var ts := TimesOf(es[..n], action, source);
    if i < n {
      TimeOf(es[..n], i, action, source);
      var j :| 0 <= j < |ts| && ts[j] == es[i].time;
      assert TimesOf(es, action, source)[j] == es[i].time;
    } else {
      assert TimesOf(es, action, source)[|ts|] == es[i].time;
    }
  }

  lemma {:induction false} LastIsLatest(es: seq<Event>, i: nat, action: Action, source: string)
    requires i < |es| - 1 && IsKind(es[i], action, source) && IsKind(es[|es| - 1], action, source)
    requires Ascending(TimesOf(es, action, source))
    ensures es[i].time <= es[|es| - 1].time
  {
    var head, e := es[..|es| - 1], es[|es| - 1];
    TimeOf(head, i, action, source);
    var ts := TimesOf(head, action, source);
    var m :| 0 <= m < |ts| && ts[m] == es[i].time;
    assert TimesOf(es, action, source) == ts + [e.time];
    assert (ts + [e.time])[m] == es[i].time && (ts + [e.time])[|ts|] == e.time;
  }

  lemma {:induction false} AscendingHead(a: seq<int>, b: seq<int>)
    requires Ascending(a + b)
    ensures Ascending(a)
  {
    forall i, j | 0 <= i < j < |a| ensures a[i] <= a[j] {
      assert (a + b)[i] == a[i] && (a + b)[j] == a[j];
    }
  }

  lemma {:induction false} TimesOfInserted(es: seq<Event>, e: Event, k: nat, action: Action, source: string)
    requires k <= |es|
    requires IsKind(e, action, source) ==> forall i :: 0 <= i < |es[k..]| ==> !IsKind(es[k..][i], action, source)
    ensures TimesOf(es[..k] + [e] + es[k..], action, source)
         == TimesOf(es, action, source) + if IsKind(e, action, source) then [e.time] else []
  {
    hide TimesOf, IsKind;
    assert es == es[..k] + es[k..];
    TimesOfConcat(es[..k], es[k..], action, source);
    TimesOfConcat(es[..k] + [e], es[k..], action, source);
    TimesOfOne(es[..k], e, action, source);
    if IsKind(e, action, source) {
      TimesOfNone(es[k..], action, source);
    }
  }

  /** Sorting a stream whose events of a kind were built in order of time leaves them in that order. */
  lemma {:induction false} TimesOfSorted(es: seq<Event>, action: Action, source: string)
    requires Numbered(es) && Ascending(TimesOf(es, action, source))
    ensures TimesOf(Sort(es), action, source) == TimesOf(es, action, source)
    decreases |es|
  {
    hide Sort, Insert, Place, Before, TimesOf, Ascending, IsKind;
    if es == [] {
      SortNothing();
    } else {
      var n := |es| - 1;
      var head, s, e := es[..n], Sort(es[..n]), es[n];
      assert es == head + [e];
      TimesOfOne(head, e, action, source);
      AscendingHead(TimesOf(head, action, source), if IsKind(e, action, source) then [e.time] else []);
      TimesOfSorted(head, action, source);
      SortOnce(es);
      InsertParts(s, e);
      if IsKind(e, action, source) {
        LaterAreNotSo(es, action, source);
      }
      TimesOfInserted(s, e, Place(s, e), action, source);
    }
  }

  lemma {:induction false} SortNothing()
    ensures Sort([]) == []
  {
  }

  lemma {:induction false} SortOnce(es: seq<Event>)
    requires es != []
    ensures Sort(es) == Insert(Sort(es[..|es| - 1]), es[|es| - 1])
  {
  }

  /** What sorts after the last event of a stream is not of its kind. */
  lemma {:induction false} LaterAreNotSo(es: seq<Event>, action: Action, source: string)
    requires Numbered(es) && es != [] && Ascending(TimesOf(es, action, source))
    requires IsKind(es[|es| - 1], action, source)
    ensures var n := |es| - 1; var later := Sort(es[..n])[Place(Sort(es[..n]), es[n])..];
            forall i :: 0 <= i < |later| ==> !IsKind(later[i], action, source)
  {
    hide Sort, Place;
    var n := |es| - 1;
    var head, s, e := es[..n], Sort(es[..n]), es[n];
    SortSorts(head);
    var k := Place(s, e);
    forall i | k <= i < |s| ensures !IsKind(s[i], action, source) {
      MemberOfSort(head, s[i]);
      var j :| 0 <= j < n && head[j] == s[i];
      assert es[j] == s[i] && es[j].seqNo < e.seqNo;
      PlaceStops(s, e);
      assert !Before(s[k], e) && (i == k || Before(s[k], s[i]));
      assert s[i].time > e.time;
      if IsKind(s[i], action, source) {
        LastIsLatest(es, j, action, source);
      }
    }
  }

  lemma {:induction false} PlaceStops(es: seq<Event>, e: Event)
    ensures Place(es, e) < |es| ==> !Before(es[Place(es, e)], e)
  {
  }

  // ----- what an event of each kind says -----

  ghost predicate LaneOk(c: Config, lane: string) { exists i: nat :: i < |c.laneWeights| && lane == "lane" + Digits(i) }

  ghost predicate RingOk(c: Config, prefix: string, ring: string) {
    exists radio: nat :: radio < c.radios && ring == RingName(prefix, radio)
  }

  /** An event of a ring: a posted buffer has a lane and a size, a leaving one says neither. */
  ghost predicate RingEvent(c: Config, e: Event, source: string, prefix: string, lifetime: string, capacity: int) {
    && e.source == source && RingOk(c, prefix, e.ring) && e.lifetime == lifetime && 0 <= e.slot < capacity
    && e.action != Alloc
    && if e.action == Post then LaneOk(c, e.lane) && e.requested == 2176 && e.aligned == 2560
       else e.lane == "" && e.requested == 0 && e.aligned == 0
  }

  /** An event of a buffer that no ring holds. */
  ghost predicate TransientEvent(c: Config, e: Event) {
    && e.source == "ce" && RingOk(c, "ce", e.ring) && e.lifetime == "short" && e.slot == -1 && LaneOk(c, e.lane)
    && (e.action == Alloc || e.action == Free)
    && if e.action == Alloc then e.requested == 2048 && e.aligned == 2432 else e.requested == 0 && e.aligned == 0
  }

  ghost predicate Shaped(c: Config, e: Event) {
    || RingEvent(c, e, "data", "data", "long", c.dataCapacity)
    || RingEvent(c, e, "monitor_status", "monitor", "short", c.monitorCapacity)
    || TransientEvent(c, e)
  }

  // ----- which event explains which -----

  /** The two events are about one place of one kind of traffic. */
  predicate SamePlace(e: Event, f: Event) {
    e.source == f.source && e.ring == f.ring && e.slot == f.slot && e.lifetime == f.lifetime
  }

  /** The buffer that is reaped was posted in this slot before. */
  predicate Takes(p: Event, r: Event) {
    p.action == Post && r.action == Reap && p.id == r.id && SamePlace(p, r) && p.seqNo < r.seqNo && p.time <= r.time
  }

  /** The next event posts a fresh buffer in the slot from which one is reaped, at the same time. */
  predicate Refills(r: Event, p: Event) {
    && r.action == Reap && p.action == Post && SamePlace(r, p) && p.time == r.time && p.seqNo == r.seqNo + 1
    && p.id != r.id
  }

  /** The hold of the source, give or take the jitter, and never less than one. */
  predicate Held(c: Config, source: string, life: int) {
    var hold := c.Hold(source);
    life >= 1 && hold - hold * c.jitterPercent / 100 <= life <= hold + hold * c.jitterPercent / 100
  }

  /** The buffer that is reaped or allocated by the first event is freed by the second when its hold ends. */
  predicate Frees(c: Config, r: Event, f: Event) {
    && (r.action == Reap || r.action == Alloc) && f.action == Free && r.id == f.id && SamePlace(r, f)
       && r.lane == f.lane
    && Held(c, r.source, f.time - r.time)
  }

  /** The hold of the buffer may end after the simulated time. */
  predicate MayOutlive(c: Config, r: Event) {
    var hold := c.Hold(r.source);
    r.time + hold + hold * c.jitterPercent / 100 > c.duration
  }

  ghost predicate FreedInTime(c: Config, es: seq<Event>, r: Event) {
    MayOutlive(c, r) || exists f :: f in es && Frees(c, r, f)
  }

  /** One of the posts that fill the rings at the start. */
  predicate Seeds(c: Config, e: Event) { e.action == Post && e.time == 0 && e.seqNo < c.Capacity() }

  ghost predicate Explained(c: Config, es: seq<Event>, e: Event) {
    match e.action
    case Post => Seeds(c, e) || exists r :: r in es && Refills(r, e)
    case Reap => (exists p :: p in es && Takes(p, e)) && (exists p :: p in es && Refills(e, p)) && FreedInTime(c, es, e)
    case Alloc => FreedInTime(c, es, e)
    case Free => exists r :: r in es && Frees(c, r, e)
  }

  /** Every event is one of the traffic's and has its reason in the stream. */
  ghost predicate Lawful(c: Config, es: seq<Event>) {
    forall e :: e in es ==> Shaped(c, e) && Explained(c, es, e)
  }

  /** A buffer has been posted in this slot of this ring. */
  ghost predicate PostedThere(es: seq<Event>, ring: string, slot: int, id: nat) {
    exists p :: p in es && p.action == Post && p.id == id && p.ring == ring && p.slot == slot
  }

  /** One of the first posts is for this slot of this ring. */
  ghost predicate SeededThere(c: Config, es: seq<Event>, ring: string, slot: int) {
    exists p :: p in es && Seeds(c, p) && p.ring == ring && p.slot == slot
  }

  /** Every slot of every ring is filled at the start. */
  ghost predicate Sown(c: Config, es: seq<Event>) {
    forall radio: nat, slot :: radio < c.radios ==>
      && (0 <= slot < c.dataCapacity ==> SeededThere(c, es, RingName("data", radio), slot))
      && (0 <= slot < c.monitorCapacity ==> SeededThere(c, es, RingName("monitor", radio), slot))
  }

  /** Reasons are not lost when a stream grows or is sorted. */
  lemma {:induction false} ExplainedMore(c: Config, es: seq<Event>, more: seq<Event>, e: Event)
    requires Explained(c, es, e) && forall f :: f in es ==> f in more
    ensures Explained(c, more, e)
  {
    hide Refills, Takes, Frees, Seeds, MayOutlive;
  }

  lemma {:induction false} SownMore(c: Config, es: seq<Event>, more: seq<Event>)
    requires Sown(c, es) && forall f :: f in es ==> f in more
    ensures Sown(c, more)
  {
    hide Seeds;
    forall radio: nat, slot | radio < c.radios
      ensures 0 <= slot < c.dataCapacity ==> SeededThere(c, more, RingName("data", radio), slot)
      ensures 0 <= slot < c.monitorCapacity ==> SeededThere(c, more, RingName("monitor", radio), slot)
    {
      assert 0 <= slot < c.dataCapacity ==> SeededThere(c, es, RingName("data", radio), slot);
      assert 0 <= slot < c.monitorCapacity ==> SeededThere(c, es, RingName("monitor", radio), slot);
    }
  }

  /** Sorting keeps all of it. */
  lemma {:induction false} LawfulSorted(c: Config, es: seq<Event>)
    requires Lawful(c, es) && Sown(c, es)
    ensures Lawful(c, Sort(es)) && Sown(c, Sort(es))
  {
    hide Shaped, Explained, Sown, Sort;
    var s := Sort(es);
    forall e ensures e in s <==> e in es {
      MemberOfSort(es, e);
    }
    SownMore(c, es, s);
    forall e | e in s ensures Shaped(c, e) && Explained(c, s, e) {
      ExplainedMore(c, es, s, e);
    }
  }

  // ----- how many events there are, and when -----

  function Zeros(n: int): seq<int> {
    if n <= 0 then [] else Zeros(n - 1) + [0]
  }

  /** Each source has the events its rate asks for; its posts are those that fill the rings and one for each reap. */
  ghost predicate Complete(c: Config, es: seq<Event>)
    requires c.Valid()
  {
    && Spread(c, c.dataRate, TimesOf(es, Reap, "data"))
    && Spread(c, c.monitorRate, TimesOf(es, Reap, "monitor_status"))
    && Spread(c, c.ceRate, TimesOf(es, Alloc, "ce"))
    && TimesOf(es, Post, "data") == Zeros(c.radios * c.dataCapacity) + TimesOf(es, Reap, "data")
    && TimesOf(es, Post, "monitor_status")
       == Zeros(c.radios * c.monitorCapacity) + TimesOf(es, Reap, "monitor_status")
  }

  lemma {:induction false} SpreadAscends(c: Config, rate: real, ts: seq<int>)
    requires c.Valid() && rate >= 0.0 && Spread(c, rate, ts)
    ensures Ascending(ts)
  {
  }

  lemma {:induction false} ZerosThen(n: int, ts: seq<int>)
    requires Ascending(ts) && forall i :: 0 <= i < |ts| ==> ts[i] >= 0
    ensures Ascending(Zeros(n) + ts)
  {
    ZerosZero(n);
    var all := Zeros(n) + ts;
    forall i, j | 0 <= i < j < |all| ensures all[i] <= all[j] {
      assert all[i] == if i < |Zeros(n)| then Zeros(n)[i] else ts[i - |Zeros(n)|];
      assert all[j] == if j < |Zeros(n)| then Zeros(n)[j] else ts[j - |Zeros(n)|];
    }
  }

  lemma {:induction false} ZerosZero(n: int)
    ensures forall i :: 0 <= i < |Zeros(n)| ==> Zeros(n)[i] == 0
    decreases if n <= 0 then 0 else n
  {
    if n > 0 {
      ZerosZero(n - 1);
    }
  }

  /** Seeding, the turnovers of both kinds of ring, and the transients together, sorted. */
  lemma {:induction false} Completed(c: Config, es0: seq<Event>, es1: seq<Event>, es2: seq<Event>, es: seq<Event>,
                                     data: seq<int>, monitor: seq<int>, ce: seq<int>)
    requires c.Valid() && Numbered(es)
    requires forall s :: TimesOf(es0, Reap, s) == [] && TimesOf(es0, Alloc, s) == []
    requires TimesOf(es0, Post, "data") == Zeros(c.radios * c.dataCapacity)
    requires TimesOf(es0, Post, "monitor_status") == Zeros(c.radios * c.monitorCapacity)
    requires GrownBy(es0, es1, {Reap, Post}, "data", data) && Spread(c, c.dataRate, data)
    requires GrownBy(es1, es2, {Reap, Post}, "monitor_status", monitor) && Spread(c, c.monitorRate, monitor)
    requires GrownBy(es2, es, {Alloc}, "ce", ce) && Spread(c, c.ceRate, ce)
    ensures Complete(c, Sort(es))
  {
    hide TimesOf, Zeros, Spread, Sort, GrownBy, Numbered, Complete;
    assert [] + data == data && [] + monitor == monitor && [] + ce == ce;
    var both := {Reap, Post};
    GrownOf(es0, es1, both, "data", data);
    GrownOf(es1, es2, both, "monitor_status", monitor);
    GrownOf(es2, es, {Alloc}, "ce", ce);
    RingSorted(c, es, c.dataRate, "data", data, c.radios * c.dataCapacity);
    RingSorted(c, es, c.monitorRate, "monitor_status", monitor, c.radios * c.monitorCapacity);
    SpreadAscends(c, c.ceRate, ce);
    TimesOfSorted(es, Alloc, "ce");
    CompleteParts(c, Sort(es));
  }

  lemma {:induction false} CompleteParts(c: Config, es: seq<Event>)
    requires c.Valid()
    requires Spread(c, c.dataRate, TimesOf(es, Reap, "data"))
    requires Spread(c, c.monitorRate, TimesOf(es, Reap, "monitor_status"))
    requires Spread(c, c.ceRate, TimesOf(es, Alloc, "ce"))
    requires TimesOf(es, Post, "data") == Zeros(c.radios * c.dataCapacity) + TimesOf(es, Reap, "data")
    requires TimesOf(es, Post, "monitor_status")
          == Zeros(c.radios * c.monitorCapacity) + TimesOf(es, Reap, "monitor_status")
    ensures Complete(c, es)
  {
    hide Spread, TimesOf, Zeros;
  }

  /** Sorting leaves the reaps and the posts of one kind of ring at the times at which they were built. */
  lemma {:induction false} RingSorted(c: Config, es: seq<Event>, rate: real, source: string, ts: seq<int>, n: int)
    requires c.Valid() && rate >= 0.0 && Numbered(es) && Spread(c, rate, ts)
    requires TimesOf(es, Reap, source) == ts && TimesOf(es, Post, source) == Zeros(n) + ts
    ensures TimesOf(Sort(es), Reap, source) == ts && TimesOf(Sort(es), Post, source) == Zeros(n) + ts
  {
    hide TimesOf, Zeros, Spread, Sort, Numbered, Ascending;
    SpreadPosted(c, rate, ts, n);
    TimesOfSorted(es, Reap, source);
    TimesOfSorted(es, Post, source);
  }

  /** What has grown, kind by kind. */
  lemma {:induction false} GrownOf(es: seq<Event>, more: seq<Event>, actions: set<Action>, source: string,
                                   ts: seq<int>)
    requires GrownBy(es, more, actions, source, ts) && Free !in actions
    ensures forall a :: a in actions ==> TimesOf(more, a, source) == TimesOf(es, a, source) + ts
    ensures forall a, s :: a != Free && (a !in actions || s != source) ==> TimesOf(more, a, s) == TimesOf(es, a, s)
  {
    hide TimesOf;
  }

  lemma {:induction false} SpreadPosted(c: Config, rate: real, ts: seq<int>, n: int)
    requires c.Valid() && rate >= 0.0 && Spread(c, rate, ts)
    ensures Ascending(ts) && Ascending(Zeros(n) + ts)
  {
    hide Zeros;
    SpreadAscends(c, rate, ts);
    SpreadInside(c, rate, ts);
    ZerosThen(n, ts);
  }

  // ----- a stream as it grows -----

  /** The stream has grown by events of these times for each of these actions of the source, and by frees. */
  ghost predicate GrownBy(es: seq<Event>, more: seq<Event>, actions: set<Action>, source: string, ts: seq<int>) {
    forall a, s :: a != Free ==>
      TimesOf(more, a, s) == if a in actions && s == source then TimesOf(es, a, s) + ts else TimesOf(es, a, s)
  }

  lemma {:induction false} GrownByNothing(es: seq<Event>, actions: set<Action>, source: string)
    ensures GrownBy(es, es, actions, source, [])
  {
    hide TimesOf;
    forall a, s ensures TimesOf(es, a, s) == TimesOf(es, a, s) + [] {
    }
  }

  lemma {:induction false} GrownByBoth(es: seq<Event>, es1: seq<Event>, es2: seq<Event>, actions: set<Action>,
                                       source: string, ts: seq<int>, us: seq<int>)
    requires GrownBy(es, es1, actions, source, ts) && GrownBy(es1, es2, actions, source, us)
    ensures GrownBy(es, es2, actions, source, ts + us)
  {
    hide TimesOf;
    forall a, s | a != Free
      ensures TimesOf(es2, a, s)
           == if a in actions && s == source then TimesOf(es, a, s) + (ts + us) else TimesOf(es, a, s)
    {
      Associates(TimesOf(es, a, s), ts, us);
      assert a in actions && s == source ==> TimesOf(es1, a, s) == TimesOf(es, a, s) + ts;
    }
  }

  /** A reap, a post of the same time, and a free or nothing. */
  lemma {:induction false} GrownByTurn(es: seq<Event>, reap: Event, post: Event, more: seq<Event>)
    requires reap.action == Reap && post.action == Post && reap.source == post.source && reap.time == post.time
    requires |more| <= 1 && forall f :: f in more ==> f.action == Free
    ensures GrownBy(es, es + [reap] + [post] + more, {Reap, Post}, reap.source, [reap.time])
  {
    hide TimesOf;
    var es1, es2 := es + [reap], es + [reap] + [post];
    forall a, s | a != Free
      ensures TimesOf(es2 + more, a, s)
           == if a in {Reap, Post} && s == reap.source then TimesOf(es, a, s) + [reap.time] else TimesOf(es, a, s)
    {
      TimesOfOne(es, reap, a, s);
      TimesOfOne(es1, post, a, s);
      FreesHaveNoTime(es2, more, a, s);
    }
  }

  lemma {:induction false} GrownByAlloc(es: seq<Event>, alloc: Event, more: seq<Event>)
    requires alloc.action == Alloc && |more| <= 1 && forall f :: f in more ==> f.action == Free
    ensures GrownBy(es, es + [alloc] + more, {Alloc}, alloc.source, [alloc.time])
  {
    hide TimesOf;
    forall a, s | a != Free
      ensures TimesOf(es + [alloc] + more, a, s)
           == if a in {Alloc} && s == alloc.source then TimesOf(es, a, s) + [alloc.time] else TimesOf(es, a, s)
    {
      TimesOfOne(es, alloc, a, s);
      FreesHaveNoTime(es + [alloc], more, a, s);
    }
  }

  lemma {:induction false} FreesHaveNoTime(es: seq<Event>, more: seq<Event>, action: Action, source: string)
    requires action != Free && forall f :: f in more ==> f.action == Free
    ensures TimesOf(es + more, action, source) == TimesOf(es, action, source)
  {
    TimesOfConcat(es, more, action, source);
    forall i | 0 <= i < |more| ensures !IsKind(more[i], action, source) {
      assert more[i] in more;
    }
    TimesOfNone(more, action, source);
  }

  lemma {:induction false} LawfulGrown(c: Config, es: seq<Event>, more: seq<Event>)
    requires Lawful(c, es) && forall e :: e in more ==> Shaped(c, e) && Explained(c, es + more, e)
    ensures Lawful(c, es + more)
  {
    hide Shaped, Explained;
    forall e | e in es + more ensures Shaped(c, e) && Explained(c, es + more, e) {
      if e in es {
        ExplainedMore(c, es, es + more, e);
      }
    }
  }

  /** One of the posts that fill the rings. */
  lemma {:induction false} LawfulSeed(c: Config, es: seq<Event>, e: Event)
    requires Lawful(c, es) && Shaped(c, e) && Seeds(c, e)
    ensures Lawful(c, es + [e])
  {
    hide Shaped;
    LawfulGrown(c, es, [e]);
  }

  /** A whole turnover: what leaves was posted there, what comes takes its place, and the free is in time. */
  lemma {:induction false} LawfulTurn(c: Config, es: seq<Event>, first: Event, reap: Event, post: Event,
                                      more: seq<Event>)
    requires Lawful(c, es) && first in es && Takes(first, reap) && Refills(reap, post)
    requires Shaped(c, reap) && Shaped(c, post)
    requires if more == [] then MayOutlive(c, reap) else |more| == 1 && Frees(c, reap, more[0]) && Shaped(c, more[0])
    ensures Lawful(c, es + [reap] + [post] + more)
  {
    hide Shaped, MayOutlive, Held, SamePlace, Lawful;
    var tail := [reap, post] + more;
    var all := es + tail;
    assert es + [reap] + [post] + more == all;
    assert first in all && reap in all && post in all;
    forall e | e in tail ensures Shaped(c, e) && Explained(c, all, e) {
      assert e == reap || e == post || (more != [] && e == more[0]);
      assert more != [] ==> more[0] in all;
    }
    LawfulGrown(c, es, tail);
  }

  lemma {:induction false} LawfulTransient(c: Config, es: seq<Event>, alloc: Event, more: seq<Event>)
    requires Lawful(c, es) && alloc.action == Alloc && Shaped(c, alloc)
    requires if more == [] then MayOutlive(c, alloc) else |more| == 1 && Frees(c, alloc, more[0]) && Shaped(c, more[0])
    ensures Lawful(c, es + [alloc] + more)
  {
    hide Shaped, MayOutlive, Held, SamePlace, Lawful;
    var tail := [alloc] + more;
    var all := es + tail;
    assert es + [alloc] + more == all;
    assert alloc in all;
    forall e | e in tail ensures Shaped(c, e) && Explained(c, all, e) {
      assert e == alloc || (more != [] && e == more[0]);
      assert more != [] ==> more[0] in all;
    }
    LawfulGrown(c, es, tail);
  }
}
