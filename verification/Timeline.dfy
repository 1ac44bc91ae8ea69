/**
 `ScenarioReplay.replay` (simulator /pagefrag_sim.py): events in time order, a row
 of statistics at every sample time, and time integrals of the aggregate in between.
 */
module Timeline {
  import PageFrag
  import opened ReplayModel
  import opened Replay
  import opened Stream
  import EventBuilder
  import Traffic

  /** What `_stats` reports about the buffers and the pages. */
  datatype Row = Row(time: int, live: nat, posted: int, reaped: int, aggregate: Field -> int)

  /** Time never runs backwards, starts at 0 and stays inside the simulated time. */
  predicate InTime(es: seq<Event>, duration: int) {
    && (forall i :: 0 <= i < |es| ==> 0 <= es[i].time <= duration)
    && (forall i, j :: 0 <= i < j < |es| ==> es[i].time <= es[j].time)
  }

  /** The i-th sample time. */
  function Due(i: nat, sample: int): int { i * sample }

  /**
   The aggregate is the one computed from scratch for this store: with the usage of every page summed over its
   live records, every field is the sum of the parts of all pages.
   */
  ghost predicate FromScratch(aggregate: Field -> int, policy: Policy, s: Store) {
    exists usage: map<nat, Usage> ::
      UsagesAgree(usage, s.live) && AggregateAgrees(aggregate, Books(StorePages(policy, s), usage, s.tags))
  }

  /** What a row shows is what the events up to its time lead to under the policy. */
  ghost predicate RowRight(row: Row, policy: Policy, es: seq<Event>) {
    var up := UpTo(es, row.time);
    var s := StoreAfter(policy, up);
    && Sensible(policy, up) && RowCounts(row, es, s.live) && Project(s.live) == After(up)
    && FromScratch(row.aggregate, policy, s)
  }

  predicate RowCounts(row: Row, es: seq<Event>, live: Live) {
    && row.live == |live| && row.posted == |PostedIds(live)| == Net(es, row.time)
    && row.reaped == |live| - |PostedIds(live)|
  }

  /** Row i is for the i-th multiple of the sample time, and shows what the events up to then lead to. */
  ghost predicate RowsRight(rows: seq<Row>, sample: int, policy: Policy, es: seq<Event>) {
    forall i :: 0 <= i < |rows| ==> rows[i].time == Due(i, sample) && RowRight(rows[i], policy, es)
  }

  /** A row shows the aggregate of its nanosecond, or the present one if that has not been integrated yet. */
  ghost predicate RowsLevel(rows: seq<Row>, levels: seq<Field -> int>, now: Field -> int) {
    forall i :: 0 <= i < |rows| ==>
      rows[i].time >= 0 && rows[i].aggregate == if rows[i].time < |levels| then levels[rows[i].time] else now
  }

  /** Nothing has changed since. */
  ghost predicate Steady(levels: seq<Field -> int>, since: int, now: Field -> int) {
    forall t :: 0 <= since <= t < |levels| ==> levels[t] == now
  }

  lemma {:induction false} SteadyIntegrated(levels: seq<Field -> int>, now: Field -> int, n: nat)
    ensures Steady(levels + Constant(now, n), |levels|, now)
  {
  }

  /** The level of a field summed over all nanoseconds so far. */
  ghost function Area(levels: seq<Field -> int>, q: Field): int {
    if levels == [] then 0 else Area(levels[..|levels| - 1], q) + levels[|levels| - 1](q)
  }

  function Constant(level: Field -> int, n: nat): seq<Field -> int> { seq(n, (i: nat) => level) }

  lemma {:induction false} AreaConstant(levels: seq<Field -> int>, level: Field -> int, n: nat, q: Field)
    ensures Area(levels + Constant(level, n), q) == Area(levels, q) + level(q) * n
  {
    if n == 0 {
      assert levels + Constant(level, 0) == levels;
    } else {
      AreaConstant(levels, level, n - 1, q);
      assert (levels + Constant(level, n))[..|levels| + n - 1] == levels + Constant(level, n - 1);
    }
  }

  lemma {:induction false} RowsIntegrated(rows: seq<Row>, levels: seq<Field -> int>, now: Field -> int, n: nat)
    requires RowsLevel(rows, levels, now) && forall i :: 0 <= i < |rows| ==> rows[i].time < |levels| + n
    ensures forall then' :: RowsLevel(rows, levels + Constant(now, n), then')
  {
  }

  lemma {:induction false} RowAdded(rows: seq<Row>, levels: seq<Field -> int>, since: int, now: Field -> int, row: Row)
    requires RowsLevel(rows, levels, now) && 0 <= since <= row.time && Steady(levels, since, now)
    requires row.aggregate == now
    ensures RowsLevel(rows + [row], levels, now)
  {
  }

  lemma {:induction false} RowDue(rows: seq<Row>, sample: int, policy: Policy, es: seq<Event>, row: Row)
    requires RowsRight(rows, sample, policy, es) && row.time == Due(|rows|, sample) && RowRight(row, policy, es)
    ensures RowsRight(rows + [row], sample, policy, es)
  {
    hide RowRight, Due;
  }

  /** A later event does not change what earlier rows show. */
  lemma {:induction false} RowsEarlier(rows: seq<Row>, sample: int, policy: Policy, es: seq<Event>, e: Event)
    requires RowsRight(rows, sample, policy, es) && forall i :: 0 <= i < |rows| ==> rows[i].time < e.time
    ensures RowsRight(rows, sample, policy, es + [e])
  {
    hide RowRight, Due;
    forall i | 0 <= i < |rows| ensures RowRight(rows[i], policy, es + [e]) {
      RowEarlier(rows[i], policy, es, e);
    }
  }

  lemma {:induction false} RowEarlier(row: Row, policy: Policy, es: seq<Event>, e: Event)
    requires RowRight(row, policy, es) && row.time < e.time
    ensures RowRight(row, policy, es + [e])
  {
    hide FromScratch, After, StoreAfter, Sensible, Project, UpTo, Net;
    LaterEvent(es, e, row.time);
  }

  lemma {:induction false} LaterEvent(es: seq<Event>, e: Event, t: int)
    requires t < e.time
    ensures UpTo(es + [e], t) == UpTo(es, t) && Net(es + [e], t) == Net(es, t)
  {
    assert (es + [e])[..|es|] == es;
  }

  // ----- the replayed buffers and the stream's status -----

  function Project(live: Live): Status { map i | i in live :: live[i].posted }

  /** What makes sense for the stream can be replayed, under every policy, with the same outcome. */
  lemma {:induction false} ProjectStep(policy: Policy, live: Live, live': Live, e: Event)
    ensures StatusOk(Project(live), e) ==> EventOk(policy, live, e)
    ensures EventOk(policy, live, e) && EventDone(live, live', e) ==> Project(live') == StatusStep(Project(live), e)
  {
  }

  lemma {:induction false} PostedStep(policy: Policy, live: Live, live': Live, e: Event, t: int)
    requires EventOk(policy, live, e) && EventDone(live, live', e) && e.time <= t
    ensures |PostedIds(live')| == |PostedIds(live)| + Delta(e, t)
  {
    match e.action
    case Post => assert PostedIds(live') == PostedIds(live) + {e.id};
    case Alloc => assert PostedIds(live') == PostedIds(live);
    case Reap => assert PostedIds(live') == PostedIds(live) - {e.id};
    case Free => assert PostedIds(live') == PostedIds(live);
  }

  /** The stream so far has been replayed. */
  ghost predicate Replayed(policy: Policy, es: seq<Event>, s: Store, last: int) {
    && (forall i :: 0 <= i < |es| ==> es[i].time <= last)
    && (forall t :: t >= last ==> Net(es, t) == |PostedIds(s.live)|)
    && Project(s.live) == After(es) && s == StoreAfter(policy, es) && Sensible(policy, es)
  }

  lemma {:induction false} ReplayedMore(policy: Policy, es: seq<Event>, s: Store, s': Store, e: Event, last: int)
    requires Replayed(policy, es, s, last) && EventOk(policy, s.live, e) && EventDone(s.live, s'.live, e)
    requires s' == StoreStep(policy, s, e) && e.time <= last
    ensures Replayed(policy, es + [e], s', last)
  {
    hide StoreStep, EventOk, EventDone, Project, StatusStep;
    ProjectStep(policy, s.live, s'.live, e);
    assert (es + [e])[..|es|] == es;
    forall t | t >= last ensures Net(es + [e], t) == |PostedIds(s'.live)| {
      PostedStep(policy, s.live, s'.live, e, t);
    }
  }

  /** If the whole stream can be replayed, its next event can. */
  lemma {:induction false} NextOk(policy: Policy, es: seq<Event>, k: nat, s: Store, last: int)
    requires k < |es| && Replayed(policy, es[..k], s, last) && Run(map[], es).Some?
    ensures EventOk(policy, s.live, es[k])
  {
    hide StoreAfter, Sensible, Net, After;
    assert es == es[..k] + es[k..];
    RunConcat(map[], es[..k], es[k..]);
    AfterRun(es[..k]);
    ProjectStep(policy, s.live, s.live, es[k]);
  }

  lemma {:induction false} ReplayedLater(policy: Policy, es: seq<Event>, s: Store, last: int, later: int)
    requires Replayed(policy, es, s, last) && last <= later
    ensures Replayed(policy, es, s, later)
  {
    hide StoreAfter, Sensible, Net, After, Project;
  }

  lemma {:induction false} ReplayedNone(policy: Policy)
    ensures Replayed(policy, [], NEW_STORE, 0)
  {
    assert Project(NEW_STORE.live) == map[] && PostedIds(NEW_STORE.live) == {};
  }

  /** A row of the present state is right. */
  lemma {:induction false} RowNow(r: ScenarioReplay, es: seq<Event>, last: int, row: Row)
    requires r.Valid() && Replayed(r.policy, es, r.TheStore(), last) && last <= row.time
    requires row == Row(row.time, |r.live|, r.posted, r.reaped, r.aggregate)
    ensures RowRight(row, r.policy, es)
  {
    hide ScenarioReplay.Valid, FromScratch, RowCounts, After, Net, StoreAfter, Sensible, UpTo, Project;
    UpToAll(es, row.time);
    CountsNow(r, es, last, row);
    ScratchNow(r);
  }

  lemma {:induction false} CountsNow(r: ScenarioReplay, es: seq<Event>, last: int, row: Row)
    requires r.Valid() && Replayed(r.policy, es, r.TheStore(), last) && last <= row.time
    requires row == Row(row.time, |r.live|, r.posted, r.reaped, r.aggregate)
    ensures RowCounts(row, es, r.live)
  {
    hide ScenarioReplay.Placed, UsagesAgree, AggregateAgrees, After, Net, StoreAfter, Sensible, Project, PostedIds;
  }

  lemma {:induction false} ScratchNow(r: ScenarioReplay)
    requires r.Valid()
    ensures FromScratch(r.aggregate, r.policy, r.TheStore())
  {
    hide ScenarioReplay.Placed, UsagesAgree, AggregateAgrees, StatesAgree;
    assert r.TheBooks() == Books(StorePages(r.policy, r.TheStore()), r.usage, r.tags);
  }

  /** So the events up to a row's time fix every field that it shows. */
  lemma {:induction false} RowFixed(row: Row, row': Row, policy: Policy, es: seq<Event>, q: Field)
    requires RowRight(row, policy, es) && RowRight(row', policy, es) && row.time == row'.time
    ensures row.live == row'.live && row.posted == row'.posted && row.reaped == row'.reaped
    ensures row.aggregate(q) == row'.aggregate(q)
  {
    hide FromScratch, After, StoreAfter, UpTo, Net;
    ScratchFixed(row.aggregate, row'.aggregate, policy, StoreAfter(policy, UpTo(es, row.time)), q);
  }

  lemma {:induction false} ScratchFixed(one: Field -> int, other: Field -> int, policy: Policy, s: Store, q: Field)
    requires FromScratch(one, policy, s) && FromScratch(other, policy, s)
    ensures one(q) == other(q)
  {
    hide UsagesAgree, AggregateAgrees, Total, Part;
    var pages := StorePages(policy, s);
    var u: map<nat, Usage> :| UsagesAgree(u, s.live) && AggregateAgrees(one, Books(pages, u, s.tags));
    var u': map<nat, Usage> :| UsagesAgree(u', s.live) && AggregateAgrees(other, Books(pages, u', s.tags));
    SameTotals(pages, s.live, u, u', s.tags, q);
    AggregateIs(one, Books(pages, u, s.tags), q);
    AggregateIs(other, Books(pages, u', s.tags), q);
  }

  lemma {:induction false} AggregateIs(aggregate: Field -> int, b: Books, q: Field)
    requires AggregateAgrees(aggregate, b)
    ensures aggregate(q) == Total(q, b, b.pages.Keys)
  {
  }

  lemma {:induction false} SameTotals(pages: map<nat, PageFrag.Page>, live: Live, u: map<nat, Usage>,
                                      u': map<nat, Usage>, tags: map<nat, Tags>, q: Field)
    requires UsagesAgree(u, live) && UsagesAgree(u', live)
    ensures Total(q, Books(pages, u, tags), pages.Keys) == Total(q, Books(pages, u', tags), pages.Keys)
  {
    hide UsageAgrees;
    var b, b' := Books(pages, u, tags), Books(pages, u', tags);
    forall p | p in pages ensures Part(q, b, p) == Part(q, b', p) {
      assert UsageAgrees(UsageOf(u, p), live, p) && UsageAgrees(UsageOf(u', p), live, p);
      OneUsage(UsageOf(u, p), UsageOf(u', p), live, p);
    }
    TotalSame(q, b, pages.Keys, b', pages.Keys);
  }

  lemma {:induction false} Multiple(n: nat, sample: int)
    ensures Due(n + 1, sample) == Due(n, sample) + sample
  {
  }

  /** Rows from before the present moment do not look at the present aggregate. */
  lemma {:induction false} RowsSettled(rows: seq<Row>, levels: seq<Field -> int>, now: Field -> int,
                                       then': Field -> int)
    requires RowsLevel(rows, levels, now) && forall i :: 0 <= i < |rows| ==> rows[i].time < |levels|
    ensures RowsLevel(rows, levels, then') && Steady(levels, |levels|, then')
  {
  }

  // ----- the clock -----

  /** A replay with its clock: what has been integrated, up to when, and nanosecond by nanosecond. */
  class TimedReplay {
    const replay: ScenarioReplay
    const duration: int
    const sample: int
    var lastIntegrated: int
    var byteNs: Field -> int
    ghost var levels: seq<Field -> int>

    constructor (policy: Policy, duration: int, sample: int)
      requires duration > 0 && sample > 0
      ensures this.duration == duration && this.sample == sample
      ensures Fresh() && fresh(replay) && replay.policy == policy
    {
      replay := new ScenarioReplay(policy);
      this.duration, this.sample := duration, sample;
      lastIntegrated, byteNs, levels := 0, q => 0, [];
    }

    /** Nothing has been replayed yet. */
    ghost predicate Fresh()
      reads this, replay
    {
      Clocked() && lastIntegrated == 0 && replay.Valid() && replay.TheStore() == NEW_STORE
    }

    ghost predicate Clocked()
      reads this
    {
      && duration > 0 && sample > 0 && lastIntegrated == |levels|
      && (forall q: Field :: byteNs(q) == Area(levels, q))
    }

    /** The rows so far are right for the events so far, and nothing has happened since the last of them. */
    ghost predicate Ticked(es: seq<Event>, timeline: seq<Row>, nextSample: int, since: int)
      reads this, replay
    {
      && Clocked() && replay.Valid() && 0 <= since <= lastIntegrated
      && Replayed(replay.policy, es, replay.TheStore(), since)
      && RowsRight(timeline, sample, replay.policy, es) && RowsLevel(timeline, levels, replay.aggregate)
         && Steady(levels, since, replay.aggregate)
      && nextSample == Due(|timeline|, sample) && (nextSample >= since || nextSample > duration)
    }

    /** `_stats` */
    method Stats(time: int) returns (row: Row)
      ensures row == Row(time, |replay.live|, replay.posted, replay.reaped, replay.aggregate)
    {
      row := Row(time, |replay.live|, replay.posted, replay.reaped, replay.aggregate);
    }

    /** `_integrate_to`: raises exactly when time would run backwards. */
    method IntegrateTo(time: int) returns (ok: bool)
      requires Clocked()
      modifies this`lastIntegrated, this`byteNs, this`levels
      ensures ok <==> old(lastIntegrated) <= time
      ensures ok ==>
              Clocked() && lastIntegrated == time
              && levels == old(levels) + Constant(replay.aggregate, time - old(lastIntegrated))
      ensures !ok ==> unchanged(this)
    {
      var delta := time - lastIntegrated;
      if delta < 0 {
        return false;
      }
      var before, level, n: nat := byteNs, replay.aggregate, delta;
      byteNs := q => before(q) + level(q) * n;
      forall q: Field ensures Area(levels + Constant(level, n), q) == byteNs(q) {
        AreaConstant(levels, level, n, q);
      }
      levels := levels + Constant(level, n);
      lastIntegrated := time;
      ok := true;
    }

    /** The rows that are due before a time, but not after the end. */
    method SampleUntil(before: int, ghost es: seq<Event>, timeline: seq<Row>, nextSample: int, ghost since: int)
      returns (timeline': seq<Row>, nextSample': int)
      requires Ticked(es, timeline, nextSample, since)
      ensures Ticked(es, timeline', nextSample', since)
      ensures |timeline| <= |timeline'| && timeline'[..|timeline|] == timeline
      ensures forall i :: |timeline| <= i < |timeline'| ==> timeline'[i].time < before && timeline'[i].time <= duration
      ensures nextSample' >= before || nextSample' > duration
    {
      hide Clocked, ScenarioReplay.Valid, Replayed, RowsRight, RowsLevel, Steady, Due;
      timeline', nextSample' := timeline, nextSample;
      while nextSample' < before && nextSample' <= duration
        invariant Ticked(es, timeline', nextSample', since) && |timeline| <= |timeline'|
        invariant timeline'[..|timeline|] == timeline
        invariant forall i :: |timeline| <= i < |timeline'| ==>
                  timeline'[i].time < before && timeline'[i].time <= duration
        decreases before - nextSample'
      {
        timeline', nextSample' := AddRow(es, timeline', nextSample', since);
      }
    }

    /** The row that is due. */
    method AddRow(ghost es: seq<Event>, timeline: seq<Row>, nextSample: int, ghost since: int)
      returns (timeline': seq<Row>, nextSample': int)
      requires Ticked(es, timeline, nextSample, since) && nextSample >= since
      ensures Ticked(es, timeline', nextSample', since) && nextSample' > nextSample
      ensures |timeline'| == |timeline| + 1 && timeline'[..|timeline|] == timeline
      ensures timeline'[|timeline|].time == nextSample
    {
      hide ScenarioReplay.Valid, Replayed, RowsRight, RowsLevel, Steady, Due, Net, Area, RowRight;
      var row := Stats(nextSample);
      RowNow(replay, es, since, row);
      RowDue(timeline, sample, replay.policy, es, row);
      RowAdded(timeline, levels, since, replay.aggregate, row);
      timeline', nextSample' := timeline + [row], nextSample + sample;
      Multiple(|timeline|, sample);
    }

    /** All the events of one time. */
    method ProcessTime(events: seq<Event>, index: nat, timeline: seq<Row>, ghost nextSample: int)
      returns (ok: bool, index': nat)
      requires index < |events| && events[index].time == lastIntegrated
      requires Ticked(events[..index], timeline, nextSample, lastIntegrated)
      requires forall i :: 0 <= i < |timeline| ==> timeline[i].time < lastIntegrated
      modifies replay
      ensures ok ==> index < index' <= |events| && Ticked(events[..index'], timeline, nextSample, lastIntegrated)
      ensures ok ==> (forall i :: index <= i < index' ==> events[i].time == lastIntegrated)
      ensures ok ==> index' == |events| || events[index'].time != lastIntegrated
      ensures Run(map[], events).Some? ==> ok
    {
      hide Clocked, ScenarioReplay.Valid, Replayed, RowsRight, RowsLevel, Steady, Run, EventOk, EventDone, Due;
      index' := index;
      ok := true;
      while index' < |events| && events[index'].time == lastIntegrated
        invariant index <= index' <= |events|
        invariant Ticked(events[..index'], timeline, nextSample, lastIntegrated)
        invariant forall i :: index <= i < index' ==> events[i].time == lastIntegrated
      {
        ghost var s, before := replay.TheStore(), replay.aggregate;
        var e := events[index'];
        if Run(map[], events).Some? {
          NextOk(replay.policy, events, index', s, lastIntegrated);
        }
        ClockedSize(this);
        ok := replay.Process(e);
        if !ok {
          return;
        }
        ReplayedMore(replay.policy, events[..index'], s, replay.TheStore(), e, lastIntegrated);
        RowsEarlier(timeline, sample, replay.policy, events[..index'], e);
        assert events[..index'] + [e] == events[..index' + 1];
        RowsSettled(timeline, levels, before, replay.aggregate);
        index' := index' + 1;
      }
    }

    /** One round of the loop: the rows before the next event's time, the events of that time, and its own row. */
    method ReplayTime(events: seq<Event>, index: nat, timeline: seq<Row>, nextSample: int)
      returns (ok: bool, timeline': seq<Row>, index': nat, nextSample': int)
      requires index < |events| && Between(events, index, timeline, nextSample)
      modifies this`lastIntegrated, this`byteNs, this`levels, replay
      ensures ok ==> index < index' <= |events| && Between(events, index', timeline', nextSample')
      ensures Run(map[], events).Some? && InTime(events, duration) ==> ok
    {
      hide Clocked, ScenarioReplay.Valid, Replayed, RowsRight, RowsLevel, Steady, Run, Due, Processed, InTime;
      index' := index;
      var time := events[index].time;
      NextTime(events, index, lastIntegrated, duration);
      timeline', nextSample' := SampleUntil(time, events[..index], timeline, nextSample, lastIntegrated);
      ghost var last, before := lastIntegrated, levels;
      ok := IntegrateTo(time);
      if !ok {
        return;
      }
      ClockedSize(this);
      RowsIntegrated(timeline', before, replay.aggregate, time - last);
      SteadyIntegrated(levels, replay.aggregate, 0);
      assert levels + Constant(replay.aggregate, 0) == levels;
      ReplayedLater(replay.policy, events[..index], replay.TheStore(), last, time);
      ok, index' := ProcessTime(events, index, timeline', nextSample');
      if !ok {
        return;
      }
      ProcessedMore(events, index, index', last, time);
      if nextSample' == time {
        timeline', nextSample' := AddRow(events[..index'], timeline', nextSample', time);
      }
    }

    /** What holds between two rounds. */
    ghost predicate Between(events: seq<Event>, index: nat, timeline: seq<Row>, nextSample: int)
      reads this, replay
    {
      && index <= |events| && Ticked(events[..index], timeline, nextSample, lastIntegrated)
         && Processed(events, index, lastIntegrated)
      && (forall i :: 0 <= i < |timeline| ==> timeline[i].time <= lastIntegrated) && (index == 0 ==> timeline == [])
    }

    /**
     `replay`: a stream in time order that makes sense is replayed to the end; and a replay that comes to
     its end has a row for every sample time up to the duration, right in every row.
     */
    method Replay(events: seq<Event>) returns (ok: bool, timeline: seq<Row>)
      requires Fresh()
      modifies this`lastIntegrated, this`byteNs, this`levels, replay
      ensures Run(map[], events).Some? && InTime(events, duration) ==> ok
      ensures ok ==> InTime(events, duration) && replay.Valid() && Clocked() && lastIntegrated == duration
      ensures ok ==> |timeline| == duration / sample + 1 && RowsRight(timeline, sample, replay.policy, events)
      ensures ok ==> RowsLevel(timeline, levels, replay.aggregate)
    {
      hide Clocked, ScenarioReplay.Valid, Replayed, RowsRight, RowsLevel, Steady, Run, Due, InTime, Processed;
      var index, nextSample := 0, 0;
      ok, timeline := true, [];
      StartReplay(this, events);
      while index < |events|
        invariant Between(events, index, timeline, nextSample)
      {
        ok, timeline, index, nextSample := ReplayTime(events, index, timeline, nextSample);
        if !ok {
          return;
        }
      }
      assert events[..|events|] == events;
      ClockedSize(this);
      AllProcessed(events, lastIntegrated, duration);
      ghost var last, before := lastIntegrated, levels;
      ok := IntegrateTo(duration);
      if !ok {
        return;
      }
      ClockedSize(this);
      FinalRows(timeline, before, replay.aggregate, duration - last);
      timeline, nextSample := SampleUntil(duration + 1, events, timeline, nextSample, last);
      RowCount(timeline, sample, replay.policy, events, duration);
    }
  }

  /** The events before index have been processed: all those up to the last time, in order. */
  predicate Processed(events: seq<Event>, index: nat, last: int) {
    && index <= |events| && last >= 0
    && (forall i :: 0 <= i < index ==> 0 <= events[i].time <= last)
    && (forall i, j :: 0 <= i < j < index ==> events[i].time <= events[j].time)
    && (if index == 0
        then last == 0
        else events[index - 1].time == last && (index < |events| ==> events[index].time != last))
  }

  lemma {:induction false} NextTime(events: seq<Event>, index: nat, last: int, duration: int)
    requires Processed(events, index, last) && index < |events|
    ensures InTime(events, duration) ==> last <= events[index].time
    ensures index > 0 ==> last != events[index].time
  {
  }

  lemma {:induction false} ProcessedMore(events: seq<Event>, index: nat, index': nat, last: int, time: int)
    requires Processed(events, index, last) && index < index' <= |events| && last <= time
    requires forall i :: index <= i < index' ==> events[i].time == time
    requires index' == |events| || events[index'].time != time
    ensures Processed(events, index', time)
  {
  }

  lemma {:induction false} AllProcessed(events: seq<Event>, last: int, duration: int)
    requires Processed(events, |events|, last) && duration > 0
    ensures InTime(events, duration) <==> last <= duration
  {
  }

  lemma {:induction false} ClockedSize(r: TimedReplay)
    requires r.Clocked()
    ensures |r.levels| == r.lastIntegrated && r.duration > 0 && r.sample > 0
  {
  }

  lemma {:induction false} StartReplay(r: TimedReplay, events: seq<Event>)
    requires r.Fresh()
    ensures r.Between(events, 0, [], 0)
  {
    ReplayedNone(r.replay.policy);
    assert events[..0] == [];
  }

  lemma {:induction false} FinalRows(rows: seq<Row>, levels: seq<Field -> int>, now: Field -> int, n: nat)
    requires RowsLevel(rows, levels, now)
    requires forall i :: 0 <= i < |rows| ==> rows[i].time <= |levels|
    ensures RowsLevel(rows, levels + Constant(now, n), now)
    ensures Steady(levels + Constant(now, n), |levels|, now)
  {
  }

  lemma {:induction false} RowCount(rows: seq<Row>, sample: int, policy: Policy, es: seq<Event>, duration: int)
    requires RowsRight(rows, sample, policy, es) && sample > 0 && duration > 0
    requires Due(|rows|, sample) > duration && forall i :: 0 <= i < |rows| ==> rows[i].time <= duration
    ensures |rows| == duration / sample + 1
  {
    var n := |rows|;
    assert n > 0;
    assert rows[n - 1].time == Due(n - 1, sample);
    Multiple(n - 1, sample);
    Quotient(duration, sample, n - 1);
  }

  lemma {:induction false} Quotient(d: int, s: int, q: int)
    requires s > 0 && q * s <= d < q * s + s
    ensures d / s == q
  {
    var k := d / s;
    var m := d % s;
    assert d == k * s + m && 0 <= m < s;
    if k < q {
      Grows(k + 1, q, s);
    } else if k > q {
      Grows(q + 1, k, s);
    }
  }

  lemma {:induction false} Grows(a: int, b: int, s: int)
    requires a <= b && s > 0
    ensures a * s <= b * s && a * s == (a - 1) * s + s
  {
    assert (b - a) * s >= 0;
  }

  /**
   The whole simulation of one policy: whatever the generator rolls, the stream that is built for a valid
   configuration replays without error, with one row per sample time, each showing every ring slot posted.
   */
  method Simulate(config: Traffic.Config, seed: bv64, policy: Policy)
    returns (ok: bool, timeline: seq<Row>, ghost stream: seq<Event>)
    requires config.Valid()
    ensures ok && |timeline| == config.duration / config.sample + 1
    ensures forall i :: 0 <= i < |timeline| ==>
              && timeline[i].time == i * config.sample && timeline[i].posted == config.Capacity()
              && timeline[i].reaped == timeline[i].live - config.Capacity()
    ensures RowsRight(timeline, config.sample, policy, stream) && Sorted(stream)
    ensures Traffic.Lawful(config, stream) && Traffic.Sown(config, stream) && Traffic.Complete(config, stream)
  {
    hide Run, Net, Traffic.Lawful, Traffic.Sown, Traffic.Complete;
    var builder := new EventBuilder.EventBuilder(config, seed);
    var events := builder.Build();
    stream := events;
    BuiltInTime(events, config.duration);
    var timed := new TimedReplay(policy, config.duration, config.sample);
    ok, timeline := timed.Replay(events);
    RowsPosted(timeline, config.sample, policy, events, config.Capacity());
  }

  lemma {:induction false} BuiltInTime(events: seq<Event>, duration: int)
    requires Sorted(events) && forall i :: 0 <= i < |events| ==> 0 <= events[i].time <= duration
    ensures InTime(events, duration)
  {
    forall i, j | 0 <= i < j < |events| ensures events[i].time <= events[j].time {
      assert Before(events[i], events[j]);
    }
  }

  lemma {:induction false} RowsPosted(rows: seq<Row>, sample: int, policy: Policy, es: seq<Event>, capacity: int)
    requires RowsRight(rows, sample, policy, es) && sample > 0 && forall t :: t >= 0 ==> Net(es, t) == capacity
    ensures forall i :: 0 <= i < |rows| ==>
              rows[i].time == i * sample && rows[i].posted == capacity && rows[i].reaped == rows[i].live - capacity
  {
    hide FromScratch, After, StoreAfter, UpTo, Net;
    forall i | 0 <= i < |rows|
      ensures rows[i].time == i * sample && rows[i].posted == capacity && rows[i].reaped == rows[i].live - capacity
    {
      assert rows[i].time == Due(i, sample) && i * sample >= 0 && RowRight(rows[i], policy, es);
    }
  }
}
