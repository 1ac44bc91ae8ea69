/**
 `EventBuilder` (simulator /pagefrag_sim.py): generates the traffic of a
 simulation as a list of events and freezes it in time order.
 */
module EventBuilder {
  import opened Basics
  import PageFrag
  import opened ReplayModel
  import opened Stream
  import opened Traffic

  /** The generator used only while a stream is being built. */
  class SplitMix64 {
    var state: bv64

    constructor (seed: bv64) { state := seed; }

    method NextU64() returns (value: bv64)
      modifies this
    {
      state := state + 0x9E3779B97F4A7C15;
      value := state;
      value := (value ^ (value >> 30)) * 0xBF58476D1CE4E5B9;
      value := (value ^ (value >> 27)) * 0x94D049BB133111EB;
      value := value ^ (value >> 31);
    }

    method Below(bound: nat) returns (r: nat)
      requires bound > 0
      modifies this
      ensures r < bound
    {
      var u := NextU64();
      r := (u as int) % bound;
    }

    /** Swaps from the back; whatever the generator says, nothing is lost. */
    method Shuffle<T>(values: array<T>)
      modifies this, values
      ensures multiset(values[..]) == multiset(old(values[..]))
    {
      var index := values.Length - 1;
      while index > 0
        invariant index < values.Length
        invariant multiset(values[..]) == multiset(old(values[..]))
      {
        var other := Below(index + 1);
        values[index], values[other] := values[other], values[index];
        index := index - 1;
      }
    }
  }

  datatype Seed = Seed(source: string, ring: string, lifetime: string, slot: nat)

  type Slots = map<string, seq<nat>>

  /** The ids in the slots are posted, and no id is in two slots. */
  ghost predicate SlotsHold(slots: Slots, st: Status) {
    && (forall r, k :: r in slots && 0 <= k < |slots[r]| && slots[r][k] != 0 ==> slots[r][k] in st && st[slots[r][k]])
    && (forall r, k, q, l ::
          r in slots && 0 <= k < |slots[r]| && q in slots && 0 <= l < |slots[q]| && (r != q || k != l) ==>
          slots[r][k] == 0 || slots[r][k] != slots[q][l])
  }

  /** Everything that happened to the buffer up to now happened up to time t. */
  predicate QuietAfter(es: seq<Event>, id: nat, t: int) {
    forall i :: 0 <= i < |es| && es[i].id == id ==> es[i].time <= t
  }

  /** The buffers in the slots of the rings with this prefix have been quiet since t. */
  ghost predicate RingsQuiet(es: seq<Event>, slots: Slots, prefix: string, t: int) {
    forall radio: nat, k ::
      RingName(prefix, radio) in slots && 0 <= k < |slots[RingName(prefix, radio)]| ==>
        QuietAfter(es, slots[RingName(prefix, radio)][k], t)
  }

  /** What has been built so far can be replayed as it stands, and sorted. */
  ghost predicate Built(es: seq<Event>, nextId: nat, duration: int) {
    && Numbered(es) && TimesOk(es) && OnceEach(es) && Run(map[], es).Some?
    && (forall i :: 0 <= i < |es| ==> 0 < es[i].id < nextId && 0 <= es[i].time <= duration)
  }

  /** The status after everything built so far. */
  function Now(es: seq<Event>): Status {
    var r := Run(map[], es);
    if r.Some? then r.value else map[]
  }

  lemma {:induction false} RunAppend(es: seq<Event>, e: Event)
    requires Run(map[], es).Some? && StatusOk(Now(es), e)
    ensures Run(map[], es + [e]) == Some(StatusStep(Now(es), e))
  {
    RunConcat(map[], es, [e]);
    RunOne(Now(es), e);
  }

  /** No event is about this id. */
  predicate New(es: seq<Event>, id: nat) { forall i :: 0 <= i < |es| ==> es[i].id != id }

  /** One more event keeps everything, if it makes sense now and its buffer has been quiet. */
  lemma {:induction false} BuiltAppend(es: seq<Event>, nextId: nat, duration: int, e: Event)
    requires Built(es, nextId, duration) && StatusOk(Now(es), e) && QuietAfter(es, e.id, e.time)
    requires e.seqNo == |es| && 0 < e.id < nextId && 0 <= e.time <= duration
    requires GivesOut(e) ==> New(es, e.id)
    ensures Built(es + [e], nextId, duration) && Now(es + [e]) == StatusStep(Now(es), e)
    ensures forall t :: Net(es + [e], t) == Net(es, t) + Delta(e, t)
  {
    RunAppend(es, e);
    forall t ensures Net(es + [e], t) == Net(es, t) + Delta(e, t) {
      assert (es + [e])[..|es + [e]| - 1] == es;
    }
  }

  lemma {:induction false} BuiltMoreIds(es: seq<Event>, nextId: nat, duration: int)
    requires Built(es, nextId, duration)
    ensures Built(es, nextId + 1, duration) && QuietAfter(es, nextId, 0) && nextId !in Now(es) && New(es, nextId)
  {
    KnownIds(map[], es, nextId);
  }

  /** Only ids that occur in a stream have a status after it. */
  lemma {:induction false} KnownIds(st: Status, es: seq<Event>, id: nat)
    requires Run(st, es).Some? && id !in st && forall i :: 0 <= i < |es| ==> es[i].id != id
    ensures id !in Run(st, es).value
    decreases |es|
  {
    if es != [] {
      KnownIds(StatusStep(st, es[0]), es[1..], id);
    }
  }

  // ----- the slots of the rings -----

  lemma {:induction false} DataIsNotMonitor(a: nat, b: nat)
    ensures RingName("data", a) != RingName("monitor", b)
  {
    assert RingName("data", a)[0] == 'd' && RingName("monitor", b)[0] == 'm';
  }

  /** Every radio has its two rings, with all their slots. */
  ghost predicate Laid(slots: Slots, c: Config, radios: int) {
    && (forall r :: r in slots ==> |slots[r]| == c.RingCapacity(r))
    && (forall radio: nat :: radio < radios ==> RingName("data", radio) in slots && RingName("monitor", radio) in slots)
  }

  predicate Filled(slots: Slots) { forall r, k :: r in slots && 0 <= k < |slots[r]| ==> slots[r][k] != 0 }

  /** Some seed from position j on is for this slot. */
  predicate Pending(seeds: seq<Seed>, j: nat, ring: string, slot: nat) {
    exists i :: j <= i < |seeds| && seeds[i].ring == ring && seeds[i].slot == slot
  }

  /** Each seed has its slot, and each slot is filled or has a seed to come. */
  ghost predicate Covers(seeds: seq<Seed>, j: nat, slots: Slots) {
    && (forall i :: 0 <= i < |seeds| ==> seeds[i].ring in slots && seeds[i].slot < |slots[seeds[i].ring]|)
    && (forall r, k :: r in slots && 0 <= k < |slots[r]| ==> slots[r][k] != 0 || Pending(seeds, j, r, k))
  }

  function RingSeeds(source: string, ring: string, lifetime: string, n: nat): seq<Seed> {
    seq(n, (k: nat) => Seed(source, ring, lifetime, k))
  }

  /** The seed is for a slot of a ring of a radio, with what the ring's buffers have. */
  ghost predicate SeedOk(c: Config, s: Seed) {
    || (s.source == "data" && RingOk(c, "data", s.ring) && s.lifetime == "long" && s.slot < c.dataCapacity)
    || (s.source == "monitor_status" && RingOk(c, "monitor", s.ring) && s.lifetime == "short"
        && s.slot < c.monitorCapacity)
  }

  ghost predicate SeedsOk(c: Config, seeds: seq<Seed>) { forall i :: 0 <= i < |seeds| ==> SeedOk(c, seeds[i]) }

  /** How many seeds are of one source. */
  function SeedCount(seeds: seq<Seed>, source: string): nat {
    if seeds == [] then 0
    else SeedCount(seeds[..|seeds| - 1], source) + if seeds[|seeds| - 1].source == source then 1 else 0
  }

  lemma {:induction false} SeedCountConcat(a: seq<Seed>, b: seq<Seed>, source: string)
    ensures SeedCount(a + b, source) == SeedCount(a, source) + SeedCount(b, source)
    decreases |b|
  {
    if b == [] {
      assert a + b == a;
    } else {
      var n := |b| - 1;
      assert (a + b)[..|a + b| - 1] == a + b[..n];
      SeedCountConcat(a, b[..n], source);
    }
  }

  lemma {:induction false} SeedCountOfRing(seeds: seq<Seed>, own: string, source: string)
    requires forall i :: 0 <= i < |seeds| ==> seeds[i].source == own
    ensures SeedCount(seeds, source) == if own == source then |seeds| else 0
    decreases |seeds|
  {
    if seeds != [] {
      SeedCountOfRing(seeds[..|seeds| - 1], own, source);
    }
  }

  /** Shuffling changes no count. */
  lemma {:induction false} SeedCountShuffled(a: seq<Seed>, b: seq<Seed>, source: string)
    requires multiset(a) == multiset(b)
    ensures SeedCount(a, source) == SeedCount(b, source)
    decreases |b|
  {
    assert |a| == |multiset(a)| && |b| == |multiset(b)|;
    if b != [] {
      var n := |b| - 1;
      assert b[n] in multiset(a);
      var i :| 0 <= i < |a| && a[i] == b[n];
      SeedWithout(a, i, source);
      SeedWithout(b, n, source);
      assert b[..n] + b[n + 1..] == b[..n];
      SeedCountShuffled(a[..i] + a[i + 1..], b[..n], source);
    }
  }

  lemma {:induction false} SeedWithout(a: seq<Seed>, i: nat, source: string)
    requires i < |a|
    ensures multiset(a[..i] + a[i + 1..]) == multiset(a) - multiset{a[i]}
    ensures SeedCount(a, source) == SeedCount(a[..i] + a[i + 1..], source) + if a[i].source == source then 1 else 0
  {
    assert a == a[..i] + [a[i]] + a[i + 1..];
    SeedCountConcat(a[..i] + [a[i]], a[i + 1..], source);
    SeedCountConcat(a[..i], [a[i]], source);
    SeedCountConcat(a[..i], a[i + 1..], source);
  }

  /** The seeds of one radio. */
  lemma {:induction false} RadioSeeds(c: Config, radio: nat, seeds: seq<Seed>)
    requires c.Valid() && radio < c.radios
    requires seeds == RingSeeds("data", RingName("data", radio), "long", c.dataCapacity)
                      + RingSeeds("monitor_status", RingName("monitor", radio), "short", c.monitorCapacity)
    ensures SeedsOk(c, seeds)
    ensures SeedCount(seeds, "data") == c.dataCapacity && SeedCount(seeds, "monitor_status") == c.monitorCapacity
  {
    hide RingName;
    var data := RingSeeds("data", RingName("data", radio), "long", c.dataCapacity);
    var monitor := RingSeeds("monitor_status", RingName("monitor", radio), "short", c.monitorCapacity);
    SeedCountConcat(data, monitor, "data");
    SeedCountConcat(data, monitor, "monitor_status");
    SeedCountOfRing(data, "data", "data");
    SeedCountOfRing(data, "data", "monitor_status");
    SeedCountOfRing(monitor, "monitor_status", "data");
    SeedCountOfRing(monitor, "monitor_status", "monitor_status");
    assert RingOk(c, "data", RingName("data", radio)) && RingOk(c, "monitor", RingName("monitor", radio));
    forall i | 0 <= i < |seeds| ensures SeedOk(c, seeds[i]) {
      assert seeds[i] == if i < |data| then data[i] else monitor[i - |data|];
    }
  }

  lemma {:induction false} SeedsOkShuffled(c: Config, a: seq<Seed>, b: seq<Seed>)
    requires SeedsOk(c, a) && multiset(a) == multiset(b)
    ensures SeedsOk(c, b)
  {
    hide SeedOk;
    forall i | 0 <= i < |b| ensures SeedOk(c, b[i]) {
      assert b[i] in multiset(b);
      assert b[i] in a;
    }
  }

  /** Shuffled seeds cover the same slots. */
  lemma {:induction false} CoversShuffled(a: seq<Seed>, b: seq<Seed>, slots: Slots)
    requires Covers(a, 0, slots) && multiset(a) == multiset(b)
    ensures Covers(b, 0, slots) && |a| == |b|
  {
    assert |a| == |multiset(a)| && |b| == |multiset(b)|;
    forall i | 0 <= i < |b| ensures b[i].ring in slots && b[i].slot < |slots[b[i].ring]| {
      assert b[i] in multiset(b);
      assert b[i] in a;
    }
    forall r, k | r in slots && 0 <= k < |slots[r]| && slots[r][k] == 0 ensures Pending(b, 0, r, k) {
      var i :| 0 <= i < |a| && a[i].ring == r && a[i].slot == k;
      assert a[i] in multiset(a);
      assert a[i] in b;
      var m :| 0 <= m < |b| && b[m] == a[i];
    }
  }

  function Placed(slots: Slots, ring: string, slot: nat, id: nat): Slots
    requires ring in slots && slot < |slots[ring]|
  {
    var ids: seq<nat> := slots[ring][slot := id];
    slots[ring := ids]
  }

  lemma {:induction false} CoversPlaced(seeds: seq<Seed>, j: nat, slots: Slots, id: nat)
    requires Covers(seeds, j, slots) && j < |seeds| && id > 0
    ensures Covers(seeds, j + 1, Placed(slots, seeds[j].ring, seeds[j].slot, id))
  {
    var slots' := Placed(slots, seeds[j].ring, seeds[j].slot, id);
    forall r, k | r in slots' && 0 <= k < |slots'[r]| && slots'[r][k] == 0 ensures Pending(seeds, j + 1, r, k) {
      assert slots[r][k] == 0 && Pending(seeds, j, r, k);
    }
  }

  /** The slot of a buffer that leaves it may get a fresh one. */
  lemma {:induction false} SlotsPlaced(slots: Slots, st: Status, st': Status, ring: string, slot: nat, id: nat)
    requires SlotsHold(slots, st) && ring in slots && slot < |slots[ring]| && id !in st && id > 0
    requires id in st' && st'[id]
    requires forall i :: i in st && i != slots[ring][slot] ==> i in st' && st'[i] == st[i]
    ensures SlotsHold(Placed(slots, ring, slot, id), st')
  {
  }

  /** Only the turned-over slot's buffers have new events, so every other slot stays quiet. */
  lemma {:induction false} QuietTurned(es: seq<Event>, es': seq<Event>, slots: Slots, st: Status, ring: string,
                                       slot: nat, id: nat, prefix: string, t: int)
    requires SlotsHold(slots, st) && ring in slots && slot < |slots[ring]| && id !in st && Filled(slots)
    requires RingsQuiet(es, slots, prefix, t)
    requires Tail(es, es', slots[ring][slot], id) && QuietAfter(es, id, 0) && t >= 0
    requires (forall radio: nat :: ring != RingName(prefix, radio)) || QuietAfter(es', id, t)
    ensures RingsQuiet(es', Placed(slots, ring, slot, id), prefix, t)
  {
    var slots' := Placed(slots, ring, slot, id);
    forall radio: nat, k | RingName(prefix, radio) in slots' && 0 <= k < |slots'[RingName(prefix, radio)]|
      ensures QuietAfter(es', slots'[RingName(prefix, radio)][k], t)
    {
      var r := RingName(prefix, radio);
      if r != ring || k != slot {
        assert slots'[r][k] == slots[r][k] && QuietAfter(es, slots[r][k], t);
        forall i | 0 <= i < |es'| && es'[i].id == slots[r][k] ensures es'[i].time <= t {
          if i < |es| {
            assert es[i] == es'[i];
          }
        }
      }
    }
  }

  /** The buffer in a slot was posted there. */
  ghost predicate Homes(slots: Slots, es: seq<Event>) {
    forall r, k :: r in slots && 0 <= k < |slots[r]| && slots[r][k] != 0 ==> PostedThere(es, r, k, slots[r][k])
  }

  lemma {:induction false} HomesPlaced(slots: Slots, es: seq<Event>, more: seq<Event>, ring: string, slot: nat,
                                       id: nat)
    requires Homes(slots, es) && ring in slots && slot < |slots[ring]|
    requires PostedThere(es + more, ring, slot, id)
    ensures Homes(Placed(slots, ring, slot, id), es + more)
  {
    var slots' := Placed(slots, ring, slot, id);
    forall r, k | r in slots' && 0 <= k < |slots'[r]| && slots'[r][k] != 0
      ensures PostedThere(es + more, r, k, slots'[r][k])
    {
      if r != ring || k != slot {
        assert slots'[r][k] == slots[r][k] && PostedThere(es, r, k, slots[r][k]);
      }
    }
  }

  lemma {:induction false} HomesMore(slots: Slots, es: seq<Event>, more: seq<Event>)
    requires Homes(slots, es) && |es| <= |more| && more[..|es|] == es
    ensures Homes(slots, more)
  {
    assert forall e :: e in es ==> e in more;
    forall r, k | r in slots && 0 <= k < |slots[r]| && slots[r][k] != 0 ensures PostedThere(more, r, k, slots[r][k]) {
      assert PostedThere(es, r, k, slots[r][k]);
    }
  }

  /** Later is quiet too. */
  lemma {:induction false} QuietLater(es: seq<Event>, slots: Slots, prefix: string, t: int, u: int)
    requires RingsQuiet(es, slots, prefix, t) && t <= u
    ensures RingsQuiet(es, slots, prefix, u)
  {
    forall radio: nat, k | RingName(prefix, radio) in slots && 0 <= k < |slots[RingName(prefix, radio)]|
      ensures QuietAfter(es, slots[RingName(prefix, radio)][k], u)
    {
      assert QuietAfter(es, slots[RingName(prefix, radio)][k], t);
    }
  }

  // ----- weighted lanes -----

  function SumTo(ws: seq<int>, n: nat): int
    requires n <= |ws|
  {
    if n == 0 then 0 else SumTo(ws, n - 1) + ws[n - 1]
  }

  /** The lane in whose share of the weights the roll falls; the source's final error is unreachable. */
  method PickLane(ws: seq<int>, roll0: int) returns (index: nat)
    requires 0 <= roll0 < SumTo(ws, |ws|)
    ensures index < |ws| && SumTo(ws, index) <= roll0 < SumTo(ws, index + 1)
  {
    var roll := roll0;
    index := 0;
    while index < |ws|
      invariant index <= |ws| && SumTo(ws, index) <= roll0 && roll == roll0 - SumTo(ws, index)
    {
      if roll < ws[index] {
        return;
      }
      roll := roll - ws[index];
      index := index + 1;
    }
  }

  lemma {:induction false} WeightsPositive(ws: seq<int>, n: nat)
    requires n <= |ws| && forall i :: 0 <= i < |ws| ==> ws[i] > 0
    ensures SumTo(ws, n) >= n
  {
    if n > 0 {
      WeightsPositive(ws, n - 1);
    }
  }

  /** What an event says about its buffer, apart from when and which. */
  datatype Fields = Fields(source: string, ring: string, lane: string, lifetime: string, requested: nat, aligned: nat,
                           slot: int)

  function MakeEvent(time: int, seqNo: nat, action: Action, id: nat, f: Fields): Event {
    Event(time, seqNo, action, id, f.source, f.ring, f.lane, f.lifetime, f.requested, f.aligned, f.slot)
  }

  lemma {:induction false} SpreadFits(base: int, percent: int)
    requires base > 0 && 0 <= percent <= 100
    ensures 0 <= base * percent / 100 <= base
  {
    assert base * percent <= base * 100 by {
      assert base * (100 - percent) >= 0;
    }
  }

  lemma {:induction false} QuietFresh(es: seq<Event>, id: nat, t: int)
    requires QuietAfter(es, id, 0) && 0 <= t
    ensures QuietAfter(es, id, t)
  {
  }

  lemma {:induction false} NothingBuilt(slots: Slots)
    requires forall r, k :: r in slots && 0 <= k < |slots[r]| ==> slots[r][k] == 0
    ensures SlotsHold(slots, Now([]))
  {
  }

  lemma {:induction false} CoversAt(seeds: seq<Seed>, j: nat, slots: Slots)
    requires Covers(seeds, j, slots) && j < |seeds|
    ensures seeds[j].ring in slots && seeds[j].slot < |slots[seeds[j].ring]|
  {
  }

  lemma {:induction false} CoversAll(seeds: seq<Seed>, slots: Slots)
    requires Covers(seeds, |seeds|, slots)
    ensures Filled(slots)
  {
  }

  lemma {:induction false} LaidPlaced(slots: Slots, c: Config, radios: int, ring: string, slot: nat, id: nat)
    requires Laid(slots, c, radios) && ring in slots && slot < |slots[ring]|
    ensures Laid(Placed(slots, ring, slot, id), c, radios)
  {
  }

  lemma {:induction false} NothingLaid(c: Config)
    ensures Laid(map[], c, 0) && Covers([], 0, map[]) && c.SlotsOf(0) == 0
  {
  }

  /** One more radio: its two rings with empty slots, and the seeds for them. */
  lemma {:induction false} LayMore(c: Config, slots: Slots, radio: nat, seeds: seq<Seed>, more: seq<Seed>,
                                   dataRing: string, data: seq<nat>, monitorRing: string, monitor: seq<nat>)
    requires Laid(slots, c, radio) && Covers(seeds, 0, slots) && c.Valid()
    requires dataRing == RingName("data", radio) && monitorRing == RingName("monitor", radio) && dataRing != monitorRing
    requires dataRing != "" && dataRing[0] == 'd' && monitorRing != "" && monitorRing[0] == 'm'
    requires data == seq(c.dataCapacity, _ => 0) && monitor == seq(c.monitorCapacity, _ => 0)
    requires more == RingSeeds("data", dataRing, "long", c.dataCapacity)
             + RingSeeds("monitor_status", monitorRing, "short", c.monitorCapacity)
    ensures var slots' := slots[dataRing := data][monitorRing := monitor];
            Laid(slots', c, radio + 1) && Covers(seeds + more, 0, slots')
    ensures |more| == c.SlotsOf(radio + 1) - c.SlotsOf(radio)
  {
    var slots' := slots[dataRing := data][monitorRing := monitor];
    var all := seeds + more;
    forall r, k | r in slots' && 0 <= k < |slots'[r]| && slots'[r][k] == 0 ensures Pending(all, 0, r, k) {
      if r == dataRing {
        assert all[|seeds| + k] == Seed("data", dataRing, "long", k);
      } else if r == monitorRing {
        assert all[|seeds| + c.dataCapacity + k] == Seed("monitor_status", monitorRing, "short", k);
      } else {
        assert Pending(seeds, 0, r, k);
        var i :| 0 <= i < |seeds| && seeds[i].ring == r && seeds[i].slot == k;
        assert all[i] == seeds[i];
      }
    }
    forall i | 0 <= i < |all| ensures all[i].ring in slots' && all[i].slot < |slots'[all[i].ring]| {
      if i < |seeds| {
        assert all[i] == seeds[i];
      }
    }
  }

  // ----- seeding -----

  /** Only the posts that fill the rings have been built. */
  ghost predicate AllSeeds(c: Config, es: seq<Event>) { forall e :: e in es ==> Seeds(c, e) }

  /** For each source the posts of time 0 that its seeds ask for, and nothing else. */
  ghost predicate Sowing(es: seq<Event>, seeds: seq<Seed>) {
    forall a, s :: a != Action.Free ==>
      TimesOf(es, a, s) == if a == Action.Post then Zeros(SeedCount(seeds, s)) else []
  }

  lemma {:induction false} NothingSown(c: Config, slots: Slots, seeds: seq<Seed>)
    requires forall r, k :: r in slots && 0 <= k < |slots[r]| ==> slots[r][k] == 0
    ensures Homes(slots, []) && Lawful(c, []) && AllSeeds(c, []) && Sowing([], seeds[..0])
  {
  }

  lemma {:induction false} SeedAt(c: Config, seeds: seq<Seed>, j: nat)
    requires SeedsOk(c, seeds) && j < |seeds|
    ensures SeedOk(c, seeds[j])
  {
  }

  lemma {:induction false} SeedShaped(c: Config, s: Seed, e: Event)
    requires SeedOk(c, s) && e.action == Action.Post && LaneOk(c, e.lane) && e.requested == 2176 && e.aligned == 2560
    requires e.source == s.source && e.ring == s.ring && e.lifetime == s.lifetime && e.slot == s.slot
    ensures Shaped(c, e)
  {
    hide LaneOk, RingOk;
  }

  /** One more post of the seeding. */
  lemma {:induction false} Seeded(c: Config, es: seq<Event>, slots: Slots, seeds: seq<Seed>, j: nat, id: nat,
                                  lane: string)
    requires j < |seeds| == c.Capacity() && SeedOk(c, seeds[j]) && LaneOk(c, lane)
    requires Homes(slots, es) && Lawful(c, es) && AllSeeds(c, es) && Sowing(es, seeds[..j])
    requires seeds[j].ring in slots && seeds[j].slot < |slots[seeds[j].ring]|
    ensures var s := seeds[j]; var f := Fields(s.source, s.ring, lane, s.lifetime, 2176, 2560, s.slot);
            var es' := es + [MakeEvent(0, j, Action.Post, id, f)];
            && Lawful(c, es') && AllSeeds(c, es') && Homes(Placed(slots, s.ring, s.slot, id), es')
            && Sowing(es', seeds[..j + 1])
  {
    hide SeedOk, LaneOk, Homes, Lawful, Shaped, Config.Capacity, TimesOf, Zeros, SeedCount, Explained;
    var s := seeds[j];
    var e := MakeEvent(0, j, Action.Post, id, Fields(s.source, s.ring, lane, s.lifetime, 2176, 2560, s.slot));
    SeedShaped(c, s, e);
    LawfulSeed(c, es, e);
    assert e in es + [e];
    HomesPlaced(slots, es, [e], s.ring, s.slot, id);
    forall a, t | a != Action.Free
      ensures TimesOf(es + [e], a, t) == if a == Action.Post then Zeros(SeedCount(seeds[..j + 1], t)) else []
    {
      TimesOfOne(es, e, a, t);
      SeedCountNext(seeds, j, t);
      ZerosMore(SeedCount(seeds[..j], t));
    }
  }

  lemma {:induction false} ZerosMore(n: nat)
    ensures Zeros(n + 1) == Zeros(n) + [0]
  {
  }

  lemma {:induction false} SeedCountNext(seeds: seq<Seed>, j: nat, source: string)
    requires j < |seeds|
    ensures SeedCount(seeds[..j + 1], source)
         == SeedCount(seeds[..j], source) + if seeds[j].source == source then 1 else 0
  {
    assert seeds[..j + 1][..j] == seeds[..j];
  }

  /** Slots that all hold what was posted there by seeds have all been seeded. */
  lemma {:induction false} AllSown(c: Config, slots: Slots, es: seq<Event>)
    requires c.Valid() && Laid(slots, c, c.radios) && Filled(slots) && Homes(slots, es) && AllSeeds(c, es)
    ensures Sown(c, es)
  {
    hide Seeds, RingName, Config.Capacity;
    forall radio: nat, slot | radio < c.radios
      ensures 0 <= slot < c.dataCapacity ==> SeededThere(c, es, RingName("data", radio), slot)
      ensures 0 <= slot < c.monitorCapacity ==> SeededThere(c, es, RingName("monitor", radio), slot)
    {
      RingLetter("data", radio);
      RingLetter("monitor", radio);
      if 0 <= slot < c.dataCapacity {
        SeededAt(c, slots, es, RingName("data", radio), slot);
      }
      if 0 <= slot < c.monitorCapacity {
        SeededAt(c, slots, es, RingName("monitor", radio), slot);
      }
    }
  }

  lemma {:induction false} SeedsQuiet(c: Config, slots: Slots, es: seq<Event>)
    requires AllSeeds(c, es)
    ensures forall prefix :: RingsQuiet(es, slots, prefix, 0)
  {
    hide Config.Capacity;
    assert forall i :: 0 <= i < |es| ==> es[i] in es;
  }

  lemma {:induction false} SeededAt(c: Config, slots: Slots, es: seq<Event>, ring: string, slot: nat)
    requires Filled(slots) && Homes(slots, es) && AllSeeds(c, es) && ring in slots && slot < |slots[ring]|
    ensures SeededThere(c, es, ring, slot)
  {
    hide Seeds;
    assert PostedThere(es, ring, slot, slots[ring][slot]);
  }

  lemma {:induction false} SowingDone(es: seq<Event>, seeds: seq<Seed>)
    requires Sowing(es, seeds)
    ensures forall s :: TimesOf(es, Action.Reap, s) == [] && TimesOf(es, Action.Alloc, s) == []
    ensures TimesOf(es, Action.Post, "data") == Zeros(SeedCount(seeds, "data"))
    ensures TimesOf(es, Action.Post, "monitor_status") == Zeros(SeedCount(seeds, "monitor_status"))
  {
    hide TimesOf, Zeros, SeedCount;
  }

  lemma {:induction false} NothingCounted(c: Config)
    ensures SeedsOk(c, []) && forall s :: SeedCount([], s) == 0
  {
  }

  lemma {:induction false} CountMore(c: Config, radio: nat, seeds: seq<Seed>, more: seq<Seed>)
    requires c.Valid() && radio < c.radios && SeedsOk(c, seeds)
    requires SeedCount(seeds, "data") == radio * c.dataCapacity
    requires SeedCount(seeds, "monitor_status") == radio * c.monitorCapacity
    requires more == RingSeeds("data", RingName("data", radio), "long", c.dataCapacity)
                     + RingSeeds("monitor_status", RingName("monitor", radio), "short", c.monitorCapacity)
    ensures SeedsOk(c, seeds + more) && SeedCount(seeds + more, "data") == (radio + 1) * c.dataCapacity
    ensures SeedCount(seeds + more, "monitor_status") == (radio + 1) * c.monitorCapacity
  {
    hide SeedCount, RingName, SeedOk;
    RadioSeeds(c, radio, more);
    SeedCountConcat(seeds, more, "data");
    SeedCountConcat(seeds, more, "monitor_status");
    forall i | 0 <= i < |seeds + more| ensures SeedOk(c, (seeds + more)[i]) {
    }
  }

  // ----- one turnover -----

  predicate Prefixes(prefix: string, other: string) {
    (prefix == "data" && other == "monitor") || (prefix == "monitor" && other == "data")
  }

  /** What is said of a ring's buffers when one is turned over. */
  predicate TurnoverOf(c: Config, source: string, prefix: string, lifetime: string, requested: nat, aligned: nat,
                       hold: int)
  {
    && ((source == "data" && prefix == "data" && lifetime == "long")
        || (source == "monitor_status" && prefix == "monitor" && lifetime == "short"))
    && requested == 2176 && aligned == 2560 && hold == c.Hold(source)
  }

  predicate TurnsOver(c: Config, prefix: string, f: Fields, hold: int) {
    TurnoverOf(c, f.source, prefix, f.lifetime, f.requested, f.aligned, hold)
  }

  /** The buffer in the slot was posted there, as a buffer of this source. */
  lemma {:induction false} PostedFirst(c: Config, es: seq<Event>, slots: Slots, prefix: string, radio: nat, slot: nat,
                                       f: Fields, hold: int, t: int, reap: Event)
    returns (first: Event)
    requires Homes(slots, es) && Lawful(c, es) && Numbered(es) && TurnsOver(c, prefix, f, hold)
    requires f.ring == RingName(prefix, radio) && f.slot == slot
    requires f.ring in slots && slot < |slots[f.ring]| && slots[f.ring][slot] != 0
    requires QuietAfter(es, slots[f.ring][slot], t)
    requires reap == MakeEvent(t, |es|, Action.Reap, slots[f.ring][slot], f.(lane := "", requested := 0, aligned := 0))
    ensures first in es && Takes(first, reap)
  {
    hide Explained, RingName;
    assert PostedThere(es, f.ring, slot, slots[f.ring][slot]);
    first :| first in es && first.action == Action.Post && first.id == slots[f.ring][slot] && first.ring == f.ring
             && first.slot == slot;
    var i :| 0 <= i < |es| && es[i] == first;
    assert Shaped(c, first);
    RingLetter(prefix, radio);
    FirstLetter(c, first);
  }

  /** The first letter of a ring says whose it is. */
  lemma {:induction false} FirstLetter(c: Config, e: Event)
    requires Shaped(c, e)
    ensures e.ring != ""
    ensures RingEvent(c, e, "data", "data", "long", c.dataCapacity) ==> e.ring[0] == 'd'
    ensures RingEvent(c, e, "monitor_status", "monitor", "short", c.monitorCapacity) ==> e.ring[0] == 'm'
    ensures TransientEvent(c, e) ==> e.ring[0] == 'c'
  {
    if RingEvent(c, e, "data", "data", "long", c.dataCapacity) {
      var radio: nat :| e.ring == RingName("data", radio);
      RingLetter("data", radio);
    }
    if RingEvent(c, e, "monitor_status", "monitor", "short", c.monitorCapacity) {
      var radio: nat :| e.ring == RingName("monitor", radio);
      RingLetter("monitor", radio);
    }
    if TransientEvent(c, e) {
      var radio: nat :| e.ring == RingName("ce", radio);
      RingLetter("ce", radio);
    }
  }

  lemma {:induction false} ShapedTurn(c: Config, e: Event, prefix: string, radio: nat, f: Fields, hold: int)
    requires c.Valid() && TurnsOver(c, prefix, f, hold) && radio < c.radios && f.ring == RingName(prefix, radio)
    requires 0 <= f.slot < c.RingCapacity(f.ring) && e.action != Action.Alloc
    requires e.source == f.source && e.ring == f.ring && e.lifetime == f.lifetime && e.slot == f.slot
    requires if e.action == Action.Post then LaneOk(c, e.lane) && e.requested == f.requested && e.aligned == f.aligned
             else e.lane == "" && e.requested == 0 && e.aligned == 0
    ensures Shaped(c, e)
  {
    hide RingName, LaneOk;
    RingLetter(prefix, radio);
    assert RingOk(c, prefix, e.ring);
  }

  /** What one turnover does to the stream. */
  lemma {:induction false} Turned(c: Config, es: seq<Event>, slots: Slots, prefix: string, radio: nat, slot: nat,
                                  f: Fields, hold: int, t: int, reap: Event, post: Event, life: int, more: seq<Event>)
    requires c.Valid() && Homes(slots, es) && Lawful(c, es) && Sown(c, es) && Numbered(es)
    requires TurnsOver(c, prefix, f, hold)
    requires f.ring == RingName(prefix, radio) && f.slot == slot && radio < c.radios
    requires f.ring in slots && slot < |slots[f.ring]| == c.RingCapacity(f.ring) && slots[f.ring][slot] != 0
    requires QuietAfter(es, slots[f.ring][slot], t) && post.id != slots[f.ring][slot]
    requires var common := f.(lane := "", requested := 0, aligned := 0); var id := slots[f.ring][slot];
             && reap == MakeEvent(t, |es|, Action.Reap, id, common)
             && post == MakeEvent(t, |es| + 1, Action.Post, post.id, f.(lane := post.lane)) && LaneOk(c, post.lane)
             && more == if t + life > c.duration then []
                        else [MakeEvent(t + life, |es| + 2, Action.Free, id, common)]
    requires Held(c, f.source, life)
    ensures var es' := es + [reap] + [post] + more;
            && Lawful(c, es') && Sown(c, es') && Homes(Placed(slots, f.ring, slot, post.id), es')
            && GrownBy(es, es', {Action.Reap, Action.Post}, f.source, [t])
  {
    hide Lawful, Homes, Sown, QuietAfter, TurnoverOf, TurnsOver, RingName, LaneOk, Shaped, GrownBy, Numbered;
    var first := PostedFirst(c, es, slots, prefix, radio, slot, f, hold, t, reap);
    ShapedTurn(c, reap, prefix, radio, f, hold);
    AboutRing(c, f, prefix, hold);
    ShapedTurn(c, post, prefix, radio, f, hold);
    if more != [] {
      ShapedTurn(c, more[0], prefix, radio, f, hold);
    }
    LawfulTurn(c, es, first, reap, post, more);
    GrownByTurn(es, reap, post, more);
    var es' := es + [reap] + [post] + more;
    assert post in es';
    assert es' == es + ([reap, post] + more);
    SownMore(c, es, es');
    HomesPlaced(slots, es, [reap, post] + more, f.ring, slot, post.id);
  }

  lemma {:induction false} AboutRing(c: Config, f: Fields, prefix: string, hold: int)
    requires TurnsOver(c, prefix, f, hold)
    ensures f.requested == 2176 && f.aligned == 2560
  {
  }

  lemma {:induction false} NumberedBuilt(es: seq<Event>, nextId: nat, duration: int)
    requires Built(es, nextId, duration)
    ensures Numbered(es)
  {
  }

  /** What one transient does to the stream. */
  lemma {:induction false} Passed(c: Config, es: seq<Event>, f: Fields, t: int, id: nat, life: int, radio: nat,
                                  alloc: Event, more: seq<Event>)
    requires c.Valid() && Lawful(c, es) && Sown(c, es) && LaneOk(c, f.lane) && radio < c.radios
    requires f == Fields("ce", RingName("ce", radio), f.lane, "short", 2048, 2432, -1)
    requires alloc == MakeEvent(t, |es|, Action.Alloc, id, f)
    requires more == if t + life > c.duration then []
                     else [MakeEvent(t + life, |es| + 1, Action.Free, id, f.(requested := 0, aligned := 0))]
    requires Held(c, "ce", life)
    ensures var es' := es + [alloc] + more;
            Lawful(c, es') && Sown(c, es') && GrownBy(es, es', {Action.Alloc}, "ce", [t])
  {
    hide Lawful, Sown, RingName, LaneOk, GrownBy;
    assert RingOk(c, "ce", alloc.ring);
    assert TransientEvent(c, alloc);
    LawfulTransient(c, es, alloc, more);
    GrownByAlloc(es, alloc, more);
    assert es + [alloc] + more == es + ([alloc] + more);
    SownMore(c, es, es + [alloc] + more);
  }

  /** What one turnover does to everything the builder keeps. */
  lemma {:induction false} TurnedOver(c: Config, es: seq<Event>, slots: Slots, st: Status, prefix: string,
                                      other: string, since: int, radio: nat, slot: nat, f: Fields, hold: int, t: int,
                                      newId: nat, lane: string, life: int, more: seq<Event>, st': Status)
    requires c.Valid() && Homes(slots, es) && Lawful(c, es) && Sown(c, es) && Numbered(es)
    requires Laid(slots, c, c.radios) && Filled(slots) && SlotsHold(slots, st)
    requires RingsQuiet(es, slots, prefix, t) && RingsQuiet(es, slots, other, since) && t >= 0 && since >= 0
    requires TurnsOver(c, prefix, f, hold) && Prefixes(prefix, other)
    requires f.ring == RingName(prefix, radio) && f.slot == slot && radio < c.radios
    requires f.ring in slots && slot < |slots[f.ring]| == c.RingCapacity(f.ring)
    requires newId != slots[f.ring][slot] && QuietAfter(es, newId, 0) && newId !in st && newId > 0
    requires LaneOk(c, lane) && Held(c, f.source, life)
    requires more == if t + life > c.duration then []
                     else [MakeEvent(t + life, |es| + 2, Action.Free, slots[f.ring][slot],
                                     f.(lane := "", requested := 0, aligned := 0))]
    requires var st2 := st[slots[f.ring][slot] := false][newId := true];
             st' == if t + life > c.duration then st2 else st2 - {slots[f.ring][slot]}
    ensures var reap := MakeEvent(t, |es|, Action.Reap, slots[f.ring][slot],
                                  f.(lane := "", requested := 0, aligned := 0));
            var post := MakeEvent(t, |es| + 1, Action.Post, newId, f.(lane := lane));
            var es' := es + [reap] + [post] + more; var slots' := Placed(slots, f.ring, slot, newId);
            && Lawful(c, es') && Sown(c, es') && Homes(slots', es')
            && GrownBy(es, es', {Action.Reap, Action.Post}, f.source, [t])
            && Laid(slots', c, c.radios) && Filled(slots') && SlotsHold(slots', st')
            && RingsQuiet(es', slots', prefix, t) && RingsQuiet(es', slots', other, since)
  {
    hide SlotsHold, QuietAfter, RingsQuiet, Laid, Filled, Homes, Lawful, Sown, GrownBy, TurnoverOf, TurnsOver, LaneOk,
         RingName, Prefixes, Held, Numbered;
    var ring, oldId := f.ring, slots[f.ring][slot];
    var reap := MakeEvent(t, |es|, Action.Reap, oldId, f.(lane := "", requested := 0, aligned := 0));
    var post := MakeEvent(t, |es| + 1, Action.Post, newId, f.(lane := lane));
    var es2 := es + [reap] + [post];
    var es', st2 := es2 + more, st[oldId := false][newId := true];
    FilledAt(slots, ring, slot);
    SlotPosted(slots, st, es, prefix, radio, slot, t);
    Turned(c, es, slots, prefix, radio, slot, f, hold, t, reap, post, life, more);
    TailOf(es, reap, post, more, oldId, newId, t);
    SlotsPlaced(slots, st, st2, ring, slot, newId);
    FreedSlots(slots, st, st2, st', ring, slot, newId);
    QuietTurned(es, es', slots, st, ring, slot, newId, prefix, t);
    OtherRing(prefix, other, radio);
    QuietTurned(es, es', slots, st, ring, slot, newId, other, since);
    LaidPlaced(slots, c, c.radios, ring, slot, newId);
    FilledPlaced(slots, ring, slot, newId);
  }

  lemma {:induction false} FilledAt(slots: Slots, ring: string, slot: nat)
    requires Filled(slots) && ring in slots && slot < |slots[ring]|
    ensures slots[ring][slot] != 0
  {
  }

  lemma {:induction false} LaidAt(slots: Slots, c: Config, ring: string)
    requires Laid(slots, c, c.radios) && ring in slots
    ensures |slots[ring]| == c.RingCapacity(ring)
  {
  }

  lemma {:induction false} RingThere(slots: Slots, c: Config, prefix: string, other: string, radio: nat)
    requires Laid(slots, c, c.radios) && c.Valid() && Prefixes(prefix, other) && radio < c.radios
    ensures RingName(prefix, radio) in slots && |slots[RingName(prefix, radio)]| > 0
  {
  }

  lemma {:induction false} OtherRing(prefix: string, other: string, radio: nat)
    requires Prefixes(prefix, other)
    ensures forall r: nat :: RingName(prefix, radio) != RingName(other, r)
  {
    forall r: nat ensures RingName(prefix, radio) != RingName(other, r) {
      RingLetter(prefix, radio);
      RingLetter(other, r);
    }
  }

  lemma {:induction false} SlotPosted(slots: Slots, st: Status, es: seq<Event>, prefix: string, radio: nat, slot: nat,
                                      t: int)
    requires SlotsHold(slots, st) && Filled(slots) && RingsQuiet(es, slots, prefix, t)
    requires RingName(prefix, radio) in slots && slot < |slots[RingName(prefix, radio)]|
    ensures var id := slots[RingName(prefix, radio)][slot]; id in st && st[id] && QuietAfter(es, id, t)
  {
  }

  lemma {:induction false} IdsKnown(es: seq<Event>, nextId: nat, duration: int, id: nat)
    requires Built(es, nextId, duration) && id in Now(es)
    ensures 0 < id < nextId
  {
    if forall i :: 0 <= i < |es| ==> es[i].id != id {
      KnownIds(map[], es, id);
    }
  }

  lemma {:induction false} QuietMore(es: seq<Event>, id: nat, t: int, u: int)
    requires QuietAfter(es, id, t) && t <= u
    ensures QuietAfter(es, id, u)
  {
  }

  /** The events that come on top of a stream are about one buffer or the other. */
  predicate Tail(es: seq<Event>, es': seq<Event>, oldId: nat, newId: nat) {
    |es| <= |es'| && es'[..|es|] == es && forall i :: |es| <= i < |es'| ==> es'[i].id == oldId || es'[i].id == newId
  }

  lemma {:induction false} TailOf(es: seq<Event>, reap: Event, post: Event, more: seq<Event>, oldId: nat, newId: nat,
                                  t: int)
    requires reap.id == oldId && post.id == newId && post.time == t && oldId != newId
    requires forall i :: 0 <= i < |more| ==> more[i].id == oldId
    requires QuietAfter(es, newId, 0) && t >= 0
    ensures var es' := es + [reap] + [post] + more; Tail(es, es', oldId, newId) && QuietAfter(es', newId, t)
  {
    var tail := [reap, post] + more;
    assert es + [reap] + [post] + more == es + tail;
    assert forall i :: 0 <= i < |tail| ==> tail[i].id == oldId || (tail[i].id == newId && tail[i].time == t);
  }

  lemma {:induction false} QuietOlder(es: seq<Event>, e: Event, id: nat)
    requires QuietAfter(es + [e], id, 0)
    ensures QuietAfter(es, id, 0)
  {
    assert forall i :: 0 <= i < |es| ==> es[i] == (es + [e])[i];
  }

  /** Reaping and posting leave what has been said of the reaped buffer's times. */
  lemma {:induction false} QuietTwo(es: seq<Event>, reap: Event, post: Event, id: nat, t: int, u: int)
    requires QuietAfter(es, id, t) && t <= u && reap.time <= u && post.time <= u
    ensures QuietAfter(es + [reap] + [post], id, u)
  {
  }

  lemma {:induction false} FreedSlots(slots: Slots, st0: Status, st: Status, st': Status, ring: string, slot: nat,
                                      id: nat)
    requires SlotsHold(slots, st0) && ring in slots && slot < |slots[ring]| && id !in st0 && slots[ring][slot] in st0
    requires slots[ring][slot] != 0
    requires SlotsHold(Placed(slots, ring, slot, id), st) && Filled(slots)
    requires st' == st || st' == st - {slots[ring][slot]}
    ensures SlotsHold(Placed(slots, ring, slot, id), st')
  {
    var slots' := Placed(slots, ring, slot, id);
    forall r, k | r in slots' && 0 <= k < |slots'[r]| ensures slots'[r][k] != slots[ring][slot] {
      assert (r != ring || k != slot) ==> slots'[r][k] == slots[r][k];
    }
  }

  lemma {:induction false} FilledPlaced(slots: Slots, ring: string, slot: nat, id: nat)
    requires Filled(slots) && ring in slots && slot < |slots[ring]| && id > 0
    ensures Filled(Placed(slots, ring, slot, id))
  {
  }

  lemma {:induction false} QuietOne(es: seq<Event>, es': seq<Event>, id: nat, t: int, u: int)
    requires QuietAfter(es, id, 0) && 0 <= t <= u
    requires |es'| == |es| + 1 && es'[..|es|] == es && es'[|es|].time == t
    ensures QuietAfter(es', id, u)
  {
    assert forall i :: 0 <= i < |es| ==> es[i] == es'[i];
  }

  /** A buffer that no slot holds comes and goes without the slots noticing. */
  lemma {:induction false} SlotsUntouched(slots: Slots, st: Status, st': Status, id: nat)
    requires SlotsHold(slots, st) && id !in st && st' - {id} == st
    ensures SlotsHold(slots, st')
  {
    assert forall i :: i in st ==> i in st' - {id};
  }

  class EventBuilder {
    const config: Config
    const rng: SplitMix64
    var events: seq<Event>
    var nextSeq: nat
    var nextId: nat
    var slots: Slots

    constructor (config: Config, seed: bv64)
      requires config.Valid()
      ensures Valid() && this.config == config && fresh(rng) && events == [] && slots == map[]
    {
      this.config := config;
      rng := new SplitMix64(seed);
      events, nextSeq, nextId, slots := [], 0, 1, map[];
    }

    ghost predicate Valid()
      reads this
    {
      config.Valid() && Built(events, nextId, config.duration) && nextSeq == |events| && nextId > 0
    }

    /** Every slot of every ring holds a posted buffer of its own. */
    ghost predicate Stocked()
      reads this
    {
      && Valid() && Laid(slots, config, config.radios) && Filled(slots) && SlotsHold(slots, Now(events))
      && Homes(slots, events) && Lawful(config, events) && Sown(config, events)
    }

    /** `_add`: an event after the end is dropped. */
    method Add(time: int, action: Action, id: nat, f: Fields)
      requires Valid() && time >= 0 && 0 < id < nextId
      requires time <= config.duration ==>
                 StatusOk(Now(events), MakeEvent(time, nextSeq, action, id, f)) && QuietAfter(events, id, time)
      requires action == Action.Post || action == Action.Alloc ==> New(events, id)
      modifies this`events, this`nextSeq
      ensures Valid()
      ensures time > config.duration ==> events == old(events)
      ensures time <= config.duration ==>
                var e := MakeEvent(time, old(nextSeq), action, id, f);
                && events == old(events) + [e] && Now(events) == StatusStep(old(Now(events)), e)
                && (forall t :: Net(events, t) == Net(old(events), t) + Delta(e, t))
    {
      hide Built, StatusOk, StatusStep, Now, QuietAfter, New;
      if time > config.duration {
        return;
      }
      var e := MakeEvent(time, nextSeq, action, id, f);
      BuiltAppend(events, nextId, config.duration, e);
      events := events + [e];
      nextSeq := nextSeq + 1;
    }

    /** `_new_logical_id` */
    method NewLogicalId() returns (id: nat)
      requires Valid()
      modifies this`nextId
      ensures Valid() && id == old(nextId) && nextId == id + 1
      ensures id !in Now(events) && QuietAfter(events, id, 0) && New(events, id)
    {
      BuiltMoreIds(events, nextId, config.duration);
      id := nextId;
      nextId := nextId + 1;
    }

    /** `_lane` */
    method Lane() returns (lane: string)
      requires Valid()
      modifies rng
      ensures LaneOk(config, lane)
    {
      WeightsPositive(config.laneWeights, |config.laneWeights|);
      var roll := rng.Below(SumTo(config.laneWeights, |config.laneWeights|));
      var index := PickLane(config.laneWeights, roll);
      lane := "lane" + Digits(index);
    }

    /** `_lifetime`: the base, give or take the jitter, and never less than one. */
    method Lifetime(base: int) returns (r: int)
      requires Valid() && base > 0
      modifies rng
      ensures 1 <= r && base - base * config.jitterPercent / 100 <= r <= base + base * config.jitterPercent / 100
    {
      var spread := base * config.jitterPercent / 100;
      SpreadFits(base, config.jitterPercent);
      if spread == 0 {
        return base;
      }
      var jitter := rng.Below(2 * spread + 1);
      var moved := base - spread + jitter;
      r := if moved > 1 then moved else 1;
    }

    /** `_event_times`: as many as the rate asks for, ascending, each near its share of the simulated time. */
    method EventTimes(rate: real) returns (times: seq<int>)
      requires Valid() && rate >= 0.0
      modifies rng
      ensures Spread(config, rate, times)
      ensures forall i :: 0 <= i < |times| ==> 1 <= times[i] <= config.duration
    {
      hide Built, Earliest, Latest, Anchor, Spread;
      var duration := config.duration;
      var count := EventCount(rate, duration);
      var nominalGap := Gap(count, duration);
      times := [];
      var emitted := 0;
      while emitted < count
        invariant emitted == |times| <= count
        invariant forall i :: 0 <= i < |times| ==> Earliest(config, count, i) <= times[i] <= Latest(config, count, i)
      {
        var remaining := count - emitted;
        var extra := rng.Below(if config.burstMax < remaining then config.burstMax else remaining);
        var burst := 1 + extra;
        var anchor := Anchor(emitted, count, duration);
        var jitterSpan := nominalGap / 3;
        var moved := 0;
        if jitterSpan != 0 {
          var jitter := rng.Below(2 * jitterSpan + 1);
          moved := jitter - jitterSpan;
        }
        var spacing := Spacing(nominalGap);
        for within := 0 to burst
          invariant |times| == emitted + within
          invariant forall i :: 0 <= i < |times| ==> Earliest(config, count, i) <= times[i] <= Latest(config, count, i)
        {
          BurstNear(config, count, emitted, within, moved);
          times := times + [Clamp(anchor + moved + within * spacing, duration)];
        }
        emitted := emitted + burst;
      }
      SortedSpread(config, rate, times);
      times := SortTimes(times);
      SpreadInside(config, rate, times);
    }

    /** `_post`: a fresh buffer is posted. */
    method Post(time: int, source: string, ring: string, lifetime: string, requested: nat, aligned: nat, slot: nat)
      returns (id: nat, ghost lane: string)
      requires Valid() && 0 <= time <= config.duration && 0 < aligned <= PageFrag.CACHE_MAX_SIZE
      modifies this`events, this`nextSeq, this`nextId, rng
      ensures Valid() && id == old(nextId) && nextId == id + 1 && id !in old(Now(events))
      ensures old(QuietAfter(events, id, 0))
      ensures LaneOk(config, lane)
      ensures events == old(events) + [MakeEvent(time, old(nextSeq), Action.Post, id,
                                                 Fields(source, ring, lane, lifetime, requested, aligned, slot))]
      ensures Now(events) == old(Now(events))[id := true]
      ensures forall t :: Net(events, t) == Net(old(events), t) + if time <= t then 1 else 0
    {
      hide Built, Now, QuietAfter, New;
      id := NewLogicalId();
      QuietFresh(events, id, time);
      var drawn := Lane();
      lane := drawn;
      Add(time, Action.Post, id, Fields(source, ring, drawn, lifetime, requested, aligned, slot));
    }

    /** `seed_rings`: at time 0 every slot of every ring gets a buffer, in shuffled order. */
    method SeedRings()
      requires Valid() && events == [] && slots == map[]
      modifies this`events, this`nextSeq, this`nextId, this`slots, rng
      ensures Stocked() && RingsQuiet(events, slots, "data", 0) && RingsQuiet(events, slots, "monitor", 0)
      ensures forall t :: t >= 0 ==> Net(events, t) == config.Capacity()
      ensures forall s :: TimesOf(events, Action.Reap, s) == [] && TimesOf(events, Action.Alloc, s) == []
      ensures TimesOf(events, Action.Post, "data") == Zeros(config.radios * config.dataCapacity)
      ensures TimesOf(events, Action.Post, "monitor_status") == Zeros(config.radios * config.monitorCapacity)
    {
      hide Built, Now, StatusOk, SlotsHold, Covers, Laid, SeedsOk, SeedCount, Homes, Lawful, Sown, TimesOf, SeedOk,
           Zeros, Config.Capacity;
      var seeds := LaySlots();
      var shuffled := new Seed[|seeds|](i requires 0 <= i < |seeds| => seeds[i]);
      assert shuffled[..] == seeds;
      rng.Shuffle(shuffled);
      CoversShuffled(seeds, shuffled[..], slots);
      SeedsOkShuffled(config, seeds, shuffled[..]);
      SeedCountShuffled(seeds, shuffled[..], "data");
      SeedCountShuffled(seeds, shuffled[..], "monitor_status");
      seeds := shuffled[..];
      NothingBuilt(slots);
      NothingSown(config, slots, seeds);
      var j := 0;
      while j < |seeds|
        invariant 0 <= j <= |seeds|
        invariant Valid() && Laid(slots, config, config.radios) && SlotsHold(slots, Now(events))
        invariant Covers(seeds, j, slots) && nextSeq == j
        invariant Homes(slots, events) && Lawful(config, events) && AllSeeds(config, events)
        invariant Sowing(events, seeds[..j])
        invariant forall t :: t >= 0 ==> Net(events, t) == j
      {
        CoversAt(seeds, j, slots);
        SeedAt(config, seeds, j);
        var s := seeds[j];
        ghost var st, es := Now(events), events;
        var id, lane := Post(0, s.source, s.ring, s.lifetime, 2176, 2560, s.slot);
        SlotsPlaced(slots, st, Now(events), s.ring, s.slot, id);
        CoversPlaced(seeds, j, slots, id);
        LaidPlaced(slots, config, config.radios, s.ring, s.slot, id);
        Seeded(config, es, slots, seeds, j, id, lane);
        slots := Placed(slots, s.ring, s.slot, id);
        j := j + 1;
      }
      assert seeds[..j] == seeds;
      CoversAll(seeds, slots);
      AllSown(config, slots, events);
      SeedsQuiet(config, slots, events);
      SowingDone(events, seeds);
    }

    /** The first loop of `seed_rings`: empty slots, and the seeds for them. */
    method LaySlots() returns (seeds: seq<Seed>)
      requires config.Valid() && slots == map[]
      modifies this`slots
      ensures Laid(slots, config, config.radios) && Covers(seeds, 0, slots) && |seeds| == config.Capacity()
      ensures forall r, k :: r in slots && 0 <= k < |slots[r]| ==> slots[r][k] == 0
      ensures SeedsOk(config, seeds) && SeedCount(seeds, "data") == config.radios * config.dataCapacity
      ensures SeedCount(seeds, "monitor_status") == config.radios * config.monitorCapacity
    {
      hide Laid, Covers, Config.SlotsOf, SeedsOk, SeedCount;
      NothingLaid(config);
      NothingCounted(config);
      seeds := [];
      var radio := 0;
      while radio < config.radios
        invariant 0 <= radio <= config.radios
        invariant Laid(slots, config, radio) && Covers(seeds, 0, slots)
        invariant forall r, k :: r in slots && 0 <= k < |slots[r]| ==> slots[r][k] == 0
        invariant |seeds| == config.SlotsOf(radio)
        invariant SeedsOk(config, seeds) && SeedCount(seeds, "data") == radio * config.dataCapacity
        invariant SeedCount(seeds, "monitor_status") == radio * config.monitorCapacity
      {
        var dataRing, monitorRing := RingName("data", radio), RingName("monitor", radio);
        DataIsNotMonitor(radio, radio);
        RingLetter("data", radio);
        RingLetter("monitor", radio);
        var more := RingSeeds("data", dataRing, "long", config.dataCapacity);
        var yet := RingSeeds("monitor_status", monitorRing, "short", config.monitorCapacity);
        var data: seq<nat> := seq(config.dataCapacity, _ => 0);
        var monitor: seq<nat> := seq(config.monitorCapacity, _ => 0);
        LayMore(config, slots, radio, seeds, more + yet, dataRing, data, monitorRing, monitor);
        CountMore(config, radio, seeds, more + yet);
        slots := slots[dataRing := data][monitorRing := monitor];
        seeds := seeds + (more + yet);
        radio := radio + 1;
      }
    }

    /** One buffer of a ring leaves its slot, a new one takes it, and the old one is freed later. */
    method TurnOver(time: int, source: string, prefix: string, radio: nat, lifetime: string, requested: nat,
                    aligned: nat, hold: int, ghost other: string, ghost since: int)
      requires Stocked() && since >= 0 && 0 <= time <= config.duration && hold > 0 && radio < config.radios
      requires TurnoverOf(config, source, prefix, lifetime, requested, aligned, hold) && Prefixes(prefix, other)
      requires RingsQuiet(events, slots, prefix, time) && RingsQuiet(events, slots, other, since)
      modifies this`events, this`nextSeq, this`nextId, this`slots, rng
      ensures Stocked() && RingsQuiet(events, slots, prefix, time) && RingsQuiet(events, slots, other, since)
      ensures GrownBy(old(events), events, {Action.Reap, Action.Post}, source, [time])
      ensures forall t :: Net(events, t) == old(Net(events, t))
    {
      hide Built, Now, SlotsHold, QuietAfter, New, RingsQuiet, Laid, Filled, Run, Net, Homes, Lawful, Sown, GrownBy,
           LaneOk, RingName, Prefixes, Numbered;
      var ring := RingName(prefix, radio);
      RingThere(slots, config, prefix, other, radio);
      LaidAt(slots, config, ring);
      var slot := rng.Below(|slots[ring]|);
      var oldId := slots[ring][slot];
      SlotPosted(slots, Now(events), events, prefix, radio, slot, time);
      IdsKnown(events, nextId, config.duration, oldId);
      ghost var es, st := events, Now(events);
      NumberedBuilt(es, nextId, config.duration);
      var common := Fields(source, ring, "", lifetime, 0, 0, slot);
      Add(time, Reap, oldId, common);
      IdsKnown(events, nextId, config.duration, oldId);
      var newId, lane := Post(time, source, ring, lifetime, requested, aligned, slot);
      QuietOlder(es, events[|es|], newId);
      var life := Lifetime(hold);
      QuietTwo(es, events[|es|], events[|es| + 1], oldId, time, time + life);
      ghost var es2, st2 := events, Now(events);
      ghost var free := MakeEvent(time + life, nextSeq, Action.Free, oldId, common);
      ghost var more := if time + life > config.duration then [] else [free];
      Add(time + life, Action.Free, oldId, common);
      assert events == es2 + more;
      TurnedOver(config, es, slots, st, prefix, other, since, radio, slot,
                 Fields(source, ring, "", lifetime, requested, aligned, slot), hold, time, newId, lane, life,
                 more, Now(events));
      slots := Placed(slots, ring, slot, newId);
    }

    /** `add_ring_turnover`: one turnover for each of the times that the rate asks for. */
    method AddRingTurnover(source: string, prefix: string, lifetime: string, requested: nat, aligned: nat, rate: real,
                           hold: int, ghost other: string, ghost since: int)
      returns (ghost times: seq<int>)
      requires Stocked() && since >= 0 && rate >= 0.0 && hold > 0
      requires TurnoverOf(config, source, prefix, lifetime, requested, aligned, hold) && Prefixes(prefix, other)
      requires RingsQuiet(events, slots, prefix, 0) && RingsQuiet(events, slots, other, since)
      modifies this`events, this`nextSeq, this`nextId, this`slots, rng
      ensures Stocked() && RingsQuiet(events, slots, prefix, config.duration) && RingsQuiet(events, slots, other, since)
      ensures Spread(config, rate, times) && GrownBy(old(events), events, {Action.Reap, Action.Post}, source, times)
      ensures forall t :: Net(events, t) == old(Net(events, t))
    {
      hide Built, Now, SlotsHold, QuietAfter, New, RingsQuiet, Laid, Filled, Run, Net, Homes, Lawful, Sown, GrownBy,
           TurnoverOf, Prefixes, Spread;
      var drawn := EventTimes(rate);
      SpreadAscends(config, rate, drawn);
      times := drawn;
      ghost var now := 0;
      GrownByNothing(events, {Action.Reap, Action.Post}, source);
      for i := 0 to |drawn|
        invariant Stocked() && RingsQuiet(events, slots, prefix, now) && RingsQuiet(events, slots, other, since)
        invariant 0 <= now <= config.duration && (i < |drawn| ==> now <= drawn[i])
        invariant GrownBy(old(events), events, {Action.Reap, Action.Post}, source, drawn[..i])
        invariant forall t :: Net(events, t) == old(Net(events, t))
      {
        QuietLater(events, slots, prefix, now, drawn[i]);
        var radio := rng.Below(config.radios);
        ghost var es := events;
        TurnOver(drawn[i], source, prefix, radio, lifetime, requested, aligned, hold, other, since);
        GrownByBoth(old(events), es, events, {Action.Reap, Action.Post}, source, drawn[..i], [drawn[i]]);
        assert drawn[..i] + [drawn[i]] == drawn[..i + 1];
        now := drawn[i];
      }
      assert drawn[..|drawn|] == drawn;
      QuietLater(events, slots, prefix, now, config.duration);
    }

    /** `add_ce_transients`: buffers that no ring holds. */
    method AddCeTransients() returns (ghost times: seq<int>)
      requires Stocked()
      modifies this`events, this`nextSeq, this`nextId, rng
      ensures Stocked()
      ensures Spread(config, config.ceRate, times) && GrownBy(old(events), events, {Action.Alloc}, "ce", times)
      ensures forall t :: Net(events, t) == old(Net(events, t))
    {
      hide Built, Now, SlotsHold, QuietAfter, New, Laid, Filled, Run, Net, Homes, Lawful, Sown, GrownBy, Spread;
      var drawn := EventTimes(config.ceRate);
      times := drawn;
      GrownByNothing(events, {Action.Alloc}, "ce");
      for i := 0 to |drawn|
        invariant Stocked()
        invariant GrownBy(old(events), events, {Action.Alloc}, "ce", drawn[..i])
        invariant forall t :: Net(events, t) == old(Net(events, t))
      {
        ghost var es := events;
        AddTransient(drawn[i]);
        GrownByBoth(old(events), es, events, {Action.Alloc}, "ce", drawn[..i], [drawn[i]]);
        assert drawn[..i] + [drawn[i]] == drawn[..i + 1];
      }
      assert drawn[..|drawn|] == drawn;
    }

    /** The body of the loop of `add_ce_transients`: a buffer is allocated, and freed when its hold ends. */
    method AddTransient(time: int)
      requires Stocked() && 1 <= time <= config.duration
      modifies this`events, this`nextSeq, this`nextId, rng
      ensures Stocked() && GrownBy(old(events), events, {Action.Alloc}, "ce", [time])
      ensures forall t :: Net(events, t) == old(Net(events, t))
    {
      hide Built, Now, SlotsHold, QuietAfter, New, Laid, Filled, Run, Net, Homes, Lawful, Sown, GrownBy, LaneOk,
           RingName;
      ghost var st, es := Now(events), events;
      var id := NewLogicalId();
      var lane := Lane();
      var radio := rng.Below(config.radios);
      var f := Fields("ce", RingName("ce", radio), lane, "short", 2048, 2432, -1);
      QuietMore(events, id, 0, time);
      Add(time, Action.Alloc, id, f);
      var life := Lifetime(config.ceHold);
      ghost var es1 := events;
      QuietOne(es, es1, id, time, time + life);
      ghost var free := MakeEvent(time + life, nextSeq, Action.Free, id, f.(requested := 0, aligned := 0));
      ghost var more := if time + life > config.duration then [] else [free];
      Add(time + life, Action.Free, id, f.(requested := 0, aligned := 0));
      assert events == es1 + more;
      SlotsUntouched(slots, st, Now(events), id);
      Passed(config, es, f, time, id, life, radio, es1[|es|], more);
      HomesMore(slots, es, events);
    }

    /**
     `build`: the frozen stream replays from nothing to the end, in time order, gives every id out once, and
     at every time has one more post than reaps for each slot of each ring. Every event has its reason in the
     stream, and each source has the events its rate asks for, spread over the time.
     */
    method Build() returns (stream: seq<Event>)
      requires Valid() && events == [] && slots == map[]
      modifies this`events, this`nextSeq, this`nextId, this`slots, rng
      ensures stream == Sort(events) && Sorted(stream) && Run(map[], stream).Some? && OnceEach(stream)
      ensures forall i :: 0 <= i < |stream| ==> 0 <= stream[i].time <= config.duration
      ensures forall t :: t >= 0 ==> Net(stream, t) == config.Capacity()
      ensures Lawful(config, stream) && Sown(config, stream) && Complete(config, stream)
    {
      hide SlotsHold, QuietAfter, RingsQuiet, Laid, Filled, Run, Net, Sort, Now, Numbered, TimesOk, OnceEach, Homes,
           Lawful, Sown, GrownBy, Spread, Complete, TimesOf, Zeros;
      SeedRings();
      ghost var es0 := events;
      ghost var data := AddRingTurnover("data", "data", "long", 2176, 2560, config.dataRate, config.dataHold, "monitor",
                                        0);
      ghost var es1 := events;
      ghost var monitor := AddRingTurnover("monitor_status", "monitor", "short", 2176, 2560, config.monitorRate,
                                           config.monitorHold, "data", config.duration);
      ghost var es2 := events;
      ghost var ce := AddCeTransients();
      Completed(config, es0, es1, es2, events, data, monitor, ce);
      stream := Sort(events);
      SortSorts(events);
      SortKeepsRun(map[], events);
      OnceSorted(events);
      LawfulSorted(config, events);
      forall t ensures Net(stream, t) == Net(events, t) {
        NetSort(events, t);
      }
      forall i | 0 <= i < |stream| ensures 0 <= stream[i].time <= config.duration {
        MemberOfSort(events, stream[i]);
      }
    }
  }
}
