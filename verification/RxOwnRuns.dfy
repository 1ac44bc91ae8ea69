/**
 Whole runs of the ownership tracker (tools/rxown.c): what its records were after
 each step, and what that says about the buffers that were posted on the way.
 */
module RxOwnRuns {
  import opened Basics
  import opened RxOwnModel
  import opened RxOwnSteps

  /** The two hash tables, the rings and what is remembered of the pages at one moment of a run. */
  datatype Moment = Moment(records: Records, bySkb: map<nat, nat>, infos: RingInfos, history: Histories)

  /** No buffer has become posted. */
  predicate NothingPosted(before: Records, after: Records) {
    forall h :: h in after && after[h].state == POSTED ==> h in before && before[h].state == POSTED
  }

  /** Step j is the entry of the `idr_alloc` call whose return is step i. */
  predicate OwnEntry(steps: seq<Step>, j: nat, i: nat)
    requires j < i < |steps|
  {
    && steps[i].IdrAllocOut? && EntryOf(steps, j, i, steps[i].c)
  }

  /** Step j is the last entry before i of an `idr_alloc` call with this name, and it has not returned. */
  predicate EntryOf(steps: seq<Step>, j: nat, i: nat, c: nat)
    requires j < i <= |steps|
  {
    && steps[j].IdrAllocIn? && steps[j].c == c
    && forall k :: j < k < i && (steps[k].IdrAllocIn? || steps[k].IdrAllocOut?) ==> steps[k].c != c
  }

  /** At this moment the skb leads to this record. */
  predicate Finds(m: Moment, skb: nat, r: Record) {
    skb in m.bySkb && m.bySkb[skb] in m.records && m.records[m.bySkb[skb]] == r
  }

  /** Of one and the same buffer, in the same ring. */
  predicate SameRecord(r: Record, r': Record) {
    r.head == r'.head && r.skb == r'.skb && r.page == r'.page && r.generation == r'.generation && r.slot == r'.slot
  }

  /**
   The step posts nothing; or it is the return of an `idr_alloc` call, and all it does to the records is to
   post, under the returned id, the record that the entry of the same call had found by its skb.
   */
  ghost predicate StepSafe(steps: seq<Step>, trace: seq<Moment>, i: nat)
    requires i < |steps| && i + 1 < |trace|
  {
    NothingPosted(trace[i].records, trace[i + 1].records) || exists j: nat, r: Record :: PostsOwn(steps, trace, i, j, r)
  }

  predicate PostsOwn(steps: seq<Step>, trace: seq<Moment>, i: nat, j: nat, r: Record)
    requires i < |steps| && i + 1 < |trace|
  {
    && j < i && OwnEntry(steps, j, i) && Finds(trace[j + 1], steps[j].skb, r)
    && r.head in trace[i].records && SameRecord(trace[i].records[r.head], r) && trace[i].records[r.head].state != POSTED
    && steps[i].id >= 0
    && trace[i + 1].records ==
       trace[i].records[r.head := trace[i].records[r.head].(state := POSTED, bufId := steps[i].id)]
  }

  /** The trace has a moment before the first step and one after each, and every step is safe. */
  ghost predicate RunSafe(steps: seq<Step>, trace: seq<Moment>) {
    |trace| == |steps| + 1 && forall i :: 0 <= i < |steps| ==> StepSafe(steps, trace, i)
  }

  /** So a buffer that is posted at some moment, and was not before, was found by the entry of the posting call. */
  lemma {:induction false} PostedWasSeen(steps: seq<Step>, trace: seq<Moment>, i: nat, h: nat)
    returns (j: nat, r: Record)
    requires RunSafe(steps, trace) && i < |steps|
    requires h in trace[i + 1].records && trace[i + 1].records[h].state == POSTED
    requires h in trace[i].records ==> trace[i].records[h].state != POSTED
    ensures j < i && OwnEntry(steps, j, i) && Finds(trace[j + 1], steps[j].skb, r)
    ensures r.head == h && SameRecord(trace[i + 1].records[h], r) && trace[i + 1].records[h].bufId == steps[i].id
  {
    hide OwnEntry, Finds;
    assert StepSafe(steps, trace, i);
    j, r :| PostsOwn(steps, trace, i, j, r);
  }

  // ----- what a run keeps about the calls that wait -----

  /** What the entry of a call found, as far as it remembers it. */
  ghost predicate CallSaw(call: IdrAllocCall, skb: nat, seen: Identity, m: Moment) {
    exists r: Record :: Finds(m, skb, r) && r.generation == call.generation && r.slot == call.slot
                        && seen == Identity(r.head, r.skb, r.page)
  }

  ghost predicate Entered(steps: seq<Step>, trace: seq<Moment>, i: nat, c: nat, call: IdrAllocCall, seen: Identity,
                          j: nat)
    requires i <= |steps| && i < |trace|
  {
    j < i && EntryOf(steps, j, i, c) && CallSaw(call, steps[j].skb, seen, trace[j + 1])
  }

  /** Each waiting call that remembers a generation had found a record of that generation at its entry. */
  ghost predicate EntriesKnown(calls: Calls, seen: map<nat, Identity>, steps: seq<Step>, trace: seq<Moment>, i: nat)
    requires i <= |steps| && i < |trace|
  {
    forall c :: c in calls.allocs && calls.allocs[c].generation != 0 ==>
      c in seen && exists j: nat :: Entered(steps, trace, i, c, calls.allocs[c], seen[c], j)
  }

  /** What a step does to the waiting `idr_alloc` calls; m is the moment after it. */
  ghost predicate CallsFollow(step: Step, calls: Calls, seen: map<nat, Identity>, calls': Calls,
                              seen': map<nat, Identity>, m: Moment)
  {
    match step
    case IdrAllocIn(c, skb, _, _, _, _) =>
      && c in calls'.allocs && calls'.allocs == calls.allocs[c := calls'.allocs[c]]
      && (forall d :: d in seen && d != c ==> d in seen' && seen'[d] == seen[d])
      && (calls'.allocs[c].generation != 0 ==> c in seen' && CallSaw(calls'.allocs[c], skb, seen'[c], m))
    case IdrAllocOut(c, _, _, _) => calls'.allocs == calls.allocs - {c} && seen' == seen
    case _ => calls'.allocs == calls.allocs && seen' == seen
  }

  /** What a step does to the records: it posts nothing, or what its waiting call had seen. */
  ghost predicate RecordsFollow(step: Step, calls: Calls, seen: map<nat, Identity>, before: Records, after: Records) {
    NothingPosted(before, after)
    || (step.IdrAllocOut? && step.c in calls.allocs && calls.allocs[step.c].generation != 0 && step.c in seen
        && PostsSeen(before, after, calls.allocs[step.c], step.id, seen[step.c]))
  }

  lemma {:induction false} EntriesStep(calls: Calls, seen: map<nat, Identity>, calls': Calls, seen': map<nat, Identity>,
                                       steps: seq<Step>, trace: seq<Moment>, m: Moment)
    requires 0 < |trace| <= |steps| && EntriesKnown(calls, seen, steps, trace, |trace| - 1)
    requires CallsFollow(steps[|trace| - 1], calls, seen, calls', seen', m)
    ensures EntriesKnown(calls', seen', steps, trace + [m], |trace|)
  {
    hide CallSaw;
    var i, n, trace' := |trace| - 1, |trace|, trace + [m];
    forall c | c in calls'.allocs && calls'.allocs[c].generation != 0
      ensures c in seen' && exists j: nat :: Entered(steps, trace', n, c, calls'.allocs[c], seen'[c], j)
    {
      if steps[i].IdrAllocIn? && steps[i].c == c {
        assert Entered(steps, trace', n, c, calls'.allocs[c], seen'[c], i);
      } else {
        assert c in calls.allocs && calls.allocs[c] == calls'.allocs[c];
        var j: nat :| Entered(steps, trace, i, c, calls.allocs[c], seen[c], j);
        assert trace'[j + 1] == trace[j + 1];
        assert Entered(steps, trace', n, c, calls'.allocs[c], seen'[c], j);
      }
    }
  }

  /** One more step of a safe run. */
  lemma {:induction false} SafeStep(calls: Calls, seen: map<nat, Identity>, steps: seq<Step>, trace: seq<Moment>,
                                    m: Moment)
    requires 0 < |trace| <= |steps| && EntriesKnown(calls, seen, steps, trace, |trace| - 1)
    requires RunSafe(steps[..|trace| - 1], trace)
    requires RecordsFollow(steps[|trace| - 1], calls, seen, trace[|trace| - 1].records, m.records)
    ensures RunSafe(steps[..|trace|], trace + [m])
  {
    hide NothingPosted, PostsOwn, PostsSeen, StepSafe, EntriesKnown;
    var i, taken, trace' := |trace| - 1, steps[..|trace|], trace + [m];
    forall k | 0 <= k < i ensures StepSafe(taken, trace', k) {
      SafeLater(steps[..i], trace, taken, trace', k);
    }
    SafeNow(calls, seen, steps, trace, m);
  }

  lemma {:induction false} SafeLater(steps: seq<Step>, trace: seq<Moment>, steps': seq<Step>, trace': seq<Moment>,
                                     k: nat)
    requires k < |steps| && k + 1 < |trace| && steps <= steps' && trace <= trace' && StepSafe(steps, trace, k)
    ensures StepSafe(steps', trace', k)
  {
    hide NothingPosted, SameRecord, Finds;
    if !NothingPosted(trace[k].records, trace[k + 1].records) {
      var j: nat, r: Record :| PostsOwn(steps, trace, k, j, r);
      assert PostsOwn(steps', trace', k, j, r);
    }
  }

  lemma {:induction false} SafeNow(calls: Calls, seen: map<nat, Identity>, steps: seq<Step>, trace: seq<Moment>,
                                   m: Moment)
    requires 0 < |trace| <= |steps| && EntriesKnown(calls, seen, steps, trace, |trace| - 1)
    requires RecordsFollow(steps[|trace| - 1], calls, seen, trace[|trace| - 1].records, m.records)
    ensures StepSafe(steps[..|trace|], trace + [m], |trace| - 1)
  {
    hide NothingPosted, Finds;
    var i, trace' := |trace| - 1, trace + [m];
    if !NothingPosted(trace[i].records, m.records) {
      var c := steps[i].c;
      var j: nat :| Entered(steps, trace, i, c, calls.allocs[c], seen[c], j);
      var r: Record :| Finds(trace[j + 1], steps[j].skb, r) && r.generation == calls.allocs[c].generation
                       && r.slot == calls.allocs[c].slot && seen[c] == Identity(r.head, r.skb, r.page);
      assert PostsOwn(steps[..i + 1], trace', i, j, r);
    }
  }

  /** The first i steps have been taken safely, and led from one moment to the present one. */
  ghost predicate Traced(calls: Calls, seen: map<nat, Identity>, steps: seq<Step>, trace: seq<Moment>, i: nat,
                         first: Moment, now: Moment)
  {
    && i <= |steps| && |trace| == i + 1 && trace[0] == first && trace[i] == now
    && RunSafe(steps[..i], trace) && EntriesKnown(calls, seen, steps, trace, i)
  }

  lemma {:induction false} TracedStart(steps: seq<Step>, m: Moment)
    ensures Traced(Calls(map[], map[]), map[], steps, [m], 0, m, m)
  {
  }

  lemma {:induction false} TracedStep(calls: Calls, seen: map<nat, Identity>, calls': Calls, seen': map<nat, Identity>,
                                      steps: seq<Step>, trace: seq<Moment>, i: nat, first: Moment, now: Moment,
                                      m: Moment)
    requires i < |steps| && Traced(calls, seen, steps, trace, i, first, now)
    requires RecordsFollow(steps[i], calls, seen, now.records, m.records)
    requires CallsFollow(steps[i], calls, seen, calls', seen', m)
    ensures Traced(calls', seen', steps, trace + [m], i + 1, first, m)
  {
    hide RunSafe, EntriesKnown, RecordsFollow, CallsFollow;
    EntriesStep(calls, seen, calls', seen', steps, trace, m);
    SafeStep(calls, seen, steps, trace, m);
  }

  lemma {:induction false} TracedEnd(calls: Calls, seen: map<nat, Identity>, steps: seq<Step>, trace: seq<Moment>,
                                     first: Moment, now: Moment)
    requires Traced(calls, seen, steps, trace, |steps|, first, now)
    ensures RunSafe(steps, trace) && trace[0] == first && trace[|steps|] == now
  {
    assert steps[..|steps|] == steps;
  }
}
