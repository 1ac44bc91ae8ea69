/**
 What a whole run of the ownership tracker does (tools/rxown.c): the exact effect
 of every step on the tables and the rings, whatever other calls wait at that
 moment, and what follows for a buffer between its allocation and its release.
 */
module RxOwnExact {
  import opened Basics
  import opened RxOwnModel
  import opened RxOwnSteps
  import opened RxOwnRuns

  // ----- what each step does -----

  /** Some tracked buffer is on this page. */
  ghost predicate OnPage(m: Records, p: nat) { exists h :: Refers(m, h, p) }

  /**
   The tables fit together, rings in use are different rings with different tables, and the pages that are
   remembered are those with a tracked buffer.
   */
  ghost predicate MomentOk(m: Moment) {
    && TablesAgree(m.records, m.bySkb) && SlotsAgree(m.records, m.infos)
    && (forall h :: h in m.records ==> m.records[h].generation >= 1)
    && (forall p :: p in m.history <==> OnPage(m.records, p))
  }

  lemma {:induction false} PagesRemembered(ps: Pages, m: Records)
    requires PagesAgree(ps, m)
    ensures forall p :: p in HistoryOf(ps) <==> OnPage(m, p)
  {
    forall p ensures p in HistoryOf(ps) <==> OnPage(m, p) {
      if p in ps {
        var h := SumWitness(m, PageTotal(p));
        assert Refers(m, h, p);
      }
      assert forall h :: Refers(m, h, p) ==> m[h].page in ps;
    }
  }

  /** The call has drawn a generation for its record and has not used it. */
  predicate Drawn(steps: seq<Step>, i: nat, c: nat)
    requires i <= |steps|
  {
    && i > 0
    && (steps[i - 1] == NetdevDraw(c, true)
        || (Drawn(steps, i - 1, c) && !(steps[i - 1].NetdevAlloc? && steps[i - 1].c == c)))
  }

  /** Step j is the last entry before i of an `idr_remove` call with this name, and it has not returned. */
  predicate RemovalOf(steps: seq<Step>, j: nat, i: nat, c: nat)
    requires j < i <= |steps|
  {
    && steps[j].IdrRemoveIn? && steps[j].c == c
    && forall k :: j < k < i && (steps[k].IdrRemoveIn? || steps[k].IdrRemoveOut?) ==> steps[k].c != c
  }

  /** A new buffer is tracked if there is room and neither its head nor its skb is known. */
  predicate Tracks(m: Moment, n: Moment, alloc: AllocCall, skb: nat, head: nat, page: nat, aligned: nat) {
    if |m.records| < MAX_RECORDS && head !in m.records && skb !in m.bySkb then
      && head in n.records && n.records == m.records[head := n.records[head]]
      && IsNew(n.records[head], alloc, skb, head, page, aligned, n.records[head].generation)
      && n.bySkb == m.bySkb[skb := head] && n.infos == m.infos
      && n.history == JoinedHistory(m.history, n.records[head])
    else n == m
  }

  predicate Unlinks(m: Moment, n: Moment, skb: nat, head: nat) {
    if head in m.records && m.records[head].skbLinked && m.records[head].skb == skb then
      n == m.(records := m.records[head := m.records[head].(skbLinked := false)], bySkb := m.bySkb - {skb})
    else n == m
  }

  predicate Forgets(m: Moment, n: Moment, head: nat) {
    && n.records == m.records - {head} && n.infos == m.infos
    && n.history == (if head !in m.records then m.history
                     else LeftHistory(m.history, m.records[head], m.records[head].page !in n.history))
    && n.bySkb == if head in m.records && m.records[head].skbLinked then m.bySkb - {m.records[head].skb} else m.bySkb
  }

  /** A buffer that waits for a ring gets it if one is found. */
  ghost predicate Enters(m: Moment, n: Moment, skb: nat, idr: nat, scope: Option<Scope>) {
    exists slot: RingSlot :: EntersRing(m, n, skb, idr, scope, slot)
  }

  ghost predicate EntersRing(m: Moment, n: Moment, skb: nat, idr: nat, scope: Option<Scope>, slot: RingSlot) {
    var waits := WaitsFor(m.records, m.bySkb, skb, scope);
    && n.bySkb == m.bySkb && RingFound(m.infos, n.infos, waits, idr, slot)
    && if waits.Some? && slot >= 0 then
         var r := m.records[m.bySkb[skb]];
         && n.records == m.records[m.bySkb[skb] := r.(slot := slot)]
         && n.history == PromotedHistory(m.history, r, slot)
       else n.records == m.records && n.history == m.history
  }

  /** The buffer of this skb, if it is in the ring that has the table. */
  function Saw(m: Moment, skb: nat, idr: nat): Option<Record> {
    if skb in m.bySkb && m.bySkb[skb] in m.records && m.records[m.bySkb[skb]].slot >= 0
       && HasTable(m.infos, m.records[m.bySkb[skb]].slot, idr)
    then Some(m.records[m.bySkb[skb]]) else None
  }

  /** The skb still leads to a record of this generation and in this slot, which is not posted. */
  predicate Postable(m: Moment, skb: nat, generation: nat, slot: RingSlot) {
    && skb in m.bySkb && m.bySkb[skb] in m.records
    && var r := m.records[m.bySkb[skb]]; r.generation == generation && r.slot == slot && r.state != POSTED
  }

  /** The return of `idr_alloc` posts what its entry saw, if that is still there. */
  predicate Posts(m: Moment, n: Moment, saw: Option<Record>, skb: nat, id: int) {
    && n.bySkb == m.bySkb && n.history == m.history && SameRings(m.infos, n.infos)
    && n.records == if id >= 0 && saw.Some? && Postable(m, skb, saw.value.generation, saw.value.slot)
                    then m.records[m.bySkb[skb] := m.records[m.bySkb[skb]].(state := POSTED, bufId := id)]
                    else m.records
  }

  /** The buffer of the removed skb is posted, in the ring that had the table. */
  predicate Reapable(m: Moment, infos: RingInfos, idr: nat, removed: Option<nat>) {
    && removed.Some? && removed.value in m.bySkb && m.bySkb[removed.value] in m.records
    && var r := m.records[m.bySkb[removed.value]]; r.slot >= 0 && HasTable(infos, r.slot, idr) && r.state == POSTED
  }

  predicate Reaps(m: Moment, n: Moment, infos: RingInfos, idr: nat, id: nat, removed: Option<nat>) {
    && n.bySkb == m.bySkb && n.history == m.history && SameRings(m.infos, n.infos)
    && n.records == if Reapable(m, infos, idr, removed)
                    then m.records[m.bySkb[removed.value] :=
                                   m.records[m.bySkb[removed.value]].(state := REAPED, bufId := id)]
                    else m.records
  }

  /** A step that is no return does this to the tables and the rings. */
  ghost predicate OtherExact(steps: seq<Step>, i: nat, m: Moment, n: Moment)
    requires i < |steps|
  {
    match steps[i]
    case NetdevDraw(_, _) => n == m
    case NetdevAlloc(c, alloc, skb, head, page, _, aligned, _) =>
      if Drawn(steps, i, c) then Tracks(m, n, alloc, skb, head, page, aligned) else n == m
    case SkbReleased(skb, head) => Unlinks(m, n, skb, head)
    case HeadFreed(head) => Forgets(m, n, head)
    case IdrAllocIn(_, skb, idr, scope, _, _) => Enters(m, n, skb, idr, scope)
    case IdrRemoveIn(_, _, _) => n == m
    case IdrAllocOut(c, _, _, _) => (forall j: nat :: j < i ==> !EntryOf(steps, j, i, c)) ==> n == m
    case IdrRemoveOut(c, _, _, _) => (forall j: nat :: j < i ==> !RemovalOf(steps, j, i, c)) ==> n == m
  }

  predicate EntryIs(steps: seq<Step>, j: nat)
    requires j < |steps|
  {
    steps[j].IdrAllocIn?
  }

  predicate RemovalIs(steps: seq<Step>, j: nat)
    requires j < |steps|
  {
    steps[j].IdrRemoveIn?
  }

  /** Step i returns from the call on `idr_alloc` that step j has entered. */
  ghost predicate ReturnExact(steps: seq<Step>, trace: seq<Moment>, j: nat, i: nat)
    requires j < i < |steps| && i + 1 < |trace| && steps[i].IdrAllocOut?
  {
    && EntryIs(steps, j)
    && Posts(trace[i], trace[i + 1], Saw(trace[j + 1], steps[j].skb, steps[j].idr), steps[j].skb, steps[i].id)
  }

  /** Step i returns from the call on `idr_remove` that step j has entered. */
  ghost predicate RemovalExact(steps: seq<Step>, trace: seq<Moment>, j: nat, i: nat)
    requires j < i < |steps| && i + 1 < |trace| && steps[i].IdrRemoveOut?
  {
    && RemovalIs(steps, j)
    && Reaps(trace[i], trace[i + 1], trace[j + 1].infos, steps[j].idr, steps[j].rid, steps[i].removed)
  }

  /** Exactly what step i does to the tables and the rings. */
  ghost predicate StepExact(steps: seq<Step>, trace: seq<Moment>, i: nat)
    requires i < |steps| && i + 1 < |trace|
  {
    && OtherExact(steps, i, trace[i], trace[i + 1])
    && (steps[i].IdrAllocOut? ==>
          forall j: nat :: j < i && EntryOf(steps, j, i, steps[i].c) ==> ReturnExact(steps, trace, j, i))
    && (steps[i].IdrRemoveOut? ==>
          forall j: nat :: j < i && RemovalOf(steps, j, i, steps[i].c) ==> RemovalExact(steps, trace, j, i))
  }

  ghost predicate ExactTo(steps: seq<Step>, trace: seq<Moment>, i: nat) {
    && i <= |steps| && |trace| == i + 1 && (forall k :: 0 <= k <= i ==> MomentOk(trace[k]))
    && forall k :: 0 <= k < i ==> StepExact(steps, trace, k)
  }

  /** The trace has a moment before the first step and one after each, and each step does exactly what it has to. */
  ghost predicate RunExact(steps: seq<Step>, trace: seq<Moment>) { ExactTo(steps, trace, |steps|) }

  // ----- what follows for one buffer -----

  /** The skb of the record leads to it, and it is the same buffer, in the same ring. */
  predicate Stays(m: Moment, r: Record) {
    && r.skb in m.bySkb && m.bySkb[r.skb] == r.head && r.head in m.records && SameRecord(m.records[r.head], r)
  }

  /** The step is the release of the buffer, or of its skb. */
  predicate Releases(step: Step, r: Record) {
    step == HeadFreed(r.head) || step == SkbReleased(r.skb, r.head)
  }

  /** No step from j on and before k releases the buffer. */
  predicate Kept(steps: seq<Step>, j: nat, k: nat, r: Record)
    requires k <= |steps|
  {
    forall t :: j <= t < k ==> !Releases(steps[t], r)
  }

  /** The buffer is still there, in its ring, and if it was not new it has not become new. */
  predicate StaysOn(m: Moment, n: Moment, r: Record) {
    Stays(m, r) ==> Stays(n, r) && (m.records[r.head].state != ALLOCATED ==> n.records[r.head].state != ALLOCATED)
  }

  lemma {:induction false} StaysLinked(m: Moment, n: Moment, skb: nat, head: nat, r: Record)
    requires MomentOk(m)
    requires (Unlinks(m, n, skb, head) && (skb != r.skb || head != r.head)) || (Forgets(m, n, head) && head != r.head)
    ensures StaysOn(m, n, r)
  {
    hide SlotsAgree;
  }

  lemma {:induction false} StaysKnown(m: Moment, n: Moment, alloc: AllocCall, skb: nat, head: nat, page: nat,
                                      aligned: nat, r: Record)
    requires Tracks(m, n, alloc, skb, head, page, aligned)
    ensures StaysOn(m, n, r)
  {
    hide IsNew;
  }

  lemma {:induction false} StaysEntered(m: Moment, n: Moment, skb: nat, idr: nat, scope: Option<Scope>, r: Record)
    requires Enters(m, n, skb, idr, scope) && r.slot >= 0
    ensures StaysOn(m, n, r)
  {
    hide RingFound;
    var slot: RingSlot :| EntersRing(m, n, skb, idr, scope, slot);
  }

  lemma {:induction false} StaysPosted(m: Moment, n: Moment, saw: Option<Record>, skb: nat, id: int, r: Record)
    requires Posts(m, n, saw, skb, id)
    ensures StaysOn(m, n, r)
  {
    hide SameRings;
  }

  lemma {:induction false} StaysReaped(m: Moment, n: Moment, infos: RingInfos, idr: nat, id: nat, removed: Option<nat>,
                                       r: Record)
    requires Reaps(m, n, infos, idr, id, removed)
    ensures StaysOn(m, n, r)
  {
    hide SameRings, HasTable;
  }

  /** While it is not released, a buffer in a ring stays there under its skb; once posted it is never new again. */
  lemma {:induction false} StaysStep(steps: seq<Step>, trace: seq<Moment>, i: nat, r: Record)
    requires RunExact(steps, trace) && i < |steps| && !Releases(steps[i], r) && r.slot >= 0
    ensures StaysOn(trace[i], trace[i + 1], r)
  {
    hide Unlinks, Forgets, Tracks, Enters, Posts, Reaps, MomentOk, Drawn, StaysOn, Saw;
    StaysSame(trace[i], r);
    assert StepExact(steps, trace, i) && MomentOk(trace[i]);
    var m, n := trace[i], trace[i + 1];
    match steps[i]
    case NetdevAlloc(c, alloc, skb, head, page, _, aligned, _) =>
      if Drawn(steps, i, c) {
        StaysKnown(m, n, alloc, skb, head, page, aligned, r);
      }
    case SkbReleased(skb, head) => StaysLinked(m, n, skb, head, r);
    case HeadFreed(head) => StaysLinked(m, n, 0, head, r);
    case IdrAllocIn(_, skb, idr, scope, _, _) => StaysEntered(m, n, skb, idr, scope, r);
    case IdrAllocOut(c, id, _, _) =>
      if j: nat :| j < i && EntryOf(steps, j, i, c) {
        assert ReturnExact(steps, trace, j, i);
        StaysPosted(m, n, Saw(trace[j + 1], steps[j].skb, steps[j].idr), steps[j].skb, id, r);
      }
    case IdrRemoveOut(c, removed, _, _) =>
      if j: nat :| j < i && RemovalOf(steps, j, i, c) {
        assert RemovalExact(steps, trace, j, i);
        StaysReaped(m, n, trace[j + 1].infos, steps[j].idr, steps[j].rid, removed, r);
      }
    case _ =>
  }

  lemma {:induction false} StaysSame(m: Moment, r: Record)
    ensures StaysOn(m, m, r)
  {
  }

  lemma {:induction false} StaysKept(steps: seq<Step>, trace: seq<Moment>, j: nat, k: nat, r: Record)
    requires RunExact(steps, trace) && j <= k <= |steps| && r.slot >= 0 && Kept(steps, j, k, r)
    ensures StaysOn(trace[j], trace[k], r)
    decreases k
  {
    hide StepExact, MomentOk, Releases, SameRecord;
    if k == j {
      StaysSame(trace[j], r);
    } else {
      StaysKept(steps, trace, j, k - 1, r);
      StaysStep(steps, trace, k - 1, r);
    }
  }

  /**
   If the entry of a call found a buffer in its ring and the buffer is not released before the call returns with
   an id, then it is posted after the return, under that id unless it was posted already.
   */
  lemma {:induction false} PostedAfterReturn(steps: seq<Step>, trace: seq<Moment>, j: nat, i: nat, r: Record)
    requires RunExact(steps, trace) && j < i < |steps| && OwnEntry(steps, j, i) && steps[i].id >= 0
    requires Saw(trace[j + 1], steps[j].skb, steps[j].idr) == Some(r) && Kept(steps, j + 1, i, r)
    ensures r.head in trace[i].records && Stays(trace[i + 1], r) && trace[i + 1].records[r.head].state == POSTED
    ensures trace[i + 1].records[r.head].bufId
         == if trace[i].records[r.head].state == POSTED then trace[i].records[r.head].bufId else steps[i].id
  {
    hide SameRings, SlotsAgree, HasTable, IsNew, Drawn, RemovalOf;
    assert MomentOk(trace[j + 1]);
    StaysKept(steps, trace, j + 1, i, r);
    assert StepExact(steps, trace, i);
    assert ReturnExact(steps, trace, j, i);
    assert Posts(trace[i], trace[i + 1], Some(r), steps[j].skb, steps[i].id);
  }

  /**
   The entry of a call finds the buffer in its ring if and only if it is tracked under this skb, and either it is
   in the ring that has the table, or it waits for a ring that may have the table.
   */
  lemma {:induction false} EntryFindsExactly(steps: seq<Step>, trace: seq<Moment>, j: nat)
    requires RunExact(steps, trace) && j < |steps| && steps[j].IdrAllocIn?
    ensures var m := trace[j]; var s := steps[j]; var waits := WaitsFor(m.records, m.bySkb, s.skb, s.scope);
            Saw(trace[j + 1], s.skb, s.idr).Some? <==>
              if waits.Some? then Available(m.infos, waits.value.ring, s.idr) else Saw(m, s.skb, s.idr).Some?
    ensures var saw := Saw(trace[j + 1], steps[j].skb, steps[j].idr);
            saw.Some? ==> steps[j].skb in trace[j].bySkb && trace[j].bySkb[steps[j].skb] == saw.value.head
                          && saw.value.head in trace[j].records
                          && saw.value == trace[j].records[saw.value.head].(slot := saw.value.slot)
  {
    hide SlotsAgree, Available, RingFound;
    assert StepExact(steps, trace, j) && MomentOk(trace[j]);
    var m, n, s := trace[j], trace[j + 1], steps[j];
    var slot: RingSlot :| EntersRing(m, n, s.skb, s.idr, s.scope, slot);
    var waits := WaitsFor(m.records, m.bySkb, s.skb, s.scope);
    RingFoundExactly(m.infos, n.infos, waits, s.idr, slot);
    RingFoundSame(m.infos, n.infos, waits, s.idr, slot);
  }

  // ----- a buffer that waits for its ring -----

  /** The record is just as it is, under its skb. */
  predicate Untouched(m: Moment, r: Record) {
    r.skb in m.bySkb && m.bySkb[r.skb] == r.head && r.head in m.records && m.records[r.head] == r
  }

  /** What does not touch a record outside every ring: anything but its release and a call with its skb. */
  predicate Leaves(step: Step, r: Record) {
    !Releases(step, r) && !(step.IdrAllocIn? && step.skb == r.skb)
  }

  lemma {:induction false} WaitsLinked(m: Moment, n: Moment, skb: nat, head: nat, r: Record)
    requires MomentOk(m)
    requires (Unlinks(m, n, skb, head) && (skb != r.skb || head != r.head)) || (Forgets(m, n, head) && head != r.head)
    ensures Untouched(m, r) ==> Untouched(n, r)
  {
    hide SlotsAgree;
  }

  lemma {:induction false} WaitsEntered(m: Moment, n: Moment, skb: nat, idr: nat, scope: Option<Scope>, r: Record)
    requires MomentOk(m) && Enters(m, n, skb, idr, scope) && skb != r.skb
    ensures Untouched(m, r) ==> Untouched(n, r)
  {
    hide RingFound, SlotsAgree;
    var slot: RingSlot :| EntersRing(m, n, skb, idr, scope, slot);
  }

  lemma {:induction false} WaitsPosted(m: Moment, n: Moment, was: Moment, idr: nat, skb: nat, id: int, r: Record)
    requires MomentOk(m) && Posts(m, n, Saw(was, skb, idr), skb, id) && r.slot < 0
    ensures Untouched(m, r) ==> Untouched(n, r)
  {
    hide SameRings, SlotsAgree;
  }

  lemma {:induction false} WaitsReaped(m: Moment, n: Moment, infos: RingInfos, idr: nat, id: nat, removed: Option<nat>,
                                       r: Record)
    requires MomentOk(m) && Reaps(m, n, infos, idr, id, removed) && r.slot < 0
    ensures Untouched(m, r) ==> Untouched(n, r)
  {
    hide SameRings, HasTable, SlotsAgree;
  }

  lemma {:induction false} WaitsStep(steps: seq<Step>, trace: seq<Moment>, i: nat, r: Record)
    requires RunExact(steps, trace) && i < |steps| && Leaves(steps[i], r) && r.slot < 0
    ensures Untouched(trace[i], r) ==> Untouched(trace[i + 1], r)
  {
    hide Unlinks, Forgets, Enters, Posts, Reaps, MomentOk, Drawn, Saw, IsNew;
    assert StepExact(steps, trace, i) && MomentOk(trace[i]);
    var m, n := trace[i], trace[i + 1];
    match steps[i]
    case SkbReleased(skb, head) => WaitsLinked(m, n, skb, head, r);
    case HeadFreed(head) => WaitsLinked(m, n, 0, head, r);
    case IdrAllocIn(_, skb, idr, scope, _, _) => WaitsEntered(m, n, skb, idr, scope, r);
    case IdrAllocOut(c, id, _, _) =>
      if j: nat :| j < i && EntryOf(steps, j, i, c) {
        assert ReturnExact(steps, trace, j, i);
        WaitsPosted(m, n, trace[j + 1], steps[j].idr, steps[j].skb, id, r);
      }
    case IdrRemoveOut(c, removed, _, _) =>
      if j: nat :| j < i && RemovalOf(steps, j, i, c) {
        assert RemovalExact(steps, trace, j, i);
        WaitsReaped(m, n, trace[j + 1].infos, steps[j].idr, steps[j].rid, removed, r);
      }
    case _ =>
  }

  lemma {:induction false} WaitsKept(steps: seq<Step>, trace: seq<Moment>, j: nat, k: nat, r: Record)
    requires RunExact(steps, trace) && j <= k <= |steps| && r.slot < 0 && Untouched(trace[j], r)
    requires forall t :: j <= t < k ==> Leaves(steps[t], r)
    ensures Untouched(trace[k], r)
    decreases k
  {
    hide StepExact, Untouched, Leaves, MomentOk;
    if k > j {
      WaitsKept(steps, trace, j, k - 1, r);
      WaitsStep(steps, trace, k - 1, r);
    }
  }

  /** Step a allocates a buffer in a scope, and the tracker has room for it. */
  predicate AllocatedIn(steps: seq<Step>, trace: seq<Moment>, a: nat, scope: Scope)
    requires a < |steps| && a < |trace|
  {
    && steps[a].NetdevAlloc? && steps[a].alloc.scope == Some(scope) && Drawn(steps, a, steps[a].c)
    && |trace[a].records| < MAX_RECORDS && steps[a].head !in trace[a].records && steps[a].skb !in trace[a].bySkb
  }

  /** From then on it waits for the ring of that scope, until a call with its skb is made. */
  lemma {:induction false} AllocatedWaits(steps: seq<Step>, trace: seq<Moment>, a: nat, j: nat, scope: Scope)
    returns (r: Record)
    requires RunExact(steps, trace) && a < j <= |steps| && AllocatedIn(steps, trace, a, scope)
    requires forall t :: a < t < j ==> !(steps[t].IdrAllocIn? && steps[t].skb == steps[a].skb)
    requires forall t :: a < t < j ==>
               steps[t] != HeadFreed(steps[a].head) && steps[t] != SkbReleased(steps[a].skb, steps[a].head)
    ensures Untouched(trace[j], r) && r.head == steps[a].head && r.skb == steps[a].skb && r.state == ALLOCATED
    ensures r.slot < 0 && r.scopeCandidate && r.pending == scope
  {
    hide MomentOk, StepExact, Drawn;
    TracksAt(steps, trace, a);
    r := trace[a + 1].records[steps[a].head];
    WaitsKept(steps, trace, a + 1, j, r);
  }

  lemma {:induction false} TracksAt(steps: seq<Step>, trace: seq<Moment>, a: nat)
    requires RunExact(steps, trace) && a < |steps| && steps[a].NetdevAlloc? && Drawn(steps, a, steps[a].c)
    ensures var s := steps[a]; Tracks(trace[a], trace[a + 1], s.alloc, s.skb, s.head, s.page, s.aligned)
  {
    hide Drawn, Tracks;
    assert StepExact(steps, trace, a);
  }

  /**
   A buffer is allocated in the scope of a ring; the first call with its skb is made in a scope of the same ring,
   for a table that the ring may have, and returns with an id; and the buffer is not released before. Then it is
   posted in a ring that has the table, under that id.
   */
  lemma {:induction false} AllocatedThenPosted(steps: seq<Step>, trace: seq<Moment>, a: nat, j: nat, i: nat,
                                               scope: Scope)
    returns (r: Record)
    requires RunExact(steps, trace) && a < j < i < |steps| && AllocatedIn(steps, trace, a, scope)
    requires forall t :: a < t < j ==> !(steps[t].IdrAllocIn? && steps[t].skb == steps[a].skb)
    requires forall t :: a < t < i ==>
               steps[t] != HeadFreed(steps[a].head) && steps[t] != SkbReleased(steps[a].skb, steps[a].head)
    requires OwnEntry(steps, j, i) && steps[j].skb == steps[a].skb
    requires steps[j].scope.Some? && steps[j].scope.value.ring == scope.ring
    requires Available(trace[j].infos, scope.ring, steps[j].idr) && steps[i].id >= 0
    ensures r.head == steps[a].head && r.skb == steps[a].skb && Stays(trace[i + 1], r)
    ensures trace[i + 1].records[r.head].state == POSTED && HasTable(trace[j + 1].infos, r.slot, steps[j].idr)
  {
    hide RunExact, Available, AllocatedIn, HasTable;
    var waiting := AllocatedWaits(steps, trace, a, j, scope);
    WaitsAtLength(steps, trace);
    EntryFindsExactly(steps, trace, j);
    r := Saw(trace[j + 1], steps[j].skb, steps[j].idr).value;
    PostedAfterReturn(steps, trace, j, i, r);
  }

  lemma {:induction false} WaitsAtLength(steps: seq<Step>, trace: seq<Moment>)
    requires RunExact(steps, trace)
    ensures |trace| == |steps| + 1
  {
  }

  // ----- a buffer that is taken out -----

  /**
   If a posted buffer's skb comes out of the table of its ring, then it is reaped when the call returns, unless it
   is released before: j is the entry of the removing call.
   */
  lemma {:induction false} ReapedAfterReturn(steps: seq<Step>, trace: seq<Moment>, j: nat, i: nat, r: Record)
    requires RunExact(steps, trace) && j < i < |steps| && steps[i].IdrRemoveOut? && RemovalOf(steps, j, i, steps[i].c)
    requires steps[i].removed == Some(r.skb) && Stays(trace[j + 1], r) && r.slot >= 0 && Kept(steps, j + 1, i, r)
    requires trace[j + 1].records[r.head].state != ALLOCATED && HasTable(trace[j + 1].infos, r.slot, steps[j].idr)
    ensures Stays(trace[i + 1], r) && trace[i + 1].records[r.head].state == REAPED
  {
    hide SameRings, SlotsAgree, HasTable, IsNew, Drawn, EntryOf;
    StaysKept(steps, trace, j + 1, i, r);
    assert StepExact(steps, trace, i);
    assert RemovalExact(steps, trace, j, i);
    assert Reaps(trace[i], trace[i + 1], trace[j + 1].infos, steps[j].idr, steps[j].rid, Some(r.skb));
  }

  // ----- what is remembered of a page -----

  /** A buffer of the ring in slot s is on the page. */
  ghost predicate RingOn(m: Moment, p: nat, s: int) {
    exists h :: Refers(m.records, h, p) && m.records[h].slot == s && s >= 0
  }

  /** A buffer is on the page that belongs to no ring and waits for none. */
  ghost predicate StrayOn(m: Moment, p: nat) {
    exists h :: Refers(m.records, h, p) && m.records[h].slot < 0 && !m.records[h].scopeCandidate
  }

  /** Step t releases a buffer of the page that still waits for its ring. */
  predicate LeavesWaiting(steps: seq<Step>, trace: seq<Moment>, t: nat, p: nat)
    requires t < |steps| && t < |trace|
  {
    && steps[t].HeadFreed? && Refers(trace[t].records, steps[t].head, p)
    && var r := trace[t].records[steps[t].head]; r.slot < 0 && r.scopeCandidate
  }

  /** What is on the page is remembered. */
  ghost predicate Remembers(m: Moment, p: nat) {
    && p in m.history && (forall s :: RingOn(m, p, s) ==> s in m.history[p].rings)
    && (StrayOn(m, p) ==> m.history[p].unscoped)
  }

  /** From m to n the page's history grows by what is on the page now, and by a waiting buffer that has left. */
  ghost predicate Grows(m: Moment, n: Moment, p: nat, left: bool)
    requires p in m.history && p in n.history
  {
    && (forall s :: s in n.history[p].rings <==> s in m.history[p].rings || RingOn(n, p, s))
    && (n.history[p].unscoped <==> m.history[p].unscoped || StrayOn(n, p) || left)
  }

  /** No buffer comes, goes, or changes its ring. */
  predicate SamePlaces(m: Moment, n: Moment) {
    && n.history == m.history && n.records.Keys == m.records.Keys
    && forall h :: h in m.records ==>
         && n.records[h].page == m.records[h].page && n.records[h].pageTracked == m.records[h].pageTracked
         && n.records[h].slot == m.records[h].slot && n.records[h].scopeCandidate == m.records[h].scopeCandidate
  }

  lemma {:induction false} GrowsSame(m: Moment, n: Moment, p: nat)
    requires SamePlaces(m, n) && Remembers(m, p)
    ensures Grows(m, n, p, false)
  {
    assert forall h :: Refers(n.records, h, p) <==> Refers(m.records, h, p);
  }

  lemma {:induction false} GrowsTracked(m: Moment, n: Moment, alloc: AllocCall, skb: nat, head: nat, page: nat,
                                        aligned: nat, p: nat)
    requires Tracks(m, n, alloc, skb, head, page, aligned) && Remembers(m, p) && p in n.history
    ensures Grows(m, n, p, false)
  {
    assert forall h :: h != head ==> (Refers(n.records, h, p) <==> Refers(m.records, h, p));
    assert forall h :: h != head && Refers(m.records, h, p) ==> n.records[h] == m.records[h];
    assert head !in m.records || n == m;
  }

  lemma {:induction false} GrowsForgotten(m: Moment, n: Moment, head: nat, p: nat)
    requires Forgets(m, n, head) && Remembers(m, p) && p in n.history
    ensures Grows(m, n, p, Refers(m.records, head, p) && m.records[head].slot < 0 && m.records[head].scopeCandidate)
  {
    assert forall h :: h != head ==> (Refers(n.records, h, p) <==> Refers(m.records, h, p));
  }

  lemma {:induction false} GrowsEntered(m: Moment, n: Moment, skb: nat, idr: nat, scope: Option<Scope>, p: nat)
    requires Enters(m, n, skb, idr, scope) && Remembers(m, p) && p in n.history
    ensures Grows(m, n, p, false)
  {
    hide RingFound;
    var slot: RingSlot :| EntersRing(m, n, skb, idr, scope, slot);
    if WaitsFor(m.records, m.bySkb, skb, scope).Some? && slot >= 0 {
      var head := m.bySkb[skb];
      assert forall h :: h != head ==> (Refers(n.records, h, p) <==> Refers(m.records, h, p));
      assert Refers(n.records, head, p) <==> Refers(m.records, head, p);
    } else {
      GrowsSame(m, n, p);
    }
  }

  lemma {:induction false} PostsInPlace(m: Moment, n: Moment, saw: Option<Record>, skb: nat, id: int)
    requires Posts(m, n, saw, skb, id)
    ensures SamePlaces(m, n)
  {
    hide SameRings;
  }

  lemma {:induction false} ReapsInPlace(m: Moment, n: Moment, infos: RingInfos, idr: nat, id: nat, removed: Option<nat>)
    requires Reaps(m, n, infos, idr, id, removed)
    ensures SamePlaces(m, n)
  {
    hide SameRings, HasTable;
  }

  lemma {:induction false} UnlinksInPlace(m: Moment, n: Moment, skb: nat, head: nat)
    requires Unlinks(m, n, skb, head)
    ensures SamePlaces(m, n)
  {
  }

  lemma {:induction false} NothingInPlace(m: Moment)
    ensures SamePlaces(m, m)
  {
  }

  lemma {:induction false} GrowsStep(steps: seq<Step>, trace: seq<Moment>, i: nat, p: nat)
    requires RunExact(steps, trace) && i < |steps| && Remembers(trace[i], p) && p in trace[i + 1].history
    ensures Grows(trace[i], trace[i + 1], p, LeavesWaiting(steps, trace, i, p))
  {
    hide Unlinks, Forgets, Tracks, Enters, Posts, Reaps, MomentOk, Drawn, Saw, Grows, Remembers, SamePlaces;
    assert StepExact(steps, trace, i);
    var m, n := trace[i], trace[i + 1];
    InHistory(m, p);
    match steps[i]
    case NetdevAlloc(c, alloc, skb, head, page, _, aligned, _) =>
      if Drawn(steps, i, c) {
        GrowsTracked(m, n, alloc, skb, head, page, aligned, p);
      } else {
        NothingInPlace(m);
        GrowsSame(m, n, p);
      }
    case HeadFreed(head) => GrowsForgotten(m, n, head, p);
    case IdrAllocIn(_, skb, idr, scope, _, _) => GrowsEntered(m, n, skb, idr, scope, p);
    case _ =>
      InPlaceStep(steps, trace, i);
      GrowsSame(m, n, p);
  }

  lemma {:induction false} InHistory(m: Moment, p: nat)
    requires Remembers(m, p)
    ensures p in m.history
  {
  }

  /** Most steps move no buffer. */
  lemma {:induction false} InPlaceStep(steps: seq<Step>, trace: seq<Moment>, i: nat)
    requires RunExact(steps, trace) && i < |steps|
    requires !steps[i].NetdevAlloc? && !steps[i].HeadFreed? && !steps[i].IdrAllocIn?
    ensures SamePlaces(trace[i], trace[i + 1])
  {
    hide Unlinks, Forgets, Tracks, Enters, Posts, Reaps, MomentOk, Drawn, Saw, SamePlaces;
    assert StepExact(steps, trace, i);
    var m, n := trace[i], trace[i + 1];
    NothingInPlace(m);
    match steps[i]
    case SkbReleased(skb, head) => UnlinksInPlace(m, n, skb, head);
    case IdrAllocOut(c, id, _, _) =>
      if j: nat :| j < i && EntryOf(steps, j, i, c) {
        assert ReturnExact(steps, trace, j, i);
        PostsInPlace(m, n, Saw(trace[j + 1], steps[j].skb, steps[j].idr), steps[j].skb, id);
      }
    case IdrRemoveOut(c, removed, _, _) =>
      if j: nat :| j < i && RemovalOf(steps, j, i, c) {
        assert RemovalExact(steps, trace, j, i);
        ReapsInPlace(m, n, trace[j + 1].infos, steps[j].idr, steps[j].rid, removed);
      }
    case _ =>
  }

  lemma {:induction false} GrownRemembers(m: Moment, n: Moment, p: nat, left: bool)
    requires p in m.history && p in n.history && Grows(m, n, p, left)
    ensures Remembers(n, p)
  {
    hide RingOn, StrayOn;
  }

  /** Only the allocation of a buffer makes a page tracked. */
  lemma {:induction false} PagesKept(steps: seq<Step>, trace: seq<Moment>, i: nat)
    requires RunExact(steps, trace) && i < |steps| && !steps[i].NetdevAlloc?
    ensures trace[i + 1].history.Keys <= trace[i].history.Keys
  {
    hide Unlinks, Posts, Reaps, RingFound, Drawn, Saw, MomentOk;
    assert StepExact(steps, trace, i);
    if steps[i].IdrAllocIn? {
      var s := steps[i];
      var slot: RingSlot :| EntersRing(trace[i], trace[i + 1], s.skb, s.idr, s.scope, slot);
    } else if !steps[i].HeadFreed? {
      InPlaceStep(steps, trace, i);
    }
  }

  /** The page's history is what is on it now. */
  ghost predicate Begins(m: Moment, p: nat) {
    && p in m.history && (forall s :: s in m.history[p].rings <==> RingOn(m, p, s))
    && (m.history[p].unscoped <==> StrayOn(m, p))
  }

  /** So it is when a page begins to be tracked. */
  lemma {:induction false} PageBegins(steps: seq<Step>, trace: seq<Moment>, i: nat, p: nat)
    requires RunExact(steps, trace) && i < |steps| && p !in trace[i].history && p in trace[i + 1].history
    ensures Begins(trace[i + 1], p)
  {
    hide Unlinks, Forgets, Enters, Posts, Reaps, Drawn, Saw, TablesAgree, SlotsAgree;
    if !steps[i].NetdevAlloc? {
      PagesKept(steps, trace, i);
    }
    assert StepExact(steps, trace, i) && MomentOk(trace[i]);
    var m, n := trace[i], trace[i + 1];
    assert forall h :: !Refers(m.records, h, p);
    assert forall h :: h != steps[i].head ==> (Refers(n.records, h, p) <==> Refers(m.records, h, p));
  }

  /** The page has been tracked from moment k on, and not before. */
  predicate TrackedFrom(trace: seq<Moment>, k: nat, i: nat, p: nat)
    requires i < |trace|
  {
    0 < k <= i && p !in trace[k - 1].history && forall l :: k <= l <= i ==> p in trace[l].history
  }

  /** The history of the page at moment i is what has been on it from moment k on. */
  ghost predicate HistoryFrom(steps: seq<Step>, trace: seq<Moment>, k: nat, i: nat, p: nat)
    requires i < |trace| && i <= |steps| && p in trace[i].history
  {
    && (forall s :: s in trace[i].history[p].rings <==> exists l :: k <= l <= i && RingOn(trace[l], p, s))
    && (trace[i].history[p].unscoped <==>
        || (exists l :: k <= l <= i && StrayOn(trace[l], p))
        || (exists t :: k <= t < i && LeavesWaiting(steps, trace, t, p)))
  }

  /**
   What is remembered of a tracked page: exactly the rings that have had a buffer on it since it began to be
   tracked, and whether in that time it has had a buffer of no ring, or one that was released before it got its own.
   */
  lemma {:induction false} HistoryExactly(steps: seq<Step>, trace: seq<Moment>, i: nat, p: nat) returns (k: nat)
    requires RunExact(steps, trace) && i <= |steps| && |trace| == |steps| + 1
    requires p !in trace[0].history && p in trace[i].history
    ensures TrackedFrom(trace, k, i, p) && HistoryFrom(steps, trace, k, i, p)
    ensures Remembers(trace[i], p)
    decreases i
  {
    hide RunExact, RingOn, StrayOn, LeavesWaiting, Grows, Remembers;
    if p in trace[i - 1].history {
      k := HistoryExactly(steps, trace, i - 1, p);
      GrowsStep(steps, trace, i - 1, p);
      GrownRemembers(trace[i - 1], trace[i], p, LeavesWaiting(steps, trace, i - 1, p));
      HistoryNext(steps, trace, k, i, p);
    } else {
      k := i;
      PageBegins(steps, trace, i - 1, p);
      BegunRemembers(trace[i], p);
    }
  }

  lemma {:induction false} BegunRemembers(m: Moment, p: nat)
    requires Begins(m, p)
    ensures Remembers(m, p)
  {
    hide RingOn, StrayOn;
  }

  lemma {:induction false} HistoryNext(steps: seq<Step>, trace: seq<Moment>, k: nat, i: nat, p: nat)
    requires 0 < i < |trace| && i <= |steps| && p in trace[i - 1].history && p in trace[i].history && k < i
    requires HistoryFrom(steps, trace, k, i - 1, p)
    requires Grows(trace[i - 1], trace[i], p, LeavesWaiting(steps, trace, i - 1, p))
    ensures HistoryFrom(steps, trace, k, i, p)
  {
    hide RingOn, StrayOn, LeavesWaiting;
    forall s ensures s in trace[i].history[p].rings <==> exists l :: k <= l <= i && RingOn(trace[l], p, s) {
      if s in trace[i].history[p].rings {
        assert s in trace[i - 1].history[p].rings || RingOn(trace[i], p, s);
      }
    }
  }

  // ----- the steps of a run, by the data of the calls that wait -----

  /** What the data of a call on `idr_alloc` says about the moment after its entry. */
  predicate CallFrom(call: IdrAllocCall, m: Moment, skb: nat, idr: nat) {
    var saw := Saw(m, skb, idr);
    && call.skb == skb
    && if saw.Some? then call.tracked && call.slot == saw.value.slot && call.generation == saw.value.generation
                         && call.generation >= 1
       else call.generation == 0
  }

  /** The return of a call posts what its data leads to. */
  predicate PostsCall(m: Moment, n: Moment, call: IdrAllocCall, id: int) {
    && n.bySkb == m.bySkb && n.history == m.history && SameRings(m.infos, n.infos)
    && n.records == if id >= 0 && call.tracked && call.generation != 0
                       && Postable(m, call.skb, call.generation, call.slot)
                    then m.records[m.bySkb[call.skb] := m.records[m.bySkb[call.skb]].(state := POSTED, bufId := id)]
                    else m.records
  }

  /** What the data of a call on `idr_remove` says about the moment of its entry. */
  ghost predicate RemovalFrom(call: IdrRemoveCall, infos: RingInfos, idr: nat, rid: nat) {
    call.id == rid && if call.tracked then HasTable(infos, call.slot, idr) else forall i :: !HasTable(infos, i, idr)
  }

  predicate ReapsCall(m: Moment, n: Moment, call: IdrRemoveCall, removed: Option<nat>) {
    && n.bySkb == m.bySkb && n.history == m.history && SameRings(m.infos, n.infos)
    && n.records == if call.tracked && removed.Some? && removed.value in m.bySkb && m.bySkb[removed.value] in m.records
                       && m.records[m.bySkb[removed.value]].slot == call.slot
                       && m.records[m.bySkb[removed.value]].state == POSTED
                    then m.records[m.bySkb[removed.value] :=
                                   m.records[m.bySkb[removed.value]].(state := REAPED, bufId := call.id)]
                    else m.records
  }

  /** What one activation does: from the moment m to n, and to what the calls remember. */
  ghost predicate StepTaken(step: Step, drawn: map<nat, nat>, calls: Calls, m: Moment, n: Moment,
                            drawn': map<nat, nat>, calls': Calls)
  {
    match step
    case NetdevDraw(c, recordOk) =>
      n == m && calls' == calls && drawn'.Keys == if recordOk then drawn.Keys + {c} else drawn.Keys
    case NetdevAlloc(c, alloc, skb, head, page, _, aligned, _) =>
      && calls' == calls && drawn'.Keys == drawn.Keys - {c}
      && if c in drawn then Tracks(m, n, alloc, skb, head, page, aligned) else n == m
    case SkbReleased(skb, head) => drawn' == drawn && calls' == calls && Unlinks(m, n, skb, head)
    case HeadFreed(head) => drawn' == drawn && calls' == calls && Forgets(m, n, head)
    case IdrAllocIn(c, skb, idr, scope, _, _) =>
      && drawn' == drawn && c in calls'.allocs && calls' == calls.(allocs := calls.allocs[c := calls'.allocs[c]])
      && CallFrom(calls'.allocs[c], n, skb, idr) && Enters(m, n, skb, idr, scope)
    case IdrAllocOut(c, id, _, _) =>
      && drawn' == drawn && calls' == calls.(allocs := calls.allocs - {c})
      && if c in calls.allocs then PostsCall(m, n, calls.allocs[c], id) else n == m
    case IdrRemoveIn(c, idr, rid) =>
      && drawn' == drawn && c in calls'.removes && calls' == calls.(removes := calls.removes[c := calls'.removes[c]])
      && RemovalFrom(calls'.removes[c], n.infos, idr, rid) && n == m
    case IdrRemoveOut(c, removed, _, _) =>
      && drawn' == drawn && calls' == calls.(removes := calls.removes - {c})
      && if c in calls.removes then ReapsCall(m, n, calls.removes[c], removed) else n == m
  }

  /** Each waiting call remembers what the moment of its own entry says. */
  ghost predicate DrawsKnown(drawn: map<nat, nat>, steps: seq<Step>, i: nat)
    requires i <= |steps|
  {
    forall c :: c in drawn <==> Drawn(steps, i, c)
  }

  ghost predicate AllocsKnown(allocs: map<nat, IdrAllocCall>, steps: seq<Step>, trace: seq<Moment>, i: nat)
    requires i <= |steps| && i < |trace|
  {
    && (forall c :: c in allocs ==> exists j: nat :: j < i && EntryOf(steps, j, i, c))
    && (forall c, j: nat :: j < i && EntryOf(steps, j, i, c) ==>
          c in allocs && CallFrom(allocs[c], trace[j + 1], steps[j].skb, steps[j].idr))
  }

  ghost predicate RemovesKnown(removes: map<nat, IdrRemoveCall>, steps: seq<Step>, trace: seq<Moment>, i: nat)
    requires i <= |steps| && i < |trace|
  {
    && (forall c :: c in removes ==> exists j: nat :: j < i && RemovalOf(steps, j, i, c))
    && (forall c, j: nat :: j < i && RemovalOf(steps, j, i, c) ==>
          c in removes && RemovalFrom(removes[c], trace[j + 1].infos, steps[j].idr, steps[j].rid))
  }

  ghost predicate CallsKnown(drawn: map<nat, nat>, calls: Calls, steps: seq<Step>, trace: seq<Moment>, i: nat)
    requires i <= |steps| && i < |trace|
  {
    && DrawsKnown(drawn, steps, i) && AllocsKnown(calls.allocs, steps, trace, i)
    && RemovesKnown(calls.removes, steps, trace, i)
  }

  lemma {:induction false} DrawsStep(drawn: map<nat, nat>, calls: Calls, steps: seq<Step>, i: nat, m: Moment, n: Moment,
                                     drawn': map<nat, nat>, calls': Calls)
    requires i < |steps| && DrawsKnown(drawn, steps, i) && StepTaken(steps[i], drawn, calls, m, n, drawn', calls')
    ensures DrawsKnown(drawn', steps, i + 1)
  {
    hide Enters, Unlinks, Forgets, CallFrom, RemovalFrom, PostsCall, ReapsCall, Tracks;
    forall c ensures c in drawn' <==> Drawn(steps, i + 1, c) {
      assert c in drawn <==> Drawn(steps, i, c);
      assert c in drawn' <==> c in drawn'.Keys;
      assert c in drawn <==> c in drawn.Keys;
    }
  }

  /** Who waits after a step: the call it enters, or who waited before and is neither entered nor returned. */
  lemma {:induction false} EntryNext(steps: seq<Step>, j: nat, i: nat, c: nat)
    requires j <= i < |steps|
    ensures EntryOf(steps, j, i + 1, c)
        <==> if steps[i].IdrAllocIn? && steps[i].c == c then j == i
             else j < i && EntryOf(steps, j, i, c) && !(steps[i].IdrAllocOut? && steps[i].c == c)
  {
    if j < i && EntryOf(steps, j, i + 1, c) {
      assert EntryOf(steps, j, i, c);
    }
  }

  lemma {:induction false} RemovalNext(steps: seq<Step>, j: nat, i: nat, c: nat)
    requires j <= i < |steps|
    ensures RemovalOf(steps, j, i + 1, c)
        <==> if steps[i].IdrRemoveIn? && steps[i].c == c then j == i
             else j < i && RemovalOf(steps, j, i, c) && !(steps[i].IdrRemoveOut? && steps[i].c == c)
  {
    if j < i && RemovalOf(steps, j, i + 1, c) {
      assert RemovalOf(steps, j, i, c);
    }
  }

  /** How the waiting `idr_alloc` calls change with a step. */
  ghost predicate AllocsFollow(step: Step, allocs: map<nat, IdrAllocCall>, allocs': map<nat, IdrAllocCall>, n: Moment) {
    match step
    case IdrAllocIn(c, skb, idr, _, _, _) =>
      c in allocs' && allocs' == allocs[c := allocs'[c]] && CallFrom(allocs'[c], n, skb, idr)
    case IdrAllocOut(c, _, _, _) => allocs' == allocs - {c}
    case _ => allocs' == allocs
  }

  ghost predicate RemovesFollow(step: Step, removes: map<nat, IdrRemoveCall>, removes': map<nat, IdrRemoveCall>,
                                n: Moment)
  {
    match step
    case IdrRemoveIn(c, idr, rid) =>
      c in removes' && removes' == removes[c := removes'[c]] && RemovalFrom(removes'[c], n.infos, idr, rid)
    case IdrRemoveOut(c, _, _, _) => removes' == removes - {c}
    case _ => removes' == removes
  }

  lemma {:induction false} AllocsStep(allocs: map<nat, IdrAllocCall>, allocs': map<nat, IdrAllocCall>, steps: seq<Step>,
                                      trace: seq<Moment>, i: nat, n: Moment)
    requires i < |steps| && |trace| == i + 1 && AllocsKnown(allocs, steps, trace, i)
    requires AllocsFollow(steps[i], allocs, allocs', n)
    ensures AllocsKnown(allocs', steps, trace + [n], i + 1)
  {
    hide EntryOf, CallFrom;
    var next, trace' := i + 1, trace + [n];
    forall c | c in allocs' ensures exists j: nat :: j < next && EntryOf(steps, j, next, c) {
      EntryNext(steps, i, i, c);
      if !(steps[i].IdrAllocIn? && steps[i].c == c) {
        var j: nat :| j < i && EntryOf(steps, j, i, c);
        EntryNext(steps, j, i, c);
      }
    }
    forall c, j: nat | j < next && EntryOf(steps, j, next, c)
      ensures EntryIs(steps, j) && c in allocs' && CallFrom(allocs'[c], trace'[j + 1], steps[j].skb, steps[j].idr)
    {
      EntryNext(steps, j, i, c);
      EntryIsEntry(steps, j, next, c);
      if j < i {
        assert trace'[j + 1] == trace[j + 1];
      }
    }
  }

  lemma {:induction false} EntryIsEntry(steps: seq<Step>, j: nat, i: nat, c: nat)
    requires j < i <= |steps| && EntryOf(steps, j, i, c)
    ensures EntryIs(steps, j) && steps[j].c == c
  {
  }

  lemma {:induction false} RemovalIsRemoval(steps: seq<Step>, j: nat, i: nat, c: nat)
    requires j < i <= |steps| && RemovalOf(steps, j, i, c)
    ensures RemovalIs(steps, j) && steps[j].c == c
  {
  }

  lemma {:induction false} RemovesStep(removes: map<nat, IdrRemoveCall>, removes': map<nat, IdrRemoveCall>,
                                       steps: seq<Step>, trace: seq<Moment>, i: nat, n: Moment)
    requires i < |steps| && |trace| == i + 1 && RemovesKnown(removes, steps, trace, i)
    requires RemovesFollow(steps[i], removes, removes', n)
    ensures RemovesKnown(removes', steps, trace + [n], i + 1)
  {
    hide RemovalOf, RemovalFrom;
    var next, trace' := i + 1, trace + [n];
    forall c | c in removes' ensures exists j: nat :: j < next && RemovalOf(steps, j, next, c) {
      RemovalNext(steps, i, i, c);
      if !(steps[i].IdrRemoveIn? && steps[i].c == c) {
        var j: nat :| j < i && RemovalOf(steps, j, i, c);
        RemovalNext(steps, j, i, c);
      }
    }
    forall c, j: nat | j < next && RemovalOf(steps, j, next, c)
      ensures RemovalIs(steps, j) && c in removes'
              && RemovalFrom(removes'[c], trace'[j + 1].infos, steps[j].idr, steps[j].rid)
    {
      RemovalNext(steps, j, i, c);
      RemovalIsRemoval(steps, j, next, c);
      if j < i {
        assert trace'[j + 1] == trace[j + 1];
      }
    }
  }

  lemma {:induction false} CallsStep(drawn: map<nat, nat>, calls: Calls, steps: seq<Step>, trace: seq<Moment>, i: nat,
                                     n: Moment, drawn': map<nat, nat>, calls': Calls)
    requires i < |steps| && |trace| == i + 1 && CallsKnown(drawn, calls, steps, trace, i)
    requires StepTaken(steps[i], drawn, calls, trace[i], n, drawn', calls')
    ensures CallsKnown(drawn', calls', steps, trace + [n], i + 1)
  {
    hide DrawsKnown, AllocsKnown, RemovesKnown, Enters, Unlinks, Forgets, CallFrom, RemovalFrom, PostsCall, ReapsCall,
         Tracks;
    DrawsStep(drawn, calls, steps, i, trace[i], n, drawn', calls');
    AllocsStep(calls.allocs, calls'.allocs, steps, trace, i, n);
    RemovesStep(calls.removes, calls'.removes, steps, trace, i, n);
  }

  lemma {:induction false} PostsExact(m: Moment, n: Moment, call: IdrAllocCall, id: int, entry: Moment, skb: nat,
                                      idr: nat)
    requires PostsCall(m, n, call, id) && CallFrom(call, entry, skb, idr)
    ensures Posts(m, n, Saw(entry, skb, idr), skb, id)
  {
    hide Saw, SameRings;
  }

  lemma {:induction false} ReapsExact(m: Moment, n: Moment, call: IdrRemoveCall, removed: Option<nat>, entry: Moment,
                                      idr: nat, rid: nat)
    requires ReapsCall(m, n, call, removed) && RemovalFrom(call, entry.infos, idr, rid) && MomentOk(entry)
    ensures Reaps(m, n, entry.infos, idr, rid, removed)
  {
    hide TablesAgree, SameRings;
  }

  /** The step as it was taken, by the data of the waiting calls, is the step as the moments of the run have it. */
  lemma {:induction false} TakenExactly(drawn: map<nat, nat>, calls: Calls, steps: seq<Step>, trace: seq<Moment>,
                                        i: nat,
                                        n: Moment, drawn': map<nat, nat>, calls': Calls)
    requires i < |steps| && ExactTo(steps, trace, i) && CallsKnown(drawn, calls, steps, trace, i)
    requires StepTaken(steps[i], drawn, calls, trace[i], n, drawn', calls')
    ensures StepExact(steps, trace + [n], i)
  {
    hide Enters, Unlinks, Forgets, CallFrom, RemovalFrom, PostsCall, ReapsCall, Posts, Reaps, Tracks, Drawn, EntryOf,
         RemovalOf, MomentOk, StepExact;
    var m, trace' := trace[i], trace + [n];
    if steps[i].IdrAllocOut? {
      forall j: nat | j < i && EntryOf(steps, j, i, steps[i].c) ensures ReturnExact(steps, trace', j, i) {
        EntryIsEntry(steps, j, i, steps[i].c);
        assert trace'[j + 1] == trace[j + 1];
        PostsExact(m, n, calls.allocs[steps[i].c], steps[i].id, trace[j + 1], steps[j].skb, steps[j].idr);
      }
    } else if steps[i].IdrRemoveOut? {
      forall j: nat | j < i && RemovalOf(steps, j, i, steps[i].c) ensures RemovalExact(steps, trace', j, i) {
        RemovalIsRemoval(steps, j, i, steps[i].c);
        assert trace'[j + 1] == trace[j + 1] && MomentOk(trace[j + 1]);
        ReapsExact(m, n, calls.removes[steps[i].c], steps[i].removed, trace[j + 1], steps[j].idr, steps[j].rid);
      }
    }
    assert OtherExact(steps, i, m, n);
    ExactParts(steps, trace', i);
  }

  lemma {:induction false} ExactParts(steps: seq<Step>, trace: seq<Moment>, i: nat)
    requires i < |steps| && i + 1 < |trace| && OtherExact(steps, i, trace[i], trace[i + 1])
    requires steps[i].IdrAllocOut? ==>
               forall j: nat :: j < i && EntryOf(steps, j, i, steps[i].c) ==> ReturnExact(steps, trace, j, i)
    requires steps[i].IdrRemoveOut? ==>
               forall j: nat :: j < i && RemovalOf(steps, j, i, steps[i].c) ==> RemovalExact(steps, trace, j, i)
    ensures StepExact(steps, trace, i)
  {
  }

  /** One more step of an exact run. */
  lemma {:induction false} ExactStep(drawn: map<nat, nat>, calls: Calls, steps: seq<Step>, trace: seq<Moment>, i: nat,
                                     n: Moment, drawn': map<nat, nat>, calls': Calls)
    requires i < |steps| && ExactTo(steps, trace, i) && CallsKnown(drawn, calls, steps, trace, i)
    requires StepTaken(steps[i], drawn, calls, trace[i], n, drawn', calls') && MomentOk(n)
    ensures ExactTo(steps, trace + [n], i + 1) && CallsKnown(drawn', calls', steps, trace + [n], i + 1)
  {
    hide StepTaken, CallsKnown, StepExact, MomentOk;
    TakenExactly(drawn, calls, steps, trace, i, n, drawn', calls');
    CallsStep(drawn, calls, steps, trace, i, n, drawn', calls');
    var trace' := trace + [n];
    forall k | 0 <= k < i + 1 ensures StepExact(steps, trace', k) {
      if k < i {
        ExactLater(steps, trace, trace', k);
      }
    }
  }

  lemma {:induction false} ExactLater(steps: seq<Step>, trace: seq<Moment>, trace': seq<Moment>, k: nat)
    requires k < |steps| && k + 1 < |trace| && trace <= trace' && StepExact(steps, trace, k)
    ensures StepExact(steps, trace', k)
  {
    hide Posts, Reaps, EntryOf, RemovalOf, Saw, OtherExact;
    assert trace[k] == trace'[k] && trace[k + 1] == trace'[k + 1];
    if steps[k].IdrAllocOut? {
      forall j: nat | j < k && EntryOf(steps, j, k, steps[k].c) ensures ReturnExact(steps, trace', j, k) {
        assert ReturnExact(steps, trace, j, k) && trace'[j + 1] == trace[j + 1];
      }
    } else if steps[k].IdrRemoveOut? {
      forall j: nat | j < k && RemovalOf(steps, j, k, steps[k].c) ensures RemovalExact(steps, trace', j, k) {
        assert RemovalExact(steps, trace, j, k) && trace'[j + 1] == trace[j + 1];
      }
    }
  }

  lemma {:induction false} ExactEnd(steps: seq<Step>, trace: seq<Moment>)
    requires ExactTo(steps, trace, |steps|)
    ensures RunExact(steps, trace)
  {
  }

  lemma {:induction false} ExactStart(steps: seq<Step>, m: Moment)
    requires MomentOk(m)
    ensures ExactTo(steps, [m], 0) && CallsKnown(map[], Calls(map[], map[]), steps, [m], 0)
  {
  }

  /** What the entry of a call is known to do is what the moments before and after it say. */
  lemma {:induction false} EnteredSo(m: Moment, n: Moment, call: IdrAllocCall, skb: nat, idr: nat,
                                     scope: Option<Scope>)
    requires MomentOk(n) && n.bySkb == m.bySkb && (call.tracked <==> call.slot >= 0) && call.skb == skb
    requires var waits := WaitsFor(m.records, m.bySkb, skb, scope);
             && RingFound(m.infos, n.infos, waits, idr, call.slot)
             && n.records == if call.tracked && waits.Some?
                             then m.records[m.bySkb[skb] := m.records[m.bySkb[skb]].(slot := call.slot)] else m.records
    requires var waits := WaitsFor(m.records, m.bySkb, skb, scope);
             n.history == if call.tracked && waits.Some?
                          then PromotedHistory(m.history, m.records[m.bySkb[skb]], call.slot) else m.history
    requires call.generation == if call.tracked && skb in n.bySkb && n.bySkb[skb] in n.records
                                   && n.records[n.bySkb[skb]].slot == call.slot
                                then n.records[n.bySkb[skb]].generation else 0
    ensures Enters(m, n, skb, idr, scope) && CallFrom(call, n, skb, idr)
  {
    hide TablesAgree, Available;
    assert EntersRing(m, n, skb, idr, scope, call.slot);
    var waits := WaitsFor(m.records, m.bySkb, skb, scope);
    RingFoundExactly(m.infos, n.infos, waits, idr, call.slot);
    RingFoundNone(m.infos, n.infos, waits, idr, call.slot);
  }

  lemma {:induction false} RingFoundNone(before: RingInfos, after: RingInfos, waits: Option<Scope>, idr: nat,
                                         slot: RingSlot)
    requires RingFound(before, after, waits, idr, slot)
    ensures slot < 0 ==> forall i :: !HasTable(after, i, idr)
  {
  }

  lemma {:induction false} NothingReturned(m: Moment, call: IdrAllocCall, id: int)
    ensures !call.tracked ==> PostsCall(m, m, call, id)
  {
  }

  lemma {:induction false} ReturnedSo(m: Moment, n: Moment, call: IdrAllocCall, id: int, may: bool)
    requires call.tracked && call.slot >= 0 && n.bySkb == m.bySkb && SameRings(m.infos, n.infos)
    requires n.history == m.history
    requires may <==> call.generation != 0 && Postable(m, call.skb, call.generation, call.slot)
    requires n.records == if id >= 0 && may
                          then m.records[m.bySkb[call.skb] :=
                                         m.records[m.bySkb[call.skb]].(state := POSTED, bufId := id)]
                          else m.records
    ensures PostsCall(m, n, call, id)
  {
    hide SameRings;
  }
}
