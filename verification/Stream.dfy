/**
 Event streams as such: which orders of events can be replayed, and what sorting
 by time does to them. An id is posted or allocated once, reaped only while
 posted, and freed only when it is not.
 */
module Stream {
  import opened Basics
  import opened PageFrag
  import opened ReplayModel

  /** Which buffers exist, and whether they are posted. */
  type Status = map<nat, bool>

  /** The event makes sense in this status. */
  predicate StatusOk(st: Status, e: Event) {
    match e.action
    case Post => e.id !in st && 0 < e.aligned <= CACHE_MAX_SIZE
    case Alloc => e.id !in st && 0 < e.aligned <= CACHE_MAX_SIZE
    case Reap => e.id in st && st[e.id]
    case Free => e.id in st && !st[e.id]
  }

  function StatusStep(st: Status, e: Event): Status {
    match e.action
    case Post => st[e.id := true]
    case Alloc => st[e.id := false]
    case Reap => st[e.id := false]
    case Free => st - {e.id}
  }

  /** The status after a whole stream; None when some event does not make sense. */
  function Run(st: Status, es: seq<Event>): Option<Status>
    decreases |es|
  {
    if es == [] then Some(st)
    else if !StatusOk(st, es[0]) then None
    else Run(StatusStep(st, es[0]), es[1..])
  }

  lemma {:induction false} RunConcat(st: Status, a: seq<Event>, b: seq<Event>)
    ensures Run(st, a + b) == if Run(st, a).None? then None else Run(Run(st, a).value, b)
    decreases |a|
  {
    if a == [] {
      assert a + b == b;
    } else {
      assert (a + b)[1..] == a[1..] + b;
      if StatusOk(st, a[0]) {
        RunConcat(StatusStep(st, a[0]), a[1..], b);
      }
    }
  }

  lemma {:induction false} RunNone(st: Status)
    ensures Run(st, []) == Some(st)
  {
  }

  lemma {:induction false} RunOne(st: Status, e: Event)
    ensures Run(st, [e]) == if StatusOk(st, e) then Some(StatusStep(st, e)) else None
  {
    assert [e][1..] == [];
  }

  /** Events of different ids do not notice each other. */
  lemma {:induction false} Commute(st: Status, e: Event, f: Event)
    requires e.id != f.id
    ensures StatusOk(StatusStep(st, f), e) == StatusOk(st, e)
    ensures StatusStep(StatusStep(st, e), f) == StatusStep(StatusStep(st, f), e)
  {
  }

  lemma {:induction false} CommutePast(st: Status, b: seq<Event>, e: Event)
    requires forall i :: 0 <= i < |b| ==> b[i].id != e.id
    ensures Run(st, [e] + b) == Run(st, b + [e])
    decreases |b|
  {
    if b == [] {
      assert [e] + b == b + [e];
    } else {
      var f := b[0];
      assert ([e] + b)[1..] == b;
      assert (b + [e])[1..] == b[1..] + [e];
      Commute(st, e, f);
      Commute(st, f, e);
      CommutePast(StatusStep(st, f), b[1..], e);
      assert ([e] + b[1..])[1..] == b[1..];
      RunUnfold(StatusStep(st, f), [e] + b[1..]);
      RunUnfold(StatusStep(st, e), b);
    }
  }

  lemma {:induction false} RunUnfold(st: Status, es: seq<Event>)
    requires es != []
    ensures Run(st, es) == if StatusOk(st, es[0]) then Run(StatusStep(st, es[0]), es[1..]) else None
  {
  }

  // ----- sorting -----

  /** The order of `sorted` on events: by time, then by sequence number. */
  predicate Before(e: Event, f: Event) { e.time < f.time || (e.time == f.time && e.seqNo < f.seqNo) }

  predicate Sorted(es: seq<Event>) { forall i, j :: 0 <= i < j < |es| ==> Before(es[i], es[j]) }

  /** Where e belongs in a sorted stream. */
  function Place(es: seq<Event>, e: Event): (k: nat)
    ensures k <= |es|
    ensures forall i :: 0 <= i < k ==> Before(es[i], e)
    ensures k < |es| ==> !Before(es[k], e)
  {
    if es == [] || !Before(es[0], e) then 0 else 1 + Place(es[1..], e)
  }

  function Insert(es: seq<Event>, e: Event): (r: seq<Event>)
    ensures multiset(r) == multiset(es) + multiset{e} && |r| == |es| + 1
  {
    var k := Place(es, e);
    assert es == es[..k] + es[k..];
    es[..k] + [e] + es[k..]
  }

  /** `sorted(events)` */
  function Sort(es: seq<Event>): (r: seq<Event>)
    ensures multiset(r) == multiset(es) && |r| == |es|
  {
    if es == [] then []
    else
      assert es == es[..|es| - 1] + [es[|es| - 1]];
      Insert(Sort(es[..|es| - 1]), es[|es| - 1])
  }

  /** Sequence numbers count the events of a stream as it was built. */
  predicate Numbered(es: seq<Event>) { forall i :: 0 <= i < |es| ==> es[i].seqNo == i }

  lemma {:induction false} MemberOfSort(es: seq<Event>, e: Event)
    ensures e in Sort(es) <==> e in es
  {
    assert e in Sort(es) <==> e in multiset(Sort(es));
    assert e in es <==> e in multiset(es);
  }

  lemma {:induction false} InsertSorts(es: seq<Event>, e: Event)
    requires Sorted(es) && forall i :: 0 <= i < |es| ==> es[i].seqNo != e.seqNo
    ensures Sorted(Insert(es, e))
  {
    hide Sorted, Before, Place, Insert;
    var k := Place(es, e);
    InsertEarlier(es, e);
    InsertLater(es, e);
    SortedSplit(es, k);
    SortedJoin(es[..k], e, es[k..]);
    InsertParts(es, e);
  }

  lemma {:induction false} InsertParts(es: seq<Event>, e: Event)
    ensures var k := Place(es, e); Insert(es, e) == es[..k] + [e] + es[k..]
  {
    hide Place;
  }

  lemma {:induction false} InsertEarlier(es: seq<Event>, e: Event)
    ensures forall i :: 0 <= i < |es[..Place(es, e)]| ==> Before(es[..Place(es, e)][i], e)
  {
    hide Before, Place;
  }

  lemma {:induction false} InsertLater(es: seq<Event>, e: Event)
    requires Sorted(es) && forall i :: 0 <= i < |es| ==> es[i].seqNo != e.seqNo
    ensures forall i :: 0 <= i < |es[Place(es, e)..]| ==> Before(e, es[Place(es, e)..][i])
  {
    hide Place;
    var k := Place(es, e);
    forall i | k <= i < |es| ensures Before(e, es[i]) {
      assert i == k || Before(es[k], es[i]);
    }
  }

  lemma {:induction false} SortedSplit(es: seq<Event>, k: nat)
    requires Sorted(es) && k <= |es|
    ensures Sorted(es[..k]) && Sorted(es[k..])
    ensures forall i, j :: 0 <= i < |es[..k]| && 0 <= j < |es[k..]| ==> Before(es[..k][i], es[k..][j])
  {
    hide Before;
  }

  lemma {:induction false} SortedJoin(a: seq<Event>, e: Event, b: seq<Event>)
    requires Sorted(a) && Sorted(b) && (forall i :: 0 <= i < |a| ==> Before(a[i], e))
    requires forall i :: 0 <= i < |b| ==> Before(e, b[i])
    requires forall i, j :: 0 <= i < |a| && 0 <= j < |b| ==> Before(a[i], b[j])
    ensures Sorted(a + [e] + b)
  {
    hide Before;
    var r := a + [e] + b;
    forall i, j | 0 <= i < j < |r| ensures Before(r[i], r[j]) {
      if j < |a| {
        assert r[i] == a[i] && r[j] == a[j];
      } else if i < |a| {
        assert r[i] == a[i] && r[j] == if j == |a| then e else b[j - |a| - 1];
      } else {
        assert r[j] == b[j - |a| - 1] && r[i] == if i == |a| then e else b[i - |a| - 1];
      }
    }
  }

  lemma {:induction false} NothingSorted()
    ensures Sorted([])
  {
  }

  lemma {:induction false} SortSorts(es: seq<Event>)
    requires Numbered(es)
    ensures Sorted(Sort(es))
    decreases |es|
  {
    hide Sorted, Insert;
    if es == [] {
      NothingSorted();
    } else {
      var n := |es| - 1;
      var s := Sort(es[..n]);
      SortSorts(es[..n]);
      forall i | 0 <= i < |s| ensures s[i].seqNo != n {
        MemberOfSort(es[..n], s[i]);
      }
      InsertSorts(s, es[n]);
    }
  }

  /** The events of one id are built in order of time. */
  predicate TimesOk(es: seq<Event>) {
    forall i, j :: 0 <= i < j < |es| && es[i].id == es[j].id ==> es[i].time <= es[j].time
  }

  /** What sorts after the last event of a stream belongs to other ids. */
  lemma {:induction false} LaterAreOthers(es: seq<Event>)
    requires Numbered(es) && TimesOk(es) && es != []
    ensures var n := |es| - 1; var s := Sort(es[..n]);
            forall i :: Place(s, es[n]) <= i < |s| ==> s[i].id != es[n].id
  {
    var n := |es| - 1;
    var head, s, e := es[..n], Sort(es[..n]), es[n];
    SortSorts(head);
    var k := Place(s, e);
    forall i | k <= i < |s| ensures s[i].id != e.id {
      MemberOfSort(head, s[i]);
      var j :| 0 <= j < n && head[j] == s[i];
      assert es[j] == s[i] && es[j].seqNo < e.seqNo;
      assert !Before(s[k], e) && (i == k || Before(s[k], s[i]));
    }
  }

  /** Sorting by time keeps a stream replayable, with the same outcome, if each id's own events were in order. */
  lemma {:induction false} SortKeepsRun(st: Status, es: seq<Event>)
    requires Numbered(es) && TimesOk(es) && Run(st, es).Some?
    ensures Run(st, Sort(es)) == Run(st, es)
    decreases |es|
  {
    hide Run, Before;
    if es == [] {
      assert Sort(es) == es;
    } else {
      var n := |es| - 1;
      var head, s, e := es[..n], Sort(es[..n]), es[n];
      assert es == head + [e];
      LaterAreOthers(es);
      RunConcat(st, head, [e]);
      SortKeepsRun(st, head);
      var k := Place(s, e);
      LateInsert(st, s[..k], s[k..], e);
      assert s == s[..k] + s[k..];
      RunConcat(st, s, [e]);
    }
  }

  lemma {:induction false} LateInsert(st: Status, a: seq<Event>, b: seq<Event>, e: Event)
    requires forall i :: 0 <= i < |b| ==> b[i].id != e.id
    ensures Run(st, a + [e] + b) == Run(st, a + b + [e])
  {
    assert a + [e] + b == a + ([e] + b);
    assert a + b + [e] == a + (b + [e]);
    RunConcat(st, a, [e] + b);
    RunConcat(st, a, b + [e]);
    if Run(st, a).Some? {
      CommutePast(Run(st, a).value, b, e);
    }
  }

  // ----- every id is given out once -----

  predicate GivesOut(e: Event) { e.action == Post || e.action == Alloc }

  /** No two events post or allocate the same id, not even after it has been freed. */
  predicate OnceEach(es: seq<Event>) {
    forall i, j :: 0 <= i < j < |es| && GivesOut(es[i]) && GivesOut(es[j]) ==> es[i].id != es[j].id
  }

  lemma {:induction false} OnceSorted(es: seq<Event>)
    requires Numbered(es) && OnceEach(es)
    ensures OnceEach(Sort(es))
  {
    hide Sort;
    var s := Sort(es);
    SortSorts(es);
    forall i, j | 0 <= i < j < |s| && GivesOut(s[i]) && GivesOut(s[j]) ensures s[i].id != s[j].id {
      MemberOfSort(es, s[i]);
      MemberOfSort(es, s[j]);
      var p :| 0 <= p < |es| && es[p] == s[i];
      var q :| 0 <= q < |es| && es[q] == s[j];
      assert Before(s[i], s[j]);
      assert p != q;
      assert if p < q then es[p].id != es[q].id else es[q].id != es[p].id;
    }
  }

  // ----- how many buffers are posted -----

  function PostedIn(st: Status): set<nat> { set i | i in st && st[i] }

  /** Posts minus reaps among the events up to time t. */
  function Net(es: seq<Event>, t: int): int {
    if es == [] then 0 else Net(es[..|es| - 1], t) + Delta(es[|es| - 1], t)
  }

  function Delta(e: Event, t: int): int {
    if e.time > t then 0 else if e.action == Post then 1 else if e.action == Reap then -1 else 0
  }

  lemma {:induction false} NetInsert(es: seq<Event>, e: Event, t: int, k: nat)
    requires k <= |es|
    ensures Net(es[..k] + [e] + es[k..], t) == Net(es, t) + Delta(e, t)
    decreases |es|
  {
    var r := es[..k] + [e] + es[k..];
    if k == |es| {
      assert r[..|r| - 1] == es && es[..k] == es;
    } else {
      var n := |es| - 1;
      assert r[..|r| - 1] == es[..n][..k] + [e] + es[..n][k..];
      NetInsert(es[..n], e, t, k);
    }
  }

  /** Sorting changes no count. */
  lemma {:induction false} NetSort(es: seq<Event>, t: int)
    ensures Net(Sort(es), t) == Net(es, t)
    decreases |es|
  {
    if es != [] {
      var n := |es| - 1;
      NetSort(es[..n], t);
      NetInsert(Sort(es[..n]), es[n], t, Place(Sort(es[..n]), es[n]));
    }
  }

  /** In a sorted stream the events up to t are a prefix, and the rest contribute nothing. */
  lemma {:induction false} NetPrefix(es: seq<Event>, k: nat, t: int)
    requires k <= |es| && (forall i :: k <= i < |es| ==> es[i].time > t)
    ensures Net(es, t) == Net(es[..k], t)
    decreases |es|
  {
    if k < |es| {
      NetPrefix(es[..|es| - 1], k, t);
      assert es[..|es| - 1][..k] == es[..k];
    } else {
      assert es[..k] == es;
    }
  }

  /** After a replayable prefix up to t, the posted buffers are the posts minus the reaps. */
  lemma {:induction false} NetCounts(st: Status, es: seq<Event>, t: int)
    requires Run(st, es).Some? && forall i :: 0 <= i < |es| ==> es[i].time <= t
    ensures |PostedIn(Run(st, es).value)| == |PostedIn(st)| + Net(es, t)
    decreases |es|
  {
    if es != [] {
      var n := |es| - 1;
      var e := es[n];
      assert es == es[..n] + [e];
      RunConcat(st, es[..n], [e]);
      NetCounts(st, es[..n], t);
      var mid := Run(st, es[..n]).value;
      RunOne(mid, e);
      StepCounts(mid, e);
    }
  }

  /** At every time, what is posted in a replayable stream is the posts minus the reaps up to then. */
  lemma {:induction false} PostedAt(es: seq<Event>, k: nat, t: int)
    requires k <= |es| && Run(map[], es).Some?
    requires forall i :: 0 <= i < |es| ==> (es[i].time <= t <==> i < k)
    ensures Run(map[], es[..k]).Some? && |PostedIn(Run(map[], es[..k]).value)| == Net(es, t)
  {
    hide Run;
    assert es == es[..k] + es[k..];
    RunConcat(map[], es[..k], es[k..]);
    NetPrefix(es, k, t);
    NetCounts(map[], es[..k], t);
    assert PostedIn(map[]) == {};
  }

  // ----- the events up to a time -----

  /** The status after a stream, whether or not its events make sense. */
  function After(es: seq<Event>): Status
    decreases |es|
  {
    if es == [] then map[] else StatusStep(After(es[..|es| - 1]), es[|es| - 1])
  }

  lemma {:induction false} AfterRun(es: seq<Event>)
    requires Run(map[], es).Some?
    ensures Run(map[], es).value == After(es)
    decreases |es|
  {
    hide Run, StatusStep, StatusOk;
    if es == [] {
      RunNone(map[]);
    } else {
      var n := |es| - 1;
      assert es == es[..n] + [es[n]];
      RunConcat(map[], es[..n], [es[n]]);
      AfterRun(es[..n]);
      RunOne(After(es[..n]), es[n]);
    }
  }

  function UpTo(es: seq<Event>, t: int): seq<Event>
    decreases |es|
  {
    if es == [] then []
    else UpTo(es[..|es| - 1], t) + if es[|es| - 1].time <= t then [es[|es| - 1]] else []
  }

  lemma {:induction false} UpToAll(es: seq<Event>, t: int)
    requires forall i :: 0 <= i < |es| ==> es[i].time <= t
    ensures UpTo(es, t) == es
    decreases |es|
  {
    if es != [] {
      UpToAll(es[..|es| - 1], t);
    }
  }

  lemma {:induction false} StepCounts(st: Status, e: Event)
    requires StatusOk(st, e)
    ensures |PostedIn(StatusStep(st, e))| == |PostedIn(st)| + if e.action == Post then 1
            else if e.action == Reap then -1 else 0
  {
    var st' := StatusStep(st, e);
    match e.action
    case Post => assert PostedIn(st') == PostedIn(st) + {e.id};
    case Alloc => assert PostedIn(st') == PostedIn(st);
    case Reap => assert PostedIn(st') == PostedIn(st) - {e.id};
    case Free => assert PostedIn(st') == PostedIn(st);
  }
}
