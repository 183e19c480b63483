/** The replay order: no event before its cause, and otherwise by receive time and retained position. */
module CausalOrder {
  import opened Prelude
  import opened CausalGraph
  import opened CausalFilter

  /** The heap compares `((receive time, retained index), event id)`. */
  predicate KeyLess(a: Event, b: Event) {
    || a.receivedAt < b.receivedAt
    || (a.receivedAt == b.receivedAt && (a.index < b.index || (a.index == b.index && Less(a.id, b.id))))
  }

  lemma KeyLessIsTotal(a: Event, b: Event)
    ensures a.id != b.id ==> KeyLess(a, b) || KeyLess(b, a)
    ensures !(KeyLess(a, b) && KeyLess(b, a))
  {
    LessIsTotal(a.id, b.id);
  }

  lemma KeyLessIsTransitive(a: Event, b: Event, c: Event)
    requires KeyLess(a, b) && KeyLess(b, c)
    ensures KeyLess(a, c)
  {
    if Less(a.id, b.id) && Less(b.id, c.id) {
      LessIsTransitive(a.id, b.id, c.id);
    }
  }

  ghost predicate HasId(events: seq<Event>, id: string) {
    exists e :: e in events && e.id == id
  }

  /** An event that may be emitted next: it is not out yet, and its cause, if it has one, is. */
  ghost predicate Available(events: seq<Event>, out: seq<Event>, e: Event) {
    e in events && e !in out && (e.cause.Some? ==> HasId(out, e.cause.value))
  }

  /** Every element was, when it was emitted, the least of the available events. */
  ghost predicate Greedy(events: seq<Event>, out: seq<Event>) {
    forall k :: 0 <= k < |out| ==>
      Available(events, out[..k], out[k])
      && forall e :: Available(events, out[..k], e) && e != out[k] ==> KeyLess(out[k], e)
  }

  lemma GreedyNext(events: seq<Event>, out: seq<Event>, least: Event)
    requires Greedy(events, out) && Available(events, out, least)
    requires forall e :: Available(events, out, e) && e != least ==> KeyLess(least, e)
    ensures Greedy(events, out + [least])
  {
    var all := out + [least];
    forall k | 0 <= k < |all|
      ensures Available(events, all[..k], all[k])
      ensures forall e :: Available(events, all[..k], e) && e != all[k] ==> KeyLess(all[k], e)
    {
      if k < |out| {
        assert all[..k] == out[..k];
      } else {
        assert all[..k] == out;
      }
    }
  }

  method PopLeast(ready: set<Event>) returns (least: Event)
    requires ready != {} && forall a, b :: a in ready && b in ready && a.id == b.id ==> a == b
    ensures least in ready && forall e :: e in ready && e != least ==> KeyLess(least, e)
  {
    least :| least in ready;
    var rest := ready - {least};
    while rest != {}
      invariant least in ready && rest <= ready
      invariant forall e :: e in ready && e !in rest && e != least ==> KeyLess(least, e)
      decreases rest
    {
      var e :| e in rest;
      KeyLessIsTotal(e, least);
      forall q | q in ready && KeyLess(e, least) && KeyLess(least, q) ensures KeyLess(e, q) {
        KeyLessIsTransitive(e, least, q);
      }
      if KeyLess(e, least) {
        least := e;
      }
      rest := rest - {e};
    }
  }

  /** Emitting an event makes exactly its children available and itself unavailable. */
  lemma Emit(events: seq<Event>, out: seq<Event>, least: Event, e: Event)
    requires DistinctIds(events) && Available(events, out, least) && forall x :: x in out ==> x in events
    ensures Available(events, out + [least], e)
            <==> (Available(events, out, e) && e != least)
                 || (e in events && e !in out && e != least && e.cause == Some(least.id))
  {
    var all := out + [least];
    assert forall x :: x in all <==> x in out || x == least;
    if e.cause.Some? {
      assert HasId(all, e.cause.value) <==> HasId(out, e.cause.value) || least.id == e.cause.value;
    }
  }

  lemma SameIdSameEvent(events: seq<Event>, a: Event, b: Event)
    requires DistinctIds(events) && a in events && b in events && a.id == b.id
    ensures a == b
  {
    DistinctById(events);
  }

  predicate IsChild(children: map<string, seq<Event>>, p: string, e: Event) {
    p in children && e in children[p]
  }

  ghost predicate GroupsChildren(children: map<string, seq<Event>>, events: seq<Event>) {
    forall p, e :: IsChild(children, p, e) <==> e in events && e.cause == Some(p)
  }

  function AddChild(children: map<string, seq<Event>>, p: string, e: Event): map<string, seq<Event>> {
    children[p := (if p in children then children[p] else []) + [e]]
  }

  lemma GroupNext(children: map<string, seq<Event>>, events: seq<Event>, e: Event)
    requires GroupsChildren(children, events)
    ensures GroupsChildren(if e.cause.Some? then AddChild(children, e.cause.value, e) else children, events + [e])
  {
    var after := if e.cause.Some? then AddChild(children, e.cause.value, e) else children;
    forall p, x ensures IsChild(after, p, x) <==> x in events + [e] && x.cause == Some(p) {
      assert IsChild(children, p, x) <==> x in events && x.cause == Some(p);
      assert x in events + [e] <==> x in events || x == e;
    }
  }

  /** The children of each event, and the events without a cause. */
  method Children(events: seq<Event>) returns (children: map<string, seq<Event>>, roots: set<Event>)
    ensures GroupsChildren(children, events)
    ensures forall e :: e in roots <==> e in events && e.cause.None?
  {
    children, roots := map[], {};
    assert events[..0] == [];
    for n := 0 to |events|
      invariant GroupsChildren(children, events[..n])
      invariant forall e :: e in roots <==> e in events[..n] && e.cause.None?
    {
      var e := events[n];
      assert events[..n + 1] == events[..n] + [e];
      GroupNext(children, events[..n], e);
      if e.cause.Some? {
        children := AddChild(children, e.cause.value, e);
      } else {
        roots := roots + {e};
      }
    }
    assert events[..|events|] == events;
  }

  /** Emitted events have emitted causes. */
  lemma CauseIsOut(events: seq<Event>, out: seq<Event>, e: Event)
    requires Greedy(events, out) && e in out && e.cause.Some?
    ensures HasId(out, e.cause.value)
  {
    var k :| 0 <= k < |out| && out[k] == e;
    assert Available(events, out[..k], e);
    var p :| p in out[..k] && p.id == e.cause.value;
    assert p in out;
  }

  lemma ChildIsNotOut(events: seq<Event>, out: seq<Event>, least: Event, e: Event)
    requires DistinctIds(events) && Greedy(events, out) && Available(events, out, least)
    requires forall x :: x in out ==> x in events
    requires e in events && e.cause == Some(least.id)
    ensures e !in out && e != least
  {
    forall p | p in out ensures p.id != least.id {
      if p.id == least.id {
        SameIdSameEvent(events, p, least);
      }
    }
    if e in out {
      CauseIsOut(events, out, e);
    }
  }

  /** When nothing is available any more, exactly the events whose causes reach a root are out. */
  ghost predicate Stuck(events: seq<Event>, out: seq<Event>) {
    forall e :: !Available(events, out, e)
  }

  lemma {:induction false} RootedIsOut(events: seq<Event>, out: seq<Event>, e: Event, n: nat)
    requires DistinctIds(events) && Stuck(events, out)
    requires e in events && RootAt(GraphOf(events), e.id, n)
    ensures e in out
    decreases n
  {
    DistinctById(events);
    ByIdNames(events);
    assert !Available(events, out, e);
    if n > 0 {
      var g := GraphOf(events);
      assert g[e.id] == e.cause && Ancestor(g, e.id, n).Some?;
      AncestorInGraph(g, e.cause.value, n - 1);
      var p := ById(events)[e.cause.value];
      RootedIsOut(events, out, p, n - 1);
    }
  }

  lemma {:induction false} OutIsRooted(events: seq<Event>, out: seq<Event>, k: nat)
    requires DistinctIds(events) && Greedy(events, out) && k < |out|
    ensures out[k] in events && ReachesRoot(GraphOf(events), out[k].id)
    decreases k
  {
    DistinctById(events);
    var e := out[k];
    assert Available(events, out[..k], e);
    if e.cause.None? {
      assert RootAt(GraphOf(events), e.id, 0);
    } else {
      var p :| p in out[..k] && p.id == e.cause.value;
      var i :| 0 <= i < k && out[i] == p;
      OutIsRooted(events, out, i);
      RootThroughParent(GraphOf(events), e.id);
    }
  }

  function Elements(s: seq<Event>): set<Event> {
    set e | e in s
  }

  lemma {:induction false} DistinctSize(s: seq<Event>)
    requires forall i, j :: 0 <= i < j < |s| ==> s[i] != s[j]
    ensures |Elements(s)| == |s|
  {
    if s != [] {
      var front, last := s[..|s|-1], s[|s|-1];
      DistinctSize(front);
      assert Elements(s) == Elements(front) + {last};
      assert last !in front;
    }
  }

  lemma {:induction false} SubsetOfSameSize(s: set<Event>, t: set<Event>)
    requires s <= t && |s| == |t|
    ensures s == t
  {
    if x :| x in t && x !in s {
      assert s <= t - {x};
      SmallerSubset(s, t - {x});
    }
  }

  lemma {:induction false} SmallerSubset(s: set<Event>, t: set<Event>)
    requires s <= t
    ensures |s| <= |t|
  {
    if s != {} {
      var x :| x in s;
      SmallerSubset(s - {x}, t - {x});
    }
  }

  /** The length test at the end of the loop detects exactly the events that were never reached. */
  lemma Exhausted(events: seq<Event>, out: seq<Event>)
    requires DistinctIds(events) && Greedy(events, out) && Stuck(events, out)
    requires forall i, j :: 0 <= i < j < |out| ==> out[i] != out[j]
    ensures |out| == |events| <==> forall e :: e in events ==> ReachesRoot(GraphOf(events), e.id)
  {
    forall e | e in out ensures e in events && ReachesRoot(GraphOf(events), e.id) {
      var k :| 0 <= k < |out| && out[k] == e;
      OutIsRooted(events, out, k);
    }
    forall e | e in events && ReachesRoot(GraphOf(events), e.id) ensures e in out {
      var n: nat :| RootAt(GraphOf(events), e.id, n);
      RootedIsOut(events, out, e, n);
    }
    DistinctSize(out);
    DistinctSize(events);
    hide Greedy, Stuck, ReachesRoot, GraphOf;
    assert (forall e :: e in events ==> e in out) ==> Elements(out) == Elements(events);
    if |out| == |events| {
      SubsetOfSameSize(Elements(out), Elements(events));
      forall e | e in events ensures e in out {
        assert e in Elements(events);
      }
    }
  }

  /** The heap holds exactly the available events. */
  ghost predicate IsReady(events: seq<Event>, out: seq<Event>, ready: set<Event>) {
    forall e :: e in ready <==> Available(events, out, e)
  }

  function ChildrenOf(children: map<string, seq<Event>>, p: string): set<Event> {
    if p in children then set e | e in children[p] else {}
  }

  lemma ReadyNext(events: seq<Event>, out: seq<Event>, children: map<string, seq<Event>>, ready: set<Event>, least: Event)
    requires DistinctIds(events) && Greedy(events, out) && GroupsChildren(children, events)
    requires IsReady(events, out, ready) && least in ready
    requires forall x :: x in out ==> x in events
    ensures IsReady(events, out + [least], ready - {least} + ChildrenOf(children, least.id))
  {
    forall e
      ensures Available(events, out + [least], e) <==> e in ready - {least} + ChildrenOf(children, least.id)
    {
      Emit(events, out, least, e);
      assert e in ChildrenOf(children, least.id) <==> IsChild(children, least.id, e);
      if e in events && e.cause == Some(least.id) {
        ChildIsNotOut(events, out, least, e);
      }
    }
  }

  /** `canonical_replay_events`. The heap is the set of available events, from which the least is popped. Failure is the
      `RuntimeError` about a retained cycle. */
  method CanonicalReplayEvents(events: seq<Event>) returns (result: Result<seq<Event>, ()>)
    requires DistinctIds(events)
    ensures result.Success? <==> forall e :: e in events ==> ReachesRoot(GraphOf(events), e.id)
    ensures result.Success? ==> |result.value| == |events| && Greedy(events, result.value)
    ensures result.Success? ==> multiset(result.value) == multiset(events) && EarliestFirst(result.value)
  {
    var children, ready := Children(events);
    var ordered: seq<Event> := [];
    hide ReachesRoot, GroupsChildren, KeyLess, ChildrenOf, DistinctIds, EarliestFirst;
    while ready != {}
      invariant Greedy(events, ordered)
      invariant forall x :: x in ordered ==> x in events
      invariant forall i, j :: 0 <= i < j < |ordered| ==> ordered[i] != ordered[j]
      invariant IsReady(events, ordered, ready)
      decreases (set e | e in events) - (set e | e in ordered)
    {
      forall a, b | a in ready && b in ready && a.id == b.id ensures a == b {
        SameIdSameEvent(events, a, b);
      }
      var least := PopLeast(ready);
      GreedyNext(events, ordered, least);
      ReadyNext(events, ordered, children, ready, least);
      ready := ready - {least} + ChildrenOf(children, least.id);
      assert least in (set e | e in events) - (set e | e in ordered);
      ordered := ordered + [least];
    }
    Exhausted(events, ordered);
    if |ordered| != |events| {
      return Failure(());
    }
    OrderIsPermutation(events, ordered);
    GreedyIsEarliestFirst(events, ordered);
    return Success(ordered);
  }

  // ----- What the order means -----

  /** Received earlier, or at the same time and retained no later. */
  predicate ArrivedFirst(a: Event, b: Event) {
    a.receivedAt < b.receivedAt || (a.receivedAt == b.receivedAt && a.index <= b.index)
  }

  /** Nothing that the event waits for comes at `i` or after. */
  ghost predicate CouldComeAt(out: seq<Event>, i: nat, e: Event)
    requires i <= |out|
  {
    e.cause.None? || HasId(out[..i], e.cause.value)
  }

  /** Causes come before effects, and of all that could come at a place the one that arrived first does. */
  ghost predicate EarliestFirst(out: seq<Event>) {
    && (forall j :: 0 <= j < |out| ==> CouldComeAt(out, j, out[j]))
    && (forall i, j :: 0 <= i < j < |out| && CouldComeAt(out, i, out[j]) ==> ArrivedFirst(out[i], out[j]))
  }

  /** The greedy order, in receive times and retained places alone. */
  lemma GreedyIsEarliestFirst(events: seq<Event>, out: seq<Event>)
    requires Greedy(events, out)
    ensures EarliestFirst(out)
  {
    hide Less, HasId;
    forall j | 0 <= j < |out| ensures CouldComeAt(out, j, out[j]) {
      assert Available(events, out[..j], out[j]);
    }
    forall i, j | 0 <= i < j < |out| && CouldComeAt(out, i, out[j]) ensures ArrivedFirst(out[i], out[j]) {
      EarlierDiffers(events, out, i, j);
      NotOutBefore(events, out, i, j);
      assert Available(events, out[..i], out[j]);
      assert KeyLess(out[i], out[j]);
    }
  }

  lemma NotOutBefore(events: seq<Event>, out: seq<Event>, i: nat, j: nat)
    requires Greedy(events, out) && i <= j < |out|
    ensures out[j] in events && out[j] !in out[..i]
  {
    assert Available(events, out[..j], out[j]);
    assert forall x :: x in out[..i] ==> x in out[..j];
  }

  /** And nothing else is needed: events with places of their own have one such order. */
  lemma EarliestFirstIsUnique(out: seq<Event>, other: seq<Event>, n: nat)
    requires multiset(out) == multiset(other) && EarliestFirst(out) && EarliestFirst(other) && n <= |out|
    requires forall i, j :: 0 <= i < j < |out| ==> out[i].index != out[j].index
    ensures |out| == |other| && out[..n] == other[..n]
    decreases n
  {
    hide EarliestFirst, CouldComeAt;
    assert |out| == |multiset(out)| == |multiset(other)| == |other|;
    if n > 0 {
      EarliestFirstIsUnique(out, other, n - 1);
      var i := PlaceIn(out, other, n - 1);
      var j := PlaceIn(other, out, n - 1);
      SamePlace(out, other, n - 1, i, j);
      assert out[..n] == out[..n - 1] + [out[n - 1]] && other[..n] == other[..n - 1] + [other[n - 1]];
    }
  }

  lemma SameRest(front: multiset<Event>, a: multiset<Event>, b: multiset<Event>)
    requires front + a == front + b
    ensures a == b
  {
    forall e ensures a[e] == b[e] {
      assert (front + a)[e] == (front + b)[e];
    }
  }

  /** Where the other order has the event that comes next. */
  lemma PlaceIn(out: seq<Event>, other: seq<Event>, n: nat) returns (k: nat)
    requires multiset(out) == multiset(other) && n < |out| && n < |other| && out[..n] == other[..n]
    ensures n <= k < |other| && other[k] == out[n]
  {
    assert out == out[..n] + out[n..] && other == other[..n] + other[n..];
    assert multiset(out) == multiset(out[..n]) + multiset(out[n..]);
    assert multiset(other) == multiset(other[..n]) + multiset(other[n..]);
    SameRest(multiset(out[..n]), multiset(out[n..]), multiset(other[n..]));
    assert out[n..][0] == out[n] && out[n] in multiset(out[n..]);
    assert out[n] in other[n..];
    var m :| 0 <= m < |other[n..]| && other[n..][m] == out[n];
    k := n + m;
  }

  lemma SamePlace(out: seq<Event>, other: seq<Event>, n: nat, i: nat, j: nat)
    requires EarliestFirst(out) && EarliestFirst(other) && n < |out| && n < |other| && out[..n] == other[..n]
    requires n <= i < |other| && other[i] == out[n] && n <= j < |out| && out[j] == other[n]
    requires forall a, b :: 0 <= a < b < |out| ==> out[a].index != out[b].index
    ensures out[n] == other[n]
  {
    NextArrivedFirst(out, other, n, j);
    NextArrivedFirst(other, out, n, i);
    hide EarliestFirst;
  }

  /** What comes next in one order arrived no later than what comes next in the other. */
  lemma NextArrivedFirst(out: seq<Event>, other: seq<Event>, n: nat, j: nat)
    requires EarliestFirst(out) && EarliestFirst(other) && n < |other| && n <= j < |out| && out[..n] == other[..n]
    requires out[j] == other[n]
    ensures ArrivedFirst(out[n], other[n])
  {
    assert CouldComeAt(other, n, other[n]);
    assert CouldComeAt(out, n, out[j]);
  }

  /** The order is a permutation of the events: nothing is lost, nothing is repeated. */
  lemma OrderIsPermutation(events: seq<Event>, out: seq<Event>)
    requires DistinctIds(events) && Greedy(events, out) && |out| == |events|
    ensures multiset(out) == multiset(events)
  {
    forall i, j | 0 <= i < j < |out| ensures out[i] != out[j] {
      EarlierDiffers(events, out, i, j);
    }
    forall e | e in out ensures e in events {
      var k :| 0 <= k < |out| && out[k] == e;
      assert Available(events, out[..k], out[k]);
    }
    DistinctSize(out);
    DistinctSize(events);
    SubsetOfSameSize(Elements(out), Elements(events));
    hide Greedy;
    forall e ensures multiset(out)[e] == multiset(events)[e] {
      CountInDistinct(out, e);
      CountInDistinct(events, e);
      assert e in out <==> e in Elements(out);
      assert e in events <==> e in Elements(events);
    }
  }

  lemma {:induction false} CountInDistinct(s: seq<Event>, e: Event)
    requires forall i, j :: 0 <= i < j < |s| ==> s[i] != s[j]
    ensures multiset(s)[e] == if e in s then 1 else 0
  {
    if s != [] {
      var front, last := s[..|s|-1], s[|s|-1];
      CountInDistinct(front, e);
      assert s == front + [last] && last !in front;
    }
  }

  /** Every prefix is closed under causation, so the cut after the first records never orphans an event. */
  lemma PrefixIsCausallyClosed(events: seq<Event>, out: seq<Event>, n: nat, e: Event)
    requires Greedy(events, out) && n <= |out| && e in out[..n] && e.cause.Some?
    ensures HasId(out[..n], e.cause.value)
  {
    assert Greedy(events, out[..n]) by {
      assert forall k :: 0 <= k < n ==> out[..n][..k] == out[..k];
    }
    CauseIsOut(events, out[..n], e);
  }

  /** No parent follows its child. */
  lemma ParentComesFirst(events: seq<Event>, out: seq<Event>, i: nat, j: nat)
    requires DistinctIds(events) && Greedy(events, out) && i < |out| && j < |out|
    requires out[j].cause == Some(out[i].id)
    ensures i < j
  {
    assert Available(events, out[..j], out[j]) && Available(events, out[..i], out[i]);
    var p :| p in out[..j] && p.id == out[i].id;
    var k :| 0 <= k < j && out[k] == p;
    assert Available(events, out[..k], out[k]);
    SameIdSameEvent(events, out[k], out[i]);
    NothingRepeats(events, out, k, i);
  }

  lemma NothingRepeats(events: seq<Event>, out: seq<Event>, i: nat, j: nat)
    requires Greedy(events, out) && i < |out| && j < |out| && out[i] == out[j]
    ensures i == j
  {
    if i < j {
      EarlierDiffers(events, out, i, j);
    } else if j < i {
      EarlierDiffers(events, out, j, i);
    }
  }

  lemma EarlierDiffers(events: seq<Event>, out: seq<Event>, i: nat, j: nat)
    requires Greedy(events, out) && i < j < |out|
    ensures out[i] != out[j]
  {
    assert out[i] in out[..j];
    assert Available(events, out[..j], out[j]);
  }

  /** The contract leaves no choice: whatever the order of the input, there is one greedy order of a given length. */
  lemma {:induction false} OrderIsUnique(events: seq<Event>, shuffled: seq<Event>, out: seq<Event>, other: seq<Event>)
    requires multiset(events) == multiset(shuffled) && Greedy(events, out) && Greedy(shuffled, other)
    requires |out| == |other|
    ensures out == other
    decreases |out|
  {
    assert forall e :: e in events <==> e in multiset(events);
    assert forall e :: e in shuffled <==> e in multiset(shuffled);
    if out != [] {
      var n := |out| - 1;
      assert Greedy(events, out[..n]) by { assert forall k :: 0 <= k < n ==> out[..n][..k] == out[..k]; }
      assert Greedy(shuffled, other[..n]) by { assert forall k :: 0 <= k < n ==> other[..n][..k] == other[..k]; }
      OrderIsUnique(events, shuffled, out[..n], other[..n]);
      assert Available(events, out[..n], out[n]) && Available(shuffled, other[..n], other[n]);
      KeyLessIsTotal(out[n], other[n]);
      assert out == out[..n] + [out[n]] && other == other[..n] + [other[n]];
    }
  }

  ghost predicate SortedByKey(out: seq<Event>) {
    forall i, j :: 0 <= i < j < |out| ==> KeyLess(out[i], out[j])
  }

  /** When no event is received before its cause, the causal order is the plain sort by receive time and position. */
  lemma OrderIsSortWhenCausesComeEarlier(events: seq<Event>, out: seq<Event>)
    requires DistinctIds(events) && Greedy(events, out) && |out| == |events|
    requires forall p, e :: p in events && e in events && e.cause == Some(p.id) ==> KeyLess(p, e)
    ensures SortedByKey(out)
  {
    forall i, j | 0 <= i < j < |out| ensures KeyLess(out[i], out[j]) {
      LaterIsGreater(events, out, i, j);
    }
  }

  /** In receive times and retained places: when no event arrived before its cause, all events come in the order they arrived. */
  lemma {:induction false} OrderIsArrivalWhenCausesArriveFirst(out: seq<Event>, i: nat, j: nat)
    requires EarliestFirst(out) && i < j < |out|
    requires forall p, e :: p in out && e in out && e.cause == Some(p.id) ==> ArrivedFirst(p, e)
    ensures ArrivedFirst(out[i], out[j])
    decreases j
  {
    hide CouldComeAt;
    if CouldComeAt(out, i, out[j]) {
      assert ArrivedFirst(out[i], out[j]);
    } else {
      var k := CausePlace(out, i, j);
      assert ArrivedFirst(out[k], out[j]);
      if k > i {
        OrderIsArrivalWhenCausesArriveFirst(out, i, k);
      }
    }
  }

  lemma CausePlace(out: seq<Event>, i: nat, j: nat) returns (k: nat)
    requires EarliestFirst(out) && i < j < |out| && !CouldComeAt(out, i, out[j])
    ensures i <= k < j && out[j].cause == Some(out[k].id) && out[k] in out && out[j] in out
  {
    assert CouldComeAt(out, j, out[j]);
    var p :| p in out[..j] && p.id == out[j].cause.value;
    forall m | 0 <= m < i ensures out[m] != p {
      assert out[m] in out[..i];
    }
    k :| 0 <= k < j && out[k] == p;
  }

  /** Walking up from a later event to one that was available earlier only lowers the key. */
  lemma {:induction false} LaterIsGreater(events: seq<Event>, out: seq<Event>, i: nat, j: nat)
    requires DistinctIds(events) && Greedy(events, out) && i < j < |out|
    requires forall p, e :: p in events && e in events && e.cause == Some(p.id) ==> KeyLess(p, e)
    ensures KeyLess(out[i], out[j])
    decreases j
  {
    var e := out[j];
    assert Available(events, out[..j], e) && Available(events, out[..i], out[i]);
    assert out[i] in out[..j];
    assert e !in out[..i];
    if Available(events, out[..i], e) {
      assert e != out[i];
    } else {
      var p :| p in out[..j] && p.id == e.cause.value;
      var k :| 0 <= k < j && out[k] == p;
      forall m | 0 <= m < i ensures out[m].id != e.cause.value {
        assert out[m] in out[..i];
      }
      assert k >= i;
      assert Available(events, out[..k], out[k]);
      assert KeyLess(p, e);
      if k > i {
        LaterIsGreater(events, out, i, k);
        KeyLessIsTransitive(out[i], p, e);
      }
    }
  }
}
