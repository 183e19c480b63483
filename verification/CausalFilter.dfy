/** Which events the replay projection keeps: duplicates, unresolved causes, cycles and everything caused by them go. */
module CausalFilter {
  import opened Prelude
  import opened CausalGraph

  /** A canonical event: its receive time as an instant, and its place among the retained candidates. */
  datatype Event = Event(id: string, cause: Option<string>, receivedAt: int, index: nat)

  /** A dict by event id built event by event: a later event replaces an earlier one of the same id. */
  function ById(events: seq<Event>): map<string, Event> {
    if events == [] then map[] else ById(events[..|events|-1])[events[|events|-1].id := events[|events|-1]]
  }

  function GraphOf(events: seq<Event>): Graph {
    map id | id in ById(events) :: ById(events)[id].cause
  }

  /** Event ids are non-empty, which the envelope check enforces. */
  predicate NamedEvents(events: seq<Event>) {
    forall e :: e in events ==> e.id != ""
  }

  lemma {:induction false} ByIdNames(events: seq<Event>)
    ensures forall id :: id in ById(events) ==> ById(events)[id] in events && ById(events)[id].id == id
    ensures forall e :: e in events ==> e.id in ById(events)
  {
    if events != [] {
      var n := |events| - 1;
      ByIdNames(events[..n]);
      assert events == events[..n] + [events[n]];
    }
  }

  // ----- Cycles -----

  /** The state of the outer walk: everything visited is closed upward and correctly judged. */
  ghost predicate Judged(g: Graph, visited: set<string>, cycles: set<string>) {
    && visited <= g.Keys && cycles <= visited
    && ClosedUpward(g, visited)
    && forall x :: x in visited ==> (x in cycles <==> OnCycle(g, x))
  }

  /** The current walk: new, without repetition, and `current` is where it goes next. */
  ghost predicate Walking(g: Graph, visited: set<string>, path: seq<string>, positions: map<string, nat>, current: string) {
    && IsWalk(g, path)
    && (forall i :: 0 <= i < |path| ==> path[i] !in visited)
    && (forall i, j :: 0 <= i < j < |path| ==> path[i] != path[j])
    && (forall i :: 0 <= i < |path| ==> path[i] in positions && positions[path[i]] == i)
    && (forall x :: x in positions ==> positions[x] < |path| && path[positions[x]] == x)
    && (path != [] ==> current == match g[path[|path|-1]] case Some(c) => c case None => "")
  }

  /** `cyclic_event_ids`: exactly the events that are their own ancestors. */
  method CyclicEventIds(events: seq<Event>) returns (cycles: set<string>)
    requires NamedEvents(events)
    ensures forall id :: id in cycles <==> id in GraphOf(events) && OnCycle(GraphOf(events), id)
  {
    var byId := ById(events);
    ghost var g := GraphOf(events);
    ByIdNames(events);
    assert "" !in g;
    var visited: set<string> := {};
    cycles := {};
    for n := 0 to |events|
      invariant Judged(g, visited, cycles)
      invariant forall i :: 0 <= i < n ==> events[i].id in visited
    {
      var start := events[n].id;
      assert events[n] in events && start in g;
      if start !in visited {
        var path, loop := WalkUp(byId, g, start, visited, cycles);
        visited := visited + (set x | x in path);
        cycles := cycles + loop;
      }
    }
    forall id | id in g ensures id in visited {
      var k :| 0 <= k < |events| && events[k] == byId[id];
    }
    forall id | OnCycle(g, id) ensures id in g {
      CycleGoesOn(g, id);
    }
  }

  /** The inner loop: walks up from one event until the chain leaves the graph, meets a visited event or closes. */
  method WalkUp(byId: map<string, Event>, ghost g: Graph, start: string, visited: set<string>, ghost cycles: set<string>)
    returns (path: seq<string>, loop: set<string>)
    requires g == map id | id in byId :: byId[id].cause
    requires "" !in g && start in g && start !in visited && Judged(g, visited, cycles)
    ensures start in path
    ensures Judged(g, visited + (set x | x in path), cycles + loop)
  {
    hide IsWalk, OnCycle, ClosedUpward, Judged, Walking;
    path := [];
    loop := {};
    EmptyWalk(g, visited, start);
    var positions: map<string, nat> := map[];
    var current := start;
    while current in byId && current !in visited
      invariant Walking(g, visited, path, positions, current)
      invariant path == [] ==> current == start
      invariant path != [] ==> path[0] == start
      invariant loop == {}
      decreases |g.Keys - (set x | x in path)|
    {
      if current in positions {
        PositionsAreIndices(g, visited, path, positions, current);
        loop := set x | x in path[positions[current]..];
        WalkClosed(g, visited, cycles, path, positions, current);
        return;
      }
      WalkOn(g, visited, path, positions, current);
      positions := positions[current := |path|];
      path := path + [current];
      current := if byId[current].cause.Some? then byId[current].cause.value else "";
    }
    WalkStopped(g, visited, cycles, path, positions, current);
    assert cycles + loop == cycles;
  }

  lemma PositionsAreIndices(
      g: Graph, visited: set<string>, path: seq<string>, positions: map<string, nat>, current: string)
    requires Walking(g, visited, path, positions, current)
    ensures forall x :: x in positions ==> positions[x] < |path|
  {
  }

  lemma EmptyWalk(g: Graph, visited: set<string>, start: string)
    ensures Walking(g, visited, [], map[], start)
  {
  }

  lemma TailMembership(path: seq<string>, j: nat, i: nat)
    requires j <= |path| && i < |path| && forall a, b :: 0 <= a < b < |path| ==> path[a] != path[b]
    ensures path[i] in path[j..] <==> j <= i
  {
    if j <= i {
      assert path[j..][i - j] == path[i];
    }
  }

  lemma WalkOn(g: Graph, visited: set<string>, path: seq<string>, positions: map<string, nat>, current: string)
    requires Walking(g, visited, path, positions, current)
    requires current in g && current !in visited && current !in positions && current != ""
    ensures Walking(g, visited, path + [current], positions[current := |path|],
                    match g[current] case Some(c) => c case None => "")
    ensures (g.Keys - set x | x in path + [current]) == (g.Keys - set x | x in path) - {current}
    ensures current in (g.Keys - set x | x in path)
  {
    assert current !in path;
  }

  lemma WalkClosed(
      g: Graph, visited: set<string>, cycles: set<string>, path: seq<string>, positions: map<string, nat>, current: string)
    requires "" !in g && Judged(g, visited, cycles) && Walking(g, visited, path, positions, current)
    requires current in g && current in positions && positions[current] < |path|
    ensures Judged(g, visited + (set x | x in path), cycles + (set x | x in path[positions[current]..]))
  {
    var j := positions[current];
    assert g[path[|path|-1]] == Some(path[j]);
    forall i | 0 <= i < |path| ensures OnCycle(g, path[i]) <==> j <= i {
      ClosedWalk(g, path, j, i);
    }
    forall x | x in path ensures x in path[j..] <==> OnCycle(g, x) {
      TailMembership(path, j, positions[x]);
    }
    WalkIsClosed(g, visited, path, positions, current);
  }

  lemma WalkStopped(
      g: Graph, visited: set<string>, cycles: set<string>, path: seq<string>, positions: map<string, nat>, current: string)
    requires "" !in g && Judged(g, visited, cycles) && Walking(g, visited, path, positions, current) && path != []
    requires current !in g || current in visited
    ensures Judged(g, visited + (set x | x in path), cycles)
  {
    forall i | 0 <= i < |path| ensures !OnCycle(g, path[i]) {
      if current in g {
        EntersClosedSet(g, path, visited, i);
      } else {
        DeadEndHasNoCycle(g, path, i);
      }
    }
    WalkIsClosed(g, visited, path, positions, current);
  }

  lemma WalkIsClosed(g: Graph, visited: set<string>, path: seq<string>, positions: map<string, nat>, current: string)
    requires ClosedUpward(g, visited) && Walking(g, visited, path, positions, current) && path != []
    requires current !in g || current in visited || current in positions
    ensures ClosedUpward(g, visited + (set x | x in path))
  {
    forall i | 0 <= i < |path| && HasParent(g, path[i]) ensures g[path[i]].value in visited + (set x | x in path) {
      if i < |path| - 1 {
        assert g[path[i]] == Some(path[i + 1]);
      }
    }
  }

  // ----- Unresolved causes and the rejection closure -----

  datatype Code = UnresolvedCausation | CyclicCausation
  datatype Diagnostic = Diagnostic(id: string, code: Code)

  /** The events whose ids are not in `dropped`, in order. */
  function Without(events: seq<Event>, dropped: set<string>): (kept: seq<Event>)
    ensures forall e :: e in kept <==> e in events && e.id !in dropped
  {
    if events == [] then []
    else
      var front, last := events[..|events|-1], events[|events|-1];
      assert events == front + [last];
      var kept := Without(front, dropped);
      if last.id in dropped then kept
      else
        assert forall e :: e in kept + [last] <==> e in kept || e == last;
        kept + [last]
  }

  ghost function RootlessIds(g: Graph): set<string> {
    set id | id in g && !ReachesRoot(g, id)
  }

  ghost predicate DistinctIds(events: seq<Event>) {
    forall i, j :: 0 <= i < j < |events| ==> events[i].id != events[j].id
  }

  /** Each rejected event is explained by exactly one diagnostic. */
  ghost predicate Explains(diagnostics: seq<Diagnostic>, rejected: set<string>) {
    && (forall d :: d in diagnostics ==> d.id in rejected)
    && (forall id :: id in rejected ==> exists d :: d in diagnostics && d.id == id)
    && (forall i, j :: 0 <= i < j < |diagnostics| ==> diagnostics[i].id != diagnostics[j].id)
  }

  lemma NothingExplained()
    ensures Explains([], {})
  {
  }

  lemma ExplainMore(diagnostics: seq<Diagnostic>, rejected: set<string>, d: Diagnostic)
    requires Explains(diagnostics, rejected) && d.id !in rejected
    ensures Explains(diagnostics + [d], rejected + {d.id})
  {
    var all := diagnostics + [d];
    assert forall x :: x in all <==> x in diagnostics || x == d;
    forall id | id in rejected + {d.id} ensures exists x :: x in all && x.id == id {
      if id in rejected {
        var x :| x in diagnostics && x.id == id;
        assert x in all;
      } else {
        assert d in all;
      }
    }
  }

  predicate Unresolved(g: Graph, id: string) {
    id in g && g[id].Some? && g[id].value !in g
  }

  /** The ids the projection must reject: those whose chain of causes never ends at an event without a cause. */
  ghost predicate Rootless(g: Graph, id: string) {
    id in g && !ReachesRoot(g, id)
  }

  lemma UnresolvedReachesNoRoot(g: Graph, id: string)
    requires Unresolved(g, id)
    ensures !ReachesRoot(g, id)
  {
    RootThroughParent(g, id);
    forall n: nat ensures !RootAt(g, g[id].value, n) {
    }
  }

  /** If everything unresolved or cyclic is rejected, and rejection passes to every child, then whatever is left
      reaches a root. */
  lemma SurvivorsReachRoots(g: Graph, rejected: set<string>, id: string)
    requires forall x :: Unresolved(g, x) || OnCycle(g, x) ==> x in rejected
    requires forall x :: HasParent(g, x) && g[x].value in rejected ==> x in rejected
    requires id in g && id !in rejected
    ensures ReachesRoot(g, id)
  {
    if !ReachesRoot(g, id) {
      forall n: nat ensures Ancestor(g, id, n).Some? && Ancestor(g, id, n).value !in rejected {
        SurvivingAncestor(g, rejected, id, n);
      }
      var n := LongChainMeetsCycle(g, id);
    }
  }

  lemma {:induction false} SurvivingAncestor(g: Graph, rejected: set<string>, id: string, n: nat)
    requires forall x :: Unresolved(g, x) || OnCycle(g, x) ==> x in rejected
    requires forall x :: HasParent(g, x) && g[x].value in rejected ==> x in rejected
    requires id in g && id !in rejected && !ReachesRoot(g, id)
    ensures Ancestor(g, id, n).Some? && Ancestor(g, id, n).value !in rejected
    decreases n
  {
    assert g[id].None? ==> RootAt(g, id, 0);
    assert !Unresolved(g, id);
    if n > 0 {
      RootThroughParent(g, id);
      SurvivingAncestor(g, rejected, g[id].value, n - 1);
    }
  }

  predicate IsListed(children: map<string, seq<string>>, p: string, c: string) {
    p in children && c in children[p]
  }

  /** The children listed are those of the events in `done` whose cause is a candidate, under that cause. */
  ghost predicate ListsChildren(g: Graph, children: map<string, seq<string>>, done: set<string>) {
    forall p, c :: IsListed(children, p, c) <==> c in done && HasParent(g, c) && g[c].value == p
  }

  lemma ListChild(g: Graph, children: map<string, seq<string>>, done: set<string>, p: string, c: string)
    requires ListsChildren(g, children, done) && HasParent(g, c) && g[c].value == p
    ensures ListsChildren(g, children[p := (if p in children then children[p] else []) + [c]], done + {c})
  {
    var siblings := if p in children then children[p] else [];
    var after := children[p := siblings + [c]];
    assert forall x :: x in siblings + [c] <==> x in siblings || x == c;
    assert forall q, x :: IsListed(after, q, x) <==> IsListed(children, q, x) || (q == p && x == c);
  }

  lemma {:induction false} DistinctById(events: seq<Event>)
    requires DistinctIds(events)
    ensures forall e :: e in events ==> e.id in ById(events) && ById(events)[e.id] == e
  {
    if events != [] {
      var n := |events| - 1;
      DistinctById(events[..n]);
      assert events == events[..n] + [events[n]];
    }
  }

  /** What the lookup of a survivor's cause decides. */
  lemma CauseDecides(survivors: seq<Event>, e: Event)
    requires DistinctIds(survivors) && e in survivors
    ensures var g := GraphOf(survivors);
            && e.id in g && g[e.id] == e.cause
            && (Unresolved(g, e.id) <==> e.cause.Some? && e.cause.value !in ById(survivors))
            && (HasParent(g, e.id) <==> e.cause.Some? && e.cause.value in ById(survivors))
  {
    hide ById, DistinctIds;
    DistinctById(survivors);
  }

  /** The ids of the first `n` survivors, and which of those are rejected. */
  ghost predicate RejectsFirst(survivors: seq<Event>, n: nat, done: set<string>, rejected: set<string>) {
    && (forall i :: 0 <= i < n && i < |survivors| ==> survivors[i].id in done)
    && (forall i :: n <= i < |survivors| ==> survivors[i].id !in done)
    && (forall id :: id in done ==> id in GraphOf(survivors))
    && (forall id :: id in rejected <==> id in done && Unresolved(GraphOf(survivors), id))
  }

  lemma RejectNext(survivors: seq<Event>, n: nat, done: set<string>, rejected: set<string>)
    requires DistinctIds(survivors) && n < |survivors| && RejectsFirst(survivors, n, done, rejected)
    ensures survivors[n].id !in rejected
    ensures var id := survivors[n].id;
            RejectsFirst(survivors, n + 1, done + {id},
                         if Unresolved(GraphOf(survivors), id) then rejected + {id} else rejected)
  {
    CauseDecides(survivors, survivors[n]);
    hide GraphOf, Unresolved;
  }

  lemma AllRejected(survivors: seq<Event>, done: set<string>, rejected: set<string>)
    requires RejectsFirst(survivors, |survivors|, done, rejected)
    ensures done == GraphOf(survivors).Keys
    ensures forall id :: id in rejected <==> Unresolved(GraphOf(survivors), id)
  {
    hide ById;
    ByIdNames(survivors);
    forall id | id in GraphOf(survivors) ensures id in done {
      var i :| 0 <= i < |survivors| && survivors[i] == ById(survivors)[id];
    }
  }

  /** The first pass: rejects candidates whose cause is not a candidate, and lists the children of the others. */
  method RejectUnresolved(survivors: seq<Event>)
    returns (rejected: set<string>, diagnostics: seq<Diagnostic>, children: map<string, seq<string>>)
    requires DistinctIds(survivors)
    ensures forall id :: id in rejected <==> Unresolved(GraphOf(survivors), id)
    ensures Explains(diagnostics, rejected)
    ensures forall d :: d in diagnostics ==> d.code == UnresolvedCausation
    ensures ListsChildren(GraphOf(survivors), children, GraphOf(survivors).Keys)
  {
    hide Explains, ListsChildren, ById, GraphOf, Unresolved, HasParent, RejectsFirst, DistinctIds;
    ghost var g := GraphOf(survivors);
    var byId := ById(survivors);
    NothingExplained();
    rejected, diagnostics, children := {}, [], map[];
    ghost var done: set<string> := {};
    NothingListed(g);
    NothingRejected(survivors);
    for n := 0 to |survivors|
      invariant RejectsFirst(survivors, n, done, rejected)
      invariant Explains(diagnostics, rejected)
      invariant forall d :: d in diagnostics ==> d.code == UnresolvedCausation
      invariant ListsChildren(g, children, done)
    {
      var e := survivors[n];
      CauseDecides(survivors, e);
      RejectNext(survivors, n, done, rejected);
      if e.cause.None? {
        NotAChild(g, children, done, e.id);
      } else {
        var cause := e.cause.value;
        if cause !in byId {
          ExplainMore(diagnostics, rejected, Diagnostic(e.id, UnresolvedCausation));
          diagnostics := diagnostics + [Diagnostic(e.id, UnresolvedCausation)];
          rejected := rejected + {e.id};
          NotAChild(g, children, done, e.id);
        } else {
          ListChild(g, children, done, cause, e.id);
          children := children[cause := (if cause in children then children[cause] else []) + [e.id]];
        }
      }
      done := done + {e.id};
    }
    AllRejected(survivors, done, rejected);
  }

  lemma NothingRejected(survivors: seq<Event>)
    ensures RejectsFirst(survivors, 0, {}, {})
  {
  }

  lemma NothingListed(g: Graph)
    ensures ListsChildren(g, map[], {})
  {
  }

  lemma NotAChild(g: Graph, children: map<string, seq<string>>, done: set<string>, c: string)
    requires ListsChildren(g, children, done) && !HasParent(g, c)
    ensures ListsChildren(g, children, done + {c})
  {
  }

  /** The second pass: rejects every event on a causation cycle. */
  method RejectCyclic(ghost g: Graph, cycles: set<string>, unresolved: set<string>, before: seq<Diagnostic>)
    returns (rejected: set<string>, diagnostics: seq<Diagnostic>)
    requires forall id :: id in cycles <==> id in g && OnCycle(g, id)
    requires forall id :: id in unresolved <==> Unresolved(g, id)
    requires Explains(before, unresolved) && forall d :: d in before ==> d.code == UnresolvedCausation
    ensures rejected == unresolved + cycles
    ensures Explains(diagnostics, rejected)
    ensures forall d :: d in diagnostics ==> (d.code == CyclicCausation <==> OnCycle(g, d.id))
  {
    rejected, diagnostics := unresolved, before;
    assert cycles - cycles == {};
    forall id | id in unresolved ensures !OnCycle(g, id) {
      if OnCycle(g, id) {
        CycleGoesOn(g, id);
      }
    }
    var rest := cycles;
    while rest != {}
      invariant rest <= cycles && rejected == unresolved + (cycles - rest)
      invariant Explains(diagnostics, rejected)
      invariant forall d :: d in diagnostics ==> (d.code == CyclicCausation <==> OnCycle(g, d.id))
      decreases rest
    {
      var id :| id in rest;
      ExplainMore(diagnostics, rejected, Diagnostic(id, CyclicCausation));
      diagnostics := diagnostics + [Diagnostic(id, CyclicCausation)];
      rejected := rejected + {id};
      rest := rest - {id};
    }
  }

  /** Everything rejected lacks a root, and every event whose parent has been taken off the queue is rejected. */
  ghost predicate Spreading(g: Graph, rejected: set<string>, queue: seq<string>) {
    && (forall id :: id in rejected ==> Rootless(g, id))
    && (forall id :: id in queue ==> id in rejected)
    && (forall id :: HasParent(g, id) && g[id].value in rejected && g[id].value !in queue ==> id in rejected)
  }

  /** The queue: rejection spreads from every rejected event to all its descendants. */
  method RejectDescendants(
      ghost g: Graph, children: map<string, seq<string>>, first: set<string>, before: seq<Diagnostic>)
    returns (rejected: set<string>, diagnostics: seq<Diagnostic>)
    requires ListsChildren(g, children, g.Keys) && Explains(before, first)
    requires forall id :: id in first ==> Rootless(g, id)
    requires forall d :: d in before ==> (d.code == CyclicCausation <==> OnCycle(g, d.id))
    requires forall id :: OnCycle(g, id) ==> id in first
    ensures first <= rejected && Explains(diagnostics, rejected)
    ensures forall id :: id in rejected ==> Rootless(g, id)
    ensures forall id :: HasParent(g, id) && g[id].value in rejected ==> id in rejected
    ensures forall d :: d in diagnostics ==> (d.code == CyclicCausation <==> OnCycle(g, d.id))
  {
    hide Explains, OnCycle, Rootless;
    rejected, diagnostics := first, before;
    var queue := Enqueue(first);
    while queue != []
      invariant first <= rejected && Explains(diagnostics, rejected) && Spreading(g, rejected, queue)
      invariant forall d :: d in diagnostics ==> (d.code == CyclicCausation <==> OnCycle(g, d.id))
      decreases g.Keys - rejected, |queue|
    {
      var parent := queue[0];
      assert parent in queue;
      var siblings := if parent in children then children[parent] else [];
      assert queue == [parent] + queue[1..];
      assert forall c :: c in siblings <==> IsListed(children, parent, c);
      queue, rejected, diagnostics := RejectChildren(g, parent, siblings, queue[1..], rejected, diagnostics);
    }
  }

  method Enqueue(ids: set<string>) returns (queue: seq<string>)
    ensures forall id :: id in queue <==> id in ids
  {
    queue := [];
    var rest := ids;
    while rest != {}
      invariant rest <= ids && forall id :: id in queue <==> id in ids - rest
      decreases rest
    {
      var id :| id in rest;
      queue := queue + [id];
      rest := rest - {id};
    }
  }

  /** One turn of the queue: rejects the children of one rejected parent that were not rejected before. */
  method RejectChildren(
      ghost g: Graph, parent: string, siblings: seq<string>, tail: seq<string>, known: set<string>,
      before: seq<Diagnostic>)
    returns (queue: seq<string>, rejected: set<string>, diagnostics: seq<Diagnostic>)
    requires parent in known && Spreading(g, known, [parent] + tail) && Explains(before, known)
    requires forall c :: c in siblings ==> c in g && g[c] == Some(parent)
    requires forall c :: HasParent(g, c) && g[c].value == parent ==> c in siblings
    requires forall id :: OnCycle(g, id) ==> id in known
    requires forall d :: d in before ==> (d.code == CyclicCausation <==> OnCycle(g, d.id))
    ensures known <= rejected <= known + g.Keys && Spreading(g, rejected, queue) && Explains(diagnostics, rejected)
    ensures rejected == known ==> queue == tail
    ensures forall d :: d in diagnostics ==> (d.code == CyclicCausation <==> OnCycle(g, d.id))
  {
    hide Explains, OnCycle, ReachesRoot;
    queue, rejected, diagnostics := tail, known, before;
    for n := 0 to |siblings|
      invariant known <= rejected <= known + g.Keys && Explains(diagnostics, rejected)
      invariant rejected == known ==> queue == tail
      invariant forall i :: 0 <= i < n ==> siblings[i] in rejected
      invariant forall id :: id in rejected ==> Rootless(g, id)
      invariant forall id :: id in queue ==> id in rejected
      invariant forall id :: HasParent(g, id) && g[id].value in rejected && g[id].value !in queue && g[id].value != parent
                  ==> id in rejected
      invariant forall d :: d in diagnostics ==> (d.code == CyclicCausation <==> OnCycle(g, d.id))
    {
      var child := siblings[n];
      assert child in siblings;
      if child !in rejected {
        RootThroughParent(g, child);
        ExplainMore(diagnostics, rejected, Diagnostic(child, UnresolvedCausation));
        diagnostics := diagnostics + [Diagnostic(child, UnresolvedCausation)];
        rejected := rejected + {child};
        queue := queue + [child];
      }
    }
  }

  lemma {:induction false} WithoutKeepsDistinct(events: seq<Event>, dropped: set<string>)
    requires DistinctIds(events)
    ensures DistinctIds(Without(events, dropped))
  {
    if events != [] {
      var front, last := events[..|events|-1], events[|events|-1];
      WithoutKeepsDistinct(front, dropped);
      forall e | e in Without(front, dropped) ensures e.id != last.id {
        var i :| 0 <= i < |front| && front[i] == e;
      }
    }
  }

  /** The filter of `workspace_snapshot`: keeps, in order, exactly the candidates whose chain of causes reaches an event
      without a cause, and explains every other one exactly once. */
  method KeepCausallySound(survivors: seq<Event>) returns (kept: seq<Event>, diagnostics: seq<Diagnostic>)
    requires NamedEvents(survivors) && DistinctIds(survivors)
    ensures kept == Without(survivors, RootlessIds(GraphOf(survivors)))
    ensures Explains(diagnostics, RootlessIds(GraphOf(survivors)))
    ensures forall d :: d in diagnostics ==> (d.code == CyclicCausation <==> OnCycle(GraphOf(survivors), d.id))
  {
    ghost var g := GraphOf(survivors);
    var rejected, children;
    rejected, diagnostics, children := RejectUnresolved(survivors);
    var cycles := CyclicEventIds(survivors);
    rejected, diagnostics := RejectCyclic(g, cycles, rejected, diagnostics);
    forall id | id in rejected ensures Rootless(g, id) {
      if Unresolved(g, id) {
        UnresolvedReachesNoRoot(g, id);
      } else {
        CycleReachesNoRoot(g, id);
      }
    }
    forall id | OnCycle(g, id) ensures id in rejected {
      CycleGoesOn(g, id);
    }
    rejected, diagnostics := RejectDescendants(g, children, rejected, diagnostics);
    forall id | id in g && id !in rejected ensures ReachesRoot(g, id) {
      SurvivorsReachRoots(g, rejected, id);
    }
    assert rejected == RootlessIds(g);
    kept := Without(survivors, rejected);
  }

  /** Among the kept events every chain of causes still reaches an event without a cause. */
  lemma KeptEventsReachRoots(survivors: seq<Event>, id: string)
    requires DistinctIds(survivors)
    requires id in GraphOf(survivors) && ReachesRoot(GraphOf(survivors), id)
    ensures ReachesRoot(GraphOf(Without(survivors, RootlessIds(GraphOf(survivors)))), id)
  {
    var n: nat :| RootAt(GraphOf(survivors), id, n);
    KeptRoot(survivors, id, n);
  }

  lemma {:induction false} KeptRoot(survivors: seq<Event>, id: string, n: nat)
    requires DistinctIds(survivors) && RootAt(GraphOf(survivors), id, n)
    ensures RootAt(GraphOf(Without(survivors, RootlessIds(GraphOf(survivors)))), id, n)
    decreases n
  {
    var g := GraphOf(survivors);
    var kept := Without(survivors, RootlessIds(g));
    WithoutKeepsDistinct(survivors, RootlessIds(g));
    DistinctById(survivors);
    DistinctById(kept);
    ByIdNames(survivors);
    assert ReachesRoot(g, id);
    var e := ById(survivors)[id];
    assert e in survivors && e.id == id && e in kept && GraphOf(kept)[id] == g[id];
    if n > 0 {
      KeptRoot(survivors, g[id].value, n - 1);
    }
  }
}
