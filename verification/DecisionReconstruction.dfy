/** The walk from one event back through its causes, as the dashboard shows it. */
module DecisionReconstruction {
  import opened Prelude
  import opened CanonicalTime
  import opened CausalGraph
  import CausalFilter
  import Sorting

  datatype Node = Node(eventTime: string, receiveTime: string, cause: Option<string>)

  datatype Status = Verified | TimestampAnomaly | IncompleteChain

  datatype Edge = Edge(from: string, to: string)

  datatype Reconstruction = Reconstruction(chain: seq<string>, edges: seq<Edge>, status: Status)

  function GraphOf(events: map<string, Node>): Graph {
    map id | id in events :: events[id].cause
  }

  function CauseOf(g: Graph, x: string): Option<string> {
    if x in g then g[x] else None
  }

  /** `receive_time_str < event_time_str` is false: the two are compared as strings, fractions and all. */
  predicate IsOnTime(node: Node) {
    !Less(node.receiveTime, node.eventTime)
  }

  /** The chain of causes ends at an id that is not there. */
  ghost predicate Leaves(g: Graph, x: string) {
    exists n: nat :: LeavesAt(g, x, n)
  }

  ghost predicate LeavesAt(g: Graph, x: string, n: nat) {
    Ancestor(g, x, n).Some? && CauseOf(g, Ancestor(g, x, n).value).Some? && CauseOf(g, Ancestor(g, x, n).value).value !in g
  }

  /** No event on the chain has a receive time below its event time as a string. OnTimeIsTrueExactlyWhen says what that means of
      the two instants. */
  ghost predicate ChainIsOnTime(events: map<string, Node>, x: string) {
    forall n: nat :: Ancestor(GraphOf(events), x, n).Some? ==>
      Ancestor(GraphOf(events), x, n).value in events && IsOnTime(events[Ancestor(GraphOf(events), x, n).value])
  }

  function Reversed<T>(s: seq<T>): (r: seq<T>)
    ensures |r| == |s| && forall i :: 0 <= i < |s| ==> r[i] == s[|s| - 1 - i]
  {
    seq(|s|, i requires 0 <= i < |s| => s[|s| - 1 - i])
  }

  /** The walk so far: the first ancestors, all different. */
  ghost predicate IsPath(g: Graph, x: string, path: seq<string>) {
    && (forall i :: 0 <= i < |path| ==> Ancestor(g, x, i) == Some(path[i]))
    && (forall i, j :: 0 <= i < j < |path| ==> path[i] != path[j])
  }

  lemma NextAncestor(g: Graph, x: string, path: seq<string>)
    requires IsPath(g, x, path) && path != []
    ensures path[|path| - 1] in g
    ensures Ancestor(g, x, |path|)
            == if g[path[|path| - 1]].Some? && g[path[|path| - 1]].value in g then g[path[|path| - 1]] else None
  {
    var last := path[|path| - 1];
    assert Ancestor(g, x, |path| - 1) == Some(last);
    AncestorInGraph(g, x, |path| - 1);
    AncestorSum(g, x, |path| - 1, 1);
    assert Ancestor(g, last, 1) == if g[last].None? then None else Ancestor(g, g[last].value, 0);
  }

  /** Past the end of a chain there is nothing. */
  lemma NothingBeyond(g: Graph, x: string, k: nat, n: nat)
    requires Ancestor(g, x, k).None? && k <= n
    ensures Ancestor(g, x, n).None?
    decreases k
  {
    if x in g && k > 0 && g[x].Some? {
      NothingBeyond(g, g[x].value, k - 1, n - 1);
    }
  }

  /** A walk that comes back to itself never ends: not at an event without a cause, nor outside. */
  lemma {:induction false} NeverEnds(g: Graph, s: set<string>, x: string, n: nat)
    requires x in s && forall y :: y in s ==> y in g && g[y].Some? && g[y].value in s
    ensures Ancestor(g, x, n).Some? && Ancestor(g, x, n).value in s
    decreases n
  {
    if n > 0 {
      NeverEnds(g, s, g[x].value, n - 1);
    }
  }

  lemma {:induction false} PathFits(g: Graph, path: seq<string>)
    requires forall i :: 0 <= i < |path| ==> path[i] in g
    requires forall i, j :: 0 <= i < j < |path| ==> path[i] != path[j]
    ensures |path| <= |g|
  {
    if path != [] {
      var front, last := path[..|path| - 1], path[|path| - 1];
      var rest := g - {last};
      assert rest.Keys == g.Keys - {last} && |rest.Keys| == |rest| && |g.Keys| == |g|;
      PathFits(rest, front);
    }
  }

  /** What the walk found when it stopped, in terms of the whole chain. */
  lemma StopsAtRoot(events: map<string, Node>, x: string, path: seq<string>, onTime: bool)
    requires IsPath(GraphOf(events), x, path) && path != [] && CauseOf(GraphOf(events), path[|path| - 1]).None?
    requires forall i :: 0 <= i < |path| ==> path[i] in events
    requires onTime <==> forall i :: 0 <= i < |path| ==> IsOnTime(events[path[i]])
    ensures ReachesRoot(GraphOf(events), x) && !Leaves(GraphOf(events), x)
    ensures onTime <==> ChainIsOnTime(events, x)
  {
    hide IsOnTime;
    var g := GraphOf(events);
    NextAncestor(g, x, path);
    assert RootAt(g, x, |path| - 1);
    forall n: nat | Ancestor(g, x, n).Some? ensures n < |path| && Ancestor(g, x, n) == Some(path[n]) {
      if n >= |path| {
        NothingBeyond(g, x, |path|, n);
      }
    }
    forall n: nat ensures !LeavesAt(g, x, n) {
      if Ancestor(g, x, n).Some? && n < |path| - 1 {
        assert Ancestor(g, x, n + 1) == Some(path[n + 1]);
        StepUp(g, x, n);
      }
    }
    if ChainIsOnTime(events, x) {
      forall i | 0 <= i < |path| ensures IsOnTime(events[path[i]]) {
        assert Ancestor(g, x, i) == Some(path[i]);
      }
    }
  }

  lemma StepUp(g: Graph, x: string, n: nat)
    requires Ancestor(g, x, n).Some? && Ancestor(g, x, n + 1).Some?
    ensures Ancestor(g, x, n).value in g && g[Ancestor(g, x, n).value] == Ancestor(g, x, n + 1)
    ensures Ancestor(g, x, n + 1).value in g
  {
    AncestorInGraph(g, x, n);
    AncestorInGraph(g, x, n + 1);
    AncestorSum(g, x, n, 1);
    var y := Ancestor(g, x, n).value;
    assert Ancestor(g, y, 1) == if g[y].None? then None else Ancestor(g, g[y].value, 0);
  }

  lemma StopsOutside(g: Graph, x: string, path: seq<string>)
    requires IsPath(g, x, path) && path != [] && path[|path| - 1] in g
    requires g[path[|path| - 1]].Some? && g[path[|path| - 1]].value !in g
    ensures Leaves(g, x) && !ReachesRoot(g, x)
  {
    NextAncestor(g, x, path);
    assert LeavesAt(g, x, |path| - 1);
    forall n: nat ensures !RootAt(g, x, n) {
      if n >= |path| {
        NothingBeyond(g, x, |path|, n);
      } else if n < |path| - 1 {
        assert Ancestor(g, x, n + 1) == Some(path[n + 1]);
        assert Ancestor(g, x, n) == Some(path[n]);
        StepUp(g, x, n);
      }
    }
  }

  lemma StopsInCycle(g: Graph, x: string, path: seq<string>)
    requires IsPath(g, x, path) && path != [] && path[|path| - 1] in g
    requires g[path[|path| - 1]].Some? && g[path[|path| - 1]].value in path
    ensures !Leaves(g, x) && !ReachesRoot(g, x)
  {
    var s := set y | y in path;
    forall y | y in s ensures y in g && g[y].Some? && g[y].value in s {
      var i :| 0 <= i < |path| && path[i] == y;
      if i < |path| - 1 {
        assert Ancestor(g, x, i) == Some(path[i]) && Ancestor(g, x, i + 1) == Some(path[i + 1]);
        StepUp(g, x, i);
      }
    }
    assert x == path[0] by { assert Ancestor(g, x, 0) == Some(path[0]); }
    forall n: nat ensures !LeavesAt(g, x, n) && !RootAt(g, x, n) {
      NeverEnds(g, s, x, n);
    }
  }

  /** The walk, an event after the other: the path so far, an edge for every cause followed, and whether all were on time. */
  ghost predicate WalkHolds(
    events: map<string, Node>, target: string, path: seq<string>, edges: seq<Edge>, onTime: bool, current: Option<string>)
  {
    && IsPath(GraphOf(events), target, path) && (forall i :: 0 <= i < |path| ==> path[i] in events)
    && (path == [] ==> current == Some(target) && edges == [])
    && (path != [] ==> CauseOf(GraphOf(events), path[|path| - 1]) == current)
    && (path != [] ==> |edges| == if current.None? then |path| - 1 else |path|)
    && (forall i :: 0 <= i < |edges| ==>
          i < |path| && edges[i].to == path[i] && CauseOf(GraphOf(events), path[i]) == Some(edges[i].from))
    && (onTime <==> forall i :: 0 <= i < |path| ==> IsOnTime(events[path[i]]))
  }

  lemma WalkGoesOn(
    events: map<string, Node>, target: string, path: seq<string>, edges: seq<Edge>, onTime: bool, current: string)
    requires WalkHolds(events, target, path, edges, onTime, Some(current)) && current in events && current !in path
    ensures var event := events[current];
            var now, more := path + [current],
                if event.cause.Some? then edges + [Edge(event.cause.value, current)] else edges;
            WalkHolds(events, target, now, more, onTime && IsOnTime(event), event.cause)
  {
    hide IsOnTime;
    var g := GraphOf(events);
    if path != [] {
      NextAncestor(g, target, path);
    }
    var now := path + [current];
    assert Ancestor(g, target, |path|) == Some(current);
    assert IsPath(g, target, now);
    assert forall i :: 0 <= i < |path| ==> now[i] == path[i];
  }

  /** What the walk shows of the whole chain of causes: the path back from the target, the edges along it, incomplete exactly
      when the chain leaves the events, verified exactly when it ends at an event without a cause and is on time. */
  ghost predicate Shows(events: map<string, Node>, target: string, path: seq<string>, edges: seq<Edge>, status: Status) {
    var g := GraphOf(events);
    && IsPath(g, target, path) && path != [] && |path| <= |events|
    && (status == IncompleteChain <==> Leaves(g, target))
    && (status == Verified <==> ReachesRoot(g, target) && ChainIsOnTime(events, target))
    && |path| - 1 <= |edges| <= |path| && (|edges| == |path| - 1 <==> ReachesRoot(g, target))
    && (forall i :: 0 <= i < |edges| ==> edges[i].to == path[i] && CauseOf(g, path[i]) == Some(edges[i].from))
  }

  lemma WalkEnds(
    events: map<string, Node>, target: string, path: seq<string>, edges: seq<Edge>, onTime: bool, current: Option<string>)
    requires WalkHolds(events, target, path, edges, onTime, current) && path != []
    ensures current.None? ==> Shows(events, target, path, edges, if onTime then Verified else TimestampAnomaly)
    ensures current.Some? && current.value in path ==> Shows(events, target, path, edges, TimestampAnomaly)
    ensures current.Some? && current.value !in path && current.value !in events ==>
              Shows(events, target, path, edges, IncompleteChain)
  {
    hide IsOnTime, ReachesRoot, Leaves, ChainIsOnTime;
    var g := GraphOf(events);
    PathFits(g, path);
    assert |g.Keys| == |g| && g.Keys == events.Keys && |events.Keys| == |events|;
    if current.None? {
      StopsAtRoot(events, target, path, onTime);
    } else if current.value in path {
      StopsInCycle(g, target, path);
    } else if current.value !in events {
      StopsOutside(g, target, path);
    }
  }

  /** `build_decision_reconstruction`. */
  method BuildDecisionReconstruction(events: map<string, Node>, target: string) returns (r: Option<Reconstruction>)
    ensures r.None? <==> target !in events
    ensures r.Some? ==> Shows(events, target, Reversed(r.value.chain), r.value.edges, r.value.status)
  {
    hide WalkHolds, Shows;
    if target !in events {
      return None;
    }
    var path: seq<string>, edges: seq<Edge>, status := [], [], Verified;
    var current := Some(target);
    WalkStarts(events, target);
    while current.Some?
      invariant WalkHolds(events, target, path, edges, status == Verified, current)
      invariant status == Verified || status == TimestampAnomaly
      invariant path == [] ==> current == Some(target)
      decreases |events| - |path|, current.Some?
    {
      if current.value in path {
        WalkEnds(events, target, path, edges, status == Verified, current);
        ReversedTwice(path);
        return Some(Reconstruction(Reversed(path), edges, TimestampAnomaly));
      }
      if current.value !in events {
        WalkEnds(events, target, path, edges, status == Verified, current);
        ReversedTwice(path);
        return Some(Reconstruction(Reversed(path), edges, IncompleteChain));
      }
      WalkGoesOn(events, target, path, edges, status == Verified, current.value);
      WalkFits(events, target, path, edges, status == Verified, current.value);
      var event := events[current.value];
      if Less(event.receiveTime, event.eventTime) {
        status := TimestampAnomaly;
      }
      path := path + [current.value];
      if event.cause.Some? {
        edges := edges + [Edge(event.cause.value, current.value)];
      }
      current := event.cause;
    }
    WalkEnds(events, target, path, edges, status == Verified, current);
    ReversedTwice(path);
    r := Some(Reconstruction(Reversed(path), edges, status));
  }

  lemma WalkStarts(events: map<string, Node>, target: string)
    ensures WalkHolds(events, target, [], [], true, Some(target))
  {
  }

  lemma WalkFits(
    events: map<string, Node>, target: string, path: seq<string>, edges: seq<Edge>, onTime: bool, current: string)
    requires WalkHolds(events, target, path, edges, onTime, Some(current)) && current in events && current !in path
    ensures |path| < |events|
  {
    hide IsOnTime;
    var g := GraphOf(events);
    assert |g.Keys| == |g| && g.Keys == events.Keys && |events.Keys| == |events|;
    PathFits(g, path + [current]);
  }

  lemma ReversedTwice<T>(s: seq<T>)
    ensures Reversed(Reversed(s)) == s
  {
  }

  // ----- What the status says of the instants -----

  /** Both timestamps pass the envelope check, which admits fractions of a second. */
  predicate IsAdmitted(node: Node) {
    IsDashboardTimestamp(node.eventTime) && IsDashboardTimestamp(node.receiveTime)
  }

  /** The event was received before it happened. */
  predicate IsEarly(node: Node) {
    IsAdmitted(node) && DashboardInstant(node.receiveTime) < DashboardInstant(node.eventTime)
  }

  /** Within one second the event has more digits than its receipt, and not only zeros. */
  predicate SlipsThrough(node: Node) {
    && IsAdmitted(node) && SameSecond(node.eventTime, node.receiveTime)
    && ProperPrefix(Fraction(node.receiveTime), Fraction(node.eventTime))
    && !OnlyZeros(Fraction(node.eventTime)[|Fraction(node.receiveTime)|..])
  }

  /** Within one second the receipt has more digits than the event. */
  predicate IsWronglyFlagged(node: Node) {
    && IsAdmitted(node) && SameSecond(node.eventTime, node.receiveTime)
    && ProperPrefix(Fraction(node.eventTime), Fraction(node.receiveTime))
  }

  /** The comparison of one event's strings tells the truth about its instants exactly when their order is reliable. It errs one
      way on the events that slip through, and the other way on those wrongly flagged. */
  lemma OnTimeIsTrueExactlyWhen(node: Node)
    requires IsAdmitted(node)
    ensures (IsOnTime(node) <==> !IsEarly(node)) <==> StringOrderIsReliable(node.eventTime, node.receiveTime)
    ensures IsOnTime(node) && IsEarly(node) <==> SlipsThrough(node)
    ensures !IsOnTime(node) && !IsEarly(node) <==> IsWronglyFlagged(node)
  {
    hide IsDashboardTimestamp, DashboardInstant, Less, OnlyZeros, ProperPrefix, Fraction;
    var event, received := node.eventTime, node.receiveTime;
    LessIsTotal(event, received);
    StringCutoffIsTemporalExactlyWhen(event, received);
    if SlipsThrough(node) {
      LongerFractionSortsFirst(received, event);
    }
    if IsWronglyFlagged(node) {
      LongerFractionSortsFirst(event, received);
    }
  }

  ghost predicate OnChainAt(events: map<string, Node>, x: string, node: Node, n: nat) {
    var a := Ancestor(GraphOf(events), x, n);
    a.Some? && a.value in events && events[a.value] == node
  }

  /** The node is the event's own or that of one of its ancestors. */
  ghost predicate OnChain(events: map<string, Node>, x: string, node: Node) {
    exists n: nat :: OnChainAt(events, x, node, n)
  }

  lemma ChainIsOnTimeOfNodes(events: map<string, Node>, x: string)
    ensures ChainIsOnTime(events, x) <==> forall node :: OnChain(events, x, node) ==> IsOnTime(node)
  {
    hide IsOnTime;
    var g := GraphOf(events);
    if forall node :: OnChain(events, x, node) ==> IsOnTime(node) {
      forall n: nat | Ancestor(g, x, n).Some?
        ensures Ancestor(g, x, n).value in events && IsOnTime(events[Ancestor(g, x, n).value])
      {
        AncestorInGraph(g, x, n);
        assert OnChainAt(events, x, events[Ancestor(g, x, n).value], n);
      }
    }
  }

  lemma RootNeverLeaves(g: Graph, x: string)
    requires ReachesRoot(g, x)
    ensures !Leaves(g, x)
  {
    var m: nat :| RootAt(g, x, m);
    forall n: nat ensures !LeavesAt(g, x, n) {
      if Ancestor(g, x, n).Some? && n != m {
        AncestorInGraph(g, x, n);
        var i, j := if n < m then n else m, if n < m then m else n;
        AncestorInGraph(g, x, i);
        AncestorSum(g, x, i, 1);
        var y := Ancestor(g, x, i).value;
        assert Ancestor(g, y, 1) == if g[y].None? then None else Ancestor(g, g[y].value, 0);
        if Ancestor(g, x, i + 1).None? {
          NothingBeyond(g, x, i + 1, j);
        }
      }
    }
  }

  /** The strings on the chain mislead: an event that slips through is not reported, or every report is wrong. */
  ghost predicate Misleads(events: map<string, Node>, x: string) {
    || (&& (forall node :: OnChain(events, x, node) ==> IsOnTime(node))
        && (exists node :: OnChain(events, x, node) && SlipsThrough(node)))
    || (&& (exists node :: OnChain(events, x, node) && IsWronglyFlagged(node))
        && (forall node :: OnChain(events, x, node) && !IsOnTime(node) ==> IsWronglyFlagged(node))
        && (forall node :: OnChain(events, x, node) ==> !SlipsThrough(node)))
  }

  /** What the status of a complete chain says of the instants: verified means that every event on it was received no earlier than
      it happened, and an anomaly that some event was received early, exactly unless the strings mislead. */
  lemma StatusIsTrueExactlyWhen(events: map<string, Node>, target: string, path: seq<string>, edges: seq<Edge>, status: Status)
    requires Shows(events, target, path, edges, status) && ReachesRoot(GraphOf(events), target)
    requires forall node :: OnChain(events, target, node) ==> IsAdmitted(node)
    ensures status == Verified || status == TimestampAnomaly
    ensures (status == Verified <==> forall node :: OnChain(events, target, node) ==> !IsEarly(node))
            <==> !Misleads(events, target)
    ensures (status == TimestampAnomaly <==> exists node :: OnChain(events, target, node) && IsEarly(node))
            <==> !Misleads(events, target)
  {
    hide IsOnTime, IsEarly, SlipsThrough, IsWronglyFlagged, IsAdmitted, OnChain, ReachesRoot, Leaves, ChainIsOnTime, IsPath,
         StringOrderIsReliable;
    RootNeverLeaves(GraphOf(events), target);
    ChainIsOnTimeOfNodes(events, target);
    forall node | OnChain(events, target, node)
      ensures IsOnTime(node) && IsEarly(node) <==> SlipsThrough(node)
      ensures !IsOnTime(node) && !IsEarly(node) <==> IsWronglyFlagged(node)
    {
      OnTimeIsTrueExactlyWhen(node);
    }
  }

  /** Where no event on the chain has a fraction that extends the other, the status says what it seems to. */
  lemma ReliableChainsAreJudgedRight(
    events: map<string, Node>, target: string, path: seq<string>, edges: seq<Edge>, status: Status)
    requires Shows(events, target, path, edges, status) && ReachesRoot(GraphOf(events), target)
    requires forall node :: OnChain(events, target, node) ==>
               IsAdmitted(node) && StringOrderIsReliable(node.eventTime, node.receiveTime)
    ensures status == Verified <==> forall node :: OnChain(events, target, node) ==> !IsEarly(node)
    ensures status == TimestampAnomaly <==> exists node :: OnChain(events, target, node) && IsEarly(node)
  {
    hide IsOnTime, IsEarly, SlipsThrough, IsWronglyFlagged, IsAdmitted, OnChain, ReachesRoot, Shows, StringOrderIsReliable;
    forall node | OnChain(events, target, node) ensures !SlipsThrough(node) && !IsWronglyFlagged(node) {
      OnTimeIsTrueExactlyWhen(node);
    }
    StatusIsTrueExactlyWhen(events, target, path, edges, status);
  }

  /** The walk from an event without a cause, alone. */
  lemma OneEventShows(id: string, node: Node)
    requires node.cause == None
    ensures var status := if IsOnTime(node) then Verified else TimestampAnomaly;
            && Shows(map[id := node], id, [id], [], status)
            && forall path, edges, other :: Shows(map[id := node], id, path, edges, other) ==> other == status
  {
    hide IsOnTime, Leaves, ChainIsOnTime, ReachesRoot, CauseOf;
    var events := map[id := node];
    var status := if IsOnTime(node) then Verified else TimestampAnomaly;
    OneEventIsRoot(id, node);
    StopsAtRoot(events, id, [id], IsOnTime(node));
  }

  lemma OneEventIsRoot(id: string, node: Node)
    requires node.cause == None
    ensures IsPath(GraphOf(map[id := node]), id, [id]) && CauseOf(GraphOf(map[id := node]), id).None?
  {
  }

  /** An event on a whole second that is received half a second later is reported as an anomaly. */
  lemma PromptReceiptIsFlagged(id: string, second: string)
    requires IsDashboardTimestamp(second) && |second| == 20
    ensures var node := Node(second, second[..19] + ".5Z", None);
            && IsAdmitted(node) && DashboardInstant(node.eventTime) < DashboardInstant(node.receiveTime)
            && Shows(map[id := node], id, [id], [], TimestampAnomaly)
            && forall path, edges, status :: Shows(map[id := node], id, path, edges, status) ==> status == TimestampAnomaly
  {
    hide IsDashboardTimestamp, DashboardInstant, Less, Shows;
    var node := Node(second, second[..19] + ".5Z", None);
    FractionSlipsPastCutoff(second);
    LessIsTotal(node.receiveTime, second);
    assert node.receiveTime != second by { assert |node.receiveTime| == 22; }
    OneEventShows(id, node);
  }

  /** And an event that is received on the whole second before it happens is verified. */
  lemma EarlyReceiptIsVerified(id: string, second: string)
    requires IsDashboardTimestamp(second) && |second| == 20
    ensures var node := Node(second[..19] + ".5Z", second, None);
            && IsAdmitted(node) && IsEarly(node)
            && Shows(map[id := node], id, [id], [], Verified)
            && forall path, edges, status :: Shows(map[id := node], id, path, edges, status) ==> status == Verified
  {
    hide IsDashboardTimestamp, DashboardInstant, Less, Shows;
    var node := Node(second[..19] + ".5Z", second, None);
    FractionSlipsPastCutoff(second);
    LessIsTotal(node.eventTime, second);
    assert node.eventTime != second by { assert |node.eventTime| == 22; }
    OneEventShows(id, node);
  }

  // ----- The events the walk is given -----

  const MAX_WORKSPACE_RECORDS := 1000

  type Event = CausalFilter.Event

  /** The kept events in their presentation order, newest first, cut after the first thousand. */
  function Presented(newer: Sorting.Order<Event>, kept: seq<Event>): seq<Event> {
    var all := Sorting.StableSort(newer, kept);
    if |all| <= MAX_WORKSPACE_RECORDS then all else all[..MAX_WORKSPACE_RECORDS]
  }

  /** What the walk looks events up in. */
  function Shown(newer: Sorting.Order<Event>, kept: seq<Event>, nodeOf: Event -> Node): map<string, Node> {
    var byId := CausalFilter.ById(Presented(newer, kept));
    map id | id in byId :: nodeOf(byId[id])
  }

  ghost predicate IsPart(h: Graph, g: Graph) {
    forall x :: x in h ==> x in g && h[x] == g[x]
  }

  ghost predicate OutsideAt(g: Graph, h: Graph, x: string, n: nat) {
    Ancestor(g, x, n).Some? && Ancestor(g, x, n).value !in h
  }

  /** Some ancestor of the event was cut. */
  ghost predicate IsCut(g: Graph, h: Graph, x: string) {
    exists n: nat :: OutsideAt(g, h, x, n)
  }

  lemma AncestorStep(g: Graph, x: string, n: nat)
    requires x in g && g[x].Some?
    ensures Ancestor(g, x, n + 1) == Ancestor(g, g[x].value, n)
  {
  }

  lemma LeavesThroughParent(h: Graph, x: string)
    requires x in h && h[x].Some? && h[x].value in h
    ensures Leaves(h, x) <==> Leaves(h, h[x].value)
  {
    var p := h[x].value;
    if n: nat :| LeavesAt(h, x, n) {
      assert n > 0;
      AncestorStep(h, x, n - 1);
      assert LeavesAt(h, p, n - 1);
    }
    if n: nat :| LeavesAt(h, p, n) {
      AncestorStep(h, x, n);
      assert LeavesAt(h, x, n + 1);
    }
  }

  lemma CutThroughParent(g: Graph, h: Graph, x: string)
    requires x in h && x in g && g[x].Some?
    ensures IsCut(g, h, x) <==> IsCut(g, h, g[x].value)
  {
    var p := g[x].value;
    if n: nat :| OutsideAt(g, h, x, n) {
      assert n > 0;
      AncestorStep(g, x, n - 1);
      assert OutsideAt(g, h, p, n - 1);
    }
    if n: nat :| OutsideAt(g, h, p, n) {
      AncestorStep(g, x, n);
      assert OutsideAt(g, h, x, n + 1);
    }
  }

  /** In a part of a graph, a chain that is complete in the whole leaves exactly when something on it was cut, and otherwise ends
      as before. */
  lemma {:induction false} ChainInPart(g: Graph, h: Graph, x: string, n: nat)
    requires IsPart(h, g) && x in h && RootAt(g, x, n)
    ensures Leaves(h, x) <==> IsCut(g, h, x)
    ensures ReachesRoot(h, x) <==> !IsCut(g, h, x)
    decreases n
  {
    hide Leaves, ReachesRoot, IsCut;
    if n == 0 {
      RootIsShown(g, h, x);
    } else {
      var p := g[x].value;
      AncestorStep(g, x, n - 1);
      if p in h {
        ChainInPart(g, h, p, n - 1);
        LeavesThroughParent(h, x);
        CutThroughParent(g, h, x);
        RootThroughParent(h, x);
      } else {
        ParentIsCut(g, h, x);
      }
    }
  }

  lemma RootIsShown(g: Graph, h: Graph, x: string)
    requires IsPart(h, g) && x in h && g[x].None?
    ensures !Leaves(h, x) && ReachesRoot(h, x) && !IsCut(g, h, x)
  {
    assert RootAt(h, x, 0);
    forall n: nat ensures !LeavesAt(h, x, n) && !OutsideAt(g, h, x, n) {
      assert n > 0 ==> Ancestor(h, x, n) == None && Ancestor(g, x, n) == None;
    }
  }

  lemma ParentIsCut(g: Graph, h: Graph, x: string)
    requires IsPart(h, g) && x in h && g[x].Some? && g[x].value in g && g[x].value !in h
    ensures Leaves(h, x) && !ReachesRoot(h, x) && IsCut(g, h, x)
  {
    assert LeavesAt(h, x, 0);
    AncestorStep(g, x, 0);
    assert OutsideAt(g, h, x, 1);
    forall n: nat ensures !RootAt(h, x, n) {
      if n > 0 {
        AncestorStep(h, x, n - 1);
      }
    }
  }

  /** The events shown are a part of those kept, and all of them up to the cut. */
  lemma ShownIsPart(newer: Sorting.Order<Event>, kept: seq<Event>, nodeOf: Event -> Node)
    requires CausalFilter.DistinctIds(kept) && forall e :: nodeOf(e).cause == e.cause
    ensures IsPart(GraphOf(Shown(newer, kept, nodeOf)), CausalFilter.GraphOf(kept))
    ensures |kept| <= MAX_WORKSPACE_RECORDS ==> GraphOf(Shown(newer, kept, nodeOf)) == CausalFilter.GraphOf(kept)
  {
    hide CausalFilter.ById, CausalFilter.DistinctIds;
    var presented := Presented(newer, kept);
    PresentedAreKept(newer, kept);
    CausalFilter.ByIdNames(presented);
    CausalFilter.ByIdNames(kept);
    var g, h := CausalFilter.GraphOf(kept), GraphOf(Shown(newer, kept, nodeOf));
    forall id | id in h ensures id in g && h[id] == g[id] {
      var e := CausalFilter.ById(presented)[id];
      SameIdSame(kept, e, CausalFilter.ById(kept)[id]);
    }
    if |kept| <= MAX_WORKSPACE_RECORDS {
      forall id | id in g ensures id in h {
        assert CausalFilter.ById(kept)[id] in presented;
      }
    }
  }

  lemma PresentedAreKept(newer: Sorting.Order<Event>, kept: seq<Event>)
    ensures forall e :: e in Presented(newer, kept) ==> e in kept
    ensures |kept| <= MAX_WORKSPACE_RECORDS ==> forall e :: e in kept ==> e in Presented(newer, kept)
  {
    var all := Sorting.StableSort(newer, kept);
    Sorting.StableSortPermutes(newer, kept);
    assert |all| == |multiset(all)| == |multiset(kept)| == |kept|;
    assert forall e :: e in all <==> e in multiset(all);
    assert forall e :: e in kept <==> e in multiset(kept);
  }

  /** They are the first of the kept events in that order, a thousand at most: what is cut comes after nothing that is shown. */
  lemma PresentedAreNewest(newer: Sorting.Order<Event>, kept: seq<Event>)
    requires Sorting.IsWeakOrder(newer)
    ensures |Presented(newer, kept)| == if |kept| <= 1000 then |kept| else 1000
    ensures Sorting.IsOrdered(newer, Presented(newer, kept))
    ensures exists rest: seq<Event> ::
              && multiset(Presented(newer, kept)) + multiset(rest) == multiset(kept)
              && forall shown, cut :: shown in Presented(newer, kept) && cut in rest ==> !newer(cut, shown)
  {
    hide Sorting.IsWeakOrder, Sorting.StableSort;
    var all := Sorting.StableSort(newer, kept);
    Sorting.StableSortSorts(newer, kept);
    assert |all| == |multiset(all)| == |multiset(kept)| == |kept|;
    var shown := Presented(newer, kept);
    var rest := all[|shown|..];
    assert all == shown + rest;
    forall x, y | x in shown && y in rest ensures !newer(y, x) {
      var i :| 0 <= i < |shown| && shown[i] == x;
      var j :| 0 <= j < |rest| && rest[j] == y;
      assert all[i] == x && all[|shown| + j] == y;
    }
    assert multiset(shown) + multiset(rest) == multiset(kept);
  }

  lemma SameIdSame(kept: seq<Event>, a: Event, b: Event)
    requires CausalFilter.DistinctIds(kept) && a in kept && b in kept && a.id == b.id
    ensures a == b
  {
    var i :| 0 <= i < |kept| && kept[i] == a;
    var j :| 0 <= j < |kept| && kept[j] == b;
    assert i < j || j < i || i == j;
  }

  /** The reconstruction of an event of the workspace. Kept events have complete chains, so the walk never meets a cycle: it is
      incomplete exactly when an ancestor lies past the cut, and never while a thousand events or fewer are kept. */
  method ReconstructShown(newer: Sorting.Order<Event>, kept: seq<Event>, nodeOf: Event -> Node, target: string)
    returns (r: Option<Reconstruction>)
    requires CausalFilter.DistinctIds(kept) && forall e :: nodeOf(e).cause == e.cause
    requires forall e :: e in kept ==> ReachesRoot(CausalFilter.GraphOf(kept), e.id)
    ensures r.None? <==> target !in Shown(newer, kept, nodeOf)
    ensures r.Some? ==> Shows(Shown(newer, kept, nodeOf), target, Reversed(r.value.chain), r.value.edges, r.value.status)
    ensures r.Some? ==>
              (r.value.status == IncompleteChain
               <==> IsCut(CausalFilter.GraphOf(kept), GraphOf(Shown(newer, kept, nodeOf)), target))
    ensures r.Some? && r.value.status != IncompleteChain ==>
              (r.value.status == Verified <==> ChainIsOnTime(Shown(newer, kept, nodeOf), target))
    ensures r.Some? && r.value.status != IncompleteChain && (forall e :: e in kept ==> IsAdmitted(nodeOf(e))) ==>
              ((r.value.status == Verified
                <==> forall node :: OnChain(Shown(newer, kept, nodeOf), target, node) ==> !IsEarly(node))
               <==> !Misleads(Shown(newer, kept, nodeOf), target))
    ensures r.Some? && |kept| <= MAX_WORKSPACE_RECORDS ==> r.value.status != IncompleteChain
  {
    hide ReachesRoot, Leaves, ChainIsOnTime, IsCut, CausalFilter.DistinctIds, IsPath, CausalFilter.GraphOf, GraphOf, Shown,
         OnChain, IsEarly, IsAdmitted, Misleads;
    var events := Shown(newer, kept, nodeOf);
    r := BuildDecisionReconstruction(events, target);
    if r.Some? {
      ChainOfShown(newer, kept, nodeOf, target);
      if r.value.status != IncompleteChain && forall e :: e in kept ==> IsAdmitted(nodeOf(e)) {
        ShownAreAdmitted(newer, kept, nodeOf, target);
        StatusIsTrueExactlyWhen(events, target, Reversed(r.value.chain), r.value.edges, r.value.status);
      }
    }
  }

  lemma ShownAreAdmitted(newer: Sorting.Order<Event>, kept: seq<Event>, nodeOf: Event -> Node, target: string)
    requires forall e :: e in kept ==> IsAdmitted(nodeOf(e))
    ensures forall node :: OnChain(Shown(newer, kept, nodeOf), target, node) ==> IsAdmitted(node)
  {
    hide IsAdmitted, CausalFilter.ById;
    PresentedAreKept(newer, kept);
    CausalFilter.ByIdNames(Presented(newer, kept));
  }

  lemma ChainOfShown(newer: Sorting.Order<Event>, kept: seq<Event>, nodeOf: Event -> Node, target: string)
    requires CausalFilter.DistinctIds(kept) && forall e :: nodeOf(e).cause == e.cause
    requires forall e :: e in kept ==> ReachesRoot(CausalFilter.GraphOf(kept), e.id)
    requires target in Shown(newer, kept, nodeOf)
    ensures var g, h := CausalFilter.GraphOf(kept), GraphOf(Shown(newer, kept, nodeOf));
            && (Leaves(h, target) <==> IsCut(g, h, target)) && (ReachesRoot(h, target) <==> !IsCut(g, h, target))
            && (|kept| <= MAX_WORKSPACE_RECORDS ==> !IsCut(g, h, target))
  {
    hide Leaves, CausalFilter.DistinctIds, CausalFilter.ById, RootAt;
    var g, h := CausalFilter.GraphOf(kept), GraphOf(Shown(newer, kept, nodeOf));
    ShownIsPart(newer, kept, nodeOf);
    CausalFilter.ByIdNames(kept);
    assert target in h && target in g;
    var e := CausalFilter.ById(kept)[target];
    var n: nat :| RootAt(g, target, n);
    ChainInPart(g, h, target, n);
    if |kept| <= MAX_WORKSPACE_RECORDS {
      NothingCut(g, target);
    }
  }

  lemma NothingCut(g: Graph, x: string)
    ensures !IsCut(g, g, x)
  {
    forall n: nat ensures !OutsideAt(g, g, x, n) {
      if Ancestor(g, x, n).Some? {
        AncestorInGraph(g, x, n);
      }
    }
  }
}
