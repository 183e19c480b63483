/** The replay pipeline of the dashboard: scan, uniqueness, causal filter, causal order. */
module ReplayProjection {
  import opened Prelude
  import opened CausalGraph
  import opened CausalFilter
  import opened CausalOrder
  import opened ReplayCandidates

  /** The events of a scan that survive the removal of duplicates. */
  ghost function UniqueEvents(scan: seq<Occurrence>): seq<Event> {
    Survivors(Candidates(scan), RepeatedKeys(scan), Candidates(scan))
  }

  /** Those whose chain of causes is complete among them. */
  ghost function KeptEvents(scan: seq<Occurrence>): seq<Event> {
    Without(UniqueEvents(scan), RootlessIds(GraphOf(UniqueEvents(scan))))
  }

  predicate IsNamed(scan: seq<Occurrence>) {
    forall o :: o in scan ==> o.event.id != ""
  }

  /** An event of the scan under its number: the place of its first reading among all first readings. */
  ghost predicate IsScanned(scan: seq<Occurrence>, e: Event) {
    && e.index < |FirstPlaces(scan)| && FirstPlaces(scan)[e.index] < |scan|
    && e == scan[FirstPlaces(scan)[e.index]].event.(index := e.index)
  }

  /** The events `workspace_snapshot` shows the replay debugger: the kept events in the greedy causal order. The order never
      raises on what the filter keeps, so this always returns. While the cap is not reached, an id is shown exactly when it is
      read once in the whole scan and its chain of causes ends, among such events, at one without a cause. */
  method ReplayEvents(scan: seq<Occurrence>) returns (replay: seq<Event>)
    requires IsNamed(scan)
    ensures Greedy(KeptEvents(scan), replay) && |replay| == |KeptEvents(scan)|
    ensures multiset(replay) == multiset(KeptEvents(scan)) && EarliestFirst(replay)
    ensures forall i, j :: 0 <= i < j < |replay| ==> replay[i].index != replay[j].index
    ensures forall e :: e in replay ==> IsScanned(scan, e)
    ensures |FirstPlaces(scan)| <= 10_000 ==>
              forall id :: HasId(replay, id) <==> id in OnceGraph(scan) && ReachesRoot(OnceGraph(scan), id)
    ensures |replay| <= 10_000
  {
    hide Greedy, ReachesRoot, Candidates, RepeatedKeys, Survivors, FirstPlaces, IsScanned, HasId, OnceGraph, EarliestFirst,
         DistinctIds;
    var candidates, invalid, omitted := Scan(scan);
    var unique := Unique(candidates, invalid);
    UniqueEventsAreSound(scan);
    var kept, diagnostics := KeepCausallySound(unique);
    KeptEventsAreRooted(scan);
    var ordered := CanonicalReplayEvents(kept);
    replay := ordered.value;
    WithoutIsNoLonger(unique, RootlessIds(GraphOf(unique)));
    ReplayOfScan(scan, replay);
    PlacesDiffer(scan, replay);
  }

  /** Each event of a replay has its own number. */
  lemma PlacesDiffer(scan: seq<Occurrence>, replay: seq<Event>)
    requires IsNamed(scan) && Greedy(KeptEvents(scan), replay) && |replay| == |KeptEvents(scan)|
    requires forall e :: e in replay ==> IsScanned(scan, e)
    ensures forall i, j :: 0 <= i < j < |replay| ==> replay[i].index != replay[j].index
  {
    hide Greedy, FirstPlaces, KeptEvents, HasId, DistinctIds;
    KeptEventsAreRooted(scan);
    forall i, j | 0 <= i < j < |replay| ensures replay[i].index != replay[j].index {
      if replay[i].index == replay[j].index {
        assert replay[i] in replay && replay[j] in replay;
        assert replay[i] == replay[j];
        NothingRepeats(KeptEvents(scan), replay, i, j);
      }
    }
  }

  lemma UniqueEventsAreSound(scan: seq<Occurrence>)
    requires IsNamed(scan)
    ensures NamedEvents(UniqueEvents(scan)) && DistinctIds(UniqueEvents(scan))
    ensures |UniqueEvents(scan)| <= MAX_REPLAY_EVENT_CANDIDATES
  {
    hide Survivors, DistinctIds, NamedEvents;
    var candidates := Candidates(scan);
    CandidatesOfScan(scan);
    SurvivorsAreNamed(scan, candidates, RepeatedKeys(scan), candidates);
    assert candidates[..|candidates|] == candidates;
    SurvivorsAreDistinct(candidates, RepeatedKeys(scan), |candidates|);
  }

  lemma KeptEventsAreRooted(scan: seq<Occurrence>)
    requires IsNamed(scan)
    ensures DistinctIds(KeptEvents(scan))
    ensures forall e :: e in KeptEvents(scan) ==> ReachesRoot(GraphOf(KeptEvents(scan)), e.id)
  {
    hide ReachesRoot, UniqueEvents;
    var unique := UniqueEvents(scan);
    UniqueEventsAreSound(scan);
    WithoutKeepsDistinct(unique, RootlessIds(GraphOf(unique)));
    forall e | e in KeptEvents(scan) ensures ReachesRoot(GraphOf(KeptEvents(scan)), e.id) {
      ByIdNames(unique);
      KeptEventsReachRoots(unique, e.id);
    }
  }

  // ----- From the scan to the replay -----

  /** The causes of the events whose id is read once in the whole scan. */
  ghost function OnceGraph(scan: seq<Occurrence>): Graph {
    map id | id in (set o | o in scan :: o.event.id) && OccursOnce(scan, id) :: EventOf(scan, id).cause
  }

  ghost function EventOf(scan: seq<Occurrence>, id: string): Event
    requires exists o :: o in scan && o.event.id == id
  {
    var o :| o in scan && o.event.id == id;
    o.event
  }

  /** Each surviving event is the scan's own event of its number. */
  lemma SurvivorIsScanned(scan: seq<Occurrence>, e: Event)
    requires e in UniqueEvents(scan)
    ensures IsScanned(scan, e)
  {
    hide FirstPlaces, RepeatedKeys;
    var candidates := Candidates(scan);
    SurvivorsMembership(candidates, RepeatedKeys(scan), candidates, e);
    var c :| c in candidates && c.event == e && Survives(candidates, RepeatedKeys(scan), c);
    var k :| 0 <= k < |candidates| && candidates[k] == c;
    assert c == Numbered(scan[FirstPlaces(scan)[k]], k);
  }

  /** Below the cap the graph of the surviving events is the one read off the scan. */
  lemma UniqueGraphIsOnceGraph(scan: seq<Occurrence>)
    requires IsNamed(scan) && |FirstPlaces(scan)| <= MAX_REPLAY_EVENT_CANDIDATES
    ensures GraphOf(UniqueEvents(scan)) == OnceGraph(scan)
  {
    hide Candidates, FirstPlaces, RepeatedKeys, Survivors, OccursOnce, AllRead, Complete, DistinctKeys;
    var unique, g := UniqueEvents(scan), GraphOf(UniqueEvents(scan));
    CandidatesOfScan(scan);
    ByIdNames(unique);
    forall id ensures id in g <==> id in OnceGraph(scan) {
      SurvivorsOccurOnce(scan, Candidates(scan), RepeatedKeys(scan), id);
      OnceIsRead(scan, id);
    }
    forall id | id in g ensures g[id] == OnceGraph(scan)[id] {
      var e := ById(unique)[id];
      assert e in unique && e.id == id;
      SurvivorIsScanned(scan, e);
      OnceEvent(scan, FirstPlaces(scan)[e.index]);
    }
  }

  lemma OnceIsRead(scan: seq<Occurrence>, id: string)
    ensures OccursOnce(scan, id) ==> id in (set o | o in scan :: o.event.id)
  {
    if OccursOnce(scan, id) {
      var i :| 0 <= i < |scan| && scan[i].event.id == id;
      assert scan[i] in scan;
    }
  }

  lemma OnceEvent(scan: seq<Occurrence>, i: nat)
    requires i < |scan| && OccursOnce(scan, scan[i].event.id)
    ensures scan[i] in scan && EventOf(scan, scan[i].event.id) == scan[i].event
  {
    var id := scan[i].event.id;
    assert scan[i] in scan;
    var e := EventOf(scan, id);
    var o :| o in scan && o.event.id == id && o.event == e;
    var j :| 0 <= j < |scan| && scan[j] == o;
  }

  /** The replay, said of the scan alone. While the cap is not reached, an id is shown exactly when it is read once in the whole
      scan and its chain of causes ends, among such events, at one without a cause; and each event shown is the scan's own,
      with the place of its first reading among the first readings as its number. */
  lemma ReplayOfScan(scan: seq<Occurrence>, replay: seq<Event>)
    requires IsNamed(scan) && Greedy(KeptEvents(scan), replay) && |replay| == |KeptEvents(scan)|
    ensures |FirstPlaces(scan)| <= MAX_REPLAY_EVENT_CANDIDATES ==>
              forall id :: HasId(replay, id) <==> id in OnceGraph(scan) && ReachesRoot(OnceGraph(scan), id)
    ensures forall e :: e in replay ==> IsScanned(scan, e)
    ensures multiset(replay) == multiset(KeptEvents(scan))
  {
    hide Greedy, Candidates, FirstPlaces, RepeatedKeys, UniqueEvents, ReachesRoot, OnceGraph, DistinctIds;
    var kept, unique := KeptEvents(scan), UniqueEvents(scan);
    KeptEventsAreRooted(scan);
    OrderIsPermutation(kept, replay);
    assert forall e :: e in replay <==> e in multiset(replay);
    assert forall e :: e in kept <==> e in multiset(kept);
    forall e | e in replay ensures IsScanned(scan, e) {
      SurvivorIsScanned(scan, e);
    }
    if |FirstPlaces(scan)| <= MAX_REPLAY_EVENT_CANDIDATES {
      UniqueGraphIsOnceGraph(scan);
      forall id ensures HasId(replay, id) <==> id in OnceGraph(scan) && ReachesRoot(OnceGraph(scan), id) {
        KeptIds(unique, id);
      }
    }
  }

  lemma KeptIds(unique: seq<Event>, id: string)
    ensures (exists e :: e in Without(unique, RootlessIds(GraphOf(unique))) && e.id == id)
            <==> id in GraphOf(unique) && ReachesRoot(GraphOf(unique), id)
  {
    hide ReachesRoot;
    ByIdNames(unique);
    if id in GraphOf(unique) {
      assert ById(unique)[id] in unique;
    }
  }

  lemma {:induction false} SurvivorsAreNamed(
      scan: seq<Occurrence>, candidates: seq<Occurrence>, invalid: set<(string, string)>, part: seq<Occurrence>)
    requires AllRead(scan, candidates) && IsNamed(scan)
    requires forall c :: c in part ==> c in candidates
    ensures NamedEvents(Survivors(candidates, invalid, part))
    ensures |Survivors(candidates, invalid, part)| <= |part|
  {
    if part != [] {
      var front, last := part[..|part|-1], part[|part|-1];
      assert part == front + [last];
      SurvivorsAreNamed(scan, candidates, invalid, front);
      assert ReadFrom(scan, last);
    }
  }

  lemma {:induction false} WithoutIsNoLonger(events: seq<Event>, dropped: set<string>)
    ensures |Without(events, dropped)| <= |events|
  {
    if events != [] {
      WithoutIsNoLonger(events[..|events|-1], dropped);
    }
  }
}
