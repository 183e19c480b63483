/** The replay as of a moment: `workspace_snapshot` drops the events received after it, once the causal order is made. */
module ReplayAsOf {
  import opened Prelude
  import opened CausalGraph
  import opened CausalFilter
  import opened CausalOrder
  import opened ReplayCandidates
  import opened ReplayProjection
  import DecisionReconstruction

  /** The events received by the cutoff, compared as strings, in the order they had. */
  function AsOf(received: Event -> string, cutoff: string, replay: seq<Event>): seq<Event> {
    if replay == [] then []
    else
      var front, last := AsOf(received, cutoff, replay[..|replay| - 1]), replay[|replay| - 1];
      if AtMost(received(last), cutoff) then front + [last] else front
  }

  lemma {:induction false} AsOfKeeps(received: Event -> string, cutoff: string, replay: seq<Event>)
    ensures forall e :: e in AsOf(received, cutoff, replay) <==> e in replay && AtMost(received(e), cutoff)
    ensures DistinctIds(replay) ==> DistinctIds(AsOf(received, cutoff, replay))
  {
    hide AtMost;
    if replay != [] {
      var front, last := replay[..|replay| - 1], replay[|replay| - 1];
      AsOfKeeps(received, cutoff, front);
      assert replay == front + [last];
      if DistinctIds(replay) {
        assert forall e :: e in front ==> e.id != last.id;
      }
    }
  }

  /** Every cause that an event names is there too. */
  ghost predicate IsClosed(events: seq<Event>) {
    forall e :: e in events && e.cause.Some? ==> HasId(events, e.cause.value)
  }

  /** Wherever it is cut, what comes before the cut is closed: the window is a `causal_prefix`. */
  ghost predicate IsCausalPrefix(events: seq<Event>) {
    forall n: nat :: n <= |events| ==> IsClosed(events[..n])
  }

  /** What the filter is given: ids are distinct, causes come before their effects, and every chain of causes ends at an event
      without one. */
  ghost predicate IsReplay(replay: seq<Event>) {
    && DistinctIds(replay) && IsCausalPrefix(replay)
    && forall e :: e in replay ==> ReachesRoot(GraphOf(replay), e.id)
  }

  lemma SameEventsSameGraph(events: seq<Event>, others: seq<Event>)
    requires DistinctIds(events) && DistinctIds(others) && forall e :: e in events <==> e in others
    ensures GraphOf(events) == GraphOf(others)
  {
    hide ById, DistinctIds;
    DistinctById(events);
    DistinctById(others);
    ByIdNames(events);
    ByIdNames(others);
    forall id ensures id in ById(events) <==> id in ById(others) {
      if id in ById(events) {
        assert ById(events)[id] in others;
      }
      if id in ById(others) {
        assert ById(others)[id] in events;
      }
    }
    forall id | id in GraphOf(events) ensures GraphOf(events)[id] == GraphOf(others)[id] {
      assert ById(events)[id] in others;
    }
  }

  lemma OrderIsDistinct(events: seq<Event>, out: seq<Event>)
    requires DistinctIds(events) && Greedy(events, out) && forall e :: e in out ==> e in events
    ensures DistinctIds(out)
  {
    hide Greedy;
    forall i, j | 0 <= i < j < |out| ensures out[i].id != out[j].id {
      if out[i].id == out[j].id {
        SameIdSameEvent(events, out[i], out[j]);
        NothingRepeats(events, out, i, j);
      }
    }
  }

  /** The replay of a scan is one. */
  lemma ScanGivesReplay(scan: seq<Occurrence>, replay: seq<Event>)
    requires IsNamed(scan) && Greedy(KeptEvents(scan), replay) && |replay| == |KeptEvents(scan)|
    ensures IsReplay(replay)
  {
    hide Greedy, KeptEvents, ReachesRoot, HasId, DistinctIds, GraphOf;
    var kept := KeptEvents(scan);
    KeptEventsAreRooted(scan);
    OrderIsPermutation(kept, replay);
    assert forall e :: e in replay <==> e in multiset(replay);
    assert forall e :: e in kept <==> e in multiset(kept);
    OrderIsDistinct(kept, replay);
    SameEventsSameGraph(kept, replay);
    forall n: nat, e | n <= |replay| && e in replay[..n] && e.cause.Some? ensures HasId(replay[..n], e.cause.value) {
      PrefixIsCausallyClosed(kept, replay, n, e);
    }
  }

  /** Some ancestor of the event was received after the cutoff. */
  ghost predicate HasLateAncestor(received: Event -> string, cutoff: string, replay: seq<Event>, e: Event) {
    exists p, n: nat :: IsLateAncestor(received, cutoff, replay, e, p, n)
  }

  ghost predicate IsLateAncestor(
    received: Event -> string, cutoff: string, replay: seq<Event>, e: Event, p: Event, n: nat)
  {
    p in replay && Ancestor(GraphOf(replay), e.id, n) == Some(p.id) && !AtMost(received(p), cutoff)
  }

  lemma ShownIsPart(received: Event -> string, cutoff: string, replay: seq<Event>)
    requires DistinctIds(replay)
    ensures var g, h := GraphOf(replay), GraphOf(AsOf(received, cutoff, replay));
            && DecisionReconstruction.IsPart(h, g)
            && forall e :: e in replay ==> e.id in g && g[e.id] == e.cause && (e.id in h <==> AtMost(received(e), cutoff))
  {
    hide ById, DistinctIds, AtMost;
    var shown := AsOf(received, cutoff, replay);
    AsOfKeeps(received, cutoff, replay);
    DistinctById(replay);
    DistinctById(shown);
    ByIdNames(replay);
    ByIdNames(shown);
  }

  lemma CutIsLate(received: Event -> string, cutoff: string, replay: seq<Event>, e: Event)
    requires DistinctIds(replay) && e in replay
    ensures DecisionReconstruction.IsCut(GraphOf(replay), GraphOf(AsOf(received, cutoff, replay)), e.id)
            <==> HasLateAncestor(received, cutoff, replay, e)
  {
    hide ById, DistinctIds, AtMost, AsOf;
    var g, h := GraphOf(replay), GraphOf(AsOf(received, cutoff, replay));
    ShownIsPart(received, cutoff, replay);
    ByIdNames(replay);
    if n: nat :| DecisionReconstruction.OutsideAt(g, h, e.id, n) {
      AncestorInGraph(g, e.id, n);
      var p := ById(replay)[Ancestor(g, e.id, n).value];
      assert IsLateAncestor(received, cutoff, replay, e, p, n);
    }
    if p, n: nat :| IsLateAncestor(received, cutoff, replay, e, p, n) {
      assert DecisionReconstruction.OutsideAt(g, h, e.id, n);
    }
  }

  /** The chain of an event that is still shown is complete exactly when no ancestor of it was received after the cutoff, and its
      own cause is still shown exactly when that was not. */
  lemma OrphansExactlyWhen(received: Event -> string, cutoff: string, replay: seq<Event>, e: Event)
    requires IsReplay(replay) && e in AsOf(received, cutoff, replay)
    ensures var shown := AsOf(received, cutoff, replay);
            && (ReachesRoot(GraphOf(shown), e.id) <==> !HasLateAncestor(received, cutoff, replay, e))
            && (e.cause.Some? ==>
                  (HasId(shown, e.cause.value)
                   <==> forall p :: p in replay && p.id == e.cause.value ==> AtMost(received(p), cutoff)))
  {
    hide ById, DistinctIds, AtMost, AsOf, GraphOf, HasLateAncestor, DecisionReconstruction.IsCut, DecisionReconstruction.IsPart,
         DecisionReconstruction.Leaves, RootAt;
    assert replay[..|replay|] == replay && IsClosed(replay);
    var g, h := GraphOf(replay), GraphOf(AsOf(received, cutoff, replay));
    AsOfKeeps(received, cutoff, replay);
    ShownIsPart(received, cutoff, replay);
    var n: nat :| RootAt(g, e.id, n);
    DecisionReconstruction.ChainInPart(g, h, e.id, n);
    CutIsLate(received, cutoff, replay, e);
  }

  ghost predicate Causes(replay: seq<Event>, p: Event, e: Event) {
    p in replay && e in replay && e.cause == Some(p.id)
  }

  /** No event received by the cutoff has a cause received after it. */
  ghost predicate NoCauseIsLate(received: Event -> string, cutoff: string, replay: seq<Event>) {
    forall p, e :: Causes(replay, p, e) && AtMost(received(e), cutoff) ==> AtMost(received(p), cutoff)
  }

  /** No event was received before its cause, as strings compare. */
  ghost predicate CausesAreReceivedFirst(received: Event -> string, replay: seq<Event>) {
    forall p, e :: Causes(replay, p, e) ==> AtMost(received(p), received(e))
  }

  /** What is shown is closed under causation exactly when no event shown has a cause received after the cutoff. */
  lemma ClosedExactlyWhen(received: Event -> string, cutoff: string, replay: seq<Event>)
    requires DistinctIds(replay) && IsClosed(replay)
    ensures IsClosed(AsOf(received, cutoff, replay)) <==> NoCauseIsLate(received, cutoff, replay)
  {
    hide DistinctIds, AtMost, AsOf;
    AsOfKeeps(received, cutoff, replay);
    var shown := AsOf(received, cutoff, replay);
    if IsClosed(shown) {
      forall p, e | Causes(replay, p, e) && AtMost(received(e), cutoff) ensures AtMost(received(p), cutoff) {
        var q :| q in shown && q.id == p.id;
        SameIdSameEvent(replay, p, q);
      }
    }
    if NoCauseIsLate(received, cutoff, replay) {
      forall e | e in shown && e.cause.Some? ensures HasId(shown, e.cause.value) {
        var p :| p in replay && p.id == e.cause.value;
        assert Causes(replay, p, e);
      }
    }
  }

  /** So it is closed whatever the cutoff exactly when every cause was received, as a string, no later than its effect. */
  lemma AlwaysClosedExactlyWhen(received: Event -> string, replay: seq<Event>)
    requires DistinctIds(replay) && IsClosed(replay)
    ensures (forall cutoff :: IsClosed(AsOf(received, cutoff, replay))) <==> CausesAreReceivedFirst(received, replay)
  {
    hide IsClosed, DistinctIds, Causes;
    if CausesAreReceivedFirst(received, replay) {
      forall cutoff ensures IsClosed(AsOf(received, cutoff, replay)) {
        forall p, e | Causes(replay, p, e) && AtMost(received(e), cutoff) ensures AtMost(received(p), cutoff) {
          AtMostChains(received(p), received(e), cutoff);
        }
        ClosedExactlyWhen(received, cutoff, replay);
      }
    } else {
      var p, e :| Causes(replay, p, e) && !AtMost(received(p), received(e));
      ClosedExactlyWhen(received, received(e), replay);
      assert !IsClosed(AsOf(received, received(e), replay));
    }
  }

  /** What is shown, cut anywhere, is what is shown of the replay cut somewhere. */
  lemma {:induction false} PrefixAsOf(received: Event -> string, cutoff: string, replay: seq<Event>, n: nat) returns (m: nat)
    requires n <= |AsOf(received, cutoff, replay)|
    ensures m <= |replay| && AsOf(received, cutoff, replay)[..n] == AsOf(received, cutoff, replay[..m])
    decreases |replay|
  {
    hide AtMost;
    var shown := AsOf(received, cutoff, replay);
    if n == |shown| {
      m := |replay|;
      assert replay[..m] == replay && shown[..n] == shown;
    } else {
      var front := replay[..|replay| - 1];
      var before := AsOf(received, cutoff, front);
      assert n <= |before| && shown[..n] == before[..n];
      m := PrefixAsOf(received, cutoff, front, n);
      assert front[..m] == replay[..m];
    }
  }

  /** The window that is shown is a causal prefix, as it is labelled, wherever it is cut, exactly under the same condition. */
  lemma WindowIsCausalExactlyWhen(received: Event -> string, cutoff: string, replay: seq<Event>)
    requires IsReplay(replay)
    ensures IsCausalPrefix(AsOf(received, cutoff, replay)) <==> NoCauseIsLate(received, cutoff, replay)
  {
    hide AtMost, IsClosed, ReachesRoot, GraphOf;
    var shown := AsOf(received, cutoff, replay);
    assert shown[..|shown|] == shown && replay[..|replay|] == replay;
    ClosedExactlyWhen(received, cutoff, replay);
    if NoCauseIsLate(received, cutoff, replay) {
      forall n: nat | n <= |shown| ensures IsClosed(shown[..n]) {
        var m := PrefixAsOf(received, cutoff, replay, n);
        assert NoCauseIsLate(received, cutoff, replay[..m]);
        ClosedExactlyWhen(received, cutoff, replay[..m]);
      }
    }
  }
}
