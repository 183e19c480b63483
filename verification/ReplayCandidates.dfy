/** The first stage of the replay projection: the bounded scan of the evidence streams, and the removal of every event
    whose id is not unique. */
module ReplayCandidates {
  import opened Prelude
  import opened CausalFilter

  /** One canonical event read from an artifact. Artifact names are dict keys, so the per-artifact set of ids the scan
      keeps is a set of (artifact, id) pairs. */
  datatype Occurrence = Occurrence(artifact: string, event: Event)
  {
    function Key(): (string, string) { (artifact, event.id) }
  }

  const MAX_REPLAY_EVENT_CANDIDATES := 10_000

  /** The key occurs again later in the scan, within its artifact. */
  ghost predicate Repeated(scan: seq<Occurrence>, key: (string, string)) {
    exists i, j :: 0 <= i < j < |scan| && scan[i].Key() == key && scan[j].Key() == key
  }

  ghost predicate Occurs(scan: seq<Occurrence>, key: (string, string)) {
    exists i :: 0 <= i < |scan| && scan[i].Key() == key
  }

  /** The candidate is an event of the scan, numbered. */
  ghost predicate ReadFrom(scan: seq<Occurrence>, c: Occurrence) {
    exists o :: o in scan && o.Key() == c.Key() && c.event == o.event.(index := c.event.index)
  }

  ghost predicate DistinctKeys(candidates: seq<Occurrence>) {
    forall i, j :: 0 <= i < j < |candidates| ==> candidates[i].Key() != candidates[j].Key()
  }

  /** Read from one artifact under one id. */
  predicate SameKey(a: Occurrence, b: Occurrence) {
    a.artifact == b.artifact && a.event.id == b.event.id
  }

  /** The first place in the scan where a key is read. */
  ghost predicate IsFirstAt(scan: seq<Occurrence>, i: nat) {
    i < |scan| && forall j :: 0 <= j < i ==> !SameKey(scan[j], scan[i])
  }

  /** The places where some key is read first, in reading order: every one of them and no other. */
  function FirstPlaces(scan: seq<Occurrence>): (places: seq<nat>)
    ensures forall i: nat :: i in places <==> IsFirstAt(scan, i)
    ensures forall k, m :: 0 <= k < m < |places| ==> places[k] < places[m]
  {
    if scan == [] then []
    else
      var n := |scan| - 1;
      var before := FirstPlaces(scan[..n]);
      FirstPlacesGrow(scan, before);
      if IsNewKey(scan, n) then before + [n] else before
  }

  predicate IsNewKey(scan: seq<Occurrence>, n: nat)
    requires n < |scan|
  {
    forall j :: 0 <= j < n ==> scan[j].Key() != scan[n].Key()
  }

  lemma FirstPlacesGrow(scan: seq<Occurrence>, before: seq<nat>)
    requires scan != [] && forall i: nat :: i in before <==> IsFirstAt(scan[..|scan| - 1], i)
    ensures forall k :: 0 <= k < |before| ==> before[k] < |scan| - 1
    ensures forall i: nat :: IsFirstAt(scan, i) <==> i in before || (i == |scan| - 1 && IsNewKey(scan, i))
  {
    var n := |scan| - 1;
    forall k | 0 <= k < |before| ensures before[k] < n {
      assert before[k] in before;
    }
    forall i: nat ensures IsFirstAt(scan, i) <==> i in before || (i == n && IsNewKey(scan, i)) {
      assert i < n ==> (IsFirstAt(scan, i) <==> IsFirstAt(scan[..n], i));
    }
  }

  /** A candidate is the first occurrence of its key, with its place among the candidates as its index. */
  function Numbered(o: Occurrence, k: nat): Occurrence {
    Occurrence(o.artifact, o.event.(index := k))
  }

  /** The candidates of a scan: of the first occurrences, in reading order, as many as the cap allows. */
  function Candidates(scan: seq<Occurrence>): (candidates: seq<Occurrence>)
    ensures var places := FirstPlaces(scan);
            && |candidates| == (if |places| < MAX_REPLAY_EVENT_CANDIDATES then |places| else MAX_REPLAY_EVENT_CANDIDATES)
            && forall k :: 0 <= k < |candidates| ==> places[k] < |scan| && candidates[k] == Numbered(scan[places[k]], k)
  {
    var places := FirstPlaces(scan);
    assert forall k :: 0 <= k < |places| ==> places[k] in places && IsFirstAt(scan, places[k]);
    seq(if |places| < MAX_REPLAY_EVENT_CANDIDATES then |places| else MAX_REPLAY_EVENT_CANDIDATES,
        k requires 0 <= k < |places| => Numbered(scan[places[k]], k))
  }

  /** The keys read more than once. */
  ghost function RepeatedKeys(scan: seq<Occurrence>): (keys: set<(string, string)>)
    ensures MarksRepeats(scan, keys)
  {
    var keys := set o | o in scan && Repeated(scan, o.Key()) :: o.Key();
    assert forall key :: Repeated(scan, key) ==> exists o :: o in scan && o.Key() == key;
    keys
  }

  /** What a scan extended by one record adds. */
  lemma CandidatesNext(scan: seq<Occurrence>, n: nat)
    requires n < |scan|
    ensures var before, after := Candidates(scan[..n]), Candidates(scan[..n + 1]);
            after == if IsNewKey(scan, n) && |before| < MAX_REPLAY_EVENT_CANDIDATES
                     then before + [Numbered(scan[n], |before|)] else before
    ensures |FirstPlaces(scan[..n + 1])| == |FirstPlaces(scan[..n])| + if IsNewKey(scan, n) then 1 else 0
  {
    var shorter, longer := scan[..n], scan[..n + 1];
    assert longer[..n] == shorter;
    assert IsNewKey(longer, n) <==> IsNewKey(scan, n) by {
      assert forall j :: 0 <= j <= n ==> longer[j] == scan[j];
    }
    var p, q := FirstPlaces(shorter), FirstPlaces(longer);
    assert q == if IsNewKey(scan, n) then p + [n] else p;
    forall k | 0 <= k < |p| ensures p[k] < n && shorter[p[k]] == longer[p[k]] {
      assert p[k] in p;
      assert IsFirstAt(shorter, p[k]);
    }
  }

  /** The scan: one candidate for each (artifact, id) pair in reading order, numbered, up to the cap. */
  method Scan(scan: seq<Occurrence>)
    returns (candidates: seq<Occurrence>, invalid: set<(string, string)>, omitted: nat)
    ensures candidates == Candidates(scan)
    ensures invalid == RepeatedKeys(scan)
    ensures omitted == |FirstPlaces(scan)| - |candidates|
  {
    hide Candidates, FirstPlaces, RepeatedKeys, Repeated, Occurs;
    candidates, invalid, omitted := [], {}, 0;
    var seen: set<(string, string)> := {};
    NothingScanned(scan);
    for n := 0 to |scan|
      invariant candidates == Candidates(scan[..n]) && omitted == |FirstPlaces(scan[..n])| - |candidates|
      invariant forall key :: key in seen <==> Occurs(scan[..n], key)
      invariant forall key :: key in invalid <==> Repeated(scan[..n], key)
    {
      var o := scan[n];
      ScanNext(scan, n);
      CandidatesNext(scan, n);
      NewKeyIsUnseen(scan, n);
      if o.Key() in seen {
        invalid := invalid + {o.Key()};
      } else {
        seen := seen + {o.Key()};
        if |candidates| >= MAX_REPLAY_EVENT_CANDIDATES {
          omitted := omitted + 1;
        } else {
          candidates := candidates + [Numbered(o, |candidates|)];
        }
      }
    }
    assert scan[..|scan|] == scan;
    assert MarksRepeats(scan, RepeatedKeys(scan));
    assert forall key :: key in invalid <==> key in RepeatedKeys(scan);
  }

  lemma NothingScanned(scan: seq<Occurrence>)
    ensures Candidates(scan[..0]) == [] && FirstPlaces(scan[..0]) == []
    ensures forall key :: !Occurs(scan[..0], key) && !Repeated(scan[..0], key)
  {
  }

  lemma NewKeyIsUnseen(scan: seq<Occurrence>, n: nat)
    requires n < |scan|
    ensures IsNewKey(scan, n) <==> !Occurs(scan[..n], scan[n].Key())
  {
    var before := scan[..n];
    if !IsNewKey(scan, n) {
      var j :| 0 <= j < n && scan[j].Key() == scan[n].Key();
      assert before[j].Key() == scan[n].Key();
    }
  }

  /** What the later stages rely on: each candidate was read, no pair has two, and below the cap every pair has one. */
  lemma CandidatesOfScan(scan: seq<Occurrence>)
    ensures AllRead(scan, Candidates(scan)) && DistinctKeys(Candidates(scan))
    ensures |FirstPlaces(scan)| <= MAX_REPLAY_EVENT_CANDIDATES ==> Complete(scan, Candidates(scan))
  {
    var candidates, places := Candidates(scan), FirstPlaces(scan);
    forall c | c in candidates ensures ReadFrom(scan, c) {
      var k :| 0 <= k < |candidates| && candidates[k] == c;
      assert scan[places[k]] in scan;
    }
    forall k, m | 0 <= k < m < |candidates| ensures candidates[k].Key() != candidates[m].Key() {
      assert places[m] in places && IsFirstAt(scan, places[m]);
    }
    if |places| <= MAX_REPLAY_EVENT_CANDIDATES {
      forall o | o in scan ensures exists c :: c in candidates && c.Key() == o.Key() {
        var i :| 0 <= i < |scan| && scan[i] == o;
        var first := FirstOf(scan, i);
        var k :| 0 <= k < |places| && places[k] == first;
        assert candidates[k] in candidates;
      }
    }
  }

  lemma {:induction false} FirstOf(scan: seq<Occurrence>, i: nat) returns (first: nat)
    requires i < |scan|
    ensures IsFirstAt(scan, first) && scan[first].Key() == scan[i].Key() && first in FirstPlaces(scan)
  {
    if IsFirstAt(scan, i) {
      first := i;
    } else {
      var j :| 0 <= j < i && scan[j].Key() == scan[i].Key();
      first := FirstOf(scan, j);
    }
  }

  lemma ScanNext(scan: seq<Occurrence>, n: nat)
    requires n < |scan|
    ensures forall key :: Occurs(scan[..n + 1], key) <==> Occurs(scan[..n], key) || key == scan[n].Key()
    ensures forall key :: Repeated(scan[..n + 1], key)
              <==> Repeated(scan[..n], key) || (key == scan[n].Key() && Occurs(scan[..n], key))
  {
    var before, after := scan[..n], scan[..n + 1];
    assert forall i :: 0 <= i < n ==> after[i] == before[i];
    forall key ensures Occurs(after, key) <==> Occurs(before, key) || key == scan[n].Key() {
      if Occurs(before, key) {
        var i :| 0 <= i < |before| && before[i].Key() == key;
        assert after[i].Key() == key;
      }
      assert after[n] == scan[n];
    }
    forall key
      ensures Repeated(after, key) <==> Repeated(before, key) || (key == scan[n].Key() && Occurs(before, key))
    {
      if Repeated(before, key) {
        var i, j :| 0 <= i < j < |before| && before[i].Key() == key && before[j].Key() == key;
        assert after[i].Key() == key && after[j].Key() == key;
      }
      if key == scan[n].Key() && Occurs(before, key) {
        var i :| 0 <= i < |before| && before[i].Key() == key;
        assert after[i].Key() == key && after[n].Key() == key;
      }
    }
  }

  /** How many candidates carry an id. */
  function CountId(candidates: seq<Occurrence>, id: string): nat {
    if candidates == [] then 0
    else CountId(candidates[..|candidates|-1], id) + if candidates[|candidates|-1].event.id == id then 1 else 0
  }

  /** A candidate survives when its id is carried by no other candidate and is not repeated in its artifact. */
  predicate Survives(candidates: seq<Occurrence>, invalid: set<(string, string)>, c: Occurrence) {
    c.Key() !in invalid && CountId(candidates, c.event.id) <= 1
  }

  /** The events of the surviving candidates among `part`, in order. */
  function Survivors(candidates: seq<Occurrence>, invalid: set<(string, string)>, part: seq<Occurrence>): seq<Event> {
    if part == [] then []
    else
      var last := part[|part|-1];
      Survivors(candidates, invalid, part[..|part|-1]) + if Survives(candidates, invalid, last) then [last.event] else []
  }

  /** The second loop of the projection: counts every id, then drops whatever is not unique. */
  method Unique(candidates: seq<Occurrence>, invalid: set<(string, string)>) returns (survivors: seq<Event>)
    ensures survivors == Survivors(candidates, invalid, candidates)
  {
    var counts: map<string, nat> := map[];
    for n := 0 to |candidates|
      invariant forall id :: (if id in counts then counts[id] else 0) == CountId(candidates[..n], id)
    {
      var id := candidates[n].event.id;
      assert candidates[..n + 1][..n] == candidates[..n];
      counts := counts[id := (if id in counts then counts[id] else 0) + 1];
    }
    assert candidates[..|candidates|] == candidates;
    survivors := [];
    for n := 0 to |candidates|
      invariant survivors == Survivors(candidates, invalid, candidates[..n])
    {
      var c := candidates[n];
      assert candidates[..n + 1][..n] == candidates[..n];
      CountIsPositive(candidates, n);
      if c.Key() !in invalid && counts[c.event.id] <= 1 {
        survivors := survivors + [c.event];
      }
    }
  }

  lemma {:induction false} SurvivorsMembership(
      candidates: seq<Occurrence>, invalid: set<(string, string)>, part: seq<Occurrence>, e: Event)
    ensures e in Survivors(candidates, invalid, part)
            <==> exists c :: c in part && c.event == e && Survives(candidates, invalid, c)
  {
    if part != [] {
      var front, last := part[..|part|-1], part[|part|-1];
      assert forall c :: c in part <==> c in front || c == last;
      SurvivorsMembership(candidates, invalid, front, e);
    }
  }

  /** No two survivors share an id, which is what the causation maps built from them rely on. */
  lemma {:induction false} SurvivorsAreDistinct(candidates: seq<Occurrence>, invalid: set<(string, string)>, n: nat)
    requires n <= |candidates|
    ensures DistinctIds(Survivors(candidates, invalid, candidates[..n]))
    decreases n
  {
    if n > 0 {
      var front := candidates[..n - 1];
      assert candidates[..n][..n - 1] == front;
      SurvivorsAreDistinct(candidates, invalid, n - 1);
      var last := candidates[n - 1];
      if Survives(candidates, invalid, last) {
        forall e | e in Survivors(candidates, invalid, front) ensures e.id != last.event.id {
          SurvivorsMembership(candidates, invalid, front, e);
          var c :| c in front && c.event == e && Survives(candidates, invalid, c);
          var i :| 0 <= i < |front| && front[i] == c;
          if e.id == last.event.id {
            CountTwo(candidates, i, n - 1);
          }
        }
      }
    }
  }

  ghost predicate OccursOnce(scan: seq<Occurrence>, id: string) {
    exists i :: 0 <= i < |scan| && scan[i].event.id == id
                && forall j :: 0 <= j < |scan| && scan[j].event.id == id ==> j == i
  }

  lemma {:induction false} CountAtMostOne(candidates: seq<Occurrence>, id: string)
    requires forall i, j :: 0 <= i < j < |candidates| ==> candidates[i].event.id != id || candidates[j].event.id != id
    ensures CountId(candidates, id) <= 1
    ensures (forall c :: c in candidates ==> c.event.id != id) ==> CountId(candidates, id) == 0
    decreases |candidates|
  {
    if candidates != [] {
      var front, last := candidates[..|candidates|-1], candidates[|candidates|-1];
      assert candidates == front + [last];
      CountAtMostOne(front, id);
      if last.event.id == id {
        forall c | c in front ensures c.event.id != id {
          var i :| 0 <= i < |front| && front[i] == c;
        }
      }
    }
  }

  lemma OnlyCandidateOfItsId(candidates: seq<Occurrence>, c: Occurrence, d: Occurrence)
    requires c in candidates && d in candidates && c.event.id == d.event.id && CountId(candidates, c.event.id) <= 1
    ensures c == d
  {
    var i :| 0 <= i < |candidates| && candidates[i] == c;
    var j :| 0 <= j < |candidates| && candidates[j] == d;
    if i < j {
      CountTwo(candidates, i, j);
    } else if j < i {
      CountTwo(candidates, j, i);
    }
  }

  /** Every pair the scan read has a candidate, which is so while the cap is not reached. */
  ghost predicate Complete(scan: seq<Occurrence>, candidates: seq<Occurrence>) {
    forall o :: o in scan ==> exists c :: c in candidates && c.Key() == o.Key()
  }

  ghost predicate AllRead(scan: seq<Occurrence>, candidates: seq<Occurrence>) {
    forall c :: c in candidates ==> ReadFrom(scan, c)
  }

  ghost predicate MarksRepeats(scan: seq<Occurrence>, invalid: set<(string, string)>) {
    forall key :: key in invalid <==> Repeated(scan, key)
  }

  lemma SameKeyAsSurvivor(scan: seq<Occurrence>, candidates: seq<Occurrence>, c: Occurrence, j: nat)
    requires Complete(scan, candidates) && c in candidates && CountId(candidates, c.event.id) <= 1
    requires j < |scan| && scan[j].event.id == c.event.id
    ensures scan[j].Key() == c.Key()
  {
    assert scan[j] in scan;
    var d :| d in candidates && d.Key() == scan[j].Key();
    OnlyCandidateOfItsId(candidates, c, d);
  }

  lemma SurvivorOccursOnce(
      scan: seq<Occurrence>, candidates: seq<Occurrence>, invalid: set<(string, string)>, c: Occurrence)
    requires AllRead(scan, candidates) && MarksRepeats(scan, invalid) && Complete(scan, candidates)
    requires c in candidates && Survives(candidates, invalid, c)
    ensures OccursOnce(scan, c.event.id)
  {
    hide Complete;
    assert ReadFrom(scan, c);
    var o :| o in scan && o.Key() == c.Key() && c.event == o.event.(index := c.event.index);
    var i :| 0 <= i < |scan| && scan[i] == o;
    hide AllRead;
    forall j | 0 <= j < |scan| && scan[j].event.id == c.event.id ensures j == i {
      SameKeyAsSurvivor(scan, candidates, c, j);
      assert scan[i].Key() == scan[j].Key() == c.Key();
    }
  }

  lemma OnceSurvives(
      scan: seq<Occurrence>, candidates: seq<Occurrence>, invalid: set<(string, string)>, id: string) returns (c: Occurrence)
    requires AllRead(scan, candidates) && MarksRepeats(scan, invalid) && Complete(scan, candidates)
    requires DistinctKeys(candidates) && OccursOnce(scan, id)
    ensures c in candidates && c.event.id == id && Survives(candidates, invalid, c)
  {
    var i :| 0 <= i < |scan| && scan[i].event.id == id
             && forall j :: 0 <= j < |scan| && scan[j].event.id == id ==> j == i;
    assert scan[i] in scan;
    c :| c in candidates && c.Key() == scan[i].Key();
    hide Complete;
    forall d | d in candidates && d.event.id == id ensures d.Key() == scan[i].Key() {
      assert ReadFrom(scan, d);
      ReadFromOnce(scan, i, d);
    }
    hide AllRead;
    forall k, m | 0 <= k < m < |candidates| && candidates[k].event.id == id ensures candidates[m].event.id != id {
      assert candidates[k] in candidates && candidates[m] in candidates;
    }
    CountAtMostOne(candidates, id);
    OnceIsNotRepeated(scan, i);
  }

  lemma ReadFromOnce(scan: seq<Occurrence>, i: nat, d: Occurrence)
    requires i < |scan| && forall j :: 0 <= j < |scan| && scan[j].event.id == scan[i].event.id ==> j == i
    requires ReadFrom(scan, d) && d.event.id == scan[i].event.id
    ensures d.Key() == scan[i].Key()
  {
    var o :| o in scan && o.Key() == d.Key() && d.event == o.event.(index := d.event.index);
    var k :| 0 <= k < |scan| && scan[k] == o;
  }

  lemma OnceIsNotRepeated(scan: seq<Occurrence>, i: nat)
    requires i < |scan| && forall j :: 0 <= j < |scan| && scan[j].event.id == scan[i].event.id ==> j == i
    ensures !Repeated(scan, scan[i].Key())
  {
  }

  /** While the cap is not reached, the survivors are exactly the events whose id occurs once in the whole scan. */
  lemma SurvivorsOccurOnce(
      scan: seq<Occurrence>, candidates: seq<Occurrence>, invalid: set<(string, string)>, id: string)
    requires AllRead(scan, candidates) && MarksRepeats(scan, invalid) && Complete(scan, candidates)
    requires DistinctKeys(candidates)
    ensures (exists e :: e in Survivors(candidates, invalid, candidates) && e.id == id) <==> OccursOnce(scan, id)
  {
    hide AllRead, MarksRepeats, Complete, DistinctKeys, OccursOnce, Survives;
    if e :| e in Survivors(candidates, invalid, candidates) && e.id == id {
      SurvivorsMembership(candidates, invalid, candidates, e);
      var c :| c in candidates && c.event == e && Survives(candidates, invalid, c);
      SurvivorOccursOnce(scan, candidates, invalid, c);
    }
    if OccursOnce(scan, id) {
      var c := OnceSurvives(scan, candidates, invalid, id);
      SurvivorsMembership(candidates, invalid, candidates, c.event);
    }
  }

  lemma {:induction false} CountIsPositive(candidates: seq<Occurrence>, i: nat)
    requires i < |candidates|
    ensures CountId(candidates, candidates[i].event.id) >= 1
    decreases |candidates|
  {
    if i < |candidates| - 1 {
      CountIsPositive(candidates[..|candidates|-1], i);
    }
  }

  lemma {:induction false} CountTwo(candidates: seq<Occurrence>, i: nat, j: nat)
    requires i < j < |candidates| && candidates[i].event.id == candidates[j].event.id
    ensures CountId(candidates, candidates[i].event.id) >= 2
    decreases |candidates|
  {
    var front := candidates[..|candidates|-1];
    if j < |front| {
      CountTwo(front, i, j);
    } else {
      CountIsPositive(front, i);
    }
  }
}
