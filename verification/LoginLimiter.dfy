/** The dashboard's login limiter: per client, the times of recent failures, pruned to a sliding window, in a table of
    bounded size. */
module LoginLimiter {
  import opened Prelude

  const LIMIT: nat := 5
  const WINDOW := 60.0
  const MAX_CLIENTS: nat := 10_000

  type Table = map<string, seq<real>>

  // ----- One client's failures -----

  /** What is left of a client's failures at a moment: the longest tail whose first is inside the window. */
  function Pruned(failures: seq<real>, now: real): (left: seq<real>)
    ensures |left| <= |failures| && left == failures[|failures| - |left|..]
    ensures left != [] ==> left[0] > now - WINDOW
    ensures forall i :: 0 <= i < |failures| - |left| ==> failures[i] <= now - WINDOW
  {
    if failures != [] && failures[0] <= now - WINDOW then Pruned(failures[1..], now) else failures
  }

  /** The wait the caller is told: none below the limit, else the whole seconds until the first failure expires. */
  function WaitFor(left: seq<real>, now: real): int {
    if |left| < LIMIT then 0
    else if SecondsUntil(left[0], now) < 1 then 1
    else SecondsUntil(left[0], now)
  }

  /** `math.ceil` of what is left of the window of a failure. */
  function SecondsUntil(first: real, now: real): (seconds: int)
    ensures seconds as real >= WINDOW - (now - first) > seconds as real - 1.0
  {
    -(-(WINDOW - (now - first))).Floor
  }

  ghost predicate Sorted(failures: seq<real>) {
    forall i, j :: 0 <= i <= j < |failures| ==> failures[i] <= failures[j]
  }

  function FailuresOf(table: Table, client: string): seq<real> {
    if client in table then table[client] else []
  }

  /** The table after `authentication_retry_after`: the client pruned, or gone when nothing is left. */
  function Checked(table: Table, client: string, now: real): Table {
    if client !in table then table
    else
      var left := Pruned(table[client], now);
      if left == [] then table - {client} else table[client := left]
  }

  /** The client whose last failure is oldest. */
  ghost predicate IsOldest(table: Table, victim: string) {
    && victim in table && table[victim] != []
    && (forall other :: other in table && table[other] != [] ==>
          table[victim][|table[victim]| - 1] <= table[other][|table[other]| - 1])
  }

  /** Whether recording a failure of a client makes room first. */
  predicate Evicts(table: Table, client: string) {
    client !in table && |table| >= MAX_CLIENTS
  }

  /** The table after `record_authentication_failure`. */
  function Recorded(table: Table, client: string, now: real, victim: string): Table {
    var room := if Evicts(table, client) then table - {victim} else table;
    room[client := Pruned(FailuresOf(table, client), now) + [now]]
  }

  /** One login: when it was checked, when its answer was recorded, and the client evicted for it, if any. */
  datatype Attempt = Attempt(client: string, checkedAt: real, answeredAt: real, authorized: bool, victim: string)

  function Wait(table: Table, client: string, now: real): int {
    WaitFor(Pruned(FailuresOf(table, client), now), now)
  }

  /** The table after a login that nothing interleaves with. */
  function LoggedIn(table: Table, a: Attempt): Table {
    var checked := Checked(table, a.client, a.checkedAt);
    if Wait(table, a.client, a.checkedAt) != 0 then checked
    else if !a.authorized then Recorded(checked, a.client, a.answeredAt, a.victim)
    else checked - {a.client}
  }

  /** No client without failures, and no more clients than the table holds. */
  ghost predicate TableHolds(table: Table) {
    (forall c :: c in table ==> table[c] != []) && |table| <= MAX_CLIENTS
  }

  class Limiter {
    var table: Table

    constructor ()
      ensures table == map[]
    {
      table := map[];
    }

    /** `_prune_auth_failures`. */
    method Prune(failures: seq<real>, now: real) returns (left: seq<real>)
      ensures left == Pruned(failures, now)
    {
      left := failures;
      while |left| > 0 && left[0] <= now - WINDOW
        invariant Pruned(left, now) == Pruned(failures, now)
      {
        left := left[1..];
      }
    }

    /** `authentication_retry_after`. */
    method RetryAfter(client: string, now: real) returns (wait: int)
      modifies this
      ensures table == Checked(old(table), client, now)
      ensures wait == WaitFor(Pruned(FailuresOf(old(table), client), now), now)
    {
      hide SecondsUntil, Pruned;
      if client !in table {
        return 0;
      }
      var left := Prune(table[client], now);
      if left == [] {
        table := table - {client};
        return 0;
      }
      table := table[client := left];
      if |left| < LIMIT {
        return 0;
      }
      wait := SecondsUntil(left[0], now);
      if wait < 1 {
        wait := 1;
      }
    }

    /** The search for the oldest client: a table without empty entries and not itself empty has one. */
    method Oldest() returns (victim: string)
      requires TableHolds(table) && table != map[]
      ensures IsOldest(table, victim)
    {
      var todo := table.Keys;
      victim :| victim in todo;
      todo := todo - {victim};
      while todo != {}
        invariant todo <= table.Keys
        invariant victim in table && table[victim] != []
        invariant forall other :: other in table.Keys - todo ==>
          table[victim][|table[victim]| - 1] <= table[other][|table[other]| - 1]
        decreases |todo|
      {
        var other :| other in todo;
        if table[other][|table[other]| - 1] < table[victim][|table[victim]| - 1] {
          victim := other;
        }
        todo := todo - {other};
      }
    }

    /** `record_authentication_failure`. */
    method RecordFailure(client: string, now: real) returns (ghost victim: string)
      requires TableHolds(table)
      modifies this
      ensures table == Recorded(old(table), client, now, victim)
      ensures Evicts(old(table), client) ==> IsOldest(old(table), victim)
      ensures TableHolds(table)
    {
      victim := client;
      var failures := [];
      if client in table {
        failures := table[client];
      } else if |table| >= MAX_CLIENTS {
        var oldest := Oldest();
        victim := oldest;
        table := table - {oldest};
      }
      var left := Prune(failures, now);
      table := table[client := left + [now]];
      RecordedHolds(old(table), client, now, victim);
    }

    /** `clear_authentication_failures`. */
    method Clear(client: string)
      modifies this
      ensures table == old(table) - {client}
    {
      table := table - {client};
    }

    /** The login part of `do_GET`, undisturbed: refused unread while blocked, else recorded or cleared. */
    method Login(client: string, checkedAt: real, answeredAt: real, authorized: bool)
      returns (wait: int, ghost victim: string)
      requires TableHolds(table)
      modifies this
      ensures wait == Wait(old(table), client, checkedAt)
      ensures table == LoggedIn(old(table), Attempt(client, checkedAt, answeredAt, authorized, victim))
      ensures wait == 0 && !authorized && Evicts(Checked(old(table), client, checkedAt), client) ==>
                IsOldest(Checked(old(table), client, checkedAt), victim)
      ensures TableHolds(table)
    {
      victim := client;
      CheckedHolds(table, client, checkedAt);
      wait := RetryAfter(client, checkedAt);
      if wait != 0 {
        return;
      }
      if !authorized {
        victim := RecordFailure(client, answeredAt);
      } else {
        ClearedHolds(table, client);
        Clear(client);
      }
    }
  }

  // ----- What one login does -----

  /** The later part of some failures, without the first that lie a minute or more before one of two moments; the first that is
      left lies within a minute of the later moment. */
  ghost predicate IsRecentPart(left: seq<real>, failures: seq<real>, now: real, later: real) {
    && |left| <= |failures| && left == failures[|failures| - |left|..]
    && (left != [] ==> left[0] > later - 60.0)
    && (forall i :: 0 <= i < |failures| - |left| ==> failures[i] <= now - 60.0 || failures[i] <= later - 60.0)
  }

  lemma PrunedIsRecent(failures: seq<real>, now: real)
    ensures IsRecentPart(Pruned(failures, now), failures, now, now)
  {
  }

  lemma PrunedTwice(failures: seq<real>, now: real, later: real)
    ensures IsRecentPart(Pruned(Pruned(failures, now), later), failures, now, later)
  {
    hide Pruned;
    PrunedIsRecent(failures, now);
    PrunedIsRecent(Pruned(failures, now), later);
    PartOfPart(Pruned(Pruned(failures, now), later), Pruned(failures, now), failures, now, later);
  }

  lemma PartOfPart(twice: seq<real>, once: seq<real>, failures: seq<real>, now: real, later: real)
    requires IsRecentPart(once, failures, now, now) && IsRecentPart(twice, once, later, later)
    ensures IsRecentPart(twice, failures, now, later)
  {
    var k := |failures| - |once|;
    forall i | 0 <= i < |failures| - |twice| ensures failures[i] <= now - 60.0 || failures[i] <= later - 60.0 {
      if i >= k {
        assert failures[i] == once[i - k];
      }
    }
    assert failures[k..][|once| - |twice|..] == failures[|failures| - |twice|..];
  }

  /** While blocked nothing is recorded; a login that succeeds forgets the client; one that fails puts its moment behind what is
      left of the client's failures. */
  lemma LoginMeans(table: Table, a: Attempt)
    ensures var after, blocked := LoggedIn(table, a), Wait(table, a.client, a.checkedAt) != 0;
            && (blocked ==> IsRecentPart(FailuresOf(after, a.client), FailuresOf(table, a.client), a.checkedAt, a.checkedAt))
            && (!blocked && a.authorized ==> a.client !in after)
            && (!blocked && !a.authorized ==>
                  exists left :: IsRecentPart(left, FailuresOf(table, a.client), a.checkedAt, a.answeredAt)
                                 && FailuresOf(after, a.client) == left + [a.answeredAt])
  {
    hide Pruned, Wait, IsRecentPart, Checked, FailuresOf, Evicts;
    var failures := FailuresOf(table, a.client);
    PrunedIsRecent(failures, a.checkedAt);
    PrunedTwice(failures, a.checkedAt, a.answeredAt);
    var checked := Checked(table, a.client, a.checkedAt);
    CheckedFailures(table, a.client, a.checkedAt);
    RecordedFailures(checked, a.client, a.answeredAt, a.victim);
  }

  lemma RecordedFailures(table: Table, client: string, now: real, victim: string)
    ensures FailuresOf(Recorded(table, client, now, victim), client) == Pruned(FailuresOf(table, client), now) + [now]
  {
    hide Pruned;
  }

  /** No other client is touched by a login, but for the one that makes room for a failure in a full table. */
  lemma LoginLeavesOthers(table: Table, a: Attempt, other: string)
    requires other != a.client
    ensures other in LoggedIn(table, a) ==> other in table && LoggedIn(table, a)[other] == table[other]
    ensures other in table && other !in LoggedIn(table, a) ==>
              other == a.victim && |table| >= 10_000 && !a.authorized && Wait(table, a.client, a.checkedAt) == 0
  {
    hide Pruned, Wait;
    CheckedSize(table, a.client, a.checkedAt);
  }

  /** The table grows only while it has fewer than ten thousand clients, and then by the client of the login. */
  lemma LoginGrowsBelowTheBound(table: Table, a: Attempt)
    requires Evicts(Checked(table, a.client, a.checkedAt), a.client) ==> a.victim in Checked(table, a.client, a.checkedAt)
    ensures |LoggedIn(table, a)| <= |table| || (|table| < 10_000 && |LoggedIn(table, a)| == |table| + 1)
  {
    hide Pruned, Wait, Checked;
    var checked := Checked(table, a.client, a.checkedAt);
    CheckedSize(table, a.client, a.checkedAt);
    RemovingShrinks(checked, a.client);
    RemovingShrinks(checked, a.victim);
    var failures := Pruned(FailuresOf(checked, a.client), a.answeredAt) + [a.answeredAt];
    PuttingGrows(checked, a.client, failures);
    PuttingGrows(checked - {a.victim}, a.client, failures);
  }

  lemma NothingLeft(now: real)
    ensures Pruned([], now) == []
  {
  }

  lemma CheckedFailures(table: Table, client: string, now: real)
    ensures FailuresOf(Checked(table, client, now), client) == Pruned(FailuresOf(table, client), now)
  {
    NothingLeft(now);
    hide Pruned;
  }

  lemma CheckedSize(table: Table, client: string, now: real)
    ensures |Checked(table, client, now)| <= |table|
  {
    hide Pruned;
    RemovingShrinks(table, client);
    PuttingGrows(table, client, Pruned(FailuresOf(table, client), now));
  }

  // ----- The table keeps its bounds -----

  lemma RemovingShrinks(table: Table, client: string)
    ensures |table - {client}| == if client in table then |table| - 1 else |table|
  {
    assert (table - {client}).Keys == table.Keys - {client};
    assert |(table - {client}).Keys| == |table - {client}| && |table.Keys| == |table|;
    if client !in table {
      assert table.Keys - {client} == table.Keys;
    }
  }

  lemma PuttingGrows(table: Table, client: string, failures: seq<real>)
    ensures |table[client := failures]| == if client in table then |table| else |table| + 1
  {
    assert table[client := failures].Keys == table.Keys + {client};
    assert |table[client := failures].Keys| == |table[client := failures]| && |table.Keys| == |table|;
    if client in table {
      assert table.Keys + {client} == table.Keys;
    }
  }

  lemma CheckedHolds(table: Table, client: string, now: real)
    requires TableHolds(table)
    ensures TableHolds(Checked(table, client, now))
  {
    RemovingShrinks(table, client);
    PuttingGrows(table, client, Pruned(FailuresOf(table, client), now));
  }

  lemma RecordedHolds(table: Table, client: string, now: real, victim: string)
    requires TableHolds(table) && (Evicts(table, client) ==> IsOldest(table, victim))
    ensures TableHolds(Recorded(table, client, now, victim))
  {
    var room := if Evicts(table, client) then table - {victim} else table;
    RemovingShrinks(table, victim);
    PuttingGrows(room, client, Pruned(FailuresOf(table, client), now) + [now]);
  }

  lemma ClearedHolds(table: Table, client: string)
    requires TableHolds(table)
    ensures TableHolds(table - {client})
  {
    RemovingShrinks(table, client);
  }

  // ----- Runs of logins one after another -----

  /** `history` keeps the recorded failures of a client since its last success or eviction, expired ones included. */
  datatype State = State(table: Table, history: Table, clock: real)

  ghost predicate Possible(s: State, a: Attempt) {
    && s.clock <= a.checkedAt <= a.answeredAt
    && (Evicts(Checked(s.table, a.client, a.checkedAt), a.client) ==>
          IsOldest(Checked(s.table, a.client, a.checkedAt), a.victim))
  }

  function HistoryAfter(s: State, a: Attempt): Table {
    var checked := Checked(s.table, a.client, a.checkedAt);
    if Wait(s.table, a.client, a.checkedAt) != 0 then s.history
    else if !a.authorized then
      var kept := if Evicts(checked, a.client) then s.history - {a.victim} else s.history;
      kept[a.client := FailuresOf(kept, a.client) + [a.answeredAt]]
    else s.history - {a.client}
  }

  function Next(s: State, a: Attempt): State {
    State(LoggedIn(s.table, a), HistoryAfter(s, a), a.answeredAt)
  }

  /** Any six successive failures span at least the window. */
  ghost predicate Spaced(history: seq<real>) {
    forall i :: 0 <= i && i + LIMIT < |history| ==> history[i + LIMIT] - history[i] >= WINDOW
  }

  /** The tracked failures are the unexpired end of the history. */
  ghost predicate ClientHolds(tracked: seq<real>, history: seq<real>, clock: real) {
    && |tracked| <= LIMIT && |tracked| <= |history| && tracked == history[|history| - |tracked|..]
    && Sorted(history) && Spaced(history)
    && (forall i :: 0 <= i < |history| ==> history[i] <= clock)
    && (forall i :: 0 <= i < |history| - |tracked| ==> history[i] <= clock - WINDOW)
  }

  ghost predicate Inv(s: State) {
    && TableHolds(s.table)
    && forall c :: ClientHolds(FailuresOf(s.table, c), FailuresOf(s.history, c), s.clock)
  }

  lemma ClockMoves(tracked: seq<real>, history: seq<real>, clock: real, later: real)
    requires ClientHolds(tracked, history, clock) && clock <= later
    ensures ClientHolds(tracked, history, later)
  {
  }

  lemma PruneHolds(tracked: seq<real>, history: seq<real>, clock: real, now: real)
    requires ClientHolds(tracked, history, clock) && clock <= now
    ensures ClientHolds(Pruned(tracked, now), history, now)
  {
    hide Spaced, Sorted;
    var left := Pruned(tracked, now);
    var gap := |tracked| - |left|;
    assert left == tracked[gap..];
    forall i | 0 <= i < |history| - |left| ensures history[i] <= now - WINDOW {
      if i >= |history| - |tracked| {
        assert history[i] == tracked[i - (|history| - |tracked|)];
      }
    }
  }

  /** A failure recorded while fewer than five are tracked comes a window after the one five before it. */
  lemma RecordIsSpaced(left: seq<real>, history: seq<real>, now: real)
    requires ClientHolds(left, history, now) && |left| < LIMIT
    ensures Spaced(history + [now])
  {
    hide Sorted;
    var more := history + [now];
    forall i | 0 <= i && i + LIMIT < |more| ensures more[i + LIMIT] - more[i] >= WINDOW {
      if i + LIMIT == |history| {
        assert history[i] <= now - WINDOW;
      } else {
        assert history[i + LIMIT] - history[i] >= WINDOW;
      }
    }
  }

  lemma RecordIsSorted(left: seq<real>, history: seq<real>, now: real)
    requires ClientHolds(left, history, now)
    ensures Sorted(history + [now])
  {
    hide Spaced;
  }

  lemma RecordHolds(left: seq<real>, history: seq<real>, checkedAt: real, now: real)
    requires ClientHolds(left, history, checkedAt) && |left| < LIMIT && checkedAt <= now
    ensures ClientHolds(Pruned(left, now) + [now], history + [now], now)
  {
    PruneHolds(left, history, checkedAt, now);
    var rest := Pruned(left, now);
    hide Spaced, Sorted, Pruned;
    RecordIsSpaced(rest, history, now);
    RecordIsSorted(rest, history, now);
    OneMore(rest, history, now);
  }

  lemma OneMore(tracked: seq<real>, history: seq<real>, now: real)
    requires ClientHolds(tracked, history, now) && |tracked| < LIMIT
    requires Spaced(history + [now]) && Sorted(history + [now])
    ensures ClientHolds(tracked + [now], history + [now], now)
  {
    hide Spaced, Sorted;
    var more, gap := history + [now], |history| - |tracked|;
    assert |more| - |tracked + [now]| == gap;
    assert more[gap..] == history[gap..] + [now];
    assert forall i :: 0 <= i < |history| ==> more[i] == history[i];
  }

  lemma OthersAreKept(s: State, a: Attempt, c: string)
    requires c != a.client
    ensures var t := Next(s, a);
            || (FailuresOf(t.table, c) == FailuresOf(s.table, c) && FailuresOf(t.history, c) == FailuresOf(s.history, c))
            || (FailuresOf(t.table, c) == [] && FailuresOf(t.history, c) == [])
  {
    hide Pruned, WaitFor;
  }

  /** The attempting client, before the answer. */
  lemma CheckedClient(table: Table, client: string, now: real)
    ensures FailuresOf(Checked(table, client, now), client) == Pruned(FailuresOf(table, client), now)
  {
  }

  lemma OwnerHolds(s: State, a: Attempt)
    requires Inv(s) && Possible(s, a)
    ensures var t := Next(s, a); ClientHolds(FailuresOf(t.table, a.client), FailuresOf(t.history, a.client), t.clock)
  {
    hide Pruned, ClientHolds, IsOldest, TableHolds, SecondsUntil;
    var c, tracked, history := a.client, FailuresOf(s.table, a.client), FailuresOf(s.history, a.client);
    CheckedClient(s.table, c, a.checkedAt);
    var left := Pruned(tracked, a.checkedAt);
    PruneHolds(tracked, history, s.clock, a.checkedAt);
    if Wait(s.table, c, a.checkedAt) != 0 {
      ClockMoves(left, history, a.checkedAt, a.answeredAt);
    } else if !a.authorized {
      RecordHolds(left, history, a.checkedAt, a.answeredAt);
      EvictedIsAnother(s, a);
    } else {
      NothingHolds(a.answeredAt);
    }
  }

  lemma NothingHolds(now: real)
    ensures ClientHolds([], [], now)
  {
  }

  lemma EvictedIsAnother(s: State, a: Attempt)
    requires Possible(s, a)
    ensures Evicts(Checked(s.table, a.client, a.checkedAt), a.client) ==> a.victim != a.client
  {
    hide Checked;
  }

  lemma StepHolds(s: State, a: Attempt)
    requires Inv(s) && Possible(s, a)
    ensures Inv(Next(s, a))
  {
    hide Pruned, ClientHolds, LoggedIn, HistoryAfter;
    StepKeepsTable(s, a);
    forall c ensures ClientHolds(FailuresOf(Next(s, a).table, c), FailuresOf(Next(s, a).history, c), a.answeredAt) {
      if c == a.client {
        OwnerHolds(s, a);
      } else {
        OthersAreKept(s, a, c);
        ClockMoves(FailuresOf(s.table, c), FailuresOf(s.history, c), s.clock, a.answeredAt);
        NothingHolds(a.answeredAt);
      }
    }
  }

  lemma StepKeepsTable(s: State, a: Attempt)
    requires TableHolds(s.table) && Possible(s, a)
    ensures TableHolds(Next(s, a).table)
  {
    hide TableHolds, Pruned, IsOldest, WaitFor, Checked, Recorded;
    var checked := Checked(s.table, a.client, a.checkedAt);
    CheckedHolds(s.table, a.client, a.checkedAt);
    if Wait(s.table, a.client, a.checkedAt) == 0 {
      if !a.authorized {
        RecordedHolds(checked, a.client, a.answeredAt, a.victim);
      } else {
        ClearedHolds(checked, a.client);
      }
    }
  }

  ghost predicate IsRun(states: seq<State>, attempts: seq<Attempt>) {
    && |states| == |attempts| + 1
    && states[0].table == map[] && states[0].history == map[]
    && forall k :: 0 <= k < |attempts| ==>
         Possible(states[k], attempts[k]) && states[k + 1] == Next(states[k], attempts[k])
  }

  lemma {:induction false} RunHolds(states: seq<State>, attempts: seq<Attempt>, k: nat)
    requires IsRun(states, attempts) && k < |states|
    ensures Inv(states[k])
    decreases k
  {
    hide ClientHolds, Possible, Next, TableHolds;
    if k == 0 {
      EmptyHolds(states[0]);
    } else {
      RunHolds(states, attempts, k - 1);
      StepHolds(states[k - 1], attempts[k - 1]);
    }
  }

  lemma EmptyHolds(s: State)
    requires s.table == map[] && s.history == map[]
    ensures Inv(s)
  {
    NothingHolds(s.clock);
  }

  /** In every run, six successive recorded failures of a client, with no success and no eviction between them, span at
      least a minute; a client is tracked with one to five failures, and the table stays within its size. */
  lemma FailuresAreSpaced(states: seq<State>, attempts: seq<Attempt>, k: nat, client: string)
    requires IsRun(states, attempts) && k < |states|
    ensures Spaced(FailuresOf(states[k].history, client))
    ensures client in states[k].table ==> 1 <= |states[k].table[client]| <= LIMIT
    ensures |states[k].table| <= MAX_CLIENTS
  {
    RunHolds(states, attempts, k);
    hide IsRun, Spaced, Sorted;
    assert ClientHolds(FailuresOf(states[k].table, client), FailuresOf(states[k].history, client), states[k].clock);
  }

  // ----- Waiting -----

  lemma {:induction false} PruneAgain(failures: seq<real>, earlier: real, later: real)
    requires earlier <= later
    ensures Pruned(Pruned(failures, earlier), later) == Pruned(failures, later)
  {
    if failures != [] && failures[0] <= earlier - WINDOW {
      PruneAgain(failures[1..], earlier, later);
    }
  }

  /** A client is blocked exactly while some failure with four or more after it is inside the window: for every deque, in
      order or not. */
  lemma {:induction false} BlockedExactlyWhile(failures: seq<real>, now: real)
    ensures WaitFor(Pruned(failures, now), now) != 0
            <==> exists i :: 0 <= i <= |failures| - LIMIT && failures[i] > now - WINDOW
  {
    hide SecondsUntil;
    var left := Pruned(failures, now);
    var gap := |failures| - |left|;
    assert left == failures[gap..];
    if |left| >= LIMIT {
      assert failures[gap] == left[0];
    }
  }

  /** The wait told a blocked client is at least a second, and at most sixty exactly when its first failure is not later than
      the moment of the check. */
  lemma WaitIsBounded(failures: seq<real>, now: real)
    requires WaitFor(Pruned(failures, now), now) != 0
    ensures 1 <= WaitFor(Pruned(failures, now), now)
    ensures WaitFor(Pruned(failures, now), now) <= 60 <==> Pruned(failures, now)[0] <= now
  {
    var left := Pruned(failures, now);
    hide Pruned, SecondsUntil;
    assert SecondsUntil(left[0], now) as real >= WINDOW - (now - left[0]);
  }

  /** With at most five failures the wait is enough, in whatever order they were recorded. */
  lemma WaitIsEnough(failures: seq<real>, now: real, later: real)
    requires |failures| <= LIMIT
    requires var wait := WaitFor(Pruned(failures, now), now); wait != 0 && later >= now + wait as real
    ensures WaitFor(Pruned(failures, later), later) == 0
  {
    BlockedExactlyWhile(failures, now);
    BlockedExactlyWhile(failures, later);
    hide Pruned, SecondsUntil;
    assert Pruned(failures, now)[0] == failures[0];
  }

  /** Nor is it longer than it has to be. Of the whole numbers of seconds from one up, the wait is the least after which the first
      failure left has expired; and with at most five failures it is the least that unblocks. */
  lemma WaitIsLeast(failures: seq<real>, now: real, seconds: int)
    requires WaitFor(Pruned(failures, now), now) != 0 && seconds >= 1
    ensures Pruned(failures, now) != []
    ensures Pruned(failures, now)[0] <= now + seconds as real - WINDOW <==> seconds >= WaitFor(Pruned(failures, now), now)
    ensures |failures| <= LIMIT ==>
              (WaitFor(Pruned(failures, now + seconds as real), now + seconds as real) == 0
               <==> seconds >= WaitFor(Pruned(failures, now), now))
  {
    hide Pruned, WaitFor;
    LeftWhenBlocked(failures, now);
    LeastForFirst(Pruned(failures, now), now, seconds);
    if |failures| <= LIMIT {
      BlockedAtLimit(failures, now + seconds as real);
      BlockedAtLimit(failures, now);
    }
  }

  lemma LeftWhenBlocked(failures: seq<real>, now: real)
    requires WaitFor(Pruned(failures, now), now) != 0
    ensures |Pruned(failures, now)| >= LIMIT
    ensures |failures| <= LIMIT ==> Pruned(failures, now) == failures
  {
  }

  lemma LeastForFirst(left: seq<real>, now: real, seconds: int)
    requires |left| >= LIMIT && seconds >= 1
    ensures left[0] <= now + seconds as real - WINDOW <==> seconds >= WaitFor(left, now)
  {
    hide SecondsUntil;
    assert SecondsUntil(left[0], now) as real >= WINDOW - (now - left[0]) > SecondsUntil(left[0], now) as real - 1.0;
  }

  /** Of at most five failures all are needed to block. */
  lemma BlockedAtLimit(failures: seq<real>, now: real)
    requires |failures| <= LIMIT
    ensures WaitFor(Pruned(failures, now), now) != 0 <==> |failures| == LIMIT && failures[0] > now - WINDOW
  {
    hide Pruned, SecondsUntil, WaitFor;
    BlockedExactlyWhile(failures, now);
    if |failures| == LIMIT && failures[0] > now - WINDOW {
      assert 0 <= |failures| - LIMIT;
    }
  }

  /** With any number, waiting as told unblocks exactly when every failure with four or more after it has expired by then. */
  lemma WaitIsEnoughExactlyWhen(failures: seq<real>, now: real)
    requires WaitFor(Pruned(failures, now), now) != 0
    ensures var later := now + WaitFor(Pruned(failures, now), now) as real;
            WaitFor(Pruned(failures, later), later) == 0
            <==> forall i :: 0 <= i <= |failures| - LIMIT ==> failures[i] <= later - WINDOW
  {
    var later := now + WaitFor(Pruned(failures, now), now) as real;
    hide Pruned, WaitFor;
    BlockedExactlyWhile(failures, later);
  }

  /** With six, as interleaved logins can leave, it is not: the wait is that of the first, and five are left after it. */
  lemma WaitIsShortWithSix()
    ensures forall i :: 0 <= i < |SIX| ==> SIX[i] <= 20.0
    ensures WaitFor(Pruned(SIX, 20.0), 20.0) == 40
    ensures WaitFor(Pruned(SIX, 20.0 + 40.0), 20.0 + 40.0) != 0
  {
    hide Pruned, SecondsUntil;
    NoneExpired(SIX, 20.0);
    FortySeconds();
    BlockedExactlyWhile(SIX, 60.0);
    assert SIX[1] > 60.0 - WINDOW;
  }

  lemma NoneExpired(failures: seq<real>, now: real)
    requires failures != [] && failures[0] > now - WINDOW
    ensures Pruned(failures, now) == failures
  {
  }

  lemma FortySeconds()
    ensures SecondsUntil(0.0, 20.0) == 40
  {
  }

  const SIX := [0.0, 10.0, 10.0, 10.0, 10.0, 10.0]

  /** What a blocked client's failures become while it does nothing but retry too early. */
  lemma {:induction false} OnlyPruned(states: seq<State>, attempts: seq<Attempt>, i: nat, j: nat, later: real)
    requires IsRun(states, attempts) && i < j < |states| && later >= states[j].clock
    requires forall k :: i <= k < j && attempts[k].client == attempts[i].client ==>
               Wait(states[k].table, attempts[k].client, attempts[k].checkedAt) != 0
    ensures var c := attempts[i].client; var now := FailuresOf(states[j].table, c);
            now == [] || Pruned(now, later) == Pruned(FailuresOf(states[i].table, c), later)
    decreases j
  {
    hide Pruned, ClientHolds, WaitFor, LoggedIn, Next, Possible;
    var c, s, a := attempts[i].client, states[j - 1], attempts[j - 1];
    assert s.clock <= a.checkedAt <= a.answeredAt == states[j].clock by { StepClock(s, a); }
    if i < j - 1 {
      OnlyPruned(states, attempts, i, j - 1, later);
    }
    StepOnlyPrunes(s, a, c, later);
  }

  lemma StepClock(s: State, a: Attempt)
    requires Possible(s, a)
    ensures s.clock <= a.checkedAt <= a.answeredAt == Next(s, a).clock
  {
  }

  lemma StepOnlyPrunes(s: State, a: Attempt, c: string, later: real)
    requires Possible(s, a) && later >= a.answeredAt
    requires a.client == c ==> Wait(s.table, c, a.checkedAt) != 0
    ensures var now := FailuresOf(Next(s, a).table, c);
            now == [] || (Pruned(now, later) == Pruned(FailuresOf(s.table, c), later) && FailuresOf(s.table, c) != [])
  {
    hide Pruned, WaitFor, IsOldest;
    assert Pruned([], a.checkedAt) == [];
    if a.client == c {
      CheckedClient(s.table, c, a.checkedAt);
      PruneAgain(FailuresOf(s.table, c), a.checkedAt, later);
    } else {
      OthersAreKept(s, a, c);
    }
  }

  /** A client that is told to wait, tries again too early as often as it likes, and then waits out the seconds it was first
      told, is not blocked: in every run of logins one after another. */
  lemma WaitingUnblocks(states: seq<State>, attempts: seq<Attempt>, i: nat, j: nat)
    requires IsRun(states, attempts) && i < j < |attempts| && attempts[j].client == attempts[i].client
    requires forall k :: i <= k < j && attempts[k].client == attempts[i].client ==>
               Wait(states[k].table, attempts[k].client, attempts[k].checkedAt) != 0
    requires attempts[j].checkedAt
             >= attempts[i].checkedAt + Wait(states[i].table, attempts[i].client, attempts[i].checkedAt) as real
    ensures 1 <= Wait(states[i].table, attempts[i].client, attempts[i].checkedAt) <= 60
    ensures Wait(states[j].table, attempts[j].client, attempts[j].checkedAt) == 0
  {
    hide Pruned, WaitFor, Possible, Next, FailuresOf;
    var c, later := attempts[i].client, attempts[j].checkedAt;
    var tracked := FailuresOf(states[i].table, c);
    TrackedAt(states, attempts, i);
    ClockAt(states, attempts, j);
    WaitIsEnough(tracked, attempts[i].checkedAt, later);
    SequentialWait(tracked, attempts[i].checkedAt);
    OnlyPruned(states, attempts, i, j, later);
    NoFailuresNoWait(later);
  }

  /** What a sequential run tracks of a client that attempts a login: at most five failures, none later than the check. */
  lemma TrackedAt(states: seq<State>, attempts: seq<Attempt>, i: nat)
    requires IsRun(states, attempts) && i < |attempts|
    ensures var tracked := FailuresOf(states[i].table, attempts[i].client);
            |tracked| <= LIMIT && forall k :: 0 <= k < |tracked| ==> tracked[k] <= attempts[i].checkedAt
  {
    hide Next, Spaced, Sorted, TableHolds, FailuresOf;
    var c := attempts[i].client;
    RunHolds(states, attempts, i);
    assert ClientHolds(FailuresOf(states[i].table, c), FailuresOf(states[i].history, c), states[i].clock);
    TrackedIsSorted(FailuresOf(states[i].table, c), FailuresOf(states[i].history, c), states[i].clock);
    ClockAt(states, attempts, i);
  }

  lemma ClockAt(states: seq<State>, attempts: seq<Attempt>, j: nat)
    requires IsRun(states, attempts) && j < |attempts|
    ensures states[j].clock <= attempts[j].checkedAt
  {
    hide Next;
    assert Possible(states[j], attempts[j]);
  }

  lemma SequentialWait(tracked: seq<real>, now: real)
    requires WaitFor(Pruned(tracked, now), now) != 0 && forall i :: 0 <= i < |tracked| ==> tracked[i] <= now
    ensures 1 <= WaitFor(Pruned(tracked, now), now) <= 60
  {
    hide SecondsUntil;
    var left := Pruned(tracked, now);
    assert left[0] == tracked[|tracked| - |left|];
    WaitIsBounded(tracked, now);
  }

  lemma NoFailuresNoWait(now: real)
    ensures WaitFor(Pruned([], now), now) == 0
  {
  }

  lemma TrackedIsSorted(tracked: seq<real>, history: seq<real>, clock: real)
    requires ClientHolds(tracked, history, clock)
    ensures Sorted(tracked) && forall i :: 0 <= i < |tracked| ==> tracked[i] <= clock
  {
    var gap := |history| - |tracked|;
    assert forall i :: 0 <= i < |tracked| ==> tracked[i] == history[gap + i];
  }

  // ----- Logins handled by several threads -----

  /** `pending` are the handlers that were let through and have not answered yet, with their client. Each of the three
      operations runs under the lock; the moments they work with were read before it, so they may be out of order. */
  datatype Shared = Shared(table: Table, pending: map<nat, string>)

  datatype Event =
    | Check(handler: nat, client: string, now: real)
    | Fail(handler: nat, now: real, victim: string)
    | Succeed(handler: nat)
    | Abort(handler: nat)

  /** `threads` is the number of requests the server handles at a time. */
  ghost predicate Enabled(threads: nat, s: Shared, e: Event) {
    match e
    case Check(handler, _, _) => handler !in s.pending && |s.pending| < threads
    case Fail(handler, _, victim) =>
      handler in s.pending && (Evicts(s.table, s.pending[handler]) ==> IsOldest(s.table, victim))
    case Succeed(handler) => handler in s.pending
    case Abort(handler) => handler in s.pending
  }

  ghost function After(threads: nat, s: Shared, e: Event): Shared
    requires Enabled(threads, s, e)
  {
    match e
    case Check(handler, client, now) =>
      Shared(Checked(s.table, client, now),
             if Wait(s.table, client, now) == 0 then s.pending[handler := client] else s.pending)
    case Fail(handler, now, victim) =>
      Shared(Recorded(s.table, s.pending[handler], now, victim), s.pending - {handler})
    case Succeed(handler) => Shared(s.table - {s.pending[handler]}, s.pending - {handler})
    case Abort(handler) => Shared(s.table, s.pending - {handler})
  }

  /** The handlers about to answer for a client. */
  function PendingOf(pending: map<nat, string>, client: string): set<nat> {
    set h | h in pending && pending[h] == client
  }

  ghost predicate Bounded(threads: nat, s: Shared) {
    && |s.pending| <= threads
    && forall c :: |FailuresOf(s.table, c)| + |PendingOf(s.pending, c)| <= LIMIT - 1 + threads
  }

  lemma PendingAtMost(pending: map<nat, string>, client: string)
    ensures |PendingOf(pending, client)| <= |pending|
  {
    SubsetIsSmaller(PendingOf(pending, client), pending.Keys);
  }

  lemma {:induction false} SubsetIsSmaller(a: set<nat>, b: set<nat>)
    requires a <= b
    ensures |a| <= |b|
  {
    if a != {} {
      var x :| x in a;
      SubsetIsSmaller(a - {x}, b - {x});
    }
  }

  lemma LeavingShrinks(pending: map<nat, string>, handler: nat, c: string)
    requires handler in pending
    ensures |pending - {handler}| == |pending| - 1
    ensures |PendingOf(pending - {handler}, c)|
            == if pending[handler] == c then |PendingOf(pending, c)| - 1 else |PendingOf(pending, c)|
  {
    assert (pending - {handler}).Keys == pending.Keys - {handler};
    assert |(pending - {handler}).Keys| == |pending - {handler}| && |pending.Keys| == |pending|;
    assert PendingOf(pending - {handler}, c) == PendingOf(pending, c) - {handler};
    if pending[handler] != c {
      assert PendingOf(pending, c) - {handler} == PendingOf(pending, c);
    }
  }

  lemma EnteringGrows(pending: map<nat, string>, handler: nat, client: string, c: string)
    requires handler !in pending
    ensures |pending[handler := client]| == |pending| + 1
    ensures c != client ==> PendingOf(pending[handler := client], c) == PendingOf(pending, c)
  {
    assert pending[handler := client].Keys == pending.Keys + {handler};
    assert |pending[handler := client].Keys| == |pending[handler := client]| && |pending.Keys| == |pending|;
  }

  /** A check shortens no other client's failures, and lets through only below the limit. */
  lemma CheckIsBounded(threads: nat, s: Shared, e: Event, c: string)
    requires Bounded(threads, s) && Enabled(threads, s, e) && e.Check?
    ensures var t := After(threads, s, e);
            |t.pending| <= threads && |FailuresOf(t.table, c)| + |PendingOf(t.pending, c)| <= LIMIT - 1 + threads
  {
    hide Pruned, IsOldest, SecondsUntil;
    var t := After(threads, s, e);
    EnteringGrows(s.pending, e.handler, e.client, c);
    PendingAtMost(t.pending, c);
    CheckedClient(s.table, e.client, e.now);
    assert |FailuresOf(s.table, c)| + |PendingOf(s.pending, c)| <= LIMIT - 1 + threads;
    if c != e.client {
      assert FailuresOf(t.table, c) == FailuresOf(s.table, c);
    }
  }

  lemma AnswerIsBounded(threads: nat, s: Shared, e: Event, c: string)
    requires Bounded(threads, s) && Enabled(threads, s, e) && !e.Check?
    ensures var t := After(threads, s, e);
            |t.pending| <= threads && |FailuresOf(t.table, c)| + |PendingOf(t.pending, c)| <= LIMIT - 1 + threads
  {
    hide Pruned, IsOldest;
    var client := s.pending[e.handler];
    LeavingShrinks(s.pending, e.handler, c);
    assert |FailuresOf(s.table, c)| + |PendingOf(s.pending, c)| <= LIMIT - 1 + threads;
  }

  lemma ThreadStep(threads: nat, s: Shared, e: Event)
    requires Bounded(threads, s) && TableHolds(s.table) && Enabled(threads, s, e)
    ensures Bounded(threads, After(threads, s, e)) && TableHolds(After(threads, s, e).table)
  {
    hide After, PendingOf, FailuresOf, TableHolds, Enabled;
    var t := After(threads, s, e);
    forall c ensures |FailuresOf(t.table, c)| + |PendingOf(t.pending, c)| <= LIMIT - 1 + threads {
      ClientIsBounded(threads, s, e, c);
    }
    ClientIsBounded(threads, s, e, "");
    ThreadKeepsTable(threads, s, e);
  }

  lemma ClientIsBounded(threads: nat, s: Shared, e: Event, c: string)
    requires Bounded(threads, s) && Enabled(threads, s, e)
    ensures var t := After(threads, s, e);
            |t.pending| <= threads && |FailuresOf(t.table, c)| + |PendingOf(t.pending, c)| <= LIMIT - 1 + threads
  {
    hide After, PendingOf, FailuresOf, Bounded, Enabled;
    if e.Check? {
      CheckIsBounded(threads, s, e, c);
    } else {
      AnswerIsBounded(threads, s, e, c);
    }
  }

  lemma ThreadKeepsTable(threads: nat, s: Shared, e: Event)
    requires TableHolds(s.table) && Enabled(threads, s, e)
    ensures TableHolds(After(threads, s, e).table)
  {
    hide TableHolds, Pruned, IsOldest, Checked, Recorded, WaitFor;
    match e
    case Check(_, client, now) => CheckedHolds(s.table, client, now);
    case Fail(handler, now, victim) => RecordedHolds(s.table, s.pending[handler], now, victim);
    case Succeed(handler) => ClearedHolds(s.table, s.pending[handler]);
    case Abort(_) =>
  }

  ghost predicate IsThreadedRun(threads: nat, states: seq<Shared>, events: seq<Event>) {
    && |states| == |events| + 1
    && states[0] == Shared(map[], map[])
    && forall k :: 0 <= k < |events| ==>
         Enabled(threads, states[k], events[k]) && states[k + 1] == After(threads, states[k], events[k])
  }

  /** With `threads` requests handled at a time, in every interleaving a client is tracked with between one failure and
      four more than there are threads. */
  lemma {:induction false} ThreadedRunHolds(threads: nat, states: seq<Shared>, events: seq<Event>, k: nat)
    requires IsThreadedRun(threads, states, events) && k < |states|
    ensures Bounded(threads, states[k]) && TableHolds(states[k].table)
    ensures forall c :: c in states[k].table ==> 1 <= |states[k].table[c]| <= LIMIT - 1 + threads
    ensures |states[k].table| <= MAX_CLIENTS
    decreases k
  {
    hide After, Enabled;
    if k > 0 {
      ThreadedRunHolds(threads, states, events, k - 1);
      ThreadStep(threads, states[k - 1], events[k - 1]);
    }
    forall c | c in states[k].table ensures 1 <= |states[k].table[c]| <= LIMIT - 1 + threads {
      assert |FailuresOf(states[k].table, c)| + |PendingOf(states[k].pending, c)| <= LIMIT - 1 + threads;
    }
  }

  // ----- The bound is reached -----

  function Zeros(n: nat): (zeros: seq<real>)
    ensures |zeros| == n && forall i :: 0 <= i < n ==> zeros[i] == 0.0
  {
    seq(n, i => 0.0)
  }

  /** Handlers from `low` up to `high`, all for one client. */
  function Range(low: nat, high: nat, client: string): map<nat, string> {
    map h: nat | low <= h < high && IsBetween(low, h, high) :: client
  }

  predicate IsBetween(low: nat, h: nat, high: nat) {
    low <= h < high
  }

  lemma {:induction false} RangeSize(low: nat, high: nat, client: string)
    requires low <= high
    ensures |Range(low, high, client)| == high - low
    decreases high
  {
    if low < high {
      RangeSize(low, high - 1, client);
      EnteringGrows(Range(low, high - 1, client), high - 1, client, client);
      assert Range(low, high, client) == Range(low, high - 1, client)[high - 1 := client];
    }
  }

  lemma ExtendRun(threads: nat, states: seq<Shared>, events: seq<Event>, e: Event)
    requires IsThreadedRun(threads, states, events) && Enabled(threads, states[|events|], e)
    ensures IsThreadedRun(threads, states + [After(threads, states[|events|], e)], events + [e])
  {
    hide After, Enabled;
  }

  function ZeroTable(client: string, tracked: nat): Table {
    TableOf(client, Zeros(tracked))
  }

  function TableOf(client: string, failures: seq<real>): Table {
    if failures == [] then map[] else map[client := failures]
  }

  /** While nothing has expired and fewer than five failures are tracked, a handler is let through. */
  lemma CheckPasses(threads: nat, client: string, failures: seq<real>, pending: map<nat, string>, h: nat, now: real)
    requires |failures| < LIMIT && (failures != [] ==> failures[0] > now - WINDOW)
    requires h !in pending && |pending| < threads
    ensures var s, e := Shared(TableOf(client, failures), pending), Check(h, client, now);
            Enabled(threads, s, e) && After(threads, s, e) == s.(pending := pending[h := client])
  {
    hide IsOldest, SecondsUntil;
    if failures != [] {
      NoneExpired(failures, now);
      assert map[client := failures][client := failures] == map[client := failures];
    }
  }

  /** And its failure is added. */
  lemma FailAdds(threads: nat, client: string, failures: seq<real>, pending: map<nat, string>, h: nat, now: real)
    requires failures != [] ==> failures[0] > now - WINDOW
    requires h in pending && pending[h] == client
    ensures var s, e := Shared(TableOf(client, failures), pending), Fail(h, now, "");
            Enabled(threads, s, e)
            && After(threads, s, e) == Shared(TableOf(client, failures + [now]), pending - {h})
  {
    hide IsOldest, SecondsUntil;
    if failures != [] {
      NoneExpired(failures, now);
      assert map[client := failures][client := failures + [now]] == map[client := failures + [now]];
    } else {
      assert [] + [now] == [now];
    }
  }

  /** A handler is let through at the moment 0 while fewer than five failures are tracked. */
  lemma CheckAtZero(threads: nat, client: string, tracked: nat, low: nat, high: nat)
    requires low <= high && tracked < LIMIT && high - low < threads
    ensures var s, e := Shared(ZeroTable(client, tracked), Range(low, high, client)), Check(high, client, 0.0);
            Enabled(threads, s, e) && After(threads, s, e) == s.(pending := Range(low, high + 1, client))
  {
    hide Enabled, After;
    RangeSize(low, high, client);
    CheckPasses(threads, client, Zeros(tracked), Range(low, high, client), high, 0.0);
    assert Range(low, high, client)[high := client] == Range(low, high + 1, client);
  }

  /** And the handler first let through adds one. */
  lemma FailAtZero(threads: nat, client: string, tracked: nat, low: nat, high: nat)
    requires low < high
    ensures var s, e := Shared(ZeroTable(client, tracked), Range(low, high, client)), Fail(low, 0.0, "");
            && Enabled(threads, s, e)
            && After(threads, s, e) == Shared(ZeroTable(client, tracked + 1), Range(low + 1, high, client))
  {
    hide Enabled, After;
    FailAdds(threads, client, Zeros(tracked), Range(low, high, client), low, 0.0);
    assert Zeros(tracked) + [0.0] == Zeros(tracked + 1);
    assert Range(low, high, client) - {low} == Range(low + 1, high, client);
  }

  /** A run that tracks `n` failures of one client, `n` up to four, made by one handler after another. */
  lemma {:induction false} TrackUpToFour(threads: nat, client: string, n: nat)
    returns (states: seq<Shared>, events: seq<Event>)
    requires threads > 0 && n < LIMIT
    ensures IsThreadedRun(threads, states, events)
    ensures states[|events|] == Shared(ZeroTable(client, n), Range(0, 0, client))
  {
    hide After, Enabled, Zeros;
    if n == 0 {
      states, events := [Shared(map[], map[])], [];
      assert Range(0, 0, client) == map[];
    } else {
      states, events := TrackUpToFour(threads, client, n - 1);
      CheckAtZero(threads, client, n - 1, 0, 0);
      FailAtZero(threads, client, n - 1, 0, 1);
      ExtendRun(threads, states, events, Check(0, client, 0.0));
      states, events := states + [After(threads, states[|events|], Check(0, client, 0.0))], events + [Check(0, client, 0.0)];
      ExtendRun(threads, states, events, Fail(0, 0.0, ""));
      states, events := states + [After(threads, states[|events|], Fail(0, 0.0, ""))], events + [Fail(0, 0.0, "")];
      assert Range(1, 1, client) == Range(0, 0, client);
    }
  }

  /** Then `m` handlers are let through before any of them answers. */
  lemma {:induction false} LetThrough(threads: nat, client: string, m: nat)
    returns (states: seq<Shared>, events: seq<Event>)
    requires threads > 0 && m <= threads
    ensures IsThreadedRun(threads, states, events)
    ensures states[|events|] == Shared(ZeroTable(client, LIMIT - 1), Range(0, m, client))
  {
    hide After, Enabled, Zeros;
    if m == 0 {
      states, events := TrackUpToFour(threads, client, LIMIT - 1);
    } else {
      states, events := LetThrough(threads, client, m - 1);
      CheckAtZero(threads, client, LIMIT - 1, 0, m - 1);
      var e := Check(m - 1, client, 0.0);
      ExtendRun(threads, states, events, e);
      states, events := states + [After(threads, states[|events|], e)], events + [e];
    }
  }

  /** And all of them fail: the bound on a client's failures is the least one, whatever the number of threads. */
  lemma {:induction false} BoundIsReached(threads: nat, client: string, m: nat)
    returns (states: seq<Shared>, events: seq<Event>)
    requires threads > 0 && m <= threads
    ensures IsThreadedRun(threads, states, events)
    ensures states[|events|] == Shared(ZeroTable(client, LIMIT - 1 + m), Range(m, threads, client))
    ensures m == threads ==> |FailuresOf(states[|events|].table, client)| == LIMIT - 1 + threads
  {
    hide After, Enabled;
    if m == 0 {
      states, events := LetThrough(threads, client, threads);
    } else {
      states, events := BoundIsReached(threads, client, m - 1);
      FailAtZero(threads, client, LIMIT - 1 + (m - 1), m - 1, threads);
      var e := Fail(m - 1, 0.0, "");
      ExtendRun(threads, states, events, e);
      states, events := states + [After(threads, states[|events|], e)], events + [e];
    }
  }

  // ----- Six failures, and a wait that is too short -----

  /** One handler after another: each is let through and fails at the same moment. */
  lemma {:induction false} FailInTurn(
    threads: nat, client: string, states: seq<Shared>, events: seq<Event>, failures: seq<real>, now: real, n: nat)
    returns (more: seq<Shared>, later: seq<Event>)
    requires threads > 0 && IsThreadedRun(threads, states, events) && |failures| + n <= LIMIT
    requires states[|events|] == Shared(TableOf(client, failures), map[])
    requires failures != [] ==> failures[0] > now - WINDOW
    ensures IsThreadedRun(threads, more, later)
    ensures more[|later|] == Shared(TableOf(client, failures + Repeat(now, n)), map[])
    decreases n
  {
    hide After, Enabled, TableOf;
    if n == 0 {
      more, later := states, events;
      assert failures + [] == failures;
    } else {
      more, later := FailInTurn(threads, client, states, events, failures, now, n - 1);
      var tracked := failures + Repeat(now, n - 1);
      CheckPasses(threads, client, tracked, map[], 0, now);
      ExtendRun(threads, more, later, Check(0, client, now));
      more, later := more + [After(threads, more[|later|], Check(0, client, now))], later + [Check(0, client, now)];
      FailAdds(threads, client, tracked, map[0 := client], 0, now);
      ExtendRun(threads, more, later, Fail(0, now, ""));
      more, later := more + [After(threads, more[|later|], Fail(0, now, ""))], later + [Fail(0, now, "")];
      assert map[0 := client] - {0} == map[];
      assert tracked + [now] == failures + Repeat(now, n);
    }
  }

  function Repeat(now: real, n: nat): (times: seq<real>)
    ensures |times| == n && forall i :: 0 <= i < n ==> times[i] == now
  {
    seq(n, i => now)
  }

  /** Two handlers reach the six failures: one failure at 0, three at 10, and then two handlers are let through before both
      fail at 10. */
  lemma SixIsReached(client: string) returns (states: seq<Shared>, events: seq<Event>)
    ensures IsThreadedRun(2, states, events)
    ensures states[|events|] == Shared(map[client := SIX], map[])
  {
    hide After, Enabled;
    states, events := FailInTurn(2, client, [Shared(map[], map[])], [], [], 0.0, 1);
    assert [] + Repeat(0.0, 1) == [0.0];
    states, events := FailInTurn(2, client, states, events, [0.0], 10.0, 3);
    var four := [0.0, 10.0, 10.0, 10.0];
    assert [0.0] + Repeat(10.0, 3) == four;
    CheckPasses(2, client, four, map[], 0, 10.0);
    states, events := Extended(2, states, events, Check(0, client, 10.0));
    CheckPasses(2, client, four, map[0 := client], 1, 10.0);
    states, events := Extended(2, states, events, Check(1, client, 10.0));
    var both := map[0 := client][1 := client];
    FailAdds(2, client, four, both, 0, 10.0);
    states, events := Extended(2, states, events, Fail(0, 10.0, ""));
    FailAdds(2, client, four + [10.0], both - {0}, 1, 10.0);
    states, events := Extended(2, states, events, Fail(1, 10.0, ""));
    assert both - {0} - {1} == map[];
    assert four + [10.0] + [10.0] == SIX;
  }

  lemma Extended(threads: nat, states: seq<Shared>, events: seq<Event>, e: Event)
    returns (more: seq<Shared>, later: seq<Event>)
    requires IsThreadedRun(threads, states, events) && Enabled(threads, states[|events|], e)
    ensures IsThreadedRun(threads, more, later)
    ensures more[|later|] == After(threads, states[|events|], e)
  {
    hide After, Enabled;
    ExtendRun(threads, states, events, e);
    more, later := states + [After(threads, states[|events|], e)], events + [e];
  }
}
