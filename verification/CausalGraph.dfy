/** Causation among replay events: each event names at most one cause, so a graph is a map from id to cause. */
module CausalGraph {
  import opened Prelude

  /** Every event id with its causation id, if it has one. The cause need not be in the graph. */
  type Graph = map<string, Option<string>>

  /** The `n`-th ancestor, as far as the chain of causes stays inside the graph. */
  function Ancestor(g: Graph, x: string, n: nat): Option<string>
    decreases n
  {
    if x !in g then None
    else if n == 0 then Some(x)
    else if g[x].None? then None
    else Ancestor(g, g[x].value, n - 1)
  }

  predicate HasParent(g: Graph, x: string) {
    x in g && g[x].Some? && g[x].value in g
  }

  ghost predicate OnCycle(g: Graph, x: string) {
    exists n: nat :: n > 0 && Ancestor(g, x, n) == Some(x)
  }

  /** The `n`-th ancestor exists and has no cause. */
  ghost predicate RootAt(g: Graph, x: string, n: nat) {
    Ancestor(g, x, n).Some? && Ancestor(g, x, n).value in g && g[Ancestor(g, x, n).value].None?
  }

  /** The chain of causes ends, inside the graph, at an event without a cause. */
  ghost predicate ReachesRoot(g: Graph, x: string) {
    exists n: nat :: RootAt(g, x, n)
  }

  /** Whoever is in `s` has its parent there too. */
  ghost predicate ClosedUpward(g: Graph, s: set<string>) {
    forall x :: x in s && HasParent(g, x) ==> g[x].value in s
  }

  lemma {:induction false} AncestorInGraph(g: Graph, x: string, n: nat)
    requires Ancestor(g, x, n).Some?
    ensures x in g && Ancestor(g, x, n).value in g
    decreases n
  {
    if n > 0 {
      AncestorInGraph(g, g[x].value, n - 1);
    }
  }

  /** Walking `m` steps and then `n` is walking `m + n`. */
  lemma {:induction false} AncestorSum(g: Graph, x: string, m: nat, n: nat)
    requires Ancestor(g, x, m).Some?
    ensures Ancestor(g, x, m + n) == Ancestor(g, Ancestor(g, x, m).value, n)
    decreases m
  {
    if m > 0 {
      AncestorSum(g, g[x].value, m - 1, n);
    }
  }

  lemma {:induction false} StaysInClosedSet(g: Graph, s: set<string>, x: string, n: nat)
    requires ClosedUpward(g, s) && x in s && Ancestor(g, x, n).Some?
    ensures Ancestor(g, x, n).value in s
    decreases n
  {
    if n > 0 {
      AncestorInGraph(g, g[x].value, n - 1);
      StaysInClosedSet(g, s, g[x].value, n - 1);
    }
  }

  /** Going round a cycle any number of times comes back. */
  lemma {:induction false} RoundAndRound(g: Graph, x: string, n: nat, times: nat)
    requires Ancestor(g, x, n) == Some(x)
    ensures Ancestor(g, x, n * times) == Some(x)
    decreases times
  {
    if times > 0 {
      RoundAndRound(g, x, n, times - 1);
      AncestorSum(g, x, n * (times - 1), n);
      assert n * times == n * (times - 1) + n;
    }
  }

  /** From any ancestor of an event on a cycle the event is reached again. */
  lemma CycleComesBack(g: Graph, x: string, k: nat) returns (m: nat)
    requires OnCycle(g, x) && Ancestor(g, x, k).Some?
    ensures Ancestor(g, Ancestor(g, x, k).value, m) == Some(x)
  {
    var n: nat :| n > 0 && Ancestor(g, x, n) == Some(x);
    RoundAndRound(g, x, n, k);
    assert n * k >= k;
    m := n * k - k;
    AncestorSum(g, x, k, m);
  }

  /** The parent of an event on a cycle is on it too. */
  lemma CycleGoesOn(g: Graph, x: string)
    requires OnCycle(g, x)
    ensures HasParent(g, x) && OnCycle(g, g[x].value)
  {
    var n: nat :| n > 0 && Ancestor(g, x, n) == Some(x);
    AncestorInGraph(g, g[x].value, n - 1);
    AncestorSum(g, x, n, 1);
    AncestorSum(g, x, 1, n);
    assert Ancestor(g, x, 1) == Some(g[x].value);
    assert Ancestor(g, g[x].value, n) == Some(g[x].value);
  }

  /** A walk: each element is the parent of the one before it. */
  ghost predicate IsWalk(g: Graph, path: seq<string>) {
    && (forall i :: 0 <= i < |path| ==> path[i] in g)
    && (forall i :: 0 <= i < |path| - 1 ==> g[path[i]] == Some(path[i + 1]))
  }

  lemma {:induction false} WalkAncestor(g: Graph, path: seq<string>, i: nat, j: nat)
    requires IsWalk(g, path) && i <= j < |path|
    ensures Ancestor(g, path[i], j - i) == Some(path[j])
    decreases j - i
  {
    if i < j {
      WalkAncestor(g, path, i + 1, j);
    }
  }

  /** A walk that leaves the graph holds no cycle. */
  lemma {:induction false} DeadEndHasNoCycle(g: Graph, path: seq<string>, i: nat)
    requires IsWalk(g, path) && i < |path| && !HasParent(g, path[|path|-1])
    ensures !OnCycle(g, path[i])
    decreases |path| - i
  {
    if OnCycle(g, path[i]) {
      CycleGoesOn(g, path[i]);
      if i < |path| - 1 {
        DeadEndHasNoCycle(g, path, i + 1);
      }
    }
  }

  /** A walk from outside a parent-closed set into it holds no cycle. */
  lemma EntersClosedSet(g: Graph, path: seq<string>, s: set<string>, i: nat)
    requires IsWalk(g, path) && ClosedUpward(g, s) && i < |path| && path[i] !in s
    requires HasParent(g, path[|path|-1]) && g[path[|path|-1]].value in s
    ensures !OnCycle(g, path[i])
  {
    if OnCycle(g, path[i]) {
      var last := path[|path|-1];
      WalkAncestor(g, path, i, |path| - 1);
      AncestorSum(g, path[i], |path| - 1 - i, 1);
      assert Ancestor(g, last, 1) == Some(g[last].value);
      var m := CycleComesBack(g, path[i], |path| - i);
      StaysInClosedSet(g, s, g[last].value, m);
    }
  }

  /** A walk that returns to its `j`-th element: exactly the elements from there on lie on a cycle. */
  lemma ClosedWalk(g: Graph, path: seq<string>, j: nat, i: nat)
    requires IsWalk(g, path) && j < |path| && i < |path| && g[path[|path|-1]] == Some(path[j])
    requires forall a, b :: 0 <= a < b < |path| ==> path[a] != path[b]
    ensures OnCycle(g, path[i]) <==> j <= i
  {
    if j <= i {
      WalkAncestor(g, path, i, |path| - 1);
      AncestorSum(g, path[i], |path| - 1 - i, 1);
      assert Ancestor(g, path[i], |path| - i) == Some(path[j]);
      WalkAncestor(g, path, j, i);
      AncestorSum(g, path[i], |path| - i, i - j);
    } else {
      var loop := set k | j <= k < |path| :: path[k];
      forall k | j <= k < |path| ensures g[path[k]].Some? && g[path[k]].value in loop {
        assert k < |path| - 1 ==> g[path[k]] == Some(path[k + 1]);
      }
      assert path[i] !in loop;
      if OnCycle(g, path[i]) {
        WalkAncestor(g, path, i, j);
        var m := CycleComesBack(g, path[i], j - i);
        StaysInClosedSet(g, loop, path[j], m);
      }
    }
  }

  // ----- Chains that never end -----

  lemma {:induction false} Pigeonhole(s: seq<string>, holes: set<string>) returns (i: nat, j: nat)
    requires |s| > |holes| && forall k :: 0 <= k < |s| ==> s[k] in holes
    ensures i < j < |s| && s[i] == s[j]
    decreases |s|
  {
    var last := |s| - 1;
    if k :| 0 <= k < last && s[k] == s[last] {
      i, j := k, last;
    } else {
      i, j := Pigeonhole(s[..last], holes - {s[last]});
    }
  }

  /** A chain as long as the graph is large runs into a cycle. */
  lemma LongChainMeetsCycle(g: Graph, x: string) returns (n: nat)
    requires forall k: nat :: k <= |g.Keys| ==> Ancestor(g, x, k).Some?
    ensures n <= |g.Keys| && OnCycle(g, Ancestor(g, x, n).value)
  {
    var chain := seq(|g.Keys| + 1, k requires 0 <= k <= |g.Keys| => Ancestor(g, x, k).value);
    forall k | 0 <= k < |chain| ensures chain[k] in g.Keys {
      AncestorInGraph(g, x, k);
    }
    var i, j := Pigeonhole(chain, g.Keys);
    AncestorSum(g, x, i, j - i);
    assert i + (j - i) == j && Ancestor(g, x, j) == Some(chain[j]);
    assert Ancestor(g, chain[i], j - i) == Some(chain[i]);
    n := i;
  }

  lemma {:induction false} CycleNeverEnds(g: Graph, x: string, n: nat)
    requires OnCycle(g, x)
    ensures Ancestor(g, x, n).Some? && OnCycle(g, Ancestor(g, x, n).value)
    decreases n
  {
    CycleGoesOn(g, x);
    if n > 0 {
      CycleNeverEnds(g, g[x].value, n - 1);
    }
  }

  lemma CycleReachesNoRoot(g: Graph, x: string)
    requires OnCycle(g, x)
    ensures !ReachesRoot(g, x)
  {
    forall n: nat ensures !RootAt(g, x, n) {
      CycleNeverEnds(g, x, n);
      CycleGoesOn(g, Ancestor(g, x, n).value);
    }
  }

  /** An event with a cause reaches a root exactly when its cause does. */
  lemma RootThroughParent(g: Graph, x: string)
    requires x in g && g[x].Some?
    ensures ReachesRoot(g, x) <==> ReachesRoot(g, g[x].value)
  {
    if n: nat :| RootAt(g, x, n) {
      assert n > 0;
      assert RootAt(g, g[x].value, n - 1);
    }
    if n: nat :| RootAt(g, g[x].value, n) {
      assert RootAt(g, x, n + 1);
    }
  }
}
