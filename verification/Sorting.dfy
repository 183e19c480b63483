/** Sets listed in the order of their elements: `sorted` over a set. */
module Sorting {
  import opened Prelude

  type Order<!T> = (T, T) -> bool

  ghost predicate IsStrictOrder<T(!new)>(less: Order<T>) {
    && (forall a :: !less(a, a))
    && (forall a, b :: a == b || less(a, b) || less(b, a))
    && (forall a, b, c :: less(a, b) && less(b, c) ==> less(a, c))
  }

  ghost predicate Ascends<T(!new)>(less: Order<T>, s: seq<T>) {
    forall i, j :: 0 <= i < j < |s| ==> less(s[i], s[j])
  }

  /** The list of a set in order. */
  ghost function Sorted<T(!new)>(less: Order<T>, s: set<T>): (list: seq<T>)
    requires IsStrictOrder(less)
    ensures Ascends(less, list)
    ensures forall x :: x in list <==> x in s
  {
    if s == {} then []
    else
      HasLeast(less, s);
      var least :| IsLeast(less, s, least);
      [least] + Sorted(less, s - {least})
  }

  ghost predicate IsLeast<T(!new)>(less: Order<T>, s: set<T>, least: T) {
    least in s && forall x :: x in s && x != least ==> less(least, x)
  }

  lemma {:induction false} HasLeast<T(!new)>(less: Order<T>, s: set<T>)
    requires IsStrictOrder(less) && s != {}
    ensures exists least :: IsLeast(less, s, least)
  {
    var x :| x in s;
    assert forall z :: z in s && z != x ==> z in s - {x};
    if s - {x} == {} {
      assert IsLeast(less, s, x);
    } else {
      HasLeast(less, s - {x});
      var y :| IsLeast(less, s - {x}, y);
      if less(x, y) {
        assert IsLeast(less, s, x);
      } else {
        assert IsLeast(less, s, y);
      }
    }
  }

  /** Two ascending lists of the same elements are the same list. */
  lemma {:induction false} AscendingIsUnique<T(!new)>(less: Order<T>, a: seq<T>, b: seq<T>)
    requires IsStrictOrder(less) && Ascends(less, a) && Ascends(less, b)
    requires forall x :: x in a <==> x in b
    ensures a == b
  {
    HasElement(a);
    HasElement(b);
    if a != [] {
      assert a[0] in b && b[0] in a;
      var i :| 0 <= i < |b| && b[i] == a[0];
      var j :| 0 <= j < |a| && a[j] == b[0];
      assert a[0] == b[0];
      NotFirst(less, a);
      NotFirst(less, b);
      AscendingIsUnique(less, a[1..], b[1..]);
      assert a == [a[0]] + a[1..] && b == [b[0]] + b[1..];
    }
  }

  lemma HasElement<T>(a: seq<T>)
    ensures a != [] ==> exists x :: x in a
  {
    if a != [] {
      assert a[0] in a;
    }
  }

  lemma NotFirst<T(!new)>(less: Order<T>, a: seq<T>)
    requires IsStrictOrder(less) && Ascends(less, a) && a != []
    ensures forall x :: x in a[1..] <==> x in a && x != a[0]
  {
    assert a == [a[0]] + a[1..];
    forall x | x in a[1..] ensures x != a[0] {
      var i :| 0 <= i < |a| - 1 && a[1..][i] == x;
      assert less(a[0], a[i + 1]);
    }
  }

  method LeastOf<T(!new, ==)>(less: Order<T>, s: set<T>) returns (least: T)
    requires IsStrictOrder(less) && s != {}
    ensures IsLeast(less, s, least)
  {
    least :| least in s;
    var rest := s - {least};
    while rest != {}
      invariant least in s && rest <= s
      invariant forall x :: x in s && x !in rest && x != least ==> less(least, x)
      decreases |rest|
    {
      var x :| x in rest;
      if less(x, least) {
        least := x;
      }
      rest := rest - {x};
    }
  }

  /** `sorted(set)`. */
  method Sort<T(!new, ==)>(less: Order<T>, s: set<T>) returns (list: seq<T>)
    requires IsStrictOrder(less)
    ensures list == Sorted(less, s)
  {
    list := [];
    var rest := s;
    while rest != {}
      invariant rest <= s && Ascends(less, list)
      invariant forall x :: x in s <==> x in list || x in rest
      invariant forall x, y :: x in list && y in rest ==> less(x, y)
      decreases |rest|
    {
      var least := LeastOf(less, rest);
      list := list + [least];
      rest := rest - {least};
    }
    AscendingIsUnique(less, list, Sorted(less, s));
  }

  lemma LessIsStrictOrder()
    ensures IsStrictOrder(Less)
  {
    forall a, b ensures a == b || Less(a, b) || Less(b, a) {
      LessIsTotal(a, b);
    }
    forall a ensures !Less(a, a) {
      LessIsTotal(a, a);
    }
    forall a, b, c | Less(a, b) && Less(b, c) ensures Less(a, c) {
      LessIsTransitive(a, b, c);
    }
  }

  // ----- Stable sorting of lists -----

  /** Total and transitive, ties allowed: what a comparison by a key is. */
  ghost predicate IsWeakOrder<T(!new)>(less: Order<T>) {
    && (forall a, b :: !(less(a, b) && less(b, a)))
    && (forall a, b, c :: !less(b, a) && !less(c, b) ==> !less(c, a))
  }

  /** Put an element behind everything that is not above it. */
  function Insert<T>(less: Order<T>, list: seq<T>, x: T): seq<T> {
    if list == [] then [x]
    else
      var last := list[|list| - 1];
      if less(x, last) then Insert(less, list[..|list| - 1], x) + [last] else list + [x]
  }

  /** `sort_by`. */
  function StableSort<T>(less: Order<T>, list: seq<T>): seq<T> {
    if list == [] then [] else Insert(less, StableSort(less, list[..|list| - 1]), list[|list| - 1])
  }

  ghost predicate IsOrdered<T(!new)>(less: Order<T>, list: seq<T>) {
    forall i, j :: 0 <= i < j < |list| ==> !less(list[j], list[i])
  }

  lemma {:induction false} InsertPuts<T(!new)>(less: Order<T>, list: seq<T>, x: T)
    ensures multiset(Insert(less, list, x)) == multiset(list) + multiset{x}
    ensures forall y :: y in Insert(less, list, x) <==> y in list || y == x
  {
    if list != [] {
      var front, last := list[..|list| - 1], list[|list| - 1];
      assert list == front + [last];
      InsertPuts(less, front, x);
    }
  }

  lemma AppendOrders<T(!new)>(less: Order<T>, list: seq<T>, x: T)
    requires IsOrdered(less, list) && forall y :: y in list ==> !less(x, y)
    ensures IsOrdered(less, list + [x])
  {
    assert forall i :: 0 <= i < |list| ==> list[i] in list;
  }

  lemma LastIsAbove<T(!new)>(less: Order<T>, list: seq<T>, x: T)
    requires IsWeakOrder(less) && IsOrdered(less, list) && list != [] && !less(x, list[|list| - 1])
    ensures forall y :: y in list ==> !less(x, y)
  {
    forall y | y in list ensures !less(x, y) {
      var i :| 0 <= i < |list| && list[i] == y;
      if i < |list| - 1 {
        assert !less(list[|list| - 1], list[i]);
      }
    }
  }

  lemma {:induction false} InsertOrders<T(!new)>(less: Order<T>, list: seq<T>, x: T)
    requires IsWeakOrder(less) && IsOrdered(less, list)
    ensures IsOrdered(less, Insert(less, list, x))
  {
    hide IsWeakOrder;
    if list == [] {
    } else if less(x, list[|list| - 1]) {
      var front, last := list[..|list| - 1], list[|list| - 1];
      InsertOrders(less, front, x);
      InsertPuts(less, front, x);
      assert list == front + [last];
      NotBelow(less, front, last, x);
      AppendOrders(less, Insert(less, front, x), last);
    } else {
      LastIsAbove(less, list, x);
      AppendOrders(less, list, x);
    }
  }

  lemma NotBelow<T(!new)>(less: Order<T>, front: seq<T>, last: T, x: T)
    requires IsWeakOrder(less) && IsOrdered(less, front + [last]) && less(x, last)
    ensures !less(last, x) && forall y :: y in front ==> !less(last, y)
  {
    var list := front + [last];
    forall y | y in front ensures !less(last, y) {
      var i :| 0 <= i < |front| && front[i] == y;
      assert list[i] == y && list[|front|] == last;
    }
  }

  /** Sorting permutes, whatever the comparison. */
  lemma {:induction false} StableSortPermutes<T(!new)>(less: Order<T>, list: seq<T>)
    ensures multiset(StableSort(less, list)) == multiset(list)
  {
    if list != [] {
      var front, last := list[..|list| - 1], list[|list| - 1];
      assert list == front + [last];
      StableSortPermutes(less, front);
      InsertPuts(less, StableSort(less, front), last);
    }
  }

  /** Sorting permutes, and orders. */
  lemma {:induction false} StableSortSorts<T(!new)>(less: Order<T>, list: seq<T>)
    requires IsWeakOrder(less)
    ensures IsOrdered(less, StableSort(less, list))
    ensures multiset(StableSort(less, list)) == multiset(list)
  {
    if list != [] {
      var front, last := list[..|list| - 1], list[|list| - 1];
      assert list == front + [last];
      StableSortSorts(less, front);
      InsertOrders(less, StableSort(less, front), last);
      InsertPuts(less, StableSort(less, front), last);
    }
  }

  /** The elements that pass a test, in their order. */
  function Only<T>(list: seq<T>, keeps: T -> bool): seq<T> {
    if list == [] then []
    else Only(list[..|list| - 1], keeps) + (if keeps(list[|list| - 1]) then [list[|list| - 1]] else [])
  }

  lemma OnlyMore<T>(list: seq<T>, x: T, keeps: T -> bool)
    ensures Only(list + [x], keeps) == Only(list, keeps) + (if keeps(x) then [x] else [])
  {
    assert (list + [x])[..|list|] == list;
  }

  lemma {:induction false} InsertKeepsTies<T(!new)>(less: Order<T>, list: seq<T>, x: T, keeps: T -> bool)
    requires forall a, b :: keeps(a) && keeps(b) ==> !less(a, b)
    ensures Only(Insert(less, list, x), keeps) == Only(list, keeps) + (if keeps(x) then [x] else [])
  {
    if list == [] {
      OnlyMore([], x, keeps);
      assert [] + [x] == [x];
    } else {
      var front, last := list[..|list| - 1], list[|list| - 1];
      if less(x, last) {
        InsertKeepsTies(less, front, x, keeps);
        OnlyMore(Insert(less, front, x), last, keeps);
      } else {
        OnlyMore(list, x, keeps);
      }
    }
  }

  /** Sorting is stable: elements that tie with one another stay in their order. */
  lemma {:induction false} StableSortKeepsTies<T(!new)>(less: Order<T>, list: seq<T>, keeps: T -> bool)
    requires forall a, b :: keeps(a) && keeps(b) ==> !less(a, b)
    ensures Only(StableSort(less, list), keeps) == Only(list, keeps)
  {
    if list != [] {
      var front, last := list[..|list| - 1], list[|list| - 1];
      StableSortKeepsTies(less, front, keeps);
      InsertKeepsTies(less, StableSort(less, front), last, keeps);
    }
  }

  /** A total order leaves one way to sort. */
  lemma {:induction false} OrderedIsUnique<T(!new)>(less: Order<T>, a: seq<T>, b: seq<T>)
    requires IsStrictOrder(less) && IsOrdered(less, a) && IsOrdered(less, b) && multiset(a) == multiset(b)
    ensures a == b
    decreases |a|
  {
    SameSize(a, b);
    if a != [] {
      SameLast(less, a, b);
      WithoutLast(a, b);
      OrderedIsUnique(less, a[..|a| - 1], b[..|b| - 1]);
      assert a == a[..|a| - 1] + [a[|a| - 1]] && b == b[..|b| - 1] + [b[|b| - 1]];
    }
  }

  lemma SameSize<T>(a: seq<T>, b: seq<T>)
    requires multiset(a) == multiset(b)
    ensures |a| == |b|
  {
    assert |a| == |multiset(a)| == |multiset(b)| == |b|;
  }

  lemma WithoutLast<T>(a: seq<T>, b: seq<T>)
    requires a != [] && b != [] && a[|a| - 1] == b[|b| - 1] && multiset(a) == multiset(b)
    ensures multiset(a[..|a| - 1]) == multiset(b[..|b| - 1])
  {
    DropLast(a);
    DropLast(b);
  }

  lemma DropLast<T>(a: seq<T>)
    requires a != []
    ensures multiset(a[..|a| - 1]) == multiset(a) - multiset{a[|a| - 1]}
  {
    assert a == a[..|a| - 1] + [a[|a| - 1]];
  }

  lemma SameLast<T(!new)>(less: Order<T>, a: seq<T>, b: seq<T>)
    requires IsStrictOrder(less) && IsOrdered(less, a) && IsOrdered(less, b) && multiset(a) == multiset(b)
    requires a != [] && b != []
    ensures a[|a| - 1] == b[|b| - 1]
  {
    hide IsOrdered;
    var x, y := a[|a| - 1], b[|b| - 1];
    assert x in a && y in b;
    assert x in multiset(b) && y in multiset(a);
    LastIsGreatest(less, a, y);
    LastIsGreatest(less, b, x);
  }

  lemma LastIsGreatest<T(!new)>(less: Order<T>, a: seq<T>, x: T)
    requires IsStrictOrder(less) && IsOrdered(less, a) && x in a
    ensures !less(a[|a| - 1], x)
  {
    var i :| 0 <= i < |a| && a[i] == x;
  }

  lemma StrictIsWeak<T(!new)>(less: Order<T>)
    requires IsStrictOrder(less)
    ensures IsWeakOrder(less)
  {
  }

  /** Sorting by a total order forgets the order of the input. */
  lemma SortForgetsOrder<T(!new)>(less: Order<T>, a: seq<T>, b: seq<T>)
    requires IsStrictOrder(less) && multiset(a) == multiset(b)
    ensures StableSort(less, a) == StableSort(less, b)
  {
    StrictIsWeak(less);
    StableSortSorts(less, a);
    StableSortSorts(less, b);
    OrderedIsUnique(less, StableSort(less, a), StableSort(less, b));
  }
}
