/** Orders and sorting. `le(a, b)` reads "a may come before b" (a Comparator's compare(a, b) <= 0).
    java.util.Collections.sort is a stable sort; it is modelled by a stable insertion sort. */
module Ordering {

  /** The contract of Comparable / Comparator: total and transitive. */
  ghost predicate TotalPreorder<T(!new)>(le: (T, T) -> bool)
  {
    && (forall a, b :: le(a, b) || le(b, a))
    && (forall a, b, c :: le(a, b) && le(b, c) ==> le(a, c))
  }

  /** Every element may come before every later one. */
  ghost predicate Sorted<T>(s: seq<T>, le: (T, T) -> bool)
  {
    forall i, j :: 0 <= i < j < |s| ==> le(s[i], s[j])
  }

  /** Inserts x into a sequence, in front of the first element it may come before. */
  function Insert<T>(x: T, s: seq<T>, le: (T, T) -> bool): (r: seq<T>)
    ensures multiset(r) == multiset(s) + multiset{x}
  {
    if s == [] then [x]
    else if le(x, s[0]) then [x] + s
    else
      assert s == [s[0]] + s[1..];
      [s[0]] + Insert(x, s[1..], le)
  }

  /** Inserting into a sorted sequence keeps it sorted. */
  lemma {:induction false} InsertKeepsSorted<T(!new)>(x: T, s: seq<T>, le: (T, T) -> bool)
    requires TotalPreorder(le) && Sorted(s, le)
    ensures Sorted(Insert(x, s, le), le)
  {
    if s == [] {
    } else if le(x, s[0]) {
      forall y | y in s ensures le(x, y) {
        var k :| 0 <= k < |s| && s[k] == y;
        if k > 0 {
          assert le(s[0], s[k]);
        }
      }
      PrependSmallest(x, s, le);
    } else {
      var tail := Insert(x, s[1..], le);
      InsertKeepsSorted(x, s[1..], le);
      assert le(s[0], x);
      forall y | y in tail ensures le(s[0], y) {
        assert y in multiset(tail);
        if y != x {
          assert y in multiset(s[1..]);
          var k :| 0 <= k < |s[1..]| && s[1..][k] == y;
          assert le(s[0], s[k + 1]);
        }
      }
      PrependSmallest(s[0], tail, le);
    }
  }

  /** An element that may come before every element of a sorted sequence may be put in front of it. */
  lemma PrependSmallest<T>(x: T, t: seq<T>, le: (T, T) -> bool)
    requires Sorted(t, le)
    requires forall y :: y in t ==> le(x, y)
    ensures Sorted([x] + t, le)
  {
    var r := [x] + t;
    forall i, j | 0 <= i < j < |r| ensures le(r[i], r[j]) {
      if i == 0 {
        assert r[j] in t;
      } else {
        assert r[i] == t[i - 1] && r[j] == t[j - 1];
      }
    }
  }

  /** The elements of s equivalent to x (each may come before the other), in their order in s. */
  function Equivalents<T>(s: seq<T>, x: T, le: (T, T) -> bool): seq<T>
  {
    if s == [] then []
    else (if le(s[0], x) && le(x, s[0]) then [s[0]] else []) + Equivalents(s[1..], x, le)
  }

  /** Inserting h keeps the order of the elements equivalent to any x, and puts h in front of
      those equivalent to it. */
  lemma {:induction false} InsertIsStable<T(!new)>(h: T, t: seq<T>, x: T, le: (T, T) -> bool)
    requires TotalPreorder(le)
    ensures Equivalents(Insert(h, t, le), x, le) == Equivalents([h], x, le) + Equivalents(t, x, le)
  {
    assert [h][1..] == [];
    if t == [] {
    } else if le(h, t[0]) {
      assert ([h] + t)[1..] == t;
    } else {
      var r := [t[0]] + Insert(h, t[1..], le);
      assert r[1..] == Insert(h, t[1..], le);
      InsertIsStable(h, t[1..], x, le);
      var y := t[0];
      assert [y][1..] == [];
      assert le(h, x) && le(x, y) ==> le(h, y);
    }
  }

  /** One insertion step of the sort keeps the order of every class of equivalent elements. */
  lemma SortStepIsStable<T(!new)>(s: seq<T>, rest: seq<T>, le: (T, T) -> bool)
    requires TotalPreorder(le) && s != []
    requires forall x :: Equivalents(rest, x, le) == Equivalents(s[1..], x, le)
    ensures forall x :: Equivalents(Insert(s[0], rest, le), x, le) == Equivalents(s, x, le)
  {
    var h := s[0];
    assert [h][1..] == [];
    forall x
      ensures Equivalents(Insert(h, rest, le), x, le) == Equivalents(s, x, le)
    {
      InsertIsStable(h, rest, x, le);
      var first := if le(h, x) && le(x, h) then [h] else [];
      assert Equivalents([h], x, le) == first + Equivalents([], x, le) == first;
      assert Equivalents(s, x, le) == first + Equivalents(s[1..], x, le);
    }
  }

  /** Collections.sort: the result is a permutation of s in which every element may come before
      the later ones, and the sort is stable: elements equivalent to each other keep their order. */
  function SortBy<T(!new)>(s: seq<T>, le: (T, T) -> bool): (r: seq<T>)
    requires TotalPreorder(le)
    ensures multiset(r) == multiset(s)
    ensures Sorted(r, le)
    ensures forall x :: Equivalents(r, x, le) == Equivalents(s, x, le)
  {
    if s == [] then []
    else
      assert s == [s[0]] + s[1..];
      var rest := SortBy(s[1..], le);
      InsertKeepsSorted(s[0], rest, le);
      SortStepIsStable(s, rest, le);
      Insert(s[0], rest, le)
  }

  /** The first element of a sorted sequence may come before every element of it. */
  lemma HeadComesFirst<T(!new)>(s: seq<T>, le: (T, T) -> bool, y: T)
    requires TotalPreorder(le) && Sorted(s, le) && y in s
    ensures le(s[0], y)
  {
    var k :| 0 <= k < |s| && s[k] == y;
    if k == 0 {
      assert le(y, y) || le(y, y);
    }
  }

  lemma TailMultiset<T>(s: seq<T>)
    requires s != []
    ensures multiset(s[1..]) == multiset(s) - multiset{s[0]}
  {
    assert s == [s[0]] + s[1..];
  }

  /** No two different elements of m are ordered both ways. */
  ghost predicate NoTiesAmong<T>(m: multiset<T>, le: (T, T) -> bool)
  {
    forall x, y :: x in m && y in m && le(x, y) && le(y, x) ==> x == y
  }

  lemma FewerElementsFewerTies<T>(m: multiset<T>, smaller: multiset<T>, le: (T, T) -> bool)
    requires NoTiesAmong(m, le) && smaller <= m
    ensures NoTiesAmong(smaller, le)
  {
  }

  /** When no two different elements of a are ordered both ways, there is only one sorted
      arrangement of a's multiset, so the sort's result does not depend on the order of its input. */
  lemma {:induction false} SortedArrangementIsUnique<T>(a: seq<T>, b: seq<T>, le: (T, T) -> bool)
    requires NoTiesAmong(multiset(a), le)
    requires Sorted(a, le) && Sorted(b, le)
    requires multiset(a) == multiset(b)
    ensures a == b
  {
    if a == [] {
      assert |b| == |multiset(b)| == 0;
    } else {
      SameFirst(a, b, le);
      TailsAgree(a, b, le);
      SortedArrangementIsUnique(a[1..], b[1..], le);
      assert a == [a[0]] + a[1..] && b == [b[0]] + b[1..];
    }
  }

  /** Dropping the same first element from two sorted arrangements of the same elements leaves two
      sorted arrangements of the same elements, still without ties. */
  lemma TailsAgree<T>(a: seq<T>, b: seq<T>, le: (T, T) -> bool)
    requires a != [] && b != [] && a[0] == b[0]
    requires NoTiesAmong(multiset(a), le)
    requires Sorted(a, le) && Sorted(b, le)
    requires multiset(a) == multiset(b)
    ensures NoTiesAmong(multiset(a[1..]), le)
    ensures Sorted(a[1..], le) && Sorted(b[1..], le)
    ensures multiset(a[1..]) == multiset(b[1..])
  {
    TailMultiset(a);
    TailMultiset(b);
    FewerElementsFewerTies(multiset(a), multiset(a[1..]), le);
    SortedTail(a, le);
    SortedTail(b, le);
  }

  /** Two sorted arrangements of the same elements, without ties among them, start alike. */
  lemma SameFirst<T>(a: seq<T>, b: seq<T>, le: (T, T) -> bool)
    requires a != []
    requires NoTiesAmong(multiset(a), le)
    requires Sorted(a, le) && Sorted(b, le)
    requires multiset(a) == multiset(b)
    ensures b != [] && a[0] == b[0]
  {
    assert |b| == |multiset(b)| == |a|;
    var x, y := a[0], b[0];
    assert x in multiset(a) && y in multiset(b);
    var k :| 0 <= k < |b| && b[k] == x;
    var j :| 0 <= j < |a| && a[j] == y;
    assert k > 0 ==> le(y, x);
    assert j > 0 ==> le(x, y);
  }

  lemma SortedTail<T>(s: seq<T>, le: (T, T) -> bool)
    requires Sorted(s, le) && s != []
    ensures Sorted(s[1..], le)
  {
  }

  /** A sequence holding the multiset of a set lists exactly the set's elements, each once:
      what copying a HashSet into a list and sorting it yields. */
  lemma {:induction false} ListsEachOnce<T>(s: seq<T>, elements: set<T>)
    requires multiset(s) == multiset(elements)
    ensures forall x :: x in s <==> x in elements
    ensures forall i, j :: 0 <= i < j < |s| ==> s[i] != s[j]
  {
    forall x
      ensures x in s <==> x in elements
    {
      assert x in s <==> x in multiset(s);
    }
    forall i, j | 0 <= i < j < |s|
      ensures s[i] != s[j]
    {
      var x := s[i];
      assert s == s[..j] + s[j..];
      assert x in s[..j];
      assert multiset(s)[x] == multiset(s[..j])[x] + multiset(s[j..])[x];
      assert multiset(elements)[x] <= 1;
      assert multiset(s[j..])[x] == 0;
      assert s[j] in s[j..];
    }
  }
}
