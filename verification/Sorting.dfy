/** DpsSort, seen from outside: an ordered permutation under a comparison. */
module Sorting {

  type Order<!T> = (T, T) -> bool

  ghost predicate TotalPreorder<T(!new)>(le: Order<T>) {
    && (forall a, b :: le(a, b) || le(b, a))
    && (forall a, b, c :: le(a, b) && le(b, c) ==> le(a, c))
  }

  ghost predicate Ordered<T>(le: Order<T>, s: seq<T>) {
    forall i, j | 0 <= i < j < |s| :: le(s[i], s[j])
  }

  /** A relation that holds both ways between every two entries, wherever they stand. */
  ghost predicate Pairwise<T>(rel: (T, T) -> bool, s: seq<T>) {
    forall i, j | 0 <= i < j < |s| :: rel(s[i], s[j]) && rel(s[j], s[i])
  }

  function Insert<T>(le: Order<T>, x: T, s: seq<T>): (r: seq<T>)
    ensures multiset(r) == multiset(s) + multiset{x}
    ensures |r| == |s| + 1
  {
    if s == [] then [x]
    else if le(x, s[0]) then [x] + s
    else
      assert s == [s[0]] + s[1..];
      [s[0]] + Insert(le, x, s[1..])
  }

  function Sort<T>(le: Order<T>, s: seq<T>): (r: seq<T>)
    ensures multiset(r) == multiset(s)
    ensures |r| == |s|
  {
    if s == [] then []
    else
      assert s == [s[0]] + s[1..];
      Insert(le, s[0], Sort(le, s[1..]))
  }

  lemma {:induction false} InsertOrdered<T(!new)>(le: Order<T>, x: T, s: seq<T>)
    requires TotalPreorder(le) && Ordered(le, s)
    ensures Ordered(le, Insert(le, x, s))
  {
    if s == [] || le(x, s[0]) {
    } else {
      var t := Insert(le, x, s[1..]);
      InsertOrdered(le, x, s[1..]);
      forall i | 0 <= i < |t| ensures le(s[0], t[i]) {
        assert t[i] in multiset(t);
        assert t[i] == x || t[i] in s[1..];
      }
    }
  }

  lemma {:induction false} SortOrdered<T(!new)>(le: Order<T>, s: seq<T>)
    requires TotalPreorder(le)
    ensures Ordered(le, Sort(le, s))
  {
    if s == [] {
    } else {
      SortOrdered(le, s[1..]);
      InsertOrdered(le, s[0], Sort(le, s[1..]));
    }
  }

  lemma {:induction false} InsertPairwise<T>(le: Order<T>, rel: (T, T) -> bool, x: T, s: seq<T>)
    requires Pairwise(rel, s) && forall i | 0 <= i < |s| :: rel(x, s[i]) && rel(s[i], x)
    ensures Pairwise(rel, Insert(le, x, s))
  {
    if s == [] || le(x, s[0]) {
    } else {
      var t := Insert(le, x, s[1..]);
      InsertPairwise(le, rel, x, s[1..]);
      forall i | 0 <= i < |t| ensures rel(s[0], t[i]) && rel(t[i], s[0]) {
        assert t[i] in multiset(t);
        assert t[i] == x || t[i] in s[1..];
      }
    }
  }

  lemma {:induction false} SortPairwise<T>(le: Order<T>, rel: (T, T) -> bool, s: seq<T>)
    requires Pairwise(rel, s)
    ensures Pairwise(rel, Sort(le, s))
  {
    if s == [] {
    } else {
      var t := Sort(le, s[1..]);
      SortPairwise(le, rel, s[1..]);
      forall i | 0 <= i < |t| ensures rel(s[0], t[i]) && rel(t[i], s[0]) {
        assert t[i] in multiset(t);
        assert t[i] in s[1..];
      }
      InsertPairwise(le, rel, s[0], t);
    }
  }

  /** Sorting keeps the entries. */
  lemma SortMembers<T>(le: Order<T>, s: seq<T>)
    ensures forall x :: x in Sort(le, s) <==> x in s
  {
    var t := Sort(le, s);
    forall x ensures x in t <==> x in s {
      assert x in t <==> x in multiset(t);
      assert x in s <==> x in multiset(s);
    }
  }

  /** No two different entries compare equal. */
  ghost predicate NoTies<T(!new)>(le: Order<T>, s: seq<T>) {
    forall x, y | x in s && y in s :: le(x, y) && le(y, x) ==> x == y
  }

  /** Without ties every ordered permutation is the same. */
  lemma {:induction false} OrderedUnique<T(!new)>(le: Order<T>, a: seq<T>, b: seq<T>)
    requires TotalPreorder(le) && NoTies(le, a)
    requires Ordered(le, a) && Ordered(le, b) && multiset(a) == multiset(b)
    ensures a == b
  {
    assert |b| == |multiset(b)| == |multiset(a)| == |a|;
    if a != [] {
      var n := |a| - 1;
      LastIsLargest(le, a, b);
      LastIsLargest(le, b, a);
      assert b[n] in multiset(b);
      assert b[n] in multiset(a);
      assert a[n] in a && b[n] in a;
      WithoutLast(a);
      WithoutLast(b);
      OrderedUnique(le, a[..n], b[..n]);
    }
  }

  lemma WithoutLast<T>(a: seq<T>)
    requires a != []
    ensures a == a[..|a| - 1] + [a[|a| - 1]]
    ensures multiset(a[..|a| - 1]) == multiset(a) - multiset{a[|a| - 1]}
  {
    assert a == a[..|a| - 1] + [a[|a| - 1]];
  }

  lemma LastIsLargest<T(!new)>(le: Order<T>, a: seq<T>, b: seq<T>)
    requires TotalPreorder(le) && Ordered(le, b) && multiset(a) == multiset(b) && a != [] && b != []
    ensures le(a[|a| - 1], b[|b| - 1])
  {
    var x := a[|a| - 1];
    assert x in multiset(a);
    assert x in multiset(b);
    var k :| 0 <= k < |b| && b[k] == x;
    assert le(x, x);
  }
}
