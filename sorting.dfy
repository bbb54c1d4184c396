/** Python's list sort (`sorted`, `list.sort`, with or without `key=`): a stable
    sort under a total preorder, written as insertion sort. */
module Sorting {
  import opened Seqs

  /** `le` is total and transitive: what Python's `<` on the sort keys gives. */
  ghost predicate TotalPreorder<T(!new)>(le: (T, T) -> bool)
  {
    && (forall a, b :: le(a, b) || le(b, a))
    && (forall a, b, c :: le(a, b) && le(b, c) ==> le(a, c))
  }

  predicate SortedBy<T>(s: seq<T>, le: (T, T) -> bool)
  {
    forall i, j :: 0 <= i < j < |s| ==> le(s[i], s[j])
  }

  /** Puts x in front of the first element it is not after. */
  function Insert<T>(x: T, s: seq<T>, le: (T, T) -> bool): seq<T>
  {
    if s == [] then [x]
    else if le(x, s[0]) then [x] + s
    else [s[0]] + Insert(x, s[1..], le)
  }

  /** The stable sort of s: equal-keyed elements keep their relative order. */
  function SortBy<T>(s: seq<T>, le: (T, T) -> bool): seq<T>
  {
    if s == [] then [] else Insert(s[0], SortBy(s[1..], le), le)
  }

  lemma SortOne<T>(x: T, le: (T, T) -> bool)
    ensures SortBy([x], le) == [x]
  {
    assert [x][1..] == [];
  }

  lemma {:induction false} InsertPerm<T>(x: T, s: seq<T>, le: (T, T) -> bool)
    ensures multiset(Insert(x, s, le)) == multiset(s) + multiset{x}
    ensures |Insert(x, s, le)| == |s| + 1
  {
    if s != [] && !le(x, s[0]) {
      InsertPerm(x, s[1..], le);
      assert s == [s[0]] + s[1..];
    }
  }

  lemma {:induction false} SortPerm<T>(s: seq<T>, le: (T, T) -> bool)
    ensures multiset(SortBy(s, le)) == multiset(s)
    ensures |SortBy(s, le)| == |s|
  {
    if s != [] {
      SortPerm(s[1..], le);
      InsertPerm(s[0], SortBy(s[1..], le), le);
      assert s == [s[0]] + s[1..];
    }
  }

  lemma {:induction false} InsertSorted<T(!new)>(x: T, s: seq<T>, le: (T, T) -> bool)
    requires TotalPreorder(le) && SortedBy(s, le)
    ensures SortedBy(Insert(x, s, le), le)
  {
    if s != [] && !le(x, s[0]) {
      InsertSorted(x, s[1..], le);
      InsertPerm(x, s[1..], le);
      var r := Insert(x, s[1..], le);
      forall y | y in r ensures le(s[0], y) {
        assert y in multiset(r);
        if y != x {
          assert y in multiset(s[1..]);
          var k :| 0 <= k < |s[1..]| && s[1..][k] == y;
          assert s[k + 1] == y;
        }
      }
    }
  }

  lemma {:induction false} SortSorted<T(!new)>(s: seq<T>, le: (T, T) -> bool)
    requires TotalPreorder(le)
    ensures SortedBy(SortBy(s, le), le)
  {
    if s != [] {
      SortSorted(s[1..], le);
      InsertSorted(s[0], SortBy(s[1..], le), le);
    }
  }

  /** Sorting a list that is already sorted changes nothing (stability). */
  lemma {:induction false} SortOfSorted<T>(s: seq<T>, le: (T, T) -> bool)
    requires SortedBy(s, le)
    ensures SortBy(s, le) == s
  {
    if s != [] {
      assert SortedBy(s[1..], le);
      SortOfSorted(s[1..], le);
      assert s == [s[0]] + s[1..];
    }
  }

  /** Two sorted arrangements of the same elements coincide when no two
      distinct elements are tied. */
  lemma {:induction false} SortedUnique<T>(a: seq<T>, b: seq<T>, le: (T, T) -> bool)
    requires SortedBy(a, le) && SortedBy(b, le) && multiset(a) == multiset(b)
    requires forall x, y :: x in a && y in a && le(x, y) && le(y, x) ==> x == y
    ensures a == b
    decreases |a|
  {
    if a != [] {
      HeadsEqual(a, b, le);
      var a', b' := a[1..], b[1..];
      assert a == [a[0]] + a' && b == [b[0]] + b';
      assert multiset(a) == multiset{a[0]} + multiset(a');
      assert multiset(b) == multiset{a[0]} + multiset(b');
      forall x ensures multiset(a')[x] == multiset(b')[x] {
        assert multiset(a)[x] == multiset{a[0]}[x] + multiset(a')[x];
        assert multiset(b)[x] == multiset{a[0]}[x] + multiset(b')[x];
      }
      assert multiset(a') == multiset(b');
      assert SortedBy(a', le) && SortedBy(b', le);
      SortedUnique(a', b', le);
    }
  }

  lemma HeadsEqual<T>(a: seq<T>, b: seq<T>, le: (T, T) -> bool)
    requires a != [] && SortedBy(a, le) && SortedBy(b, le) && multiset(a) == multiset(b)
    requires forall x, y :: x in a && y in a && le(x, y) && le(y, x) ==> x == y
    ensures b != [] && a[0] == b[0]
  {
    assert a[0] in multiset(b);
    assert b[0] in multiset(a);
    var i :| 0 <= i < |a| && a[i] == b[0];
    var j :| 0 <= j < |b| && b[j] == a[0];
    assert le(a[0], b[0]) || i == 0;
    assert le(b[0], a[0]) || j == 0;
  }

  function Map<T, U>(f: T -> U, s: seq<T>): (r: seq<U>)
    ensures |r| == |s| && forall i :: 0 <= i < |s| ==> r[i] == f(s[i])
  {
    if s == [] then [] else [f(s[0])] + Map(f, s[1..])
  }

  /** Sorting commutes with a map that keeps the order of the keys:
      sorting `[x] for x in s` by `x[0]` is the same as sorting s. */
  lemma {:induction false} SortMap<T, U>(f: T -> U, s: seq<T>, le1: (T, T) -> bool, le2: (U, U) -> bool)
    requires forall a, b :: le2(f(a), f(b)) == le1(a, b)
    ensures SortBy(Map(f, s), le2) == Map(f, SortBy(s, le1))
  {
    if s != [] {
      SortMap(f, s[1..], le1, le2);
      assert Map(f, s)[1..] == Map(f, s[1..]);
      InsertMap(f, s[0], SortBy(s[1..], le1), le1, le2);
    }
  }

  lemma {:induction false} InsertMap<T, U>(f: T -> U, x: T, s: seq<T>, le1: (T, T) -> bool, le2: (U, U) -> bool)
    requires forall a, b :: le2(f(a), f(b)) == le1(a, b)
    ensures Insert(f(x), Map(f, s), le2) == Map(f, Insert(x, s, le1))
  {
    if s != [] {
      assert Map(f, s)[1..] == Map(f, s[1..]);
      if !le1(x, s[0]) {
        InsertMap(f, x, s[1..], le1, le2);
      }
    }
  }

  lemma MapAppend<T, U>(f: T -> U, a: seq<T>, b: seq<T>)
    ensures Map(f, a + b) == Map(f, a) + Map(f, b)
  {
  }

  /** Mapping two arrangements of the same elements gives two arrangements of
      the same images. */
  lemma {:induction false} MapPerm<T, U>(f: T -> U, s: seq<T>, t: seq<T>)
    requires multiset(s) == multiset(t)
    ensures multiset(Map(f, s)) == multiset(Map(f, t))
    decreases |s|
  {
    if s != [] {
      var x := s[0];
      HeadIn(t, s);
      var t' := RemoveFirst(t, x);
      MapPerm(f, s[1..], t');
      MapRemoveFirst(f, t, x);
      assert Map(f, s) == [f(x)] + Map(f, s[1..]);
    }
  }

  /** `s.remove(x)` takes one image of x out of the images. */
  lemma {:induction false} MapRemoveFirst<T, U>(f: T -> U, t: seq<T>, x: T)
    requires x in t
    ensures multiset(Map(f, t)) == multiset(Map(f, RemoveFirst(t, x))) + multiset{f(x)}
    decreases |t|
  {
    var r := RemoveFirst(t, x);
    if t[0] != x {
      var r' := RemoveFirst(t[1..], x);
      MapRemoveFirst(f, t[1..], x);
      assert r == [t[0]] + r' && r[1..] == r';
      assert Map(f, r) == [f(t[0])] + Map(f, r');
      assert Map(f, t) == [f(t[0])] + Map(f, t[1..]);
      MultisetAssoc(multiset{f(t[0])}, multiset(Map(f, r')), multiset{f(x)});
    }
  }

  lemma MultisetAssoc<T>(a: multiset<T>, b: multiset<T>, c: multiset<T>)
    ensures a + (b + c) == (a + b) + c
  {
  }
}
