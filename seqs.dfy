/** The list idioms the game-theory code is written with: comprehensions with a
    filter, "append unless already present", concatenation of lists of lists,
    and `list.remove`. Each is written with the last element peeled off, which
    is the shape of a loop that appends. */
module Seqs {

  predicate Distinct<T(==)>(s: seq<T>)
  {
    forall i, j :: 0 <= i < j < |s| ==> s[i] != s[j]
  }

  /** `[x for x in s if p(x)]` */
  function Filter<T(!new)>(p: T -> bool, s: seq<T>): (r: seq<T>)
    ensures |r| <= |s|
    ensures forall x :: x in r <==> x in s && p(x)
    decreases |s|
  {
    if s == [] then []
    else Filter(p, s[..|s| - 1]) + (if p(s[|s| - 1]) then [s[|s| - 1]] else [])
  }

  lemma {:induction false} FilterAppend<T(!new)>(p: T -> bool, a: seq<T>, b: seq<T>)
    ensures Filter(p, a + b) == Filter(p, a) + Filter(p, b)
    decreases |b|
  {
    if b == [] {
      assert a + b == a;
    } else {
      assert (a + b)[..|a + b| - 1] == a + b[..|b| - 1];
      FilterAppend(p, a, b[..|b| - 1]);
    }
  }

  lemma {:induction false} FilterDistinct<T(!new)>(p: T -> bool, s: seq<T>)
    requires Distinct(s)
    ensures Distinct(Filter(p, s))
    decreases |s|
  {
    if s != [] {
      var init := s[..|s| - 1];
      assert Distinct(init);
      FilterDistinct(p, init);
      assert s[|s| - 1] !in init;
    }
  }

  /** The loop "append x unless x is already in the list": the elements of s
      in order of first occurrence. */
  function Dedupe<T(==,!new)>(s: seq<T>): (r: seq<T>)
    ensures forall x :: x in r <==> x in s
    ensures Distinct(r)
    decreases |s|
  {
    if s == [] then []
    else
      var d := Dedupe(s[..|s| - 1]);
      if s[|s| - 1] in d then d else d + [s[|s| - 1]]
  }

  lemma {:induction false} DedupeOfDistinct<T(!new)>(s: seq<T>)
    requires Distinct(s)
    ensures Dedupe(s) == s
    decreases |s|
  {
    if s != [] {
      var init := s[..|s| - 1];
      assert Distinct(init);
      DedupeOfDistinct(init);
      assert s[|s| - 1] !in init;
      assert s == init + [s[|s| - 1]];
    }
  }

  /** Concatenation of a list of lists. */
  function Flatten<T(!new)>(ss: seq<seq<T>>): (r: seq<T>)
    ensures forall x :: x in r <==> exists i :: 0 <= i < |ss| && x in ss[i]
    decreases |ss|
  {
    if ss == [] then []
    else
      var r := Flatten(ss[..|ss| - 1]) + ss[|ss| - 1];
      assert forall x :: x in r ==> exists i :: 0 <= i < |ss| && x in ss[i] by {
        forall x | x in r ensures exists i :: 0 <= i < |ss| && x in ss[i] {
          if x in Flatten(ss[..|ss| - 1]) {
            var i :| 0 <= i < |ss| - 1 && x in ss[..|ss| - 1][i];
            assert x in ss[i];
          } else {
            assert x in ss[|ss| - 1];
          }
        }
      }
      assert forall i, x :: 0 <= i < |ss| && x in ss[i] ==> x in r by {
        forall i, x | 0 <= i < |ss| && x in ss[i] ensures x in r {
          if i < |ss| - 1 {
            assert x in ss[..|ss| - 1][i];
          }
        }
      }
      r
  }

  lemma {:induction false} FlattenAppend<T(!new)>(a: seq<seq<T>>, b: seq<seq<T>>)
    ensures Flatten(a + b) == Flatten(a) + Flatten(b)
    decreases |b|
  {
    if b == [] {
      assert a + b == a;
    } else {
      assert (a + b)[..|a + b| - 1] == a + b[..|b| - 1];
      FlattenAppend(a, b[..|b| - 1]);
    }
  }

  /** `s.remove(x)`: deletes the first element equal to x. */
  function RemoveFirst<T(==)>(s: seq<T>, x: T): (r: seq<T>)
    requires x in s
    ensures multiset(r) == multiset(s) - multiset{x}
    ensures |r| == |s| - 1
  {
    if s[0] == x then
      assert s == [s[0]] + s[1..];
      s[1..]
    else
      assert s == [s[0]] + s[1..];
      [s[0]] + RemoveFirst(s[1..], x)
  }

  /** Removes each element of xs in turn, as a loop calling `s.remove(x)` does. */
  function RemoveSeq<T(==)>(s: seq<T>, xs: seq<T>): (r: seq<T>)
    requires multiset(xs) <= multiset(s)
    ensures multiset(r) == multiset(s) - multiset(xs)
    decreases |xs|
  {
    if xs == [] then s
    else
      assert xs == [xs[0]] + xs[1..];
      assert multiset(xs) == multiset{xs[0]} + multiset(xs[1..]);
      assert xs[0] in multiset(s);
      RemoveSeq(RemoveFirst(s, xs[0]), xs[1..])
  }

  /** Removing elements that are not equal to a leads past a. */
  lemma {:induction false} RemoveSeqCons<T>(a: T, t: seq<T>, xs: seq<T>)
    requires multiset(xs) <= multiset(t) && a !in xs
    ensures multiset(xs) <= multiset([a] + t)
    ensures RemoveSeq([a] + t, xs) == [a] + RemoveSeq(t, xs)
    decreases |xs|
  {
    assert multiset([a] + t) == multiset{a} + multiset(t);
    if xs != [] {
      assert xs == [xs[0]] + xs[1..];
      assert multiset(xs) == multiset{xs[0]} + multiset(xs[1..]);
      assert xs[0] in multiset(t);
      assert ([a] + t)[1..] == t;
      assert RemoveFirst([a] + t, xs[0]) == [a] + RemoveFirst(t, xs[0]);
      RemoveSeqCons(a, RemoveFirst(t, xs[0]), xs[1..]);
    }
  }

  function Elems<T>(s: seq<T>): set<T>
  {
    set x | x in s
  }

  /** A list has as many elements as it has distinct values exactly when no
      value repeats. */
  lemma {:induction false} ElemsCard<T>(s: seq<T>)
    ensures |Elems(s)| <= |s|
    ensures |Elems(s)| == |s| <==> Distinct(s)
    decreases |s|
  {
    if s != [] {
      var init, x := s[..|s| - 1], s[|s| - 1];
      assert s == init + [x];
      ElemsCard(init);
      assert Elems(s) == Elems(init) + {x};
      if x in init {
        assert Elems(s) == Elems(init);
        var i :| 0 <= i < |init| && init[i] == x;
        assert s[i] == s[|s| - 1];
      } else {
        assert |Elems(s)| == |Elems(init)| + 1;
        assert Distinct(s) ==> Distinct(init);
        if Distinct(init) {
          assert Distinct(s);
        }
      }
    }
  }

  predicate Disjoint<T(==)>(a: seq<T>, b: seq<T>)
  {
    forall x :: x in a ==> x !in b
  }

  lemma DistinctAppend<T>(a: seq<T>, b: seq<T>)
    ensures Distinct(a + b) <==> Distinct(a) && Distinct(b) && Disjoint(a, b)
  {
    if Distinct(a + b) {
      assert forall i, j :: 0 <= i < j < |a| ==> a[i] == (a + b)[i] && a[j] == (a + b)[j];
      assert forall i, j :: 0 <= i < j < |b| ==> b[i] == (a + b)[|a| + i] && b[j] == (a + b)[|a| + j];
      forall i, j | 0 <= i < |a| && 0 <= j < |b| ensures a[i] != b[j] {
        assert (a + b)[i] == a[i] && (a + b)[|a| + j] == b[j];
      }
    }
    if Distinct(a) && Distinct(b) && Disjoint(a, b) {
      forall i, j | 0 <= i < j < |a + b| ensures (a + b)[i] != (a + b)[j] {
        if j < |a| {
          assert (a + b)[i] == a[i] && (a + b)[j] == a[j];
        } else if i >= |a| {
          assert (a + b)[i] == b[i - |a|] && (a + b)[j] == b[j - |a|];
        } else {
          assert (a + b)[i] == a[i] && (a + b)[j] == b[j - |a|];
          assert a[i] in a && b[j - |a|] in b;
        }
      }
    }
  }

  /** The concatenation of lists has no repeats exactly when no list has one
      and no two lists share a value. */
  lemma {:induction false} FlattenDistinct<T(!new)>(ss: seq<seq<T>>)
    ensures Distinct(Flatten(ss)) <==>
      (forall i :: 0 <= i < |ss| ==> Distinct(ss[i])) &&
      (forall i, j :: 0 <= i < j < |ss| ==> Disjoint(ss[i], ss[j]))
    decreases |ss|
  {
    if ss != [] {
      var init, last := ss[..|ss| - 1], ss[|ss| - 1];
      FlattenDistinct(init);
      DistinctAppend(Flatten(init), last);
      assert forall i :: 0 <= i < |init| ==> init[i] == ss[i];
      if Distinct(Flatten(ss)) {
        forall i, j | 0 <= i < j < |ss| ensures Disjoint(ss[i], ss[j]) {
          if j == |ss| - 1 {
            forall x | x in ss[i] ensures x !in ss[j] {
              assert x in Flatten(init);
            }
          }
        }
      }
      if (forall i :: 0 <= i < |ss| ==> Distinct(ss[i])) && (forall i, j :: 0 <= i < j < |ss| ==> Disjoint(ss[i], ss[j])) {
        forall x | x in Flatten(init) ensures x !in last {
          var i :| 0 <= i < |init| && x in init[i];
          assert Disjoint(ss[i], ss[|ss| - 1]);
        }
      }
    }
  }

  /** The position of the first x in s (`s.index(x)`). */
  function IndexOf<T(==)>(s: seq<T>, x: T): (i: nat)
    requires x in s
    ensures i < |s| && s[i] == x && x !in s[..i]
  {
    if s[0] == x then 0 else 1 + IndexOf(s[1..], x)
  }

  /** Appending leaves the first position of an element already present. */
  lemma IndexOfAppend<T>(s: seq<T>, t: seq<T>, x: T)
    requires x in s
    ensures IndexOf(s + t, x) == IndexOf(s, x)
  {
    var j := IndexOf(s, x);
    assert (s + t)[j] == x;
    assert (s + t)[..j] == s[..j];
  }

  /** A new element appended last is found at the end. */
  lemma IndexOfSnoc<T>(s: seq<T>, x: T)
    requires x !in s
    ensures IndexOf(s + [x], x) == |s|
  {
    assert (s + [x])[|s|] == x;
  }

  /** In a list without repeats, two elements share a position only if equal. */
  lemma IndexOfInjective<T>(s: seq<T>, x: T, y: T)
    requires x in s && y in s && IndexOf(s, x) == IndexOf(s, y)
    ensures x == y
  {
  }

  lemma FilterSnoc<T(!new)>(p: T -> bool, s: seq<T>, x: T)
    ensures Filter(p, s + [x]) == Filter(p, s) + (if p(x) then [x] else [])
  {
    assert (s + [x])[..|s|] == s;
  }

  lemma DedupeSnoc<T(!new)>(s: seq<T>, x: T)
    ensures Dedupe(s + [x]) == if x in Dedupe(s) then Dedupe(s) else Dedupe(s) + [x]
  {
    assert (s + [x])[..|s|] == s;
  }

  lemma DistinctPerm<T>(a: seq<T>, b: seq<T>)
    requires Distinct(a) && multiset(a) == multiset(b)
    ensures Distinct(b)
  {
    forall x ensures multiset(b)[x] <= 1 {
      DistinctCount(a, x);
    }
    DistinctFromCounts(b);
  }

  lemma {:induction false} DistinctCount<T>(a: seq<T>, x: T)
    requires Distinct(a)
    ensures multiset(a)[x] <= 1
    decreases |a|
  {
    if a != [] {
      assert a == [a[0]] + a[1..];
      assert Distinct(a[1..]);
      DistinctCount(a[1..], x);
      assert a[0] == x ==> x !in a[1..];
    }
  }

  lemma DistinctFromCounts<T>(s: seq<T>)
    requires forall x :: multiset(s)[x] <= 1
    ensures Distinct(s)
  {
    forall i, j | 0 <= i < j < |s| ensures s[i] != s[j] {
      assert s == s[..i] + [s[i]] + s[i + 1..j] + [s[j]] + s[j + 1..];
      assert multiset(s)[s[i]] >= 1 + multiset([s[j]])[s[i]];
    }
  }

  /** Two lists without repeats holding the same values are arrangements of
      each other. */
  lemma DistinctSameElems<T>(a: seq<T>, b: seq<T>)
    requires Distinct(a) && Distinct(b) && forall x :: x in a <==> x in b
    ensures multiset(a) == multiset(b)
  {
    forall x ensures multiset(a)[x] == multiset(b)[x] {
      DistinctCount(a, x);
      DistinctCount(b, x);
      assert x in a <==> x in multiset(a);
      assert x in b <==> x in multiset(b);
    }
  }

  /** `len(set(s)) == 1`: s is non-empty and all its elements are equal. */
  lemma ElemsOne<T>(s: seq<T>)
    ensures |Elems(s)| == 1 <==> s != [] && forall i :: 0 <= i < |s| ==> s[i] == s[0]
  {
    if s != [] && forall i :: 0 <= i < |s| ==> s[i] == s[0] {
      assert Elems(s) == {s[0]};
    }
    if |Elems(s)| == 1 {
      var e := Elems(s);
      assert s[0] in e;
      assert e == (e - {s[0]}) + {s[0]};
      assert e - {s[0]} == {};
      forall i | 0 <= i < |s| ensures s[i] == s[0] {
        assert s[i] in e;
      }
    }
  }

  function Not<T>(p: T -> bool): T -> bool
  {
    x => !p(x)
  }

  lemma FilterCons<T(!new)>(p: T -> bool, a: T, t: seq<T>)
    ensures Filter(p, [a] + t) == (if p(a) then [a] else []) + Filter(p, t)
  {
    FilterAppend(p, [a], t);
    assert [a][..0] == [];
    assert Filter(p, [a]) == (if p(a) then [a] else []);
  }

  /** Filtering twice is filtering once by the conjunction. */
  lemma {:induction false} FilterFilter<T(!new)>(p: T -> bool, q: T -> bool, r: T -> bool, s: seq<T>)
    requires forall x :: r(x) == (p(x) && q(x))
    ensures Filter(q, Filter(p, s)) == Filter(r, s)
    decreases |s|
  {
    if s != [] {
      var init, x := s[..|s| - 1], s[|s| - 1];
      assert s == init + [x];
      FilterFilter(p, q, r, init);
      FilterSnoc(p, init, x);
      FilterSnoc(r, init, x);
      if p(x) {
        FilterSnoc(q, Filter(p, init), x);
        assert Filter(p, s) == Filter(p, init) + [x];
      } else {
        assert Filter(p, s) == Filter(p, init);
      }
    }
  }

  /** Filtering by a predicate every element meets changes nothing. */
  lemma {:induction false} FilterAllTrue<T(!new)>(p: T -> bool, s: seq<T>)
    requires forall x :: x in s ==> p(x)
    ensures Filter(p, s) == s
    decreases |s|
  {
    if s != [] {
      var init, x := s[..|s| - 1], s[|s| - 1];
      assert s == init + [x];
      assert forall y :: y in init ==> y in s;
      FilterAllTrue(p, init);
      FilterSnoc(p, init, x);
    }
  }

  /** `s.remove(x)` of an element meeting p leaves the other elements alone. */
  lemma {:induction false} RemoveFirstFilter<T(!new)>(p: T -> bool, s: seq<T>, x: T)
    requires x in s && p(x)
    ensures Filter(Not(p), RemoveFirst(s, x)) == Filter(Not(p), s)
    decreases |s|
  {
    var a, t := s[0], s[1..];
    assert s == [a] + t;
    FilterCons(Not(p), a, t);
    if a != x {
      RemoveFirstFilter(p, t, x);
      FilterCons(Not(p), a, RemoveFirst(t, x));
    }
  }

  /** ... and takes one x out of those meeting p. */
  lemma {:induction false} RemoveFirstFilterCount<T(!new)>(p: T -> bool, s: seq<T>, x: T)
    requires x in s && p(x)
    ensures multiset(Filter(p, RemoveFirst(s, x))) == multiset(Filter(p, s)) - multiset{x}
    decreases |s|
  {
    var a, t := s[0], s[1..];
    assert s == [a] + t;
    FilterCons(p, a, t);
    var pre: seq<T> := if p(a) then [a] else [];
    if a == x {
      assert RemoveFirst(s, x) == t;
      MultisetTakeBack(multiset(Filter(p, t)), x);
    } else {
      var r := RemoveFirst(t, x);
      assert RemoveFirst(s, x) == [a] + r;
      RemoveFirstFilterCount(p, t, x);
      FilterCons(p, a, r);
      assert x in multiset(Filter(p, t));
      MultisetShift(multiset(pre), multiset(Filter(p, t)), x);
    }
  }

  /** A list with the same elements as `rest` holds rest's head, and
      dropping the head drops one copy of it. */
  lemma HeadIn<T>(f: seq<T>, rest: seq<T>)
    requires rest != [] && multiset(f) == multiset(rest)
    ensures rest[0] in f
    ensures multiset(rest[1..]) == multiset(rest) - multiset{rest[0]}
  {
    var m := multiset(rest[1..]);
    assert rest == [rest[0]] + rest[1..];
    assert multiset(rest) == multiset{rest[0]} + m;
    assert rest[0] in multiset(f);
    MultisetTakeBack(m, rest[0]);
  }

  lemma MultisetTakeBack<T>(m: multiset<T>, x: T)
    ensures multiset{x} + m - multiset{x} == m
  {
  }

  lemma MultisetShift<T>(a: multiset<T>, m: multiset<T>, x: T)
    requires x in m
    ensures a + (m - multiset{x}) == (a + m) - multiset{x}
  {
  }

  /** With no repeats, `s.remove(y)` removes exactly the value y. */
  lemma RemoveFirstDistinct<T>(s: seq<T>, y: T)
    requires y in s && Distinct(s)
    ensures Distinct(RemoveFirst(s, y))
    ensures forall x :: x in RemoveFirst(s, y) <==> x in s && x != y
  {
    var r := RemoveFirst(s, y);
    DistinctCount(s, y);
    forall x ensures x in r <==> x in s && x != y {
      assert x in r <==> x in multiset(r);
      assert x in s <==> x in multiset(s);
    }
    forall x ensures multiset(r)[x] <= 1 {
      DistinctCount(s, x);
    }
    DistinctFromCounts(r);
  }

  /** `[[x] for x in s]` */
  function Singletons<T>(s: seq<T>): (r: seq<seq<T>>)
    ensures |r| == |s| && forall i :: 0 <= i < |s| ==> r[i] == [s[i]]
  {
    if s == [] then [] else [[s[0]]] + Singletons(s[1..])
  }

  lemma InSingletons<T>(s: seq<T>, h: seq<T>)
    ensures h in Singletons(s) <==> |h| == 1 && h[0] in s
  {
    if |h| == 1 && h[0] in s {
      var i :| 0 <= i < |s| && s[i] == h[0];
      assert Singletons(s)[i] == [h[0]] == h;
    }
  }

  lemma SingletonsDistinct<T>(s: seq<T>)
    requires Distinct(s)
    ensures Distinct(Singletons(s))
  {
    var r := Singletons(s);
    forall i, j | 0 <= i < j < |r| ensures r[i] != r[j] {
      assert r[i][0] == s[i] && r[j][0] == s[j];
    }
  }

  lemma SingletonsAppend<T>(a: seq<T>, b: seq<T>)
    ensures Singletons(a + b) == Singletons(a) + Singletons(b)
  {
    var l, r := Singletons(a + b), Singletons(a) + Singletons(b);
    forall i | 0 <= i < |l| ensures l[i] == r[i] {
      if i < |a| {
        assert r[i] == Singletons(a)[i] && (a + b)[i] == a[i];
      } else {
        assert r[i] == Singletons(b)[i - |a|] && (a + b)[i] == b[i - |a|];
      }
    }
  }
}
