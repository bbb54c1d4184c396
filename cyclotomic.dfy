/** q-cyclotomic cosets of the ring Z/nZ: the orbits of multiplication by an
    invertible q.  Ring elements are the residues 0 .. n-1. */
module Cyclotomic {
  import opened Wrappers
  import opened Seqs
  import opened Sorting

  // ---------------------------------------------------------------------
  // Arithmetic modulo n.
  // ---------------------------------------------------------------------

  /** The residue is determined by any decomposition x = d*n + r, 0 <= r < n. */
  lemma ModUnique(x: int, n: int, d: int, r: int)
    requires n > 0 && 0 <= r < n && x == d * n + r
    ensures x % n == r
  {
    var d', r' := x / n, x % n;
    assert (d - d') * n == r' - r;
    assert d - d' >= 1 ==> (d - d') * n >= n;
    assert d - d' <= -1 ==> (d - d') * n <= -n;
  }

  lemma ModMulLeft(a: int, b: int, n: int)
    requires n > 0
    ensures ((a % n) * b) % n == (a * b) % n
  {
    var r := (a % n) * b;
    assert a == (a / n) * n + a % n;
    assert a * b == (a / n) * n * b + r;
    assert r == (r / n) * n + r % n;
    assert a * b == ((a / n) * b + r / n) * n + r % n;
    ModUnique(a * b, n, (a / n) * b + r / n, r % n);
  }

  lemma ModMulRight(a: int, b: int, n: int)
    requires n > 0
    ensures (a * (b % n)) % n == (a * b) % n
  {
    ModMulLeft(b, a, n);
  }

  lemma MulAssoc(a: int, b: int, c: int)
    ensures (a * b) * c == a * (b * c)
  {
  }

  function Pow(q: int, k: nat): int
  {
    if k == 0 then 1 else Pow(q, k - 1) * q
  }

  /** `x * q` in Z/nZ. */
  function Step(n: nat, q: int, x: int): (y: int)
    requires n > 0
    ensures 0 <= y < n
  {
    (x * q) % n
  }

  /** x multiplied k times by q, reducing after every step as the ring does. */
  function Iter(n: nat, q: int, x: int, k: nat): int
    requires n > 0
  {
    if k == 0 then x else Step(n, q, Iter(n, q, x, k - 1))
  }

  /** `~q` succeeds: some residue y has q*y = 1 in Z/nZ. */
  predicate Invertible(n: nat, q: int)
    requires n > 0
  {
    exists y :: 0 <= y < n && (q * y) % n == 1 % n
  }

  /** The iterates are the residues of x * q^k. */
  lemma {:induction false} IterPow(n: nat, q: int, x: int, k: nat)
    requires n > 0 && 0 <= x < n
    ensures Iter(n, q, x, k) == (x * Pow(q, k)) % n
  {
    if k > 0 {
      var p := Pow(q, k - 1);
      var a := x * p;
      IterPow(n, q, x, k - 1);
      assert Iter(n, q, x, k) == ((a % n) * q) % n;
      ModMulLeft(a, q, n);
      MulAssoc(x, p, q);
      assert Pow(q, k) == p * q;
    } else {
      assert x * Pow(q, 0) == x;
    }
  }

  lemma {:induction false} IterRange(n: nat, q: int, x: int, k: nat)
    requires n > 0 && 0 <= x < n
    ensures 0 <= Iter(n, q, x, k) < n
  {
  }

  lemma {:induction false} IterAdd(n: nat, q: int, x: int, a: nat, b: nat)
    requires n > 0
    ensures Iter(n, q, x, a + b) == Iter(n, q, Iter(n, q, x, a), b)
  {
    if b > 0 { IterAdd(n, q, x, a, b - 1); }
  }

  /** Multiplication by an invertible q is one-to-one on residues. */
  lemma StepInjective(n: nat, q: int, x: int, z: int)
    requires n > 0 && Invertible(n, q) && 0 <= x < n && 0 <= z < n
    requires Step(n, q, x) == Step(n, q, z)
    ensures x == z
  {
    var y :| 0 <= y < n && (q * y) % n == 1 % n;
    InverseUndoes(n, q, y, x);
    InverseUndoes(n, q, y, z);
  }

  /** Multiplying by an inverse y of q undoes a step. */
  lemma InverseUndoes(n: nat, q: int, y: int, w: int)
    requires n > 0 && (q * y) % n == 1 % n && 0 <= w < n
    ensures (Step(n, q, w) * y) % n == w
  {
    var s, t := w * q, q * y;
    ModMulLeft(s, y, n);
    assert s * y == w * t;
    ModMulRight(w, t, n);
    assert (Step(n, q, w) * y) % n == (w * (t % n)) % n;
    ModUnique(w, n, 0, w);
    assert (w * (t % n)) % n == w by {
      if n > 1 {
        ModUnique(1, n, 0, 1);
        assert t % n == 1;
      } else {
        assert w == 0 && w * (t % n) == 0;
      }
    }
  }

  lemma {:induction false} IterInjective(n: nat, q: int, x: int, z: int, k: nat)
    requires n > 0 && Invertible(n, q) && 0 <= x < n && 0 <= z < n
    requires Iter(n, q, x, k) == Iter(n, q, z, k)
    ensures x == z
  {
    if k > 0 {
      IterRange(n, q, x, k - 1);
      IterRange(n, q, z, k - 1);
      StepInjective(n, q, Iter(n, q, x, k - 1), Iter(n, q, z, k - 1));
      IterInjective(n, q, x, z, k - 1);
    }
  }

  /** When the iterates at i < j coincide, x itself comes back after j - i steps. */
  lemma Returns(n: nat, q: int, x: int, i: nat, j: nat)
    requires n > 0 && Invertible(n, q) && 0 <= x < n && i < j
    requires Iter(n, q, x, i) == Iter(n, q, x, j)
    ensures Iter(n, q, x, j - i) == x
  {
    IterAdd(n, q, x, j - i, i);
    IterRange(n, q, x, j - i);
    IterInjective(n, q, Iter(n, q, x, j - i), x, i);
  }

  /** The residues 0 .. n-1. */
  function Residues(n: nat): (r: set<int>)
    ensures forall x :: x in r <==> 0 <= x < n
    ensures |r| == n
  {
    if n == 0 then {} else Residues(n - 1) + {n - 1}
  }

  /** A list of distinct residues modulo n has at most n entries. */
  lemma DistinctResidues(s: seq<int>, n: nat)
    requires Distinct(s) && forall i :: 0 <= i < |s| ==> 0 <= s[i] < n
    ensures |s| <= n
  {
    ElemsCard(s);
    var e, all := Elems(s), Residues(n);
    assert all == e + (all - e);
    assert |all| == |e| + |all - e|;
  }

  /** Every residue returns to itself within n multiplications by q. */
  lemma PeriodExists(n: nat, q: int, x: int)
    requires n > 0 && Invertible(n, q) && 0 <= x < n
    ensures exists m :: 1 <= m <= n && Iter(n, q, x, m) == x
  {
    var s := seq(n + 1, i requires 0 <= i <= n => Iter(n, q, x, i));
    forall i | 0 <= i < |s| ensures 0 <= s[i] < n { IterRange(n, q, x, i); }
    if Distinct(s) {
      DistinctResidues(s, n);
    }
    var i, j :| 0 <= i < j < |s| && s[i] == s[j];
    Returns(n, q, x, i, j);
  }

  /** The least m >= k after which x has come back. */
  function FirstReturn(n: nat, q: int, x: int, k: nat): (m: nat)
    requires n > 0 && 1 <= k && exists m :: k <= m <= n && Iter(n, q, x, m) == x
    ensures k <= m <= n && Iter(n, q, x, m) == x
    ensures forall j :: k <= j < m ==> Iter(n, q, x, j) != x
    decreases n - k
  {
    if Iter(n, q, x, k) == x then k else FirstReturn(n, q, x, k + 1)
  }

  /** The size of x's orbit: the least m >= 1 with x * q^m = x. */
  function Period(n: nat, q: int, x: int): (m: nat)
    requires n > 0 && Invertible(n, q) && 0 <= x < n
    ensures 1 <= m <= n && Iter(n, q, x, m) == x
    ensures forall j :: 1 <= j < m ==> Iter(n, q, x, j) != x
  {
    PeriodExists(n, q, x);
    FirstReturn(n, q, x, 1)
  }

  /** x, x*q, x*q^2, ... up to the first return to x: the list the inner loop
      builds before sorting it. */
  function Orbit(n: nat, q: int, x: int): (o: seq<int>)
    requires n > 0 && Invertible(n, q) && 0 <= x < n
    ensures |o| == Period(n, q, x) && o[0] == x
    ensures forall k :: 0 <= k < |o| ==> o[k] == Iter(n, q, x, k)
  {
    seq(Period(n, q, x), k requires 0 <= k < Period(n, q, x) => Iter(n, q, x, k))
  }

  // ---------------------------------------------------------------------
  // Orbits.
  // ---------------------------------------------------------------------

  lemma OrbitDistinct(n: nat, q: int, x: int)
    requires n > 0 && Invertible(n, q) && 0 <= x < n
    ensures Distinct(Orbit(n, q, x))
    ensures forall y :: y in Orbit(n, q, x) ==> 0 <= y < n
  {
    var o := Orbit(n, q, x);
    forall i, j | 0 <= i < j < |o| ensures o[i] != o[j] {
      if o[i] == o[j] { Returns(n, q, x, i, j); }
    }
    forall k | 0 <= k < |o| ensures 0 <= o[k] < n { IterRange(n, q, x, k); }
  }

  /** Every iterate of x lies on x's orbit. */
  lemma {:induction false} OrbitHasIterates(n: nat, q: int, x: int, k: nat)
    requires n > 0 && Invertible(n, q) && 0 <= x < n
    ensures Iter(n, q, x, k) in Orbit(n, q, x)
  {
    var o := Orbit(n, q, x);
    if k > 0 {
      OrbitHasIterates(n, q, x, k - 1);
      var i :| 0 <= i < |o| && o[i] == Iter(n, q, x, k - 1);
      if i + 1 < |o| {
        assert o[i + 1] == Iter(n, q, x, k);
      } else {
        assert Iter(n, q, x, k) == o[0];
      }
    }
  }

  /** The orbit of x0 is the set {x0 * q^k : k >= 0} of Z/nZ. */
  lemma OrbitIsPowers(n: nat, q: int, x: int, y: int)
    requires n > 0 && Invertible(n, q) && 0 <= x < n
    ensures y in Orbit(n, q, x) <==> exists k: nat :: y == (x * Pow(q, k)) % n
  {
    var o := Orbit(n, q, x);
    if y in o {
      var k :| 0 <= k < |o| && o[k] == y;
      IterPow(n, q, x, k);
    }
    if exists k: nat :: y == (x * Pow(q, k)) % n {
      var k: nat :| y == (x * Pow(q, k)) % n;
      IterPow(n, q, x, k);
      OrbitHasIterates(n, q, x, k);
    }
  }

  /** An orbit is closed under multiplication by q. */
  lemma OrbitClosed(n: nat, q: int, x: int, y: int)
    requires n > 0 && Invertible(n, q) && 0 <= x < n && y in Orbit(n, q, x)
    ensures Step(n, q, y) in Orbit(n, q, x)
  {
    var o := Orbit(n, q, x);
    var k :| 0 <= k < |o| && o[k] == y;
    OrbitHasIterates(n, q, x, k + 1);
  }

  /** The orbit of a member of x's orbit lies inside x's orbit. */
  lemma OrbitWithin(n: nat, q: int, x: int, y: int)
    requires n > 0 && Invertible(n, q) && 0 <= x < n && y in Orbit(n, q, x)
    ensures 0 <= y < n && forall z :: z in Orbit(n, q, y) ==> z in Orbit(n, q, x)
  {
    OrbitDistinct(n, q, x);
    var j :| 0 <= j < |Orbit(n, q, x)| && Orbit(n, q, x)[j] == y;
    forall z | z in Orbit(n, q, y) ensures z in Orbit(n, q, x) {
      var k :| 0 <= k < |Orbit(n, q, y)| && Orbit(n, q, y)[k] == z;
      IterAdd(n, q, x, j, k);
      OrbitHasIterates(n, q, x, j + k);
    }
  }

  /** Orbits that share an element are the same set. */
  lemma OrbitsMeet(n: nat, q: int, x: int, y: int, z: int)
    requires n > 0 && Invertible(n, q) && 0 <= x < n && 0 <= y < n
    requires z in Orbit(n, q, x) && z in Orbit(n, q, y)
    ensures Elems(Orbit(n, q, x)) == Elems(Orbit(n, q, y))
    ensures x in Orbit(n, q, y) && y in Orbit(n, q, x)
  {
    OrbitBack(n, q, x, z);
    OrbitBack(n, q, y, z);
    OrbitWithin(n, q, x, z);
    OrbitWithin(n, q, y, z);
    OrbitWithin(n, q, z, x);
    OrbitWithin(n, q, z, y);
  }

  /** x lies on the orbit of each member of its own orbit. */
  lemma OrbitBack(n: nat, q: int, x: int, y: int)
    requires n > 0 && Invertible(n, q) && 0 <= x < n && y in Orbit(n, q, x)
    ensures 0 <= y < n && x in Orbit(n, q, y)
  {
    OrbitDistinct(n, q, x);
    var o := Orbit(n, q, x);
    var j :| 0 <= j < |o| && o[j] == y;
    IterAdd(n, q, x, j, |o| - j);
    OrbitHasIterates(n, q, y, |o| - j);
  }

  /** 0 is alone in its orbit. */
  lemma ZeroOrbit(n: nat, q: int)
    requires n > 0 && Invertible(n, q)
    ensures Orbit(n, q, 0) == [0]
  {
    assert Iter(n, q, 0, 1) == 0;
  }

  // ---------------------------------------------------------------------
  // Python's ordering of integers and of lists of integers.
  // ---------------------------------------------------------------------

  function IntLe(): (int, int) -> bool { (a: int, b: int) => a <= b }

  /** List comparison: lexicographic, a proper prefix first. */
  predicate ListLe(a: seq<int>, b: seq<int>)
    decreases |a|
  {
    |a| == 0 || (|b| > 0 && (a[0] < b[0] || (a[0] == b[0] && ListLe(a[1..], b[1..]))))
  }

  lemma {:induction false} ListLeTotal(a: seq<int>, b: seq<int>)
    ensures ListLe(a, b) || ListLe(b, a)
    decreases |a|
  {
    if |a| > 0 && |b| > 0 && a[0] == b[0] { ListLeTotal(a[1..], b[1..]); }
  }

  lemma {:induction false} ListLeTrans(a: seq<int>, b: seq<int>, c: seq<int>)
    requires ListLe(a, b) && ListLe(b, c)
    ensures ListLe(a, c)
    decreases |a|
  {
    if |a| > 0 && a[0] == b[0] && b[0] == c[0] { ListLeTrans(a[1..], b[1..], c[1..]); }
  }

  lemma {:induction false} ListLeAntisym(a: seq<int>, b: seq<int>)
    requires ListLe(a, b) && ListLe(b, a)
    ensures a == b
    decreases |a|
  {
    if |a| > 0 {
      ListLeAntisym(a[1..], b[1..]);
      assert a == [a[0]] + a[1..] && b == [b[0]] + b[1..];
    }
  }

  function ListOrder(): (seq<int>, seq<int>) -> bool { (a: seq<int>, b: seq<int>) => ListLe(a, b) }

  /** `SortedBy(r, ListOrder())`, stated without the function value. */
  predicate ListsSorted(r: seq<seq<int>>)
  {
    forall i, j :: 0 <= i < j < |r| ==> ListLe(r[i], r[j])
  }

  /** Two sorted lists of lists without repeats holding the same lists are equal. */
  lemma ListsSortedUnique(r1: seq<seq<int>>, r2: seq<seq<int>>)
    requires ListsSorted(r1) && ListsSorted(r2) && Distinct(r1) && Distinct(r2)
    requires forall o :: o in r1 <==> o in r2
    ensures r1 == r2
  {
    DistinctSameElems(r1, r2);
    forall a, b | a in r1 && b in r1 && ListOrder()(a, b) && ListOrder()(b, a) ensures a == b {
      ListLeAntisym(a, b);
    }
    assert SortedBy(r1, ListOrder()) && SortedBy(r2, ListOrder());
    SortedUnique(r1, r2, ListOrder());
  }

  lemma ListOrderTotalPreorder()
    ensures TotalPreorder(ListOrder())
  {
    forall a, b ensures ListOrder()(a, b) || ListOrder()(b, a) { ListLeTotal(a, b); }
    forall a, b, c | ListOrder()(a, b) && ListOrder()(b, c) ensures ListOrder()(a, c) { ListLeTrans(a, b, c); }
  }

  // ---------------------------------------------------------------------
  // What cyclotomic_cosets returns.
  // ---------------------------------------------------------------------

  datatype CosetsError = NotInvertible

  /** The elements the outer loop starts from: the whole ring, or the given
      cosets reduced into it. */
  function Start(n: nat, cosets: Option<seq<int>>): (s: set<int>)
    requires n > 0
    ensures forall x :: x in s ==> 0 <= x < n
  {
    match cosets
    case None => Residues(n)
    case Some(cs) => set x | x in cs :: x % n
  }

  /** o lists, ascending and without repeats, the orbit of an element of
      `start`. */
  ghost predicate IsCoset(n: nat, q: int, start: set<int>, o: seq<int>)
    requires n > 0 && Invertible(n, q) && forall x :: x in start ==> 0 <= x < n
  {
    && SortedBy(o, IntLe()) && Distinct(o)
    && exists x :: x in start && x in o && Elems(o) == Elems(Orbit(n, q, x))
  }

  /** `orbits` lists, in sorted order and each sorted, the distinct orbits
      that meet `start`, and every element of `start` lies on one of them. */
  ghost predicate CosetsOf(n: nat, q: int, start: set<int>, orbits: seq<seq<int>>)
    requires n > 0 && Invertible(n, q) && forall x :: x in start ==> 0 <= x < n
  {
    && ListsSorted(orbits)
    && (forall i {:trigger IsCoset(n, q, start, orbits[i])} :: 0 <= i < |orbits| ==> IsCoset(n, q, start, orbits[i]))
    && (forall x :: x in start ==> exists i :: 0 <= i < |orbits| && x in orbits[i])
    && (forall i, j :: 0 <= i < j < |orbits| ==> Disjoint(orbits[i], orbits[j]))
  }

  lemma IntLeTotalPreorder()
    ensures TotalPreorder(IntLe())
  {
  }

  /** Sorting an orbit keeps its elements, without repeats. */
  lemma SortedOrbit(n: nat, q: int, x: int)
    requires n > 0 && Invertible(n, q) && 0 <= x < n
    ensures var s := SortBy(Orbit(n, q, x), IntLe());
      && SortedBy(s, IntLe()) && Distinct(s) && x in s
      && Elems(s) == Elems(Orbit(n, q, x))
      && forall y :: y in s <==> y in Orbit(n, q, x)
  {
    var o := Orbit(n, q, x);
    var s := SortBy(o, IntLe());
    IntLeTotalPreorder();
    SortSorted(o, IntLe());
    SortPerm(o, IntLe());
    OrbitDistinct(n, q, x);
    DistinctPerm(o, s);
    forall y ensures y in s <==> y in o {
      assert y in s <==> y in multiset(s);
      assert y in o <==> y in multiset(o);
    }
  }

  // ---------------------------------------------------------------------
  // The loops.
  // ---------------------------------------------------------------------

  /** The inner loop: walks x0, x0*q, ... until x0 comes back, discarding each
      element it meets from `rest`. */
  method TraceOrbit(n: nat, q: int, x0: int, rest: set<int>) returns (o: seq<int>, left: set<int>)
    requires n > 0 && Invertible(n, q) && 0 <= x0 < n && x0 !in rest
    ensures o == Orbit(n, q, x0)
    ensures left == rest - Elems(o)
  {
    o := [x0];
    left := rest;
    var x := Step(n, q, x0);
    ghost var k: nat := 1;
    while x != x0
      invariant 1 <= k <= Period(n, q, x0)
      invariant x == Iter(n, q, x0, k)
      invariant o == Orbit(n, q, x0)[..k]
      invariant left == rest - Elems(o)
      decreases Period(n, q, x0) - k
    {
      assert Orbit(n, q, x0)[..k + 1] == o + [x];
      o := o + [x];
      left := left - {x};
      x := Step(n, q, x);
      k := k + 1;
    }
    assert o == Orbit(n, q, x0);
  }

  /** The state of the outer loop: each traced orbit is that of an element
      of `start`, sorted; the traced orbits are disjoint from each other and
      from `rest`; and every element of `start` is traced or still in `rest`. */
  ghost predicate Traced(n: nat, q: int, start: set<int>, rest: set<int>, orbits: seq<seq<int>>, roots: seq<int>)
    requires n > 0 && Invertible(n, q) && forall x :: x in start ==> 0 <= x < n
  {
    && rest <= start
    && |roots| == |orbits|
    && (forall i :: 0 <= i < |roots| ==> roots[i] in start && orbits[i] == SortBy(Orbit(n, q, roots[i]), IntLe()))
    && (forall x :: x in start ==> x in rest || exists i :: 0 <= i < |roots| && x in Orbit(n, q, roots[i]))
    && (forall x, i :: x in rest && 0 <= i < |roots| ==> x !in Orbit(n, q, roots[i]))
    && (forall i, j :: 0 <= i < j < |roots| ==> Disjoint(Orbit(n, q, roots[i]), Orbit(n, q, roots[j])))
  }

  /** cyclotomic_cosets on Z/nZ: fails exactly when q is not invertible, and
      otherwise returns the sorted list of the sorted orbits meeting the
      start set. */
  method CyclotomicCosets(n: nat, q: int, cosets: Option<seq<int>>) returns (r: Result<seq<seq<int>>, CosetsError>)
    requires n > 0
    ensures r.Failure? <==> !Invertible(n, q % n)
    ensures r.Success? ==> Invertible(n, q % n) && CosetsOf(n, q % n, Start(n, cosets), r.value)
  {
    var qq := q % n;
    if !Invertible(n, qq) {
      return Failure(NotInvertible);
    }
    var start := Start(n, cosets);
    var rest := start;
    var orbits: seq<seq<int>> := [];
    ghost var roots: seq<int> := [];
    while rest != {}
      invariant Traced(n, qq, start, rest, orbits, roots)
      decreases |rest|
    {
      var x0 :| x0 in rest;
      TracedStep(n, qq, start, rest, orbits, roots, x0);
      rest := rest - {x0};
      var o, left := TraceOrbit(n, qq, x0, rest);
      o := SortBy(o, IntLe());
      orbits := orbits + [o];
      roots := roots + [x0];
      rest := left;
    }
    r := Success(SortBy(orbits, ListOrder()));
    FinishCosets(n, qq, start, orbits, roots);
  }

  /** One round of the outer loop keeps Traced. */
  lemma TracedStep(n: nat, q: int, start: set<int>, rest: set<int>, orbits: seq<seq<int>>, roots: seq<int>, x0: int)
    requires n > 0 && Invertible(n, q) && forall x :: x in start ==> 0 <= x < n
    requires Traced(n, q, start, rest, orbits, roots) && x0 in rest
    ensures Traced(n, q, start, rest - {x0} - Elems(Orbit(n, q, x0)),
                   orbits + [SortBy(Orbit(n, q, x0), IntLe())], roots + [x0])
  {
    var rest', orbits', roots' := rest - {x0} - Elems(Orbit(n, q, x0)), orbits + [SortBy(Orbit(n, q, x0), IntLe())], roots + [x0];
    NewOrbitDisjoint(n, q, x0, rest, roots);
    assert forall i :: 0 <= i < |roots| ==> roots'[i] == roots[i];
    forall x | x in start ensures x in rest' || exists i :: 0 <= i < |roots'| && x in Orbit(n, q, roots'[i]) {
      if x !in rest' && x in rest {
        assert x == x0 || x in Orbit(n, q, x0);
        assert x in Orbit(n, q, roots'[|roots|]);
      }
    }
    forall x, i | x in rest' && 0 <= i < |roots'| ensures x !in Orbit(n, q, roots'[i]) {
      if i == |roots| {
        assert roots'[i] == x0 && x !in Elems(Orbit(n, q, x0));
      }
    }
    forall i, j | 0 <= i < j < |roots'| ensures Disjoint(Orbit(n, q, roots'[i]), Orbit(n, q, roots'[j])) {
      if j == |roots| {
        assert roots'[j] == x0;
      }
    }
    assert forall i :: 0 <= i < |roots| ==> orbits'[i] == orbits[i];
  }

  /** An element not yet on any traced orbit starts an orbit disjoint from
      all of them. */
  lemma NewOrbitDisjoint(n: nat, q: int, x0: int, rest: set<int>, roots: seq<int>)
    requires n > 0 && Invertible(n, q) && 0 <= x0 < n && x0 in rest
    requires forall i :: 0 <= i < |roots| ==> 0 <= roots[i] < n
    requires forall x, i :: x in rest && 0 <= i < |roots| ==> x !in Orbit(n, q, roots[i])
    ensures forall i :: 0 <= i < |roots| ==> Disjoint(Orbit(n, q, roots[i]), Orbit(n, q, x0))
  {
    forall i, z | 0 <= i < |roots| && z in Orbit(n, q, roots[i]) ensures z !in Orbit(n, q, x0) {
      assert x0 !in Orbit(n, q, roots[i]);
      if z in Orbit(n, q, x0) {
        OrbitsMeet(n, q, roots[i], x0, z);
      }
    }
  }

  /** Orbit `i` of a trace is the sorted orbit of its root. */
  lemma TracedMember(n: nat, q: int, start: set<int>, orbits: seq<seq<int>>, roots: seq<int>, i: nat)
    requires n > 0 && Invertible(n, q) && forall x :: x in start ==> 0 <= x < n
    requires Traced(n, q, start, {}, orbits, roots) && i < |orbits|
    ensures roots[i] in start && roots[i] in orbits[i]
    ensures SortedBy(orbits[i], IntLe()) && Distinct(orbits[i])
    ensures Elems(orbits[i]) == Elems(Orbit(n, q, roots[i]))
    ensures forall y :: y in orbits[i] <==> y in Orbit(n, q, roots[i])
  {
    SortedOrbit(n, q, roots[i]);
  }

  lemma TracedCosets(n: nat, q: int, start: set<int>, orbits: seq<seq<int>>, roots: seq<int>)
    requires n > 0 && Invertible(n, q) && forall x :: x in start ==> 0 <= x < n
    requires Traced(n, q, start, {}, orbits, roots)
    ensures forall i :: 0 <= i < |orbits| ==> IsCoset(n, q, start, orbits[i])
  {
    forall i | 0 <= i < |orbits| ensures IsCoset(n, q, start, orbits[i]) {
      TracedMember(n, q, start, orbits, roots, i);
    }
  }

  lemma TracedCover(n: nat, q: int, start: set<int>, orbits: seq<seq<int>>, roots: seq<int>)
    requires n > 0 && Invertible(n, q) && forall x :: x in start ==> 0 <= x < n
    requires Traced(n, q, start, {}, orbits, roots)
    ensures forall x :: x in start ==> exists i :: 0 <= i < |orbits| && x in orbits[i]
  {
    forall x | x in start ensures exists i :: 0 <= i < |orbits| && x in orbits[i] {
      var i :| 0 <= i < |roots| && x in Orbit(n, q, roots[i]);
      TracedMember(n, q, start, orbits, roots, i);
    }
  }

  lemma TracedDisjoint(n: nat, q: int, start: set<int>, orbits: seq<seq<int>>, roots: seq<int>, i: nat, j: nat)
    requires n > 0 && Invertible(n, q) && forall x :: x in start ==> 0 <= x < n
    requires Traced(n, q, start, {}, orbits, roots)
    requires i < |orbits| && j < |orbits| && i != j
    ensures Disjoint(orbits[i], orbits[j])
  {
    TracedMember(n, q, start, orbits, roots, i);
    TracedMember(n, q, start, orbits, roots, j);
    if i < j {
      assert Disjoint(Orbit(n, q, roots[i]), Orbit(n, q, roots[j]));
    } else {
      assert Disjoint(Orbit(n, q, roots[j]), Orbit(n, q, roots[i]));
    }
  }

  lemma TracedDistinct(n: nat, q: int, start: set<int>, orbits: seq<seq<int>>, roots: seq<int>)
    requires n > 0 && Invertible(n, q) && forall x :: x in start ==> 0 <= x < n
    requires Traced(n, q, start, {}, orbits, roots)
    ensures Distinct(orbits)
  {
    forall i, j | 0 <= i < j < |orbits| ensures orbits[i] != orbits[j] {
      TracedMember(n, q, start, orbits, roots, i);
      TracedMember(n, q, start, orbits, roots, j);
      TracedDisjoint(n, q, start, orbits, roots, i, j);
    }
  }

  /** The traced orbits, each sorted, pairwise disjoint and without repeats. */
  lemma TracedOrbits(n: nat, q: int, start: set<int>, orbits: seq<seq<int>>, roots: seq<int>)
    requires n > 0 && Invertible(n, q) && forall x :: x in start ==> 0 <= x < n
    requires Traced(n, q, start, {}, orbits, roots)
    ensures forall i :: 0 <= i < |orbits| ==> IsCoset(n, q, start, orbits[i])
    ensures forall x :: x in start ==> exists i :: 0 <= i < |orbits| && x in orbits[i]
    ensures forall i, j :: 0 <= i < |orbits| && 0 <= j < |orbits| && i != j ==> Disjoint(orbits[i], orbits[j])
    ensures Distinct(orbits)
  {
    TracedCosets(n, q, start, orbits, roots);
    TracedCover(n, q, start, orbits, roots);
    forall i, j | 0 <= i < |orbits| && 0 <= j < |orbits| && i != j ensures Disjoint(orbits[i], orbits[j]) {
      TracedDisjoint(n, q, start, orbits, roots, i, j);
    }
    TracedDistinct(n, q, start, orbits, roots);
  }

  /** After the outer loop, sorting the collected orbits gives CosetsOf. */
  lemma FinishCosets(n: nat, q: int, start: set<int>, orbits: seq<seq<int>>, roots: seq<int>)
    requires n > 0 && Invertible(n, q) && forall x :: x in start ==> 0 <= x < n
    requires Traced(n, q, start, {}, orbits, roots)
    ensures CosetsOf(n, q, start, SortBy(orbits, ListOrder()))
  {
    TracedOrbits(n, q, start, orbits, roots);
    SortOrbits(orbits);
    CosetsTransfer(n, q, start, orbits, SortBy(orbits, ListOrder()));
  }

  /** `sorted(orbits)` is an ordered rearrangement without repeats. */
  lemma SortOrbits(orbits: seq<seq<int>>)
    requires Distinct(orbits)
    ensures var r := SortBy(orbits, ListOrder());
      SortedBy(r, ListOrder()) && Distinct(r) && forall o :: o in r <==> o in orbits
  {
    var r := SortBy(orbits, ListOrder());
    ListOrderTotalPreorder();
    SortSorted(orbits, ListOrder());
    SortPerm(orbits, ListOrder());
    DistinctPerm(orbits, r);
    forall o ensures o in r <==> o in orbits {
      assert o in r <==> o in multiset(r);
      assert o in orbits <==> o in multiset(orbits);
    }
  }

  /** Any arrangement without repeats of disjoint cosets covering `start`,
      once sorted, meets CosetsOf. */
  lemma CosetsTransfer(n: nat, q: int, start: set<int>, orbits: seq<seq<int>>, r: seq<seq<int>>)
    requires n > 0 && Invertible(n, q) && forall x :: x in start ==> 0 <= x < n
    requires forall i :: 0 <= i < |orbits| ==> IsCoset(n, q, start, orbits[i])
    requires forall x :: x in start ==> exists i :: 0 <= i < |orbits| && x in orbits[i]
    requires forall i, j :: 0 <= i < |orbits| && 0 <= j < |orbits| && i != j ==> Disjoint(orbits[i], orbits[j])
    requires SortedBy(r, ListOrder()) && Distinct(r) && forall o :: o in r <==> o in orbits
    ensures CosetsOf(n, q, start, r)
  {
    assert ListsSorted(r);
    forall i | 0 <= i < |r| ensures IsCoset(n, q, start, r[i]) {
      assert r[i] in orbits;
    }
    forall x | x in start ensures exists i :: 0 <= i < |r| && x in r[i] {
      var a :| 0 <= a < |orbits| && x in orbits[a];
      assert orbits[a] in r;
      var i :| 0 <= i < |r| && r[i] == orbits[a];
    }
    DisjointTransfer(orbits, r);
  }

  /** Pairwise disjointness survives rearranging a list without repeats. */
  lemma DisjointTransfer(orbits: seq<seq<int>>, r: seq<seq<int>>)
    requires forall i, j :: 0 <= i < |orbits| && 0 <= j < |orbits| && i != j ==> Disjoint(orbits[i], orbits[j])
    requires Distinct(r) && forall o :: o in r <==> o in orbits
    ensures forall i, j :: 0 <= i < j < |r| ==> Disjoint(r[i], r[j])
  {
    forall i, j | 0 <= i < j < |r| ensures Disjoint(r[i], r[j]) {
      assert r[i] in r && r[j] in r;
      var a :| 0 <= a < |orbits| && orbits[a] == r[i];
      var b :| 0 <= b < |orbits| && orbits[b] == r[j];
    }
  }

  // ---------------------------------------------------------------------
  // What CosetsOf guarantees.
  // ---------------------------------------------------------------------

  /** No coset list repeats a coset. */
  lemma CosetsDistinct(n: nat, q: int, start: set<int>, r: seq<seq<int>>)
    requires n > 0 && Invertible(n, q) && forall x :: x in start ==> 0 <= x < n
    requires CosetsOf(n, q, start, r)
    ensures Distinct(r)
  {
    forall i, j | 0 <= i < j < |r| ensures r[i] != r[j] {
      assert IsCoset(n, q, start, r[i]);
      var x :| x in start && x in r[i] && Elems(r[i]) == Elems(Orbit(n, q, x));
      assert x !in r[j];
    }
  }

  /** A coset of one list that meets a coset of another equals it. */
  lemma CosetsMeet(n: nat, q: int, start: set<int>, o1: seq<int>, o2: seq<int>, z: int)
    requires n > 0 && Invertible(n, q) && forall x :: x in start ==> 0 <= x < n
    requires IsCoset(n, q, start, o1) && IsCoset(n, q, start, o2) && z in o1 && z in o2
    ensures o1 == o2
  {
    var x1 :| x1 in start && x1 in o1 && Elems(o1) == Elems(Orbit(n, q, x1));
    var x2 :| x2 in start && x2 in o2 && Elems(o2) == Elems(Orbit(n, q, x2));
    assert z in Elems(o1) && z in Elems(o2);
    OrbitsMeet(n, q, x1, x2, z);
    forall y ensures y in o1 <==> y in o2 {
      assert y in o1 <==> y in Elems(o1);
      assert y in o2 <==> y in Elems(o2);
    }
    DistinctSameElems(o1, o2);
    SortedUnique(o1, o2, IntLe());
  }

  /** Every coset of one list appears in any other list meeting CosetsOf. */
  lemma CosetsIncluded(n: nat, q: int, start: set<int>, r1: seq<seq<int>>, r2: seq<seq<int>>, o: seq<int>)
    requires n > 0 && Invertible(n, q) && forall x :: x in start ==> 0 <= x < n
    requires CosetsOf(n, q, start, r1) && CosetsOf(n, q, start, r2) && o in r1
    ensures o in r2
  {
    var i :| 0 <= i < |r1| && r1[i] == o;
    assert IsCoset(n, q, start, o);
    var x :| x in start && x in o && Elems(o) == Elems(Orbit(n, q, x));
    var j :| 0 <= j < |r2| && x in r2[j];
    CosetsMeet(n, q, start, o, r2[j], x);
  }

  /** The result does not depend on the order in which `rest.pop()` hands out
      elements: any two lists meeting CosetsOf are equal. */
  lemma CosetsUnique(n: nat, q: int, start: set<int>, r1: seq<seq<int>>, r2: seq<seq<int>>)
    requires n > 0 && Invertible(n, q) && forall x :: x in start ==> 0 <= x < n
    requires CosetsOf(n, q, start, r1) && CosetsOf(n, q, start, r2)
    ensures r1 == r2
  {
    forall o ensures o in r1 <==> o in r2 {
      if o in r1 { CosetsIncluded(n, q, start, r1, r2, o); }
      if o in r2 { CosetsIncluded(n, q, start, r2, r1, o); }
    }
    CosetsDistinct(n, q, start, r1);
    CosetsDistinct(n, q, start, r2);
    ListsSortedUnique(r1, r2);
  }

  /** Each coset is closed under multiplication by q and is the set
      {x0 * q^k : k >= 0} of one of its members x0. */
  lemma CosetsAreOrbits(n: nat, q: int, start: set<int>, r: seq<seq<int>>, i: nat)
    requires n > 0 && Invertible(n, q) && forall x :: x in start ==> 0 <= x < n
    requires CosetsOf(n, q, start, r) && i < |r|
    ensures forall y :: y in r[i] ==> 0 <= y < n && Step(n, q, y) in r[i]
    ensures exists x0 :: x0 in start && x0 in r[i] && (forall y :: y in r[i] <==> exists k: nat :: y == (x0 * Pow(q, k)) % n)
  {
    assert IsCoset(n, q, start, r[i]);
    var x0 :| x0 in start && x0 in r[i] && Elems(r[i]) == Elems(Orbit(n, q, x0));
    assert forall y :: y in r[i] <==> y in Elems(Orbit(n, q, x0));
    OrbitDistinct(n, q, x0);
    forall y | y in r[i] ensures 0 <= y < n && Step(n, q, y) in r[i] {
      OrbitClosed(n, q, x0, y);
    }
    forall y ensures y in r[i] <==> exists k: nat :: y == (x0 * Pow(q, k)) % n {
      OrbitIsPowers(n, q, x0, y);
    }
  }

  /** With `cosets` omitted the orbits partition the ring: every residue lies
      in exactly one of them, and they hold nothing else. */
  lemma CosetsPartitionRing(n: nat, q: int, r: seq<seq<int>>)
    requires n > 0 && Invertible(n, q)
    requires CosetsOf(n, q, Start(n, None), r)
    ensures forall x :: x in Residues(n) ==> exists i :: 0 <= i < |r| && x in r[i]
    ensures forall i, x :: 0 <= i < |r| && x in r[i] ==> x in Residues(n)
    ensures forall i, j, x :: 0 <= i < |r| && 0 <= j < |r| && x in r[i] && x in r[j] ==> i == j
  {
    var start := Start(n, None);
    forall i, x | 0 <= i < |r| && x in r[i] ensures x in Residues(n) {
      CosetsAreOrbits(n, q, start, r, i);
    }
    forall i, j, x | 0 <= i < |r| && 0 <= j < |r| && x in r[i] && x in r[j] ensures i == j {
      CosetsExclusive(n, q, start, r, x, i, j);
    }

  }

  /** No element lies in two cosets of the list. */
  lemma CosetsExclusive(n: nat, q: int, start: set<int>, r: seq<seq<int>>, x: int, i: nat, j: nat)
    requires n > 0 && Invertible(n, q) && forall x :: x in start ==> 0 <= x < n
    requires CosetsOf(n, q, start, r)
    requires i < |r| && j < |r| && x in r[i] && x in r[j]
    ensures i == j
  {
  }

  /** With `cosets` given, each returned orbit contains one of them. */
  lemma CosetsMeetGiven(n: nat, q: int, cs: seq<int>, r: seq<seq<int>>, i: nat)
    requires n > 0 && Invertible(n, q)
    requires CosetsOf(n, q, Start(n, Some(cs)), r) && i < |r|
    ensures exists c :: c in cs && c % n in r[i]
  {
    var start := Start(n, Some(cs));
    assert IsCoset(n, q, start, r[i]);
    var x :| x in start && x in r[i] && Elems(r[i]) == Elems(Orbit(n, q, x));
    var c :| c in cs && x == c % n;
    assert c in cs && c % n in r[i];
  }

  /** With `cosets` given, each of them lies in exactly one returned orbit. */
  lemma GivenInOneCoset(n: nat, q: int, cs: seq<int>, r: seq<seq<int>>, c: int)
    requires n > 0 && Invertible(n, q)
    requires CosetsOf(n, q, Start(n, Some(cs)), r) && c in cs
    ensures exists i :: 0 <= i < |r| && c % n in r[i]
    ensures forall i, j :: 0 <= i < |r| && 0 <= j < |r| && c % n in r[i] && c % n in r[j] ==> i == j
  {
    var start := Start(n, Some(cs));
    assert c % n in start;
    forall i, j | 0 <= i < |r| && 0 <= j < |r| && c % n in r[i] && c % n in r[j] ensures i == j {
      CosetsExclusive(n, q, start, r, c % n, i, j);
    }
  }

  /** When 0 is a starting element (always so without `cosets`), the first
      coset is [0]. */
  lemma ZeroCosetFirst(n: nat, q: int, start: set<int>, r: seq<seq<int>>)
    requires n > 0 && Invertible(n, q) && forall x :: x in start ==> 0 <= x < n
    requires CosetsOf(n, q, start, r) && 0 in start
    ensures |r| > 0 && r[0] == [0]
  {
    var i :| 0 <= i < |r| && 0 in r[i];
    assert IsCoset(n, q, start, r[i]);
    var x :| x in start && x in r[i] && Elems(r[i]) == Elems(Orbit(n, q, x));
    ZeroOrbit(n, q);
    assert 0 in Elems(r[i]);
    assert 0 in Orbit(n, q, x);
    OrbitsMeet(n, q, x, 0, 0);
    assert Elems(r[i]) == {0};
    assert r[i] == [0] by {
      ElemsCard(r[i]);
      assert |Elems(r[i])| == 1;
      assert |r[i]| == 1;
      assert r[i][0] in Elems(r[i]);
    }
    // r[0] is the least coset and r[i] == [0], so r[0] starts with 0.
    ListLeTotal(r[i], r[i]);
    assert ListLe(r[0], [0]);
    assert IsCoset(n, q, start, r[0]);
    var y :| y in start && y in r[0] && Elems(r[0]) == Elems(Orbit(n, q, y));
    OrbitDistinct(n, q, y);
    assert r[0][0] in Elems(Orbit(n, q, y));
    assert 0 in r[0];
    CosetsExclusive(n, q, start, r, 0, 0, i);
  }

  // ---------------------------------------------------------------------
  // Worked examples.
  // ---------------------------------------------------------------------

  /** A list that starts at x, steps by q and comes back to x only at its end
      is x's orbit. */
  lemma OrbitIs(n: nat, q: int, x: int, o: seq<int>)
    requires n > 0 && Invertible(n, q) && 0 <= x < n
    requires |o| > 0 && o[0] == x && x !in o[1..]
    requires forall k :: 0 <= k < |o| - 1 ==> o[k + 1] == Step(n, q, o[k])
    requires Step(n, q, o[|o| - 1]) == x
    ensures Orbit(n, q, x) == o
  {
    forall k | 0 <= k < |o| ensures Iter(n, q, x, k) == o[k] {
      IterAlong(n, q, x, o, k);
    }
    IterAlong(n, q, x, o, |o| - 1);
    assert Iter(n, q, x, |o|) == x;
    forall j | 1 <= j < |o| ensures Iter(n, q, x, j) != x {
      assert o[j] == o[1..][j - 1];
    }
    var m := Period(n, q, x);
    assert m <= |o|;
    assert m >= |o|;
  }

  lemma {:induction false} IterAlong(n: nat, q: int, x: int, o: seq<int>, k: nat)
    requires n > 0 && |o| > 0 && o[0] == x && k < |o|
    requires forall k :: 0 <= k < |o| - 1 ==> o[k + 1] == Step(n, q, o[k])
    ensures Iter(n, q, x, k) == o[k]
  {
    if k > 0 { IterAlong(n, q, x, o, k - 1); }
  }

  lemma Invertible26()
    ensures Invertible(26, 3)
  {
    assert (3 * 9) % 26 == 1 % 26;
  }

  /** Z/26Z with q = 3 and cosets [1]: the single coset [1, 3, 9]. */
  lemma Example26(r: seq<seq<int>>)
    requires Invertible(26, 3) && CosetsOf(26, 3, Start(26, Some([1])), r)
    ensures r == [[1, 3, 9]]
  {
    var cs: seq<int> := [1];
    var start := Start(26, Some(cs));
    assert start == {1} by {
      assert cs[0] in cs && cs[0] % 26 == 1;
      forall x | x in start ensures x == 1 { }
    }
    var o: seq<int> := [1, 3, 9];
    OrbitIs(26, 3, 1, o);
    var l: seq<seq<int>> := [o];
    assert IsCoset(26, 3, start, o) by {
      assert 1 in start && 1 in o && Elems(o) == Elems(Orbit(26, 3, 1));
    }
    assert IsCoset(26, 3, start, l[0]);
    assert 1 in l[0];
    assert CosetsOf(26, 3, start, l);
    CosetsUnique(26, 3, start, r, l);
  }
}
