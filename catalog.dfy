/** The catalog of named normal-form games: parameter guards and payoff
    matrices.  A game is a pair of integer matrices, player 1 choosing the
    row and player 2 the column; a zero-sum game built from one matrix gives
    player 2 its negation. */
module Catalog {
  import opened Wrappers

  type Matrix = seq<seq<int>>

  datatype Bimatrix = Bimatrix(a: Matrix, b: Matrix)

  /** The TypeError raised when the payoffs break the defining inequalities. */
  datatype CatalogError = PayoffOrder

  predicate IsMatrix(m: Matrix, rows: nat, cols: nat)
  {
    |m| == rows && forall i :: 0 <= i < rows ==> |m[i]| == cols
  }

  predicate Shaped(g: Bimatrix, rows: nat, cols: nat)
  {
    IsMatrix(g.a, rows, cols) && IsMatrix(g.b, rows, cols)
  }

  function Transpose(m: Matrix, rows: nat, cols: nat): (t: Matrix)
    requires IsMatrix(m, rows, cols)
    ensures IsMatrix(t, cols, rows)
    ensures forall i, j :: 0 <= i < cols && 0 <= j < rows ==> t[i][j] == m[j][i]
  {
    seq(cols, i requires 0 <= i < cols => seq(rows, j requires 0 <= j < rows => m[j][i]))
  }

  function Negate(m: Matrix): (r: Matrix)
    ensures |r| == |m| && forall i :: 0 <= i < |m| ==> |r[i]| == |m[i]|
    ensures forall i, j :: 0 <= i < |m| && 0 <= j < |m[i]| ==> r[i][j] == -m[i][j]
  {
    seq(|m|, i requires 0 <= i < |m| => seq(|m[i]|, j requires 0 <= j < |m[i]| => -m[i][j]))
  }

  /** NormalFormGame([A]): the zero-sum game in which player 2 receives -A. */
  function ZeroSum(m: Matrix): Bimatrix { Bimatrix(m, Negate(m)) }

  // ---------------------------------------------------------------------
  // Equilibria, the property each catalog entry is chosen to illustrate.
  // ---------------------------------------------------------------------

  /** Neither player gains by deviating alone from the profile (i, j). */
  predicate PureNash(g: Bimatrix, rows: nat, cols: nat, i: nat, j: nat)
    requires Shaped(g, rows, cols) && i < rows && j < cols
  {
    && (forall k :: 0 <= k < rows ==> g.a[k][j] <= g.a[i][j])
    && (forall l :: 0 <= l < cols ==> g.b[i][l] <= g.b[i][j])
  }

  /** Every unilateral deviation from (i, j) strictly loses. */
  predicate StrictNash(g: Bimatrix, rows: nat, cols: nat, i: nat, j: nat)
    requires Shaped(g, rows, cols) && i < rows && j < cols
  {
    && (forall k :: 0 <= k < rows && k != i ==> g.a[k][j] < g.a[i][j])
    && (forall l :: 0 <= l < cols && l != j ==> g.b[i][l] < g.b[i][j])
  }

  /** Row s strictly dominates row t for player 1. */
  predicate RowDominates(g: Bimatrix, rows: nat, cols: nat, s: nat, t: nat)
    requires Shaped(g, rows, cols) && s < rows && t < rows
  {
    forall j :: 0 <= j < cols ==> g.a[t][j] < g.a[s][j]
  }

  /** Column s strictly dominates column t for player 2. */
  predicate ColDominates(g: Bimatrix, rows: nat, cols: nat, s: nat, t: nat)
    requires Shaped(g, rows, cols) && s < cols && t < cols
  {
    forall i :: 0 <= i < rows ==> g.b[i][t] < g.b[i][s]
  }

  // ---------------------------------------------------------------------
  // Prisoner's dilemma.  Strategy 0 cooperates, strategy 1 defects.
  // ---------------------------------------------------------------------

  function PrisonersDilemma(R: int, P: int, S: int, T: int): (r: Result<Bimatrix, CatalogError>)
    ensures r.Success? <==> T > R > P > S
    ensures r.Success? ==> Shaped(r.value, 2, 2) && r.value.b == Transpose(r.value.a, 2, 2)
    ensures r.Success? ==> (r.value.a[0][0] == R && r.value.a[0][1] == S && r.value.a[1][0] == T && r.value.a[1][1] == P)
  {
    if !(T > R > P > S) then Failure(PayoffOrder)
    else var A := [[R, S], [T, P]]; Success(Bimatrix(A, Transpose(A, 2, 2)))
  }

  /** The dilemma: defecting strictly dominates cooperating for both players,
      so mutual defection is the only equilibrium, and yet both players are
      better off when both cooperate. */
  lemma PrisonersDilemmaDilemma(R: int, P: int, S: int, T: int)
    requires PrisonersDilemma(R, P, S, T).Success?
    ensures var g := PrisonersDilemma(R, P, S, T).value;
      && RowDominates(g, 2, 2, 1, 0) && ColDominates(g, 2, 2, 1, 0)
      && (forall i: nat, j: nat :: i < 2 && j < 2 ==> (PureNash(g, 2, 2, i, j) <==> i == 1 && j == 1))
      && g.a[0][0] > g.a[1][1] && g.b[0][0] > g.b[1][1]
  {
  }

  // ---------------------------------------------------------------------
  // Coordination and anti-coordination games.
  // ---------------------------------------------------------------------

  function TwoByTwo(A: int, a: int, B: int, b: int, C: int, c: int, D: int, d: int): (g: Bimatrix)
    ensures Shaped(g, 2, 2)
  {
    Bimatrix([[A, C], [B, D]], [[a, c], [b, d]])
  }

  function CoordinationGame(A: int, a: int, B: int, b: int, C: int, c: int, D: int, d: int): (r: Result<Bimatrix, CatalogError>)
    ensures r.Success? <==> A > B && D > C && a > c && d > b
    ensures r.Success? ==> r.value == TwoByTwo(A, a, B, b, C, c, D, d)
  {
    if !(A > B && D > C && a > c && d > b) then Failure(PayoffOrder)
    else Success(TwoByTwo(A, a, B, b, C, c, D, d))
  }

  /** The guard accepts exactly the payoffs for which both matching profiles
      are strict equilibria; then neither mismatched profile is one. */
  lemma CoordinationEquilibria(A: int, a: int, B: int, b: int, C: int, c: int, D: int, d: int)
    ensures var g := TwoByTwo(A, a, B, b, C, c, D, d);
      CoordinationGame(A, a, B, b, C, c, D, d).Success? <==> StrictNash(g, 2, 2, 0, 0) && StrictNash(g, 2, 2, 1, 1)
    ensures var g := TwoByTwo(A, a, B, b, C, c, D, d);
      CoordinationGame(A, a, B, b, C, c, D, d).Success? ==> !PureNash(g, 2, 2, 0, 1) && !PureNash(g, 2, 2, 1, 0)
  {
    var g := TwoByTwo(A, a, B, b, C, c, D, d);
    assert StrictNash(g, 2, 2, 0, 0) ==> g.a[1][0] < g.a[0][0] && g.b[0][1] < g.b[0][0];
    assert StrictNash(g, 2, 2, 1, 1) ==> g.a[0][1] < g.a[1][1] && g.b[1][0] < g.b[1][1];
  }

  function AntiCoordinationGame(A: int, a: int, B: int, b: int, C: int, c: int, D: int, d: int): (r: Result<Bimatrix, CatalogError>)
    ensures r.Success? <==> A < B && D < C && a < c && d < b
    ensures r.Success? ==> r.value == TwoByTwo(A, a, B, b, C, c, D, d)
  {
    if !(A < B && D < C && a < c && d < b) then Failure(PayoffOrder)
    else Success(TwoByTwo(A, a, B, b, C, c, D, d))
  }

  /** The guard accepts exactly the payoffs for which both mismatched profiles
      are strict equilibria; then neither matching profile is one. */
  lemma AntiCoordinationEquilibria(A: int, a: int, B: int, b: int, C: int, c: int, D: int, d: int)
    ensures var g := TwoByTwo(A, a, B, b, C, c, D, d);
      AntiCoordinationGame(A, a, B, b, C, c, D, d).Success? <==> StrictNash(g, 2, 2, 0, 1) && StrictNash(g, 2, 2, 1, 0)
    ensures var g := TwoByTwo(A, a, B, b, C, c, D, d);
      AntiCoordinationGame(A, a, B, b, C, c, D, d).Success? ==> !PureNash(g, 2, 2, 0, 0) && !PureNash(g, 2, 2, 1, 1)
  {
    var g := TwoByTwo(A, a, B, b, C, c, D, d);
    assert StrictNash(g, 2, 2, 0, 1) ==> g.a[1][1] < g.a[0][1] && g.b[0][0] < g.b[0][1];
    assert StrictNash(g, 2, 2, 1, 0) ==> g.a[0][0] < g.a[1][0] && g.b[1][1] < g.b[1][0];
  }

  // ---------------------------------------------------------------------
  // The fixed-parameter entries delegate to the guarded constructors with
  // arguments their guards accept.
  // ---------------------------------------------------------------------

  function BattleOfTheSexes(): (r: Result<Bimatrix, CatalogError>)
    ensures r.Success? && Shaped(r.value, 2, 2) && StrictNash(r.value, 2, 2, 0, 0) && StrictNash(r.value, 2, 2, 1, 1)
  {
    CoordinationEquilibria(3, 2, 0, 0, 1, 1, 2, 3);
    CoordinationGame(3, 2, 0, 0, 1, 1, 2, 3)
  }

  function StagHunt(): (r: Result<Bimatrix, CatalogError>)
    ensures r.Success? && Shaped(r.value, 2, 2) && StrictNash(r.value, 2, 2, 0, 0) && StrictNash(r.value, 2, 2, 1, 1)
  {
    CoordinationEquilibria(5, 5, 4, 0, 0, 4, 2, 2);
    CoordinationGame(5, 5, 4, 0, 0, 4, 2, 2)
  }

  function HawkDove(): (r: Result<Bimatrix, CatalogError>)
    ensures r.Success? && Shaped(r.value, 2, 2) && StrictNash(r.value, 2, 2, 0, 1) && StrictNash(r.value, 2, 2, 1, 0)
  {
    AntiCoordinationEquilibria(0, 0, 1, 3, 3, 1, 2, 2);
    AntiCoordinationGame(0, 0, 1, 3, 3, 1, 2, 2)
  }

  function Chicken(): (r: Result<Bimatrix, CatalogError>)
    ensures r.Success? && Shaped(r.value, 2, 2) && StrictNash(r.value, 2, 2, 0, 1) && StrictNash(r.value, 2, 2, 1, 0)
  {
    AntiCoordinationEquilibria(0, 0, 1, -1, -1, 1, -10, -10);
    AntiCoordinationGame(0, 0, 1, -1, -1, 1, -10, -10)
  }

  // ---------------------------------------------------------------------
  // The default arguments of the guarded constructors.
  // ---------------------------------------------------------------------

  /** `PrisonersDilemma()` with R = -2, P = -4, S = -5, T = 0 passes the guard
      and gives the documented matrix. */
  lemma PrisonersDilemmaDefaults()
    ensures var r := PrisonersDilemma(-2, -4, -5, 0);
      r.Success? && r.value.a == [[-2, -5], [0, -4]] && r.value.b == [[-2, 0], [-5, -4]]
  {
    var r := PrisonersDilemma(-2, -4, -5, 0);
    assert r.value.b[0] == [-2, 0] && r.value.b[1] == [-5, -4];
  }

  /** `CoordinationGame()` with A = 10, a = 5, B = b = C = c = 0, D = 5,
      d = 10 passes the guard, and both matching profiles are strict
      equilibria. */
  lemma CoordinationGameDefaults()
    ensures var r := CoordinationGame(10, 5, 0, 0, 0, 0, 5, 10);
      r.Success? && Shaped(r.value, 2, 2) && StrictNash(r.value, 2, 2, 0, 0) && StrictNash(r.value, 2, 2, 1, 1)
  {
    CoordinationEquilibria(10, 5, 0, 0, 0, 0, 5, 10);
  }

  /** `AntiCoordinationGame()` with A = a = 3, B = 5, b = C = 1, c = 5,
      D = d = 0 passes the guard, and both mismatched profiles are strict
      equilibria. */
  lemma AntiCoordinationGameDefaults()
    ensures var r := AntiCoordinationGame(3, 3, 5, 1, 1, 5, 0, 0);
      r.Success? && Shaped(r.value, 2, 2) && StrictNash(r.value, 2, 2, 0, 1) && StrictNash(r.value, 2, 2, 1, 0)
  {
    AntiCoordinationEquilibria(3, 3, 5, 1, 1, 5, 0, 0);
  }

  // ---------------------------------------------------------------------
  // Fixed matrices.
  // ---------------------------------------------------------------------

  function Pigs(): (g: Bimatrix)
    ensures Shaped(g, 2, 2)
  {
    Bimatrix([[4, 2], [6, 0]], [[2, 3], [-1, 0]])
  }

  /** The single equilibrium: the dominant pig presses, the other waits. */
  lemma PigsEquilibrium()
    ensures forall i: nat, j: nat :: i < 2 && j < 2 ==> (PureNash(Pigs(), 2, 2, i, j) <==> i == 0 && j == 1)
  {
    var g := Pigs();
    assert !PureNash(g, 2, 2, 0, 0) by { assert g.a[1][0] > g.a[0][0]; }
    assert !PureNash(g, 2, 2, 1, 0) by { assert g.b[1][1] > g.b[1][0]; }
    assert !PureNash(g, 2, 2, 1, 1) by { assert g.a[0][1] > g.a[1][1]; }
  }

  function MatchingPennies(): (g: Bimatrix)
    ensures Shaped(g, 2, 2)
  {
    ZeroSum([[1, -1], [-1, 1]])
  }

  function RPS(): (g: Bimatrix)
    ensures Shaped(g, 3, 3)
  {
    ZeroSum([[0, -1, 1], [1, 0, -1], [-1, 1, 0]])
  }

  function RPSLS(): (g: Bimatrix)
    ensures Shaped(g, 5, 5)
  {
    ZeroSum([[0, -1, 1, 1, -1],
             [1, 0, -1, -1, 1],
             [-1, 1, 0, 1, -1],
             [-1, 1, -1, 0, 1],
             [1, -1, 1, -1, 0]])
  }

  /** A symmetric zero-sum game: what one player wins from a pair of choices
      the other wins with the roles exchanged. */
  predicate SkewSymmetric(m: Matrix, k: nat)
    requires IsMatrix(m, k, k)
  {
    forall i, j :: 0 <= i < k && 0 <= j < k ==> m[i][j] == -m[j][i]
  }

  /** In a skew-symmetric zero-sum game every profile off the diagonal has a
      winner, and a profile on the diagonal is no equilibrium as soon as some
      choice beats the diagonal choice. */
  lemma NoPureNashWhenBeaten(m: Matrix, k: nat, i: nat, j: nat, w: nat)
    requires IsMatrix(m, k, k) && SkewSymmetric(m, k) && i < k && j < k && w < k
    requires i == j ==> m[w][i] > 0
    requires i != j ==> m[i][j] != 0
    ensures !PureNash(ZeroSum(m), k, k, i, j)
  {
    var g := ZeroSum(m);
    if i == j {
      assert g.a[w][j] > g.a[i][j];
    } else if m[i][j] < 0 {
      assert g.a[j][j] > g.a[i][j];
    } else {
      assert g.b[i][i] == 0 && g.b[i][j] < 0;
    }
  }

  /** Matching pennies has no equilibrium in pure strategies: on a match
      player 2 switches, on a mismatch player 1 does. */
  lemma MatchingPenniesNoPureNash(i: nat, j: nat)
    requires i < 2 && j < 2
    ensures !PureNash(MatchingPennies(), 2, 2, i, j)
  {
    var mp := MatchingPennies();
    if i == j { assert mp.b[i][1 - j] > mp.b[i][j]; } else { assert mp.a[j][j] > mp.a[i][j]; }
  }

  /** Rock-paper-scissors has no equilibrium in pure strategies. */
  lemma RPSNoPureNash(i: nat, j: nat)
    requires i < 3 && j < 3
    ensures !PureNash(RPS(), 3, 3, i, j)
  {
    var m := RPS().a;
    assert SkewSymmetric(m, 3);
    NoPureNashWhenBeaten(m, 3, i, j, (i + 1) % 3);
  }

  /** Rock-paper-scissors-lizard-Spock has no equilibrium in pure strategies. */
  lemma RPSLSNoPureNash(i: nat, j: nat)
    requires i < 5 && j < 5
    ensures !PureNash(RPSLS(), 5, 5, i, j)
  {
    var m := RPSLS().a;
    RPSLSSkew(m);
    var beats: seq<nat> := [1, 2, 0, 0, 1];
    assert m[beats[i]][i] > 0;
    NoPureNashWhenBeaten(m, 5, i, j, beats[i]);
  }

  lemma RPSLSSkew(m: Matrix)
    requires m == RPSLS().a
    ensures IsMatrix(m, 5, 5) && SkewSymmetric(m, 5)
    ensures forall i, j :: 0 <= i < 5 && 0 <= j < 5 && i != j ==> m[i][j] != 0
  {
  }

  // ---------------------------------------------------------------------
  // Traveller's dilemma.  Row and column k both stand for the claim m - k,
  // so the claims run from m down to 2.
  // ---------------------------------------------------------------------

  function Sign(x: int): int { if x > 0 then 1 else if x < 0 then -1 else 0 }

  function Min(x: int, y: int): int { if x <= y then x else y }

  /** What a traveller claiming `mine` receives when the other claims `theirs`. */
  function Claim(mine: int, theirs: int): int
  {
    Min(mine, theirs) + 2 * Sign(theirs - mine)
  }

  function Strategies(m: int): nat { if m >= 2 then m - 1 else 0 }

  function TravellersDilemma(m: int): (g: Bimatrix)
    ensures Shaped(g, Strategies(m), Strategies(m))
    ensures g.b == Transpose(g.a, Strategies(m), Strategies(m))
    ensures forall i, j :: 0 <= i < Strategies(m) && 0 <= j < Strategies(m) ==> g.a[i][j] == Claim(m - i, m - j)
  {
    var k := Strategies(m);
    var A := seq(k, i requires 0 <= i < k => seq(k, j requires 0 <= j < k => Claim(m - i, m - j)));
    Bimatrix(A, Transpose(A, k, k))
  }

  /** Equal claims are paid in full; the lower claimant earns the lower claim
      plus 2 and the higher claimant the lower claim minus 2. */
  lemma TravellersPayments(m: int, i: nat, j: nat)
    requires i < Strategies(m) && j < Strategies(m)
    ensures var g := TravellersDilemma(m);
      && (i == j ==> g.a[i][j] == m - i && g.b[i][j] == m - i)
      && (i > j ==> g.a[i][j] == m - i + 2 && g.b[i][j] == m - i - 2)
      && (i < j ==> g.a[i][j] == m - j - 2 && g.b[i][j] == m - j + 2)
  {
  }

  /** The corner the default game shows (m = 10: entries 10 and then 11):
      the top-left entry is the highest claim m, the one below it m + 1. */
  lemma TravellersCorner(m: int)
    requires m >= 3
    ensures TravellersDilemma(m).a[0][0] == m && TravellersDilemma(m).a[1][0] == m + 1
  {
    TravellersPayments(m, 0, 0);
    TravellersPayments(m, 1, 0);
  }

  /** Both claiming the least value 2 is an equilibrium. */
  lemma TravellersLeastIsNash(m: int)
    requires m >= 2
    ensures PureNash(TravellersDilemma(m), Strategies(m), Strategies(m), m - 2, m - 2)
  {
    var g := TravellersDilemma(m);
    var k := Strategies(m);
    var i := m - 2;
    forall r | 0 <= r < k ensures g.a[r][i] <= g.a[i][i] { TravellersPayments(m, r, i); }
    forall l | 0 <= l < k ensures g.b[i][l] <= g.b[i][i] { TravellersPayments(m, i, l); }
  }

  lemma RowDeviation(g: Bimatrix, rows: nat, cols: nat, i: nat, j: nat, k: nat)
    requires Shaped(g, rows, cols) && i < rows && j < cols && k < rows
    requires g.a[k][j] > g.a[i][j]
    ensures !PureNash(g, rows, cols, i, j)
  {
  }

  lemma ColDeviation(g: Bimatrix, rows: nat, cols: nat, i: nat, j: nat, l: nat)
    requires Shaped(g, rows, cols) && i < rows && j < cols && l < cols
    requires g.b[i][l] > g.b[i][j]
    ensures !PureNash(g, rows, cols, i, j)
  {
  }

  /** Against a claim of at least 3 player 1 undercuts it by one or, when it
      already does, player 2 does better matching player 1's claim. */
  lemma TravellersHighColumn(m: int, i: nat, j: nat)
    requires m >= 2 && i < Strategies(m) && j < m - 2
    ensures !PureNash(TravellersDilemma(m), Strategies(m), Strategies(m), i, j)
  {
    var g := TravellersDilemma(m);
    var k := Strategies(m);
    TravellersPayments(m, i, j);
    if i != j + 1 {
      TravellersPayments(m, j + 1, j);
      RowDeviation(g, k, k, i, j, j + 1);
    } else {
      TravellersPayments(m, i, i);
      ColDeviation(g, k, k, i, j, i);
    }
  }

  /** The same with the roles exchanged. */
  lemma TravellersHighRow(m: int, i: nat, j: nat)
    requires m >= 2 && i < m - 2 && j < Strategies(m)
    ensures !PureNash(TravellersDilemma(m), Strategies(m), Strategies(m), i, j)
  {
    var g := TravellersDilemma(m);
    var k := Strategies(m);
    TravellersPayments(m, i, j);
    if j != i + 1 {
      TravellersPayments(m, i, i + 1);
      ColDeviation(g, k, k, i, j, i + 1);
    } else {
      TravellersPayments(m, j, j);
      RowDeviation(g, k, k, i, j, j);
    }
  }

  /** The only pure equilibrium has both travellers claiming the least value 2. */
  lemma TravellersEquilibrium(m: int, i: nat, j: nat)
    requires m >= 2 && i < Strategies(m) && j < Strategies(m)
    ensures PureNash(TravellersDilemma(m), Strategies(m), Strategies(m), i, j) <==> i == m - 2 && j == m - 2
  {
    if i == m - 2 && j == m - 2 { TravellersLeastIsNash(m); }
    else if j < m - 2 { TravellersHighColumn(m, i, j); }
    else { TravellersHighRow(m, i, j); }
  }

  /** `TravellersDilemma()` with max_value = 10: nine claims, 10 down to 2,
      and both claiming 2 is the only pure equilibrium. */
  lemma TravellersDilemmaDefault()
    ensures Shaped(TravellersDilemma(10), 9, 9)
    ensures forall i: nat, j: nat :: i < 9 && j < 9 ==>
              (PureNash(TravellersDilemma(10), 9, 9, i, j) <==> i == 8 && j == 8)
  {
    forall i: nat, j: nat | i < 9 && j < 9
      ensures PureNash(TravellersDilemma(10), 9, 9, i, j) <==> i == 8 && j == 8
    {
      TravellersEquilibrium(10, i, j);
    }
  }
}
