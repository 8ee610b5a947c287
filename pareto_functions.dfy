/** The helper library of the frontier explorer: combinatorial formulas, the six successor regret
    vectors the adversary can produce in one round, and the closed-form classification of a regret
    vector against the one-round frontier. All numbers are exact reals. */
module ParetoFunctions {
  import opened Wrappers

  /** A point of 3-space: a regret vector (r0, r1, r2) or a weight vector (p0, p1, p2). */
  datatype Vec = Vec(x0: real, x1: real, x2: real)

  /** Position of a regret vector relative to a frontier. */
  datatype Verdict = Impossible | Optimal | Suboptimal

  /** The one error the combinatorial helpers raise: the factorial of a negative number. */
  datatype Error = NegativeFactorial(n: int)

  // ------------------------------------------------------------------ vector arithmetic

  function Add(a: Vec, b: Vec): Vec { Vec(a.x0 + b.x0, a.x1 + b.x1, a.x2 + b.x2) }

  function Sub(a: Vec, b: Vec): Vec { Vec(a.x0 - b.x0, a.x1 - b.x1, a.x2 - b.x2) }

  function Scale(k: real, a: Vec): Vec { Vec(k * a.x0, k * a.x1, k * a.x2) }

  function Sum(a: Vec): real { a.x0 + a.x1 + a.x2 }

  function Dot(a: Vec, b: Vec): real { a.x0 * b.x0 + a.x1 * b.x1 + a.x2 * b.x2 }

  predicate NonNeg(a: Vec) { a.x0 >= 0.0 && a.x1 >= 0.0 && a.x2 >= 0.0 }

  predicate HasZero(a: Vec) { a.x0 == 0.0 || a.x1 == 0.0 || a.x2 == 0.0 }

  /** A probability vector: non-negative weights summing to one. */
  predicate InSimplex(w: Vec) { NonNeg(w) && Sum(w) == 1.0 }

  /** u lists the same three coordinates as v, in some order. */
  predicate IsPermutation(u: Vec, v: Vec)
  {
    multiset{u.x0, u.x1, u.x2} == multiset{v.x0, v.x1, v.x2}
  }

  lemma RemoveCommon(a: real, b: real, c: real, d: real, e: real)
    requires multiset{a, b, c} == multiset{a, d, e}
    ensures multiset{b, c} == multiset{d, e}
  {
    assert multiset{b, c} == multiset{a, b, c} - multiset{a};
    assert multiset{d, e} == multiset{a, d, e} - multiset{a};
  }

  lemma PairCases(b: real, c: real, d: real, e: real)
    requires multiset{b, c} == multiset{d, e}
    ensures (b == d && c == e) || (b == e && c == d)
  {
    assert b in multiset{d, e};
    if b == d {
      assert multiset{c} == multiset{b, c} - multiset{b};
      assert multiset{e} == multiset{d, e} - multiset{d};
      assert c in multiset{e};
    } else {
      assert multiset{c} == multiset{b, c} - multiset{b};
      assert multiset{d} == multiset{d, e} - multiset{e};
      assert c in multiset{d};
    }
  }

  /** Equal multisets of three coordinates means one of the six orderings. */
  lemma PermutationCases(u: Vec, v: Vec)
    requires IsPermutation(u, v)
    ensures || u == v
            || u == Vec(v.x0, v.x2, v.x1)
            || u == Vec(v.x1, v.x0, v.x2)
            || u == Vec(v.x1, v.x2, v.x0)
            || u == Vec(v.x2, v.x0, v.x1)
            || u == Vec(v.x2, v.x1, v.x0)
  {
    assert u.x0 in multiset{v.x0, v.x1, v.x2};
    if u.x0 == v.x0 {
      RemoveCommon(u.x0, u.x1, u.x2, v.x1, v.x2);
      PairCases(u.x1, u.x2, v.x1, v.x2);
    } else if u.x0 == v.x1 {
      assert multiset{v.x0, v.x1, v.x2} == multiset{v.x1, v.x0, v.x2};
      RemoveCommon(u.x0, u.x1, u.x2, v.x0, v.x2);
      PairCases(u.x1, u.x2, v.x0, v.x2);
    } else {
      assert multiset{v.x0, v.x1, v.x2} == multiset{v.x2, v.x0, v.x1};
      RemoveCommon(u.x0, u.x1, u.x2, v.x0, v.x1);
      PairCases(u.x1, u.x2, v.x0, v.x1);
    }
  }

  // ------------------------------------------------------------------ factorial and n-choose-k

  /** The textbook factorial, the reference for the library's own. */
  ghost function Fact(n: nat): nat
  {
    if n == 0 then 1 else n * Fact(n - 1)
  }

  /** Factorial with the library's base cases 0 and 1; a negative argument is an error. */
  function Factorial(n: int): (r: Result<nat, Error>)
    ensures r.Err? <==> n < 0
    ensures r.Err? ==> r.error == NegativeFactorial(n)
    ensures r.Ok? ==> r.value >= 1
    decreases if n < 0 then 0 else n
  {
    if n < 0 then Err(NegativeFactorial(n))
    else if n == 0 || n == 1 then Ok(1)
    else
      var f := Factorial(n - 1).value;
      assert n * f >= 1 by { assert n * f >= f; }
      Ok(n * f)
  }

  lemma {:induction false} FactorialIsFact(n: nat)
    ensures Factorial(n) == Ok(Fact(n))
  {
    if n >= 2 { FactorialIsFact(n - 1); }
  }

  /** Pascal's rule: the reference binomial coefficient. */
  ghost function Binom(n: nat, k: nat): nat
  {
    if k == 0 then 1 else if n == 0 then 0 else Binom(n - 1, k - 1) + Binom(n - 1, k)
  }

  lemma {:induction false} BinomAbove(n: nat, k: nat)
    requires k > n
    ensures Binom(n, k) == 0
  {
    if n > 0 { BinomAbove(n - 1, k - 1); BinomAbove(n - 1, k); }
  }

  /** The arithmetic of one Pascal step, with x = (n−k)!, y = k!, x' = (n−1−k)!, y' = (k−1)!. */
  lemma PascalStep(n: int, k: int, a: int, b: int, f: int, x: int, y: int, x': int, y': int)
    requires a * (x * y') == f && y == k * y'
    requires b * (x' * y) == f && x == (n - k) * x'
    ensures (a + b) * (x * y) == n * f
  {
    assert a * (x * y) == k * (a * (x * y'));
    assert b * (x * y) == (n - k) * (b * (x' * y));
  }

  lemma PascalTop(k: int, a: int, f: int, y: int, y': int)
    requires a * (1 * y') == f && y == k * y'
    ensures a * (1 * y) == k * f
  {
  }

  /** The binomial coefficient divides n! exactly: Binom(n, k)·(n−k)!·k! = n!. */
  lemma {:induction false} BinomTimesFactorials(n: nat, k: nat)
    requires k <= n
    ensures Binom(n, k) * (Fact(n - k) * Fact(k)) == Fact(n)
  {
    if k > 0 {
      BinomTimesFactorials(n - 1, k - 1);
      if k == n {
        BinomAbove(n - 1, k);
        PascalTop(k, Binom(n - 1, k - 1), Fact(n - 1), Fact(k), Fact(k - 1));
      } else {
        BinomTimesFactorials(n - 1, k);
        PascalStep(n, k, Binom(n - 1, k - 1), Binom(n - 1, k), Fact(n - 1),
                   Fact(n - k), Fact(k), Fact(n - 1 - k), Fact(k - 1));
      }
    }
  }

  /** n choose k, with the special case (n choose −1) = [n = −1]. Factorials are evaluated in the
      library's order (n!, (n−k)!, k!), so the error reports the first negative argument. */
  function NChooseK(n: int, k: int): (r: Result<int, Error>)
    ensures r.Ok? <==> k == -1 || 0 <= k <= n
    ensures k == -1 ==> r == Ok(if n == -1 then 1 else 0)
  {
    if k == -1 then Ok(if n == -1 then 1 else 0)
    else
      var a := Factorial(n);
      if a.Err? then Err(a.error)
      else
        var b := Factorial(n - k);
        if b.Err? then Err(b.error)
        else
          var c := Factorial(k);
          if c.Err? then Err(c.error)
          else Ok(a.value / (b.value * c.value))
  }

  /** Integer division by the factorials is exact: nchoosek is the binomial coefficient. */
  lemma NChooseKIsBinomial(n: nat, k: nat)
    requires k <= n
    ensures NChooseK(n, k) == Ok(Binom(n, k))
  {
    FactorialIsFact(n);
    FactorialIsFact(n - k);
    FactorialIsFact(k);
    BinomTimesFactorials(n, k);
    var d := Fact(n - k) * Fact(k);
    assert d > 0 by { assert Fact(n - k) >= 1 && Fact(k) >= 1; }
    DivExact(Binom(n, k), d);
  }

  lemma MulAtLeast(d: int, t: int)
    requires d > 0 && t >= 1
    ensures d * t >= d
  {
  }

  lemma DivExact(q: int, d: int)
    requires d > 0
    ensures (q * d) / d == q
  {
    var e, m := (q * d) / d, (q * d) % d;
    assert d * (q - e) == m;
    if q - e >= 1 {
      MulAtLeast(d, q - e);
    } else if e - q >= 1 {
      MulAtLeast(d, e - q);
    }
  }

  lemma {:induction false} BinomDiagonal(n: nat)
    ensures Binom(n, n) == 1
  {
    if n > 0 { BinomDiagonal(n - 1); BinomAbove(n - 1, n); }
  }

  /** The two ends of a row of Pascal's triangle. */
  lemma NChooseKEnds(n: nat)
    ensures NChooseK(n, 0) == Ok(1)
    ensures NChooseK(n, n) == Ok(1)
  {
    NChooseKIsBinomial(n, 0);
    NChooseKIsBinomial(n, n);
    BinomDiagonal(n);
  }

  // ------------------------------------------------------------------ the f_T(i) formula

  function Pow2Nat(e: nat): (r: nat)
    ensures r >= 1
  {
    if e == 0 then 1 else 2 * Pow2Nat(e - 1)
  }

  /** `2 ** e` for an integer exponent, exact: a negative exponent gives a reciprocal power of two. */
  function Pow2(e: int): real
  {
    if e >= 0 then Pow2Nat(e) as real else 1.0 / (Pow2Nat(-e) as real)
  }

  /** Term j of f_T(i): j · 2^(j−T) · (T−j−1 choose T−i−1). */
  function FTTerm(i: int, T: int, j: int): Result<real, Error>
  {
    var c := NChooseK(T - j - 1, T - i - 1);
    if c.Err? then Err(c.error) else Ok(j as real * Pow2(j - T) * c.value as real)
  }

  /** Running total of the terms j = 1..m, stopping at the first error as the loop does. */
  function FTPartial(i: int, T: int, m: nat): Result<real, Error>
  {
    if m == 0 then Ok(0.0)
    else
      var s := FTPartial(i, T, m - 1);
      if s.Err? then s
      else
        var t := FTTerm(i, T, m);
        if t.Err? then Err(t.error) else Ok(s.value + t.value)
  }

  /** f_T(i) = Σ_{j=1..i} j · 2^(j−T) · (T−j−1 choose T−i−1); the sum is empty when i ≤ 0. */
  function FT(i: int, T: int): Result<real, Error>
  {
    FTPartial(i, T, if i < 0 then 0 else i)
  }

  /** The accumulating loop of the f_T(i) formula. */
  method FTFormula(i: int, T: int) returns (r: Result<real, Error>)
    ensures r == FT(i, T)
  {
    var sum := 0.0;
    var j := 1;
    while j <= i
      invariant 1 <= j <= (if i >= 0 then i + 1 else 1)
      invariant FTPartial(i, T, j - 1) == Ok(sum)
    {
      var term := FTTerm(i, T, j);
      if term.Err? {
        FTPartialErrSticks(i, T, j, i);
        return Err(term.error);
      }
      sum := sum + term.value;
      j := j + 1;
    }
    return Ok(sum);
  }

  /** Once the running total fails, it keeps the first error. */
  lemma {:induction false} FTPartialErrSticks(i: int, T: int, m: nat, m': nat)
    requires m <= m' && FTPartial(i, T, m).Err?
    ensures FTPartial(i, T, m') == FTPartial(i, T, m)
  {
    if m < m' { FTPartialErrSticks(i, T, m, m' - 1); }
  }

  /** For 0 ≤ i ≤ T every binomial in the sum is well defined. */
  lemma {:induction false} FTPartialDefined(i: int, T: int, m: nat)
    requires 0 <= i <= T && m <= i
    ensures FTPartial(i, T, m).Ok?
  {
    if m > 0 {
      FTPartialDefined(i, T, m - 1);
      assert FTTerm(i, T, m).Ok?;
    }
  }

  lemma FTDefinedInRange(i: int, T: int)
    requires 0 <= i <= T
    ensures FT(i, T).Ok?
  {
    FTPartialDefined(i, T, i);
  }

  lemma FTAtZero(T: int)
    ensures FT(0, T) == Ok(0.0)
  {
  }

  /** Below j = T every term of f_T(T) vanishes, because (n choose −1) is 0 for n ≥ 0. */
  lemma {:induction false} FTDiagonalPrefix(T: int, m: nat)
    requires m < T
    ensures FTPartial(T, T, m) == Ok(0.0)
  {
    if m > 0 {
      FTDiagonalPrefix(T, m - 1);
      assert NChooseK(T - m - 1, -1) == Ok(0);
    }
  }

  /** f_T(T) = T: only the term j = T survives, through (−1 choose −1) = 1. */
  lemma FTAtT(T: nat)
    ensures FT(T, T) == Ok(T as real)
  {
    if T > 0 {
      FTDiagonalPrefix(T, T - 1);
      assert NChooseK(-1, -1) == Ok(1);
      assert Pow2(0) == 1.0;
    }
  }

  // ------------------------------------------------------------------ convex combinations

  /** Average of two points, or of three when the third is given. */
  function ConvexCombo(a: Vec, b: Vec, c: Option<Vec>): (r: Vec)
    ensures c.None? ==> Sub(r, a) == Sub(b, r)
    ensures c.Some? ==> Add(Add(Sub(a, r), Sub(b, r)), Sub(c.value, r)) == Vec(0.0, 0.0, 0.0)
  {
    if c.None? then Scale(1.0 / 2.0, Add(a, b))
    else Scale(1.0 / 3.0, Add(Add(a, b), c.value))
  }

  // ------------------------------------------------------------------ the six successor points

  /** The adversary's loss vectors, in the order the six successors are built. */
  const LossPatterns: seq<Vec> :=
    [Vec(0.0, 1.0, 1.0), Vec(1.0, 0.0, 1.0), Vec(1.0, 1.0, 0.0),
     Vec(1.0, 0.0, 0.0), Vec(0.0, 1.0, 0.0), Vec(0.0, 0.0, 1.0)]

  /** Regret vector after a round in which the player plays w and the experts suffer loss l: each
      expert's coordinate drops by the player's loss w·l minus that expert's own loss. */
  function Successor(r: Vec, w: Vec, l: Vec): Vec
  {
    Sub(r, Sub(Vec(Dot(w, l), Dot(w, l), Dot(w, l)), l))
  }

  /** The six successor regret vectors of `point` under `weights`. Only weights p1 and p2 are read;
      p0 enters through p0 = 1 − p1 − p2. */
  function GetSixPoints(point: Vec, weights: Vec): (six: seq<Vec>)
    ensures |six| == 6
    ensures forall k :: 0 <= k < 3 ==> six[k + 3] == Sub(Scale(2.0, point), six[k])
    ensures Add(Add(six[0], six[1]), six[2]) == Scale(3.0, point)
  {
    var r0, r1, r2 := point.x0, point.x1, point.x2;
    var p1, p2 := weights.x1, weights.x2;
    [ Vec(r0 - (p1 + p2), r1 - ((p1 - 1.0) + p2), r2 - (p1 + (p2 - 1.0))),
      Vec(r0 - (-p1),     r1 - (-(p1 - 1.0)),     r2 - (-p1)),
      Vec(r0 - (-p2),     r1 - (-p2),             r2 - (-(p2 - 1.0))),
      Vec(r0 + (p1 + p2), r1 + ((p1 - 1.0) + p2), r2 + (p1 + (p2 - 1.0))),
      Vec(r0 + (-p1),     r1 + (-(p1 - 1.0)),     r2 + (-p1)),
      Vec(r0 + (-p2),     r1 + (-p2),             r2 + (-(p2 - 1.0))) ]
  }

  /** For weights summing to one, the six points are exactly the one-round successors under the
      six non-trivial loss patterns. */
  lemma SixPointsAreSuccessors(r: Vec, w: Vec)
    requires Sum(w) == 1.0
    ensures forall k :: 0 <= k < 6 ==> GetSixPoints(r, w)[k] == Successor(r, w, LossPatterns[k])
  {
    var six := GetSixPoints(r, w);
    assert six[0] == Successor(r, w, LossPatterns[0]);
    assert six[1] == Successor(r, w, LossPatterns[1]);
    assert six[2] == Successor(r, w, LossPatterns[2]);
    assert six[3] == Successor(r, w, LossPatterns[3]);
    assert six[4] == Successor(r, w, LossPatterns[4]);
    assert six[5] == Successor(r, w, LossPatterns[5]);
  }

  lemma SixPointsIgnoreFirstWeight(r: Vec, w: Vec, p0: real)
    ensures GetSixPoints(r, Vec(p0, w.x1, w.x2)) == GetSixPoints(r, w)
  {
  }

  /** Strategy w keeps every adversary move inside the non-negative orthant: each coordinate covers
      the probability mass the player puts on the other two experts. */
  predicate CoversT1(r: Vec, w: Vec)
  {
    r.x0 >= w.x1 + w.x2 && r.x1 >= w.x0 + w.x2 && r.x2 >= w.x0 + w.x1
  }

  /** No successor has a negative coordinate exactly when w covers r. */
  lemma SixPointsNonNegIff(r: Vec, w: Vec)
    requires InSimplex(w)
    ensures (forall k :: 0 <= k < 6 ==> NonNeg(GetSixPoints(r, w)[k])) <==> CoversT1(r, w)
  {
    var six := GetSixPoints(r, w);
    if CoversT1(r, w) {
      assert NonNeg(six[0]) && NonNeg(six[1]) && NonNeg(six[2]);
      assert NonNeg(six[3]) && NonNeg(six[4]) && NonNeg(six[5]);
    }
    if forall k :: 0 <= k < 6 ==> NonNeg(six[k]) {
      assert NonNeg(six[0]) && NonNeg(six[1]) && NonNeg(six[2]);
    }
  }

  // ------------------------------------------------------------------ the one-round frontier

  /** Tolerance for deciding that a sum lies on the frontier. */
  const Epsilon: real := 0.00001

  function Pos(a: real): real { if a >= 0.0 then a else 0.0 }

  /** Least total probability a strategy must spend so that w_i ≥ 1 − r_i for every expert. */
  function Shortfall(p: Vec): real { Pos(1.0 - p.x0) + Pos(1.0 - p.x1) + Pos(1.0 - p.x2) }

  /** Some strategy covers p exactly when p is non-negative and its shortfall fits in one unit. */
  lemma RealizableT1Iff(p: Vec)
    ensures (exists w :: InSimplex(w) && CoversT1(p, w)) <==> NonNeg(p) && Shortfall(p) <= 1.0
  {
    if NonNeg(p) && Shortfall(p) <= 1.0 {
      var w := Vec(Pos(1.0 - p.x0) + (1.0 - Shortfall(p)), Pos(1.0 - p.x1), Pos(1.0 - p.x2));
      assert InSimplex(w) && CoversT1(p, w);
    }
    if exists w :: InSimplex(w) && CoversT1(p, w) {
      var w :| InSimplex(w) && CoversT1(p, w);
      assert w.x0 >= Pos(1.0 - p.x0) && w.x1 >= Pos(1.0 - p.x1) && w.x2 >= Pos(1.0 - p.x2);
    }
  }

  /** Three-way comparison of a sum against its target with the tolerance band. */
  function Compare(summ: real, target: real): Verdict
  {
    if summ > target - Epsilon && summ < target + Epsilon then Optimal
    else if summ > target then Suboptimal
    else Impossible
  }

  /** Position of a point against the one-round frontier: the plane x+y+z = 2 inside the unit cube,
      and, outside it, the face "other two coordinates sum to 1" of the first coordinate ≥ 1. */
  function PositionT1(point: Vec): (v: Verdict)
    ensures !NonNeg(point) ==> v == Impossible
    ensures NonNeg(point) && point.x0 > 2.0 / 3.0 && point.x1 > 2.0 / 3.0 && point.x2 > 2.0 / 3.0
            ==> v == Suboptimal
  {
    var r0, r1, r2 := point.x0, point.x1, point.x2;
    if r0 < 0.0 || r1 < 0.0 || r2 < 0.0 then Impossible
    else if r0 > 2.0 / 3.0 && r1 > 2.0 / 3.0 && r2 > 2.0 / 3.0 then Suboptimal
    else if r0 <= 1.0 && r1 <= 1.0 && r2 <= 1.0 then Compare(r0 + r1 + r2, 2.0)
    else if r0 >= 1.0 then Compare(r1 + r2, 1.0)
    else if r1 >= 1.0 then Compare(r0 + r2, 1.0)
    else Compare(r0 + r1, 1.0)
  }

  /** Impossible is exactly: a negative coordinate, or a shortfall at least ε beyond one unit. */
  lemma PositionT1ImpossibleIff(p: Vec)
    ensures PositionT1(p) == Impossible <==> !NonNeg(p) || Shortfall(p) >= 1.0 + Epsilon
  {
  }

  /** An Optimal point lies within ε of the boundary of the realizable set. */
  lemma PositionT1OptimalNearBoundary(p: Vec)
    requires PositionT1(p) == Optimal
    ensures NonNeg(p) && 1.0 - Epsilon < Shortfall(p) < 1.0 + Epsilon
  {
  }

  /** A Suboptimal point is realizable by some strategy. */
  lemma PositionT1SuboptimalRealizable(p: Vec)
    requires PositionT1(p) == Suboptimal
    ensures exists w :: InSimplex(w) && CoversT1(p, w)
  {
    RealizableT1Iff(p);
  }

  /** Raising one coordinate of a Suboptimal point keeps it Suboptimal. */
  lemma PositionT1SuboptimalGrows(p: Vec, d: real)
    requires PositionT1(p) == Suboptimal && d > 0.0
    ensures PositionT1(Vec(p.x0 + d, p.x1, p.x2)) == Suboptimal
    ensures PositionT1(Vec(p.x0, p.x1 + d, p.x2)) == Suboptimal
    ensures PositionT1(Vec(p.x0, p.x1, p.x2 + d)) == Suboptimal
  {
  }

  /** Lowering one coordinate of an Impossible point keeps it Impossible: the shortfall can only
      grow. */
  lemma PositionT1ImpossibleShrinks(p: Vec, d: real)
    requires PositionT1(p) == Impossible && d > 0.0
    ensures PositionT1(Vec(p.x0 - d, p.x1, p.x2)) == Impossible
    ensures PositionT1(Vec(p.x0, p.x1 - d, p.x2)) == Impossible
    ensures PositionT1(Vec(p.x0, p.x1, p.x2 - d)) == Impossible
  {
    PositionT1ImpossibleIff(p);
    PositionT1ImpossibleIff(Vec(p.x0 - d, p.x1, p.x2));
    PositionT1ImpossibleIff(Vec(p.x0, p.x1 - d, p.x2));
    PositionT1ImpossibleIff(Vec(p.x0, p.x1, p.x2 - d));
  }

  /** At most one coordinate reaches 1: the region where the face choice is unambiguous. */
  predicate AtMostOneFromOne(p: Vec)
  {
    (if p.x0 >= 1.0 then 1 else 0) + (if p.x1 >= 1.0 then 1 else 0) + (if p.x2 >= 1.0 then 1 else 0) <= 1
  }

  /** Inside the unit cube, and wherever the face is unambiguous, the verdict is decided by the
      shortfall alone, apart from the shortcut that calls every point with all coordinates above
      2/3 Suboptimal. */
  lemma PositionT1ByShortfall(p: Vec)
    requires NonNeg(p) && ((p.x0 <= 1.0 && p.x1 <= 1.0 && p.x2 <= 1.0) || AtMostOneFromOne(p))
    ensures PositionT1(p) ==
      if p.x0 > 2.0 / 3.0 && p.x1 > 2.0 / 3.0 && p.x2 > 2.0 / 3.0 then Suboptimal
      else if Shortfall(p) >= 1.0 + Epsilon then Impossible
      else if Shortfall(p) > 1.0 - Epsilon then Optimal
      else Suboptimal
  {
  }

  /** Relabelling the experts does not change the verdict where the face is unambiguous. */
  lemma PositionT1Symmetric(p: Vec, u: Vec)
    requires AtMostOneFromOne(p) && IsPermutation(u, p)
    ensures PositionT1(u) == PositionT1(p)
  {
    PermutationCases(u, p);
    if NonNeg(p) {
      assert NonNeg(u) && AtMostOneFromOne(u) && Shortfall(u) == Shortfall(p);
      PositionT1ByShortfall(p);
      PositionT1ByShortfall(u);
    }
  }

  /** With two coordinates at or above 1 the first-match face choice breaks the symmetry. */
  lemma PositionT1OrderDependent()
    ensures PositionT1(Vec(1.5, 1.0, 0.0)) == Optimal
    ensures PositionT1(Vec(1.0, 1.5, 0.0)) == Suboptimal
  {
  }

  /** Known points of the one-round frontier. */
  lemma PositionT1KnownPoints()
    ensures PositionT1(Vec(2.0 / 3.0, 2.0 / 3.0, 2.0 / 3.0)) == Optimal
    ensures PositionT1(Vec(1.0, 1.0, 0.0)) == Optimal
    ensures PositionT1(Vec(0.0, 0.0, 0.0)) == Impossible
    ensures PositionT1(Vec(1.0, 1.0, 1.0)) == Suboptimal
    ensures PositionT1(Vec(-0.1, 0.5, 0.5)) == Impossible
  {
  }
}
