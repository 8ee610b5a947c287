/** The brute-force explorers: the zero-round position test, the symmetry replicator, and the two
    sampling passes that bucket candidate regret vectors (the one-round mesh pass and the two-round
    rational pass). Point generation (mesh grids, the rational list) is taken as input. */
module Pareto {
  import opened ParetoFunctions

  // ------------------------------------------------------------------ decision rule

  /** One point's position against the zero-round frontier: a negative coordinate is out of reach,
      a zero coordinate lies on the boundary. */
  function PointT0(p: Vec): Verdict
  {
    if !NonNeg(p) then Impossible else if HasZero(p) then Optimal else Suboptimal
  }

  /** Backward induction over the successors: any Impossible, else any Optimal, else Suboptimal. */
  function Combine(vs: seq<Verdict>): Verdict
  {
    if Impossible in vs then Impossible else if Optimal in vs then Optimal else Suboptimal
  }

  function VerdictsT0(ps: seq<Vec>): (vs: seq<Verdict>)
    ensures |vs| == |ps| && forall i :: 0 <= i < |ps| ==> vs[i] == PointT0(ps[i])
  {
    seq(|ps|, i requires 0 <= i < |ps| => PointT0(ps[i]))
  }

  function VerdictsT1(ps: seq<Vec>): (vs: seq<Verdict>)
    ensures |vs| == |ps| && forall i :: 0 <= i < |ps| ==> vs[i] == PositionT1(ps[i])
  {
    seq(|ps|, i requires 0 <= i < |ps| => PositionT1(ps[i]))
  }

  /** Position of a list of points against the zero-round frontier: the two early-return scans. */
  method PositionT0(points: seq<Vec>) returns (r: Verdict)
    ensures r == Impossible <==> exists i :: 0 <= i < |points| && !NonNeg(points[i])
    ensures r == Optimal <==>
      (forall i :: 0 <= i < |points| ==> NonNeg(points[i])) &&
      (exists i :: 0 <= i < |points| && HasZero(points[i]))
    ensures r == Combine(VerdictsT0(points))
  {
    var vs := VerdictsT0(points);
    for i := 0 to |points|
      invariant forall k :: 0 <= k < i ==> NonNeg(points[k])
    {
      if points[i].x0 < 0.0 || points[i].x1 < 0.0 || points[i].x2 < 0.0 {
        assert vs[i] == Impossible;
        return Impossible;
      }
    }
    assert Impossible !in vs;
    for i := 0 to |points|
      invariant forall k :: 0 <= k < i ==> !HasZero(points[k])
    {
      if points[i].x0 == 0.0 || points[i].x1 == 0.0 || points[i].x2 == 0.0 {
        assert vs[i] == Optimal;
        return Optimal;
      }
    }
    assert Optimal !in vs;
    return Suboptimal;
  }

  /** The scans over the six successors against the one-round frontier (first for Impossible, then
      for Optimal). */
  method ClassifyAgainstT1(six: seq<Vec>) returns (r: Verdict)
    ensures r == Impossible <==> exists k :: 0 <= k < |six| && PositionT1(six[k]) == Impossible
    ensures r == Optimal <==>
      (forall k :: 0 <= k < |six| ==> PositionT1(six[k]) != Impossible) &&
      (exists k :: 0 <= k < |six| && PositionT1(six[k]) == Optimal)
    ensures r == Combine(VerdictsT1(six))
  {
    var vs := VerdictsT1(six);
    for k := 0 to |six|
      invariant forall m :: 0 <= m < k ==> PositionT1(six[m]) != Impossible
    {
      if PositionT1(six[k]) == Impossible {
        assert vs[k] == Impossible;
        return Impossible;
      }
    }
    assert Impossible !in vs;
    for k := 0 to |six|
      invariant forall m :: 0 <= m < k ==> PositionT1(six[m]) != Optimal
    {
      if PositionT1(six[k]) == Optimal {
        assert vs[k] == Optimal;
        return Optimal;
      }
    }
    assert Optimal !in vs;
    return Suboptimal;
  }

  /** The zero-round test of the six successors says Impossible exactly when the strategy fails to
      cover the point: some adversary move sends a coordinate below zero. */
  lemma SuccessorsT0Impossible(p: Vec, w: Vec)
    requires InSimplex(w)
    ensures Combine(VerdictsT0(GetSixPoints(p, w))) == Impossible <==> !CoversT1(p, w)
  {
    var six := GetSixPoints(p, w);
    var vs := VerdictsT0(six);
    SixPointsNonNegIff(p, w);
    if Impossible in vs {
      var k :| 0 <= k < 6 && vs[k] == Impossible;
      assert !NonNeg(six[k]);
    }
    if !CoversT1(p, w) {
      var k :| 0 <= k < 6 && !NonNeg(six[k]);
      assert vs[k] == Impossible;
    }
  }

  // ------------------------------------------------------------------ symmetry replicator

  predicate Distinct(s: seq<Vec>)
  {
    forall i, j :: 0 <= i < j < |s| ==> s[i] != s[j]
  }

  /** Appends v unless an equal point is already present. */
  function AppendNew(s: seq<Vec>, v: Vec): (r: seq<Vec>)
    ensures v in s ==> r == s
    ensures v !in s ==> r == s + [v]
    ensures Distinct(s) ==> Distinct(r)
  {
    if v in s then s else s + [v]
  }

  /** Appends each of ps in turn with AppendNew. */
  function AppendAll(s: seq<Vec>, ps: seq<Vec>): seq<Vec>
    decreases |ps|
  {
    if |ps| == 0 then s else AppendAll(AppendNew(s, ps[0]), ps[1..])
  }

  /** AppendAll keeps s as a prefix, adds exactly the points of ps, and adds no duplicate. */
  lemma {:induction false} AppendAllMembers(s: seq<Vec>, ps: seq<Vec>)
    ensures var r := AppendAll(s, ps);
      (forall u :: u in r <==> u in s || u in ps) &&
      |s| <= |r| <= |s| + |ps| && r[..|s|] == s &&
      (Distinct(s) ==> Distinct(r))
    decreases |ps|
  {
    if |ps| > 0 {
      var s' := AppendNew(s, ps[0]);
      AppendAllMembers(s', ps[1..]);
      assert ps == [ps[0]] + ps[1..];
      var r := AppendAll(s', ps[1..]);
      assert r[..|s|] == r[..|s'|][..|s|];
    }
  }

  /** Points that are all new and pairwise different are all appended. */
  lemma {:induction false} AppendAllFresh(s: seq<Vec>, ps: seq<Vec>)
    requires Distinct(s + ps)
    ensures AppendAll(s, ps) == s + ps
    decreases |ps|
  {
    if |ps| > 0 {
      assert (s + ps)[|s|] == ps[0];
      assert ps[0] !in s by {
        forall i | 0 <= i < |s| ensures s[i] != ps[0] { assert s[i] == (s + ps)[i]; }
      }
      assert (s + [ps[0]]) + ps[1..] == s + ps;
      AppendAllFresh(s + [ps[0]], ps[1..]);
    }
  }

  /** Points all already present append nothing. */
  lemma {:induction false} AppendAllKnown(s: seq<Vec>, ps: seq<Vec>)
    requires forall i :: 0 <= i < |ps| ==> ps[i] in s
    ensures AppendAll(s, ps) == s
    decreases |ps|
  {
    if |ps| > 0 {
      assert ps[0] in s;
      AppendAllKnown(s, ps[1..]);
    }
  }

  lemma OrderingsArePermutations(x: Vec)
    ensures IsPermutation(x, x)
    ensures IsPermutation(Vec(x.x0, x.x2, x.x1), x) && IsPermutation(Vec(x.x1, x.x0, x.x2), x)
    ensures IsPermutation(Vec(x.x1, x.x2, x.x0), x) && IsPermutation(Vec(x.x2, x.x0, x.x1), x)
    ensures IsPermutation(Vec(x.x2, x.x1, x.x0), x)
  {
    var r1, r2, r3 := x.x0, x.x1, x.x2;
    assert multiset{r1, r3, r2} == multiset{r1, r2, r3};
    assert multiset{r2, r1, r3} == multiset{r1, r2, r3};
    assert multiset{r2, r3, r1} == multiset{r1, r2, r3};
    assert multiset{r3, r1, r2} == multiset{r1, r2, r3};
    assert multiset{r3, r2, r1} == multiset{r1, r2, r3};
  }

  /** The five reorderings tried after x itself, in the order they are tried. */
  function Reorderings(x: Vec): seq<Vec>
  {
    [Vec(x.x0, x.x2, x.x1), Vec(x.x1, x.x0, x.x2), Vec(x.x1, x.x2, x.x0),
     Vec(x.x2, x.x0, x.x1), Vec(x.x2, x.x1, x.x0)]
  }

  /** x followed by its new reorderings holds x first, no point twice, and exactly the
      permutations of x. */
  lemma ReorderingsCollected(x: Vec)
    ensures var r := AppendAll([x], Reorderings(x));
      1 <= |r| <= 6 && r[0] == x && Distinct(r) &&
      (forall i :: 0 <= i < |r| ==> IsPermutation(r[i], x)) &&
      (forall u :: IsPermutation(u, x) ==> u in r)
  {
    hide AppendAll, IsPermutation;
    var r := AppendAll([x], Reorderings(x));
    AppendAllMembers([x], Reorderings(x));
    assert r[0] == r[..1][0];
    OrderingsArePermutations(x);
    forall i | 0 <= i < |r| ensures IsPermutation(r[i], x) {
      assert r[i] in r;
    }
    forall u | IsPermutation(u, x) ensures u in r {
      PermutationCases(u, x);
    }
  }

  /** The distinct coordinate permutations of x, starting with x itself. */
  function Replicate(x: Vec): (r: seq<Vec>)
    ensures 1 <= |r| <= 6 && r[0] == x
    ensures Distinct(r)
    ensures forall i :: 0 <= i < |r| ==> IsPermutation(r[i], x)
    ensures forall u :: IsPermutation(u, x) ==> u in r
  {
    ReorderingsCollected(x);
    AppendAll([x], Reorderings(x))
  }

  /** Distinct coordinates give all six orderings; equal coordinates give the point alone. */
  lemma ReplicateSize(x: Vec)
    ensures x.x0 != x.x1 && x.x1 != x.x2 && x.x0 != x.x2 ==> |Replicate(x)| == 6
    ensures x.x0 == x.x1 == x.x2 ==> Replicate(x) == [x]
  {
    var all := [x] + Reorderings(x);
    if x.x0 != x.x1 && x.x1 != x.x2 && x.x0 != x.x2 {
      assert Distinct(all);
      AppendAllFresh([x], Reorderings(x));
    }
    if x.x0 == x.x1 == x.x2 {
      assert forall i :: 0 <= i < 5 ==> Reorderings(x)[i] in [x];
      AppendAllKnown([x], Reorderings(x));
    }
  }

  /** Replicating any replica stays inside the first replication. */
  lemma ReplicateClosed(x: Vec, y: Vec, z: Vec)
    requires y in Replicate(x) && z in Replicate(y)
    ensures z in Replicate(x)
  {
    assert IsPermutation(y, x) && IsPermutation(z, y);
    assert IsPermutation(z, x);
  }

  // ------------------------------------------------------------------ one-round mesh pass

  const Basis0: Vec := Vec(0.0, 1.0, 1.0)
  const Basis1: Vec := Vec(1.0, 0.0, 1.0)
  const Basis2: Vec := Vec(1.0, 1.0, 0.0)

  /** Candidate point c0·basis0 + c1·basis1 + c2·basis2 of the one-round pass. */
  function MeshPoint(c: Vec): Vec
  {
    Add(Add(Scale(c.x0, Basis0), Scale(c.x1, Basis1)), Scale(c.x2, Basis2))
  }

  /** The coefficients rescaled to a probability vector. */
  function Normalize(c: Vec): (w: Vec)
    requires Sum(c) != 0.0
    ensures Sum(w) == 1.0
    ensures NonNeg(c) ==> InSimplex(w)
  {
    var s := Sum(c);
    var w := Vec(c.x0 / s, c.x1 / s, c.x2 / s);
    assert Sum(w) == (c.x0 + c.x1 + c.x2) / s;
    w
  }

  /** Every coefficient triple after the first (the all-zero one, which the pass skips) has a
      non-zero sum, as the [0,1]³ mesh guarantees. */
  predicate MeshWellFormed(cs: seq<Vec>)
  {
    forall i :: 1 <= i < |cs| ==> Sum(cs[i]) != 0.0
  }

  /** Verdict of one mesh coefficient triple: the reference the sweep is stated with;
      ClassifyMeshPoint is the loop body that computes it. */
  function MeshVerdict(c: Vec): Verdict
    requires Sum(c) != 0.0
  {
    Combine(VerdictsT0(GetSixPoints(MeshPoint(c), Normalize(c))))
  }

  /** Impossible, suboptimal and optimal points, in the order found. */
  datatype PointSet = PointSet(impossible: seq<Vec>, suboptimal: seq<Vec>, optimal: seq<Vec>)

  /** Appends p to the list named by v. */
  function Bucket(s: PointSet, v: Verdict, p: Vec): PointSet
  {
    match v
    case Impossible => s.(impossible := s.impossible + [p])
    case Suboptimal => s.(suboptimal := s.suboptimal + [p])
    case Optimal => s.(optimal := s.optimal + [p])
  }

  /** The lists after the pass has handled indices 1 .. n−1. */
  function SweepT1(cs: seq<Vec>, n: nat): PointSet
    requires (n <= |cs| || n <= 1) && MeshWellFormed(cs)
  {
    if n <= 1 then PointSet([], [], [])
    else Bucket(SweepT1(cs, n - 1), MeshVerdict(cs[n - 1]), MeshPoint(cs[n - 1]))
  }

  function Total(s: PointSet): nat { |s.impossible| + |s.suboptimal| + |s.optimal| }

  /** Classifies one mesh coefficient triple: its candidate point and the zero-round verdict of the
      point's six successors under the normalized coefficients. */
  method ClassifyMeshPoint(c: Vec) returns (p: Vec, result: Verdict)
    requires Sum(c) != 0.0
    ensures p == MeshPoint(c) && result == MeshVerdict(c)
  {
    p := MeshPoint(c);
    var w := Normalize(c);
    var sixPoints := GetSixPoints(p, w);
    result := PositionT0(sixPoints);
  }

  /** The one-round mesh pass: index 0 is skipped, every other index lands in exactly one list. */
  method BruteForceT1(cs: seq<Vec>) returns (s: PointSet)
    requires MeshWellFormed(cs)
    ensures s == SweepT1(cs, |cs|)
    ensures Total(s) == if |cs| == 0 then 0 else |cs| - 1
  {
    hide MeshVerdict;
    var impossible, suboptimal, optimal := [], [], [];
    var i := 1;
    while i < |cs|
      invariant 1 <= i <= if |cs| == 0 then 1 else |cs|
      invariant PointSet(impossible, suboptimal, optimal) == SweepT1(cs, i)
      invariant |impossible| + |suboptimal| + |optimal| == i - 1
    {
      var p, result := ClassifyMeshPoint(cs[i]);
      if result == Impossible {
        impossible := impossible + [p];
      } else if result == Suboptimal {
        suboptimal := suboptimal + [p];
      } else {
        optimal := optimal + [p];
      }
      i := i + 1;
    }
    s := PointSet(impossible, suboptimal, optimal);
  }

  /** The list a verdict selects. */
  function ListOf(s: PointSet, v: Verdict): seq<Vec>
  {
    match v
    case Impossible => s.impossible
    case Suboptimal => s.suboptimal
    case Optimal => s.optimal
  }

  /** Each handled index's point is in the list of its verdict, and every listed point comes from
      a handled index with that verdict. */
  lemma {:induction false} SweepT1Lists(cs: seq<Vec>, n: nat, v: Verdict)
    requires n <= |cs| && MeshWellFormed(cs)
    ensures forall i :: 1 <= i < n && MeshVerdict(cs[i]) == v ==> MeshPoint(cs[i]) in ListOf(SweepT1(cs, n), v)
    ensures forall q :: q in ListOf(SweepT1(cs, n), v) ==>
      exists i :: 1 <= i < n && MeshVerdict(cs[i]) == v && MeshPoint(cs[i]) == q
  {
    hide MeshVerdict;
    if n > 1 {
      SweepT1Lists(cs, n - 1, v);
      var prev := SweepT1(cs, n - 1);
      var c := cs[n - 1];
      assert ListOf(SweepT1(cs, n), v) ==
        if MeshVerdict(c) == v then ListOf(prev, v) + [MeshPoint(c)] else ListOf(prev, v);
    }
  }

  /** A mesh point is impossible exactly when its own normalized strategy fails to cover it. */
  lemma MeshVerdictImpossible(c: Vec)
    requires NonNeg(c) && Sum(c) != 0.0
    ensures MeshVerdict(c) == Impossible <==> !CoversT1(MeshPoint(c), Normalize(c))
  {
    SuccessorsT0Impossible(MeshPoint(c), Normalize(c));
  }

  // ------------------------------------------------------------------ two-round rational pass

  /** Exact points of the two-round frontier that the sampling cannot hit, seeded before it runs. */
  const Seeds: seq<Vec> :=
    [Vec(2.0, 0.5, 0.5), Vec(0.5, 2.0, 0.5), Vec(0.5, 0.5, 2.0),
     Vec(0.0, 2.0, 2.0), Vec(2.0, 0.0, 2.0), Vec(2.0, 2.0, 0.0),
     Vec(1.5, 1.5, 1.0 / 3.0), Vec(1.0 / 3.0, 1.5, 1.5), Vec(1.5, 1.0 / 3.0, 1.5)]

  /** Candidate point of the two-round pass: the basis vectors scaled by 2. */
  function CandidateT2(c: Vec): (p: Vec)
    ensures Sum(p) == 4.0 * Sum(c)
  {
    Add(Add(Scale(c.x0, Scale(2.0, Basis0)), Scale(c.x1, Scale(2.0, Basis1))), Scale(c.x2, Scale(2.0, Basis2)))
  }

  /** What one coefficient triple contributes: points appended, and whether it was tested. */
  datatype Tally = Tally(found: seq<Vec>, tested: nat)

  function Then(a: Tally, b: Tally): Tally { Tally(a.found + b.found, a.tested + b.tested) }

  /** A tested candidate whose six successors include no one-round Impossible and some one-round
      Optimal. */
  predicate AcceptedT2(c: Vec)
  {
    var p := CandidateT2(c);
    Sum(p) >= 2.0 && Combine(VerdictsT1(GetSixPoints(p, Normalize(c)))) == Optimal
  }

  /** Contribution of one coefficient triple to the two-round pass: the reference the loops are
      stated with; TestCandidateT2 is the loop body that computes it. */
  function StepT2(c: Vec): Tally
  {
    var p := CandidateT2(c);
    if Sum(p) < 2.0 then Tally([], 0)
    else Tally(if AcceptedT2(c) then Replicate(p) else [], 1)
  }

  /** Handles one coefficient triple: skip it when the candidate's sum is below 2, otherwise test it
      and append all its permutations when no successor is Impossible and some is Optimal. */
  method TestCandidateT2(c: Vec) returns (found: seq<Vec>, tested: nat)
    ensures Tally(found, tested) == StepT2(c)
  {
    var p := CandidateT2(c);
    if Sum(p) < 2.0 {
      return [], 0;
    }
    var w := Normalize(c);
    var sixPoints := GetSixPoints(p, w);
    var verdict := ClassifyAgainstT1(sixPoints);
    if verdict == Optimal {
      found := Replicate(p);
    } else {
      found := [];
    }
    tested := 1;
  }

  /** Triples (first, second, third') for third' in [second, k). */
  function Thirds(step: Vec -> Tally, rs: seq<real>, i: nat, j: nat, k: nat): Tally
    requires i < |rs| && j < |rs| && j <= k <= |rs|
    decreases k
  {
    if k == j then Tally([], 0)
    else Then(Thirds(step, rs, i, j, k - 1), step(Vec(rs[i], rs[j], rs[k - 1])))
  }

  /** Triples (first, second', third) for second' in [first, j). */
  function Seconds(step: Vec -> Tally, rs: seq<real>, i: nat, j: nat): Tally
    requires i < |rs| && i <= j <= |rs|
    decreases j
  {
    if j == i then Tally([], 0)
    else Then(Seconds(step, rs, i, j - 1), Thirds(step, rs, i, j - 1, |rs|))
  }

  /** Triples (first', second, third) for first' in [0, i). */
  function Firsts(step: Vec -> Tally, rs: seq<real>, i: nat): Tally
    requires i <= |rs|
  {
    if i == 0 then Tally([], 0)
    else Then(Firsts(step, rs, i - 1), Seconds(step, rs, i - 1, |rs|))
  }

  /** Innermost loop of the two-round pass: third runs from second to the end of rs. */
  method ScanThirds(rs: seq<real>, first: nat, second: nat) returns (found: seq<Vec>, tested: nat)
    requires first <= second < |rs|
    ensures Tally(found, tested) == Thirds(StepT2, rs, first, second, |rs|)
  {
    hide StepT2;
    found, tested := [], 0;
    for third := second to |rs|
      invariant Tally(found, tested) == Thirds(StepT2, rs, first, second, third)
    {
      var more, once := TestCandidateT2(Vec(rs[first], rs[second], rs[third]));
      found, tested := found + more, tested + once;
    }
  }

  /** Middle loop of the two-round pass: second runs from first to the end of rs. */
  method ScanSeconds(rs: seq<real>, first: nat) returns (found: seq<Vec>, tested: nat)
    requires first < |rs|
    ensures Tally(found, tested) == Seconds(StepT2, rs, first, |rs|)
  {
    hide StepT2;
    found, tested := [], 0;
    for second := first to |rs|
      invariant Tally(found, tested) == Seconds(StepT2, rs, first, second)
    {
      var more, count := ScanThirds(rs, first, second);
      found, tested := found + more, tested + count;
    }
  }

  /** The two-round rational pass over the sorted index triples first <= second <= third. */
  method BruteForceT2(rs: seq<real>) returns (optimal: seq<Vec>, pointsTested: nat)
    ensures optimal == Seeds + Firsts(StepT2, rs, |rs|).found
    ensures pointsTested == Firsts(StepT2, rs, |rs|).tested
  {
    hide StepT2;
    optimal := Seeds;
    pointsTested := 0;
    for first := 0 to |rs|
      invariant optimal == Seeds + Firsts(StepT2, rs, first).found
      invariant pointsTested == Firsts(StepT2, rs, first).tested
    {
      var more, count := ScanSeconds(rs, first);
      assert Seeds + Firsts(StepT2, rs, first).found + more == Seeds + (Firsts(StepT2, rs, first).found + more);
      optimal, pointsTested := optimal + more, pointsTested + count;
    }
  }

  /** A tested candidate has a positive coefficient sum, so its weights are a probability
      vector's. */
  lemma CandidateT2Weights(c: Vec)
    requires Sum(CandidateT2(c)) >= 2.0
    ensures Sum(c) >= 0.5 && Sum(Normalize(c)) == 1.0
  {
  }

  /** The points one triple contributes are the permutations of its candidate, when accepted. */
  lemma StepT2Found(c: Vec, q: Vec)
    ensures q in StepT2(c).found <==> AcceptedT2(c) && IsPermutation(q, CandidateT2(c))
  {
  }

  /** q is among the points the index triple (i, j, k) contributes. */
  predicate Hit(step: Vec -> Tally, rs: seq<real>, q: Vec, i: nat, j: nat, k: nat)
    requires i < |rs| && j < |rs| && k < |rs|
  {
    q in step(Vec(rs[i], rs[j], rs[k])).found
  }

  lemma {:induction false} ThirdsFound(step: Vec -> Tally, rs: seq<real>, i: nat, j: nat, k: nat, q: Vec)
    requires i < |rs| && j < |rs| && j <= k <= |rs|
    ensures q in Thirds(step, rs, i, j, k).found <==>
      exists k' :: j <= k' < k && Hit(step, rs, q, i, j, k')
    decreases k
  {
    if k > j {
      ThirdsFound(step, rs, i, j, k - 1, q);
      assert Thirds(step, rs, i, j, k).found
          == Thirds(step, rs, i, j, k - 1).found + step(Vec(rs[i], rs[j], rs[k - 1])).found;
      assert Hit(step, rs, q, i, j, k - 1) <==> q in step(Vec(rs[i], rs[j], rs[k - 1])).found;
    }
  }

  lemma {:induction false} SecondsFound(step: Vec -> Tally, rs: seq<real>, i: nat, j: nat, q: Vec)
    requires i < |rs| && i <= j <= |rs|
    ensures q in Seconds(step, rs, i, j).found <==>
      exists j', k' :: i <= j' < j && j' <= k' < |rs| && Hit(step, rs, q, i, j', k')
    decreases j
  {
    if j > i {
      var last := j - 1;
      SecondsFound(step, rs, i, last, q);
      ThirdsFound(step, rs, i, last, |rs|, q);
      var before, row := Seconds(step, rs, i, last), Thirds(step, rs, i, last, |rs|);
      assert Seconds(step, rs, i, j).found == before.found + row.found;
      if q in Seconds(step, rs, i, j).found {
        if q in before.found {
          var j', k' :| i <= j' < last && j' <= k' < |rs| && Hit(step, rs, q, i, j', k');
        } else {
          assert q in row.found;
          var k' :| last <= k' < |rs| && Hit(step, rs, q, i, last, k');
        }
      }
      if exists j', k' :: i <= j' < j && j' <= k' < |rs| && Hit(step, rs, q, i, j', k') {
        var j', k' :| i <= j' < j && j' <= k' < |rs| && Hit(step, rs, q, i, j', k');
        if j' < last {
          assert q in before.found;
        } else {
          assert j' == last && Hit(step, rs, q, i, last, k');
          assert q in row.found;
        }
      }
    }
  }

  lemma {:induction false} FirstsFound(step: Vec -> Tally, rs: seq<real>, i: nat, q: Vec)
    requires i <= |rs|
    ensures q in Firsts(step, rs, i).found <==>
      exists i', j', k' :: 0 <= i' < i && i' <= j' <= k' < |rs| && Hit(step, rs, q, i', j', k')
  {
    if i > 0 {
      var last := i - 1;
      FirstsFound(step, rs, last, q);
      SecondsFound(step, rs, last, |rs|, q);
      var before, block := Firsts(step, rs, last), Seconds(step, rs, last, |rs|);
      assert Firsts(step, rs, i).found == before.found + block.found;
      if q in Firsts(step, rs, i).found {
        if q in before.found {
          var i', j', k' :| 0 <= i' < last && i' <= j' <= k' < |rs| && Hit(step, rs, q, i', j', k');
        } else {
          assert q in block.found;
          var j', k' :| last <= j' < |rs| && j' <= k' < |rs| && Hit(step, rs, q, last, j', k');
        }
      }
      if exists i', j', k' :: 0 <= i' < i && i' <= j' <= k' < |rs| && Hit(step, rs, q, i', j', k') {
        var i', j', k' :| 0 <= i' < i && i' <= j' <= k' < |rs| && Hit(step, rs, q, i', j', k');
        if i' < last {
          assert q in before.found;
        } else {
          assert i' == last && Hit(step, rs, q, last, j', k');
          assert q in block.found;
        }
      }
    }
  }

  /** q is a permutation of the candidate of an accepted coefficient triple. */
  predicate FromAccepted(c: Vec, q: Vec)
  {
    AcceptedT2(c) && IsPermutation(q, CandidateT2(c))
  }

  lemma HitIffAccepted(rs: seq<real>, q: Vec, i: nat, j: nat, k: nat)
    requires i < |rs| && j < |rs| && k < |rs|
    ensures Hit(StepT2, rs, q, i, j, k) <==> FromAccepted(Vec(rs[i], rs[j], rs[k]), q)
  {
    hide AcceptedT2, IsPermutation, CandidateT2;
    StepT2Found(Vec(rs[i], rs[j], rs[k]), q);
  }

  /** The points the sampling finds are exactly the permutations of the candidates of accepted
      sorted index triples. */
  lemma FoundT2(rs: seq<real>, q: Vec)
    ensures q in Firsts(StepT2, rs, |rs|).found <==>
      exists i, j, k :: 0 <= i <= j <= k < |rs| && FromAccepted(Vec(rs[i], rs[j], rs[k]), q)
  {
    hide *;
    FirstsFound(StepT2, rs, |rs|, q);
    if q in Firsts(StepT2, rs, |rs|).found {
      var i, j, k :| 0 <= i <= j <= k < |rs| && Hit(StepT2, rs, q, i, j, k);
      HitIffAccepted(rs, q, i, j, k);
    }
    if exists i, j, k :: 0 <= i <= j <= k < |rs| && FromAccepted(Vec(rs[i], rs[j], rs[k]), q) {
      var i, j, k :| 0 <= i <= j <= k < |rs| && FromAccepted(Vec(rs[i], rs[j], rs[k]), q);
      HitIffAccepted(rs, q, i, j, k);
    }
  }

  /** The optimal list of the two-round pass: the nine seeds followed by exactly the permutations of
      the candidates of accepted sorted index triples. */
  lemma BruteForceT2Optimal(rs: seq<real>, q: Vec)
    ensures (Seeds + Firsts(StepT2, rs, |rs|).found)[..|Seeds|] == Seeds
    ensures q in Seeds + Firsts(StepT2, rs, |rs|).found <==>
      q in Seeds || exists i, j, k :: 0 <= i <= j <= k < |rs| && FromAccepted(Vec(rs[i], rs[j], rs[k]), q)
  {
    hide *;
    FoundT2(rs, q);
    var found := Firsts(StepT2, rs, |rs|).found;
    assert q in Seeds + found <==> q in Seeds || q in found;
  }
}
