/** The lattice table and the one-round classifier describe the same frontier: a lattice regret
    vector is realizable exactly when its scaled point is covered by some strategy, the table's
    entries scale to points the classifier calls Optimal, and a vacant entry's row and column
    scale to points it calls Impossible whatever the third coordinate. */
module Consistency {
  import opened Wrappers
  import opened ParetoFunctions
  import opened Frontier

  /** A lattice regret, in units of 1/gran, as a real regret. */
  function Scaled(gran: nat, a: int): real
    requires gran > 0
  {
    a as real / gran as real
  }

  /** Shortfall of one lattice coordinate, in lattice units. */
  function Deficit(gran: int, a: int): int
  {
    if a <= gran then gran - a else 0
  }

  /** The shortfall of a scaled coordinate is the scaled lattice shortfall. */
  lemma PosScaled(gran: nat, a: int)
    requires gran > 0
    ensures Pos(1.0 - Scaled(gran, a)) == Scaled(gran, Deficit(gran, a))
  {
    ScaledAdd(gran, gran - a, a);
    ScaledBounds(gran, a);
    ScaledBounds(gran, 0);
    ScaledBounds(gran, gran);
    ScaledMonotone(gran, gran, gran);
  }

  /** The shortfall of a scaled lattice point fits in one unit exactly when the lattice
      shortfall fits in gran units. */
  lemma ShortfallScaled(gran: nat, i: int, j: int, k: int)
    requires gran > 0
    ensures Shortfall(Vec(Scaled(gran, i), Scaled(gran, j), Scaled(gran, k))) <= 1.0 <==>
      Deficit(gran, i) + Deficit(gran, j) + Deficit(gran, k) <= gran
  {
    var di, dj, dk := Deficit(gran, i), Deficit(gran, j), Deficit(gran, k);
    PosScaled(gran, i);
    PosScaled(gran, j);
    PosScaled(gran, k);
    ScaledAdd(gran, di, dj);
    ScaledAdd(gran, di + dj, dk);
    ScaledMonotone(gran, di + dj + dk, gran);
    ScaledBounds(gran, gran);
  }

  /** A scaled coordinate is non-negative exactly when the lattice coordinate is, and at most
      one exactly when the lattice coordinate is at most gran. */
  lemma ScaledBounds(gran: nat, a: int)
    requires gran > 0
    ensures Scaled(gran, a) >= 0.0 <==> a >= 0
    ensures Scaled(gran, a) <= 1.0 <==> a <= gran
    ensures a == gran ==> Scaled(gran, a) == 1.0
  {
    var g := gran as real;
    assert Scaled(gran, a) * g == a as real;
    ScaleOrder(g, Scaled(gran, a), 0.0);
    ScaleOrder(g, Scaled(gran, a), 1.0);
  }

  /** Multiplying by a positive factor keeps order. */
  lemma ScaleOrder(g: real, x: real, y: real)
    requires g > 0.0
    ensures x <= y <==> x * g <= y * g
    ensures x == y <==> x * g == y * g
  {
    if x <= y {
      assert (y - x) * g >= 0.0;
    } else {
      assert (x - y) * g > 0.0;
    }
  }

  /** The lattice search and the continuous one-round game agree on every regret vector whose
      first two coordinates lie in the table. */
  lemma LatticeMatchesT1(gran: nat, i: int, j: int, k: int)
    requires gran > 0 && 0 <= i <= gran && 0 <= j <= gran
    ensures Realizable(gran, i, j, k) <==>
      exists w :: InSimplex(w) && CoversT1(Vec(Scaled(gran, i), Scaled(gran, j), Scaled(gran, k)), w)
  {
    var p := Vec(Scaled(gran, i), Scaled(gran, j), Scaled(gran, k));
    RealizableT1Iff(p);
    RealizableClosedForm(gran, i, j, k);
    LatticeShortfall(gran, i, j, k);
  }

  /** The one-round condition on a scaled lattice point, restated on the lattice. */
  lemma LatticeShortfall(gran: nat, i: int, j: int, k: int)
    requires gran > 0 && 0 <= i <= gran && 0 <= j <= gran
    ensures var p := Vec(Scaled(gran, i), Scaled(gran, j), Scaled(gran, k));
      NonNeg(p) && Shortfall(p) <= 1.0 <==> i + j >= gran && k >= 2 * gran - i - j
  {
    ShortfallScaled(gran, i, j, k);
    ScaledBounds(gran, i);
    ScaledBounds(gran, j);
    ScaledBounds(gran, k);
  }

  /** Scaling is additive. */
  lemma ScaledAdd(gran: nat, a: int, b: int)
    requires gran > 0
    ensures Scaled(gran, a + b) == Scaled(gran, a) + Scaled(gran, b)
  {
    var g := gran as real;
    assert Scaled(gran, a) * g == a as real && Scaled(gran, b) * g == b as real;
    assert Scaled(gran, a + b) * g == (a + b) as real;
    assert (Scaled(gran, a) + Scaled(gran, b)) * g == (a + b) as real;
    ScaleOrder(g, Scaled(gran, a + b), Scaled(gran, a) + Scaled(gran, b));
  }

  /** Scaling keeps order. */
  lemma ScaledMonotone(gran: nat, a: int, b: int)
    requires gran > 0
    ensures a <= b <==> Scaled(gran, a) <= Scaled(gran, b)
  {
    var g := gran as real;
    assert Scaled(gran, a) * g == a as real && Scaled(gran, b) * g == b as real;
    ScaleOrder(g, Scaled(gran, a), Scaled(gran, b));
  }

  /** A defined table entry scales to a point the one-round classifier calls Optimal. */
  lemma EntryIsOptimal(gran: nat, i: int, j: int)
    requires gran > 0 && 0 <= i <= gran && 0 <= j <= gran && Boundary(gran, i, j).Some?
    ensures PositionT1(Vec(Scaled(gran, i), Scaled(gran, j), Scaled(gran, Boundary(gran, i, j).value)))
      == Optimal
  {
    var v := Boundary(gran, i, j).value;
    ScaledBounds(gran, i);
    ScaledBounds(gran, j);
    ScaledBounds(gran, v);
    ScaledAdd(gran, i, j);
    ScaledAdd(gran, i + j, v);
    assert Scaled(gran, i + j + v) == 2.0;
    hide Scaled;
    assert Scaled(gran, i) + Scaled(gran, j) + Scaled(gran, v) == 2.0;
  }

  /** One lattice step exceeds the classifier's tolerance when there are fewer than 100 steps per
      unit. */
  lemma StepExceedsTolerance(gran: nat)
    requires 0 < gran < 100
    ensures Scaled(gran, 1) > Epsilon
  {
    var g := gran as real;
    var u := Scaled(gran, 1);
    assert u * g == 1.0;
    assert u > 0.0;
    assert u * 100.0 > u * g;
  }

  /** A vacant entry: with at most 99 lattice steps per unit, the scaled pair is Impossible for
      every third coordinate, since its shortfall exceeds one unit by at least 1/gran > ε. */
  lemma VacantEntryIsImpossible(gran: nat, i: int, j: int, z: real)
    requires 0 < gran < 100 && 0 <= i <= gran && 0 <= j <= gran && Boundary(gran, i, j).None?
    ensures PositionT1(Vec(Scaled(gran, i), Scaled(gran, j), z)) == Impossible
  {
    var p := Vec(Scaled(gran, i), Scaled(gran, j), z);
    PositionT1ImpossibleIff(p);
    PosScaled(gran, i);
    PosScaled(gran, j);
    ScaledAdd(gran, gran - i, gran - j);
    ScaledAdd(gran, gran, 1);
    ScaledMonotone(gran, gran + 1, (gran - i) + (gran - j));
    ScaledBounds(gran, gran);
    StepExceedsTolerance(gran);
    hide Scaled;
    assert Pos(1.0 - Scaled(gran, i)) + Pos(1.0 - Scaled(gran, j)) >= 1.0 + Scaled(gran, 1);
  }

  /** The corner case of the table for gran = 4: (1, 1, 0) is on the frontier. */
  lemma CornerEntry()
    ensures Boundary(4, 4, 4) == Some(0)
    ensures PositionT1(Vec(Scaled(4, 4), Scaled(4, 4), Scaled(4, 0))) == Optimal
  {
    EntryIsOptimal(4, 4, 4);
  }
}
