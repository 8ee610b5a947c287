/** The exact one-round frontier on a lattice: for every pair of regrets (r0, r1) in
    {0, 1, ..., gran}, the least r2 for which the regret vector (r0, r1, r2), scaled by 1/gran, is
    guaranteed by some lattice strategy (p0, p1, p2)/gran in a one-round game with 0/1 losses.
    Regrets and strategies are counted in units of 1/gran, so all arithmetic is on integers. */
module Frontier {
  import opened Wrappers

  // ------------------------------------------------------------------ realizability

  /** The adversary can drive a coordinate of the regret vector negative against the strategy
      (p0, p1, gran − p0 − p1): expert i's regret must cover the weight on the other two. */
  predicate Blocked(gran: int, r0: int, r1: int, r2: int, p0: int, p1: int)
  {
    var p2 := gran - p0 - p1;
    r0 < p1 + p2 || r1 < p0 + p2 || r2 < p0 + p1
  }

  /** Some lattice strategy keeps every coordinate of (r0, r1, r2) non-negative. */
  ghost predicate Realizable(gran: int, r0: int, r1: int, r2: int)
  {
    exists p0, p1 :: 0 <= p0 <= gran && 0 <= p1 <= gran - p0 && !Blocked(gran, r0, r1, r2, p0, p1)
  }

  /** Only non-negative regret vectors are realizable. */
  lemma RealizableNeedsNonNegative(gran: int, r0: int, r1: int, r2: int)
    requires Realizable(gran, r0, r1, r2)
    ensures r0 >= 0 && r1 >= 0 && r2 >= 0
  {
    var p0, p1 :| 0 <= p0 <= gran && 0 <= p1 <= gran - p0 && !Blocked(gran, r0, r1, r2, p0, p1);
  }

  /** Larger regrets stay realizable: the same strategy still works. */
  lemma RealizableMonotone(gran: int, r0: int, r1: int, r2: int, s0: int, s1: int, s2: int)
    requires Realizable(gran, r0, r1, r2) && r0 <= s0 && r1 <= s1 && r2 <= s2
    ensures Realizable(gran, s0, s1, s2)
  {
    var p0, p1 :| 0 <= p0 <= gran && 0 <= p1 <= gran - p0 && !Blocked(gran, r0, r1, r2, p0, p1);
    assert !Blocked(gran, s0, s1, s2, p0, p1);
  }

  /** Inside the table, (r0, r1, r2) is realizable exactly when r0 + r1 ≥ gran and
      r0 + r1 + r2 ≥ 2·gran; the strategy (gran − r0, gran − r1, r0 + r1 − gran) is a witness. */
  lemma RealizableClosedForm(gran: int, r0: int, r1: int, r2: int)
    requires 0 <= r0 <= gran && 0 <= r1 <= gran
    ensures Realizable(gran, r0, r1, r2) <==> r0 + r1 >= gran && r2 >= 2 * gran - r0 - r1
  {
    if r0 + r1 >= gran && r2 >= 2 * gran - r0 - r1 {
      assert !Blocked(gran, r0, r1, r2, gran - r0, gran - r1);
    }
    if Realizable(gran, r0, r1, r2) {
      var p0, p1 :| 0 <= p0 <= gran && 0 <= p1 <= gran - p0 && !Blocked(gran, r0, r1, r2, p0, p1);
    }
  }

  // ------------------------------------------------------------------ the table's entries

  /** The least realizable r2 for (r0, r1), or None when no r2 is realizable. */
  function Boundary(gran: int, r0: int, r1: int): Option<int>
  {
    if r0 + r1 >= gran then Some(2 * gran - r0 - r1) else None
  }

  /** Boundary is the least realizable third regret, and every larger one is realizable too. */
  lemma BoundaryIsLeastRealizable(gran: int, r0: int, r1: int, r2: int)
    requires 0 <= r0 <= gran && 0 <= r1 <= gran
    ensures Boundary(gran, r0, r1).None? ==> !Realizable(gran, r0, r1, r2)
    ensures Boundary(gran, r0, r1).Some? ==>
      (Realizable(gran, r0, r1, r2) <==> Boundary(gran, r0, r1).value <= r2)
  {
    RealizableClosedForm(gran, r0, r1, r2);
  }

  /** Inside the table, the entries lie in [0, gran], are symmetric, and do not increase as either
      regret grows. */
  lemma BoundaryShape(gran: int, r0: int, r1: int)
    requires 0 <= r0 <= gran && 0 <= r1 <= gran
    ensures Boundary(gran, r0, r1) == Boundary(gran, r1, r0)
    ensures Boundary(gran, r0, r1).Some? ==> 0 <= Boundary(gran, r0, r1).value <= gran
    ensures r0 < gran && Boundary(gran, r0, r1).Some? ==>
      Boundary(gran, r0 + 1, r1) == Some(Boundary(gran, r0, r1).value - 1)
  {
  }

  /** A defined neighbour above or to the left makes the entry defined and no larger. */
  lemma BoundaryBelowNeighbours(gran: int, r0: int, r1: int)
    requires 0 <= r0 <= gran && 0 <= r1 <= gran
    ensures r0 > 0 && Boundary(gran, r0 - 1, r1).Some? ==>
      Boundary(gran, r0, r1).Some? && Boundary(gran, r0, r1).value <= Boundary(gran, r0 - 1, r1).value
    ensures r1 > 0 && Boundary(gran, r0, r1 - 1).Some? ==>
      Boundary(gran, r0, r1).Some? && Boundary(gran, r0, r1).value <= Boundary(gran, r0, r1 - 1).value
  {
  }

  /** Python's min(bound, cell) where a NaN cell loses every comparison and so leaves bound. */
  function MinDefined(bound: int, cell: Option<int>): (r: int)
    ensures r <= bound && (cell.Some? ==> r <= cell.value)
    ensures r == bound || cell == Some(r)
  {
    match cell
    case None => bound
    case Some(v) => if v < bound then v else bound
  }

  /** The starting bound of the search: the top of the table, or a realizable neighbour entry,
      which stays realizable one step further out. */
  lemma StartBound(gran: int, r0: int, r1: int, ubd: int)
    requires 0 <= r0 <= gran && 0 <= r1 <= gran && ubd <= gran
    requires ubd == gran || (r0 > 0 && Boundary(gran, r0 - 1, r1) == Some(ubd))
                         || (r1 > 0 && Boundary(gran, r0, r1 - 1) == Some(ubd))
    ensures ubd == gran || Realizable(gran, r0, r1, ubd)
  {
    if ubd != gran {
      RealizableClosedForm(gran, r0, r1, ubd);
    }
  }

  /** Where the downward search stops determines the entry: one above the last unrealizable r2,
      or None when the search never moved off the top of the table. */
  lemma StoredBoundary(gran: int, r0: int, r1: int, ubd: int, r2: int)
    requires 0 <= r0 <= gran && 0 <= r1 <= gran && ubd <= gran
    requires ubd == gran || Realizable(gran, r0, r1, ubd)
    requires r2 <= ubd && !Realizable(gran, r0, r1, r2)
    requires r2 < ubd ==> Realizable(gran, r0, r1, r2 + 1)
    ensures (if r2 == gran then None else Some(r2 + 1)) == Boundary(gran, r0, r1)
  {
    RealizableClosedForm(gran, r0, r1, ubd);
    RealizableClosedForm(gran, r0, r1, r2);
    RealizableClosedForm(gran, r0, r1, r2 + 1);
    RealizableClosedForm(gran, r0, r1, gran);
  }

  // ------------------------------------------------------------------ the table pass

  /** The search over lattice strategies: p0 from 0 to gran, p1 from 0 to gran − p0, skipping
      every strategy the adversary can beat and stopping at the first that survives. */
  method IsRealizable(gran: nat, r0: int, r1: int, r2: int) returns (realizable: bool)
    ensures realizable == Realizable(gran, r0, r1, r2)
  {
    realizable := false;
    for p0 := 0 to gran + 1
      invariant !realizable ==>
        forall a, b :: 0 <= a < p0 && 0 <= b <= gran - a ==> Blocked(gran, r0, r1, r2, a, b)
      invariant realizable ==> Realizable(gran, r0, r1, r2)
    {
      for p1 := 0 to gran - p0 + 1
        invariant !realizable ==> forall b :: 0 <= b < p1 ==> Blocked(gran, r0, r1, r2, p0, b)
        invariant realizable ==> Realizable(gran, r0, r1, r2)
      {
        if Blocked(gran, r0, r1, r2, p0, p1) {
          continue;
        }
        realizable := true;
        break;
      }
      if realizable {
        break;
      }
    }
  }

  /** The downward search from start: lower r2 while it is realizable. It stops at the first
      unrealizable value, at the latest at −1. */
  method Descend(gran: nat, r0: int, r1: int, start: int) returns (r2: int)
    ensures r2 <= start && !Realizable(gran, r0, r1, r2)
    ensures r2 < start ==> Realizable(gran, r0, r1, r2 + 1)
    ensures start >= -1 ==> r2 >= -1
  {
    r2 := start;
    var doneWithDecrements := false;
    while !doneWithDecrements
      invariant r2 <= start && (start >= -1 ==> r2 >= -1)
      invariant r2 < start ==> Realizable(gran, r0, r1, r2 + 1)
      invariant doneWithDecrements ==> !Realizable(gran, r0, r1, r2)
      decreases if doneWithDecrements then 0 else if r2 < 0 then 1 else r2 + 2
    {
      var realizable := IsRealizable(gran, r0, r1, r2);
      if !realizable {
        doneWithDecrements := true;
      } else {
        RealizableNeedsNonNegative(gran, r0, r1, r2);
        r2 := r2 - 1;
      }
    }
  }

  /** The one-round table: row by row, the part left of the diagonal is copied from the column
      above, and every other entry is found by searching down from the smaller of its two
      already-known neighbours. None stands for an entry with no realizable r2. */
  method BuildTable(gran: nat) returns (H: array2<Option<int>>)
    ensures fresh(H) && H.Length0 == gran + 1 && H.Length1 == gran + 1
    ensures forall a, b :: 0 <= a <= gran && 0 <= b <= gran ==> H[a, b] == Boundary(gran, a, b)
    ensures forall a, b :: 0 <= a <= gran && 0 <= b <= gran ==> H[a, b] == H[b, a]
  {
    H := new Option<int>[gran + 1, gran + 1]((_, _) => None);
    for r0 := 0 to gran + 1
      invariant forall a, b :: 0 <= a < r0 && 0 <= b <= gran ==> H[a, b] == Boundary(gran, a, b)
    {
      forall c | 0 <= c < r0 {
        H[r0, c] := H[c, r0];
      }
      for r1 := r0 to gran + 1
        invariant forall a, b :: 0 <= a < r0 && 0 <= b <= gran ==> H[a, b] == Boundary(gran, a, b)
        invariant forall b :: 0 <= b < r1 ==> H[r0, b] == Boundary(gran, r0, b)
      {
        var ubd := gran;
        if r0 > 0 {
          ubd := MinDefined(ubd, H[r0 - 1, r1]);
        }
        if r1 > 0 {
          ghost var before := ubd;
          ubd := MinDefined(ubd, H[r0, r1 - 1]);
          assert ubd == before || Boundary(gran, r0, r1 - 1) == Some(ubd);
        }
        StartBound(gran, r0, r1, ubd);
        var r2 := Descend(gran, r0, r1, ubd);
        StoredBoundary(gran, r0, r1, ubd, r2);
        H[r0, r1] := if r2 == gran then None else Some(r2 + 1);
      }
    }
  }
}
