/** What propagation and search owe the solutions of a network: which
    complete assignments a state still admits, the rule that every value
    propagation removes is the value of an assigned neighbour and every value
    it forces is held by no neighbour, and that no step and no exhausted
    branch discards a solution. */
module Solutions {
  import opened Network

  /** sol solves the state vs: every cell is assigned a value of its domain
      in vs, the cells vs has assigned keep their values, and every
      constraint holds. */
  ghost predicate SolutionOf(vs: seq<Variable>, cs: seq<Constraint>, sol: seq<Variable>) {
    && |sol| == |vs|
    && AllAssigned(sol)
    && (forall i :: 0 <= i < |vs| ==> sol[i].assignment.value in vs[i].domain)
    && (forall i :: 0 <= i < |vs| && IsAssigned(vs[i]) ==> sol[i].assignment == vs[i].assignment)
    && AllConstraintsHold(sol, cs)
  }

  ghost predicate Solvable(vs: seq<Variable>, cs: seq<Constraint>) {
    exists sol :: SolutionOf(vs, cs, sol)
  }

  /** Every solution of before is still a solution of after. */
  ghost predicate KeepsSolutions(before: seq<Variable>, after: seq<Variable>, cs: seq<Constraint>) {
    forall sol :: SolutionOf(before, cs, sol) ==> SolutionOf(after, cs, sol)
  }

  /** Some assigned neighbour of cell i carries value. */
  ghost predicate AssignedNeighborHas(vs: seq<Variable>, cs: seq<Constraint>, i: nat, value: int) {
    exists nb: nat :: nb < |vs| && nb in Neighbors(cs, |vs|, i) && IsAssigned(vs[nb]) && vs[nb].assignment.value == value
  }

  predicate NewlyAssigned(before: seq<Variable>, after: seq<Variable>, i: nat) {
    i < |before| && i < |after| && !IsAssigned(before[i]) && IsAssigned(after[i])
  }

  /** Propagation from before reached after by sound steps only: a value
      gone from a cell that was not assigned on the way is the value of one
      of its assigned neighbours, and a cell assigned on the way carries a
      value no neighbour's domain still holds. */
  ghost predicate Justified(before: seq<Variable>, after: seq<Variable>, cs: seq<Constraint>) {
    && |after| == |before|
    && (forall i: nat, v ::
          (i < |before| && v in before[i].domain && v !in after[i].domain && !NewlyAssigned(before, after, i))
          ==> AssignedNeighborHas(after, cs, i, v))
    && (forall i: nat :: NewlyAssigned(before, after, i) ==>
          !HeldByNeighbor(after, cs, i, after[i].assignment.value))
  }

  lemma JustifiedRefl(vs: seq<Variable>, cs: seq<Constraint>)
    ensures Justified(vs, vs, cs)
  {
  }

  /** Two justified propagation runs in a row make one. */
  lemma JustifiedTrans(a: seq<Variable>, b: seq<Variable>, c: seq<Variable>, cs: seq<Constraint>)
    requires PrunedOrForced(a, b) && PrunedOrForced(b, c)
    requires Justified(a, b, cs) && Justified(b, c, cs)
    ensures Justified(a, c, cs)
  {
    forall i: nat, v | i < |a| && v in a[i].domain && v !in c[i].domain && !NewlyAssigned(a, c, i)
      ensures AssignedNeighborHas(c, cs, i, v)
    {
      if v in b[i].domain {
        assert !NewlyAssigned(b, c, i);
      } else {
        assert !NewlyAssigned(a, b, i);
        var nb: nat :| nb < |b| && nb in Neighbors(cs, |b|, i) && IsAssigned(b[nb]) && b[nb].assignment.value == v;
        assert c[nb].assignment == b[nb].assignment;
      }
    }
    forall i: nat | NewlyAssigned(a, c, i)
      ensures !HeldByNeighbor(c, cs, i, c[i].assignment.value)
    {
      if IsAssigned(b[i]) {
        assert NewlyAssigned(a, b, i);
        assert c[i].assignment == b[i].assignment;
        forall nb: nat | nb in Neighbors(cs, |c|, i)
          ensures c[i].assignment.value !in c[nb].domain
        {
          assert c[nb].domain <= b[nb].domain;
        }
      } else {
        assert NewlyAssigned(b, c, i);
      }
    }
  }

  lemma KeepsSolutionsSolvable(before: seq<Variable>, after: seq<Variable>, cs: seq<Constraint>)
    requires KeepsSolutions(before, after, cs)
    ensures Solvable(before, cs) ==> Solvable(after, cs)
  {
    if Solvable(before, cs) {
      var sol: seq<Variable> :| SolutionOf(before, cs, sol);
      assert SolutionOf(after, cs, sol);
    }
  }

  /** Pruning runs that are justified and keep every solution compose. */
  lemma PrunedSoundTrans(a: seq<Variable>, b: seq<Variable>, c: seq<Variable>, cs: seq<Constraint>)
    requires PrunedOnly(a, b) && PrunedOnly(b, c)
    requires Justified(a, b, cs) && KeepsSolutions(a, b, cs)
    requires Justified(b, c, cs) && KeepsSolutions(b, c, cs)
    ensures Justified(a, c, cs) && KeepsSolutions(a, c, cs)
  {
    PrunedOnlyIsPrunedOrForced(a, b);
    PrunedOnlyIsPrunedOrForced(b, c);
    JustifiedTrans(a, b, c, cs);
  }

  /** Removing an assigned cell's value from its neighbours (and changing
      nothing else) is justified by that cell. */
  lemma PruneJustified(before: seq<Variable>, after: seq<Variable>, cs: seq<Constraint>, x: nat)
    requires x < |before| && IsAssigned(before[x]) && |after| == |before|
    requires forall i :: 0 <= i < |before| ==>
      after[i] == if i in Neighbors(cs, |before|, x) then RemoveValue(before[i], before[x].assignment.value) else before[i]
    ensures Justified(before, after, cs)
  {
    NeighborsSymmetric(cs, |before|, x, x);
    forall i: nat, v | i < |before| && v in before[i].domain && v !in after[i].domain && !NewlyAssigned(before, after, i)
      ensures AssignedNeighborHas(after, cs, i, v)
    {
      assert i in Neighbors(cs, |before|, x);
      NeighborsSymmetric(cs, |before|, x, i);
      assert x in Neighbors(cs, |after|, i);
    }
  }

  /** ... and it discards no solution: a solution gives x's value to no
      neighbour of x. */
  lemma PruneKeepsSolutions(before: seq<Variable>, after: seq<Variable>, cs: seq<Constraint>, x: nat)
    requires x < |before| && IsAssigned(before[x]) && |after| == |before|
    requires forall i :: 0 <= i < |before| ==>
      after[i] == if i in Neighbors(cs, |before|, x) then RemoveValue(before[i], before[x].assignment.value) else before[i]
    ensures KeepsSolutions(before, after, cs)
  {
    NeighborsMembers(cs, |before|, x);
    forall sol: seq<Variable> | SolutionOf(before, cs, sol)
      ensures SolutionOf(after, cs, sol)
    {
      forall i | 0 <= i < |after|
        ensures sol[i].assignment.value in after[i].domain
      {
        if i in Neighbors(cs, |before|, x) {
          var ci :| 0 <= ci < |cs| && x in cs[ci] && i in cs[ci];
          var p :| 0 <= p < |cs[ci]| && cs[ci][p] == x;
          var q :| 0 <= q < |cs[ci]| && cs[ci][q] == i;
          assert ConstraintHolds(sol, cs[ci]);
        }
      }
    }
  }

  /** Removing x's value from all of x's neighbours takes it from exactly
      those cells and changes nothing else. */
  lemma PruneChangesExactly(before: seq<Variable>, cs: seq<Constraint>, x: nat)
    requires x < |before| && IsAssigned(before[x])
    ensures var after := RemoveFromAll(before, Neighbors(cs, |before|, x), before[x].assignment.value);
      forall i :: 0 <= i < |before| ==>
        after[i] == if i in Neighbors(cs, |before|, x) then RemoveValue(before[i], before[x].assignment.value) else before[i]
  {
    RemoveFromAllAt(before, Neighbors(cs, |before|, x), before[x].assignment.value);
  }

  /** What that removal achieves for the search: the cells only lose
      values, no neighbour keeps x's value, the step is justified and it
      keeps every solution. */
  lemma PruneOutcome(before: seq<Variable>, after: seq<Variable>, cs: seq<Constraint>, x: nat)
    requires x < |before| && IsAssigned(before[x])
    requires after == RemoveFromAll(before, Neighbors(cs, |before|, x), before[x].assignment.value)
    ensures PrunedOnly(before, after)
    ensures forall nb: nat :: nb in Neighbors(cs, |before|, x) ==> after[x].assignment.value !in after[nb].domain
    ensures SettledGrows(before, after, cs) && Settled(after, cs, x)
    ensures Justified(before, after, cs) && KeepsSolutions(before, after, cs)
  {
    PruneChangesExactly(before, cs, x);
    NeighborsSymmetric(cs, |before|, x, x);
    PruneJustified(before, after, cs, x);
    PruneKeepsSolutions(before, after, cs, x);
    PrunedKeepsSettled(before, after, cs);
  }

  /** Assigning a cell a value no neighbour holds is justified. */
  lemma ForceJustified(before: seq<Variable>, cs: seq<Constraint>, x: nat, value: int)
    requires x < |before| && !IsAssigned(before[x]) && !HeldByNeighbor(before, cs, x, value)
    ensures Justified(before, before[x := Assign(before[x], value)], cs)
  {
    NeighborsSymmetric(cs, |before|, x, x);
  }

  /** ... and it keeps the state solvable: any solution of before, with x
      changed to value, solves the new state, since no neighbour can take
      value in any solution. */
  lemma ForceKeepsSolvable(before: seq<Variable>, cs: seq<Constraint>, x: nat, value: int)
    requires x < |before| && value in before[x].domain && !HeldByNeighbor(before, cs, x, value)
    requires !IsAssigned(before[x]) || before[x].assignment == Some(value)
    ensures Solvable(before, cs) ==> Solvable(before[x := Assign(before[x], value)], cs)
  {
    if Solvable(before, cs) {
      var sol :| SolutionOf(before, cs, sol);
      var sol2 := sol[x := Assign(sol[x], value)];
      NeighborsMembers(cs, |before|, x);
      forall ci | 0 <= ci < |cs|
        ensures ConstraintHolds(sol2, cs[ci])
      {
        ForcedConstraintHolds(before, cs, sol, ci, x, value);
      }
      assert SolutionOf(before[x := Assign(before[x], value)], cs, sol2);
    }
  }

  lemma ForcedConstraintHolds(before: seq<Variable>, cs: seq<Constraint>, sol: seq<Variable>, ci: nat, x: nat, value: int)
    requires SolutionOf(before, cs, sol) && ci < |cs| && x < |before|
    requires !HeldByNeighbor(before, cs, x, value)
    requires forall y: nat :: y in Neighbors(cs, |before|, x) <==> y < |before| && y != x && Shares(cs, x, y)
    ensures ConstraintHolds(sol[x := Assign(sol[x], value)], cs[ci])
  {
    var c := cs[ci];
    var sol2 := sol[x := Assign(sol[x], value)];
    assert ConstraintHolds(sol, c);
    forall p, q | 0 <= p < |c| && 0 <= q < |c| && c[p] != c[q] && c[p] < |sol2| && c[q] < |sol2|
      ensures sol2[c[p]].assignment.value != sol2[c[q]].assignment.value
    {
      if c[p] == x || c[q] == x {
        var y := if c[p] == x then c[q] else c[p];
        assert x in cs[ci] && y in cs[ci];
        assert y in Neighbors(cs, |before|, x);
        assert sol[y].assignment.value in before[y].domain;
      }
    }
  }

  /** An assigned cell whose value no neighbour's domain holds differs from
      every assigned neighbour with a collapsed, non-empty domain. */
  lemma UnheldDiffers(b: seq<Variable>, cs: seq<Constraint>, y: nat, z: nat)
    requires y < |b| && z < |b| && y != z && Shares(cs, y, z)
    requires IsAssigned(b[y]) && IsAssigned(b[z]) && Collapsed(b) && NoEmptyDomain(b)
    requires forall nb: nat :: nb < |b| && nb in Neighbors(cs, |b|, y) ==> b[y].assignment.value !in b[nb].domain
    ensures b[y].assignment.value != b[z].assignment.value
  {
    NeighborsMembers(cs, |b|, y);
    assert z in Neighbors(cs, |b|, y);
    assert b[z].domain == {b[z].assignment.value};
  }

  /** One search step from a consistent start stays consistent: when the
      start has collapsed domains and breaks no constraint, and x is assigned
      a value of its domain and then propagated by justified steps that
      leave x settled and no domain empty, every constraint still holds. */
  lemma PropagatedConsistent(a: seq<Variable>, b: seq<Variable>, cs: seq<Constraint>, x: nat, value: int)
    requires x < |a| && !IsAssigned(a[x]) && value in a[x].domain
    requires Collapsed(a) && AllConstraintsHold(a, cs)
    requires PrunedOrForced(a[x := Assign(a[x], value)], b)
    requires Justified(a[x := Assign(a[x], value)], b, cs)
    requires Settled(b, cs, x) && NoEmptyDomain(b)
    ensures Collapsed(b) && AllConstraintsHold(b, cs)
  {
    var a1 := a[x := Assign(a[x], value)];
    CollapsedKept(a1, b);
    forall ci | 0 <= ci < |cs| ensures ConstraintHolds(b, cs[ci]) {
      var c := cs[ci];
      forall p, q | 0 <= p < |c| && 0 <= q < |c| && c[p] != c[q] && c[p] < |b| && c[q] < |b|
                    && IsAssigned(b[c[p]]) && IsAssigned(b[c[q]])
        ensures b[c[p]].assignment.value != b[c[q]].assignment.value
      {
        var y, z := c[p], c[q];
        assert Shares(cs, y, z) && Shares(cs, z, y);
        if y == x || NewlyAssigned(a1, b, y) {
          UnheldDiffers(b, cs, y, z);
        } else if z == x || NewlyAssigned(a1, b, z) {
          UnheldDiffers(b, cs, z, y);
        } else {
          assert a[y].assignment == b[y].assignment && a[z].assignment == b[z].assignment;
          assert ConstraintHolds(a, c);
        }
      }
    }
  }

  /** A solution has a non-empty domain everywhere and agrees with every
      assignment already made, so a state with an empty domain or a broken
      constraint has none. */
  lemma SolvableConsistent(vs: seq<Variable>, cs: seq<Constraint>)
    ensures Solvable(vs, cs) ==> NoEmptyDomain(vs) && AllConstraintsHold(vs, cs)
  {
    if Solvable(vs, cs) {
      var sol :| SolutionOf(vs, cs, sol);
      forall ci | 0 <= ci < |cs|
        ensures ConstraintHolds(vs, cs[ci])
      {
        assert ConstraintHolds(sol, cs[ci]);
      }
    }
  }

  /** A solution gives cell x some value of its domain, and then solves the
      state with x assigned that value. */
  lemma SolvableSomeValue(vs: seq<Variable>, cs: seq<Constraint>, x: nat)
    requires x < |vs|
    ensures Solvable(vs, cs) ==> exists w :: w in vs[x].domain && Solvable(vs[x := Assign(vs[x], w)], cs)
  {
    if Solvable(vs, cs) {
      var sol: seq<Variable> :| SolutionOf(vs, cs, sol);
      var w := sol[x].assignment.value;
      assert SolutionOf(vs[x := Assign(vs[x], w)], cs, sol);
    }
  }

  /** If every value of x's domain is among values and none of them leads to
      a solution, the state has none. */
  lemma UntriedUnsolvable(vs: seq<Variable>, cs: seq<Constraint>, x: nat, values: seq<int>)
    requires x < |vs|
    requires forall w :: w in vs[x].domain ==> w in values
    requires forall q :: 0 <= q < |values| ==> !Solvable(vs[x := Assign(vs[x], values[q])], cs)
    ensures !Solvable(vs, cs)
  {
    SolvableSomeValue(vs, cs, x);
    forall w | w in vs[x].domain
      ensures !Solvable(vs[x := Assign(vs[x], w)], cs)
    {
      var q :| 0 <= q < |values| && values[q] == w;
    }
  }
}
