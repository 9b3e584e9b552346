/** The backtracking search engine. One object owns the network's cells, the
    set of constraints touched since propagation last looked, the undo trail
    with its markers, and the shared "solution found" flag. */
module Solver {
  import opened Network
  import opened Trail
  import opened ValueOrder
  import opened Selection
  import opened Solutions
  import Heuristics

  /** Markers are trail positions, oldest first, none beyond the trail's end. */
  predicate MarkersFit(markers: seq<nat>, depth: nat) {
    && (forall k :: 0 <= k < |markers| ==> markers[k] <= depth)
    && (forall k, l :: 0 <= k < l < |markers| ==> markers[k] <= markers[l])
  }

  /** A state search can start from and still only report valid solutions:
      a complete assignment already satisfies every constraint, and under a
      propagating strategy every assigned domain is collapsed and the cells
      assigned so far break no constraint. A board whose given cells have
      collapsed domains and break no constraint meets it by definition, and
      so does every solvable board with collapsed assigned domains. */
  predicate SoundStart(vs: seq<Variable>, cs: seq<Constraint>, cc: Heuristics.ConsistencyHeuristic) {
    && (AllAssigned(vs) ==> AllConstraintsHold(vs, cs))
    && (cc != Heuristics.AssignmentsCheck ==> Collapsed(vs) && AllConstraintsHold(vs, cs))
  }

  /** Every solvable board with collapsed assigned domains is a sound start,
      whatever the strategy: a solution agrees with every assignment made. */
  lemma SolvableSoundStart(vs: seq<Variable>, cs: seq<Constraint>, cc: Heuristics.ConsistencyHeuristic)
    requires Solvable(vs, cs) && Collapsed(vs)
    ensures SoundStart(vs, cs, cc)
  {
    SolvableConsistent(vs, cs);
  }

  /** The least-constraining-value order of x's domain: each value once,
      fewer neighbours holding it first, ties in ascending order. */
  predicate LcvOrdered(vs: seq<Variable>, cs: seq<Constraint>, x: nat, values: seq<int>)
    requires x < |vs|
  {
    && |values| == |vs[x].domain|
    && (forall v :: v in values ==> v in vs[x].domain)
    && (forall v :: v in vs[x].domain ==> v in values)
    && forall p, q :: 0 <= p < q < |values| ==>
         || Support(vs, cs, x, values[p]) < Support(vs, cs, x, values[q])
         || (Support(vs, cs, x, values[p]) == Support(vs, cs, x, values[q]) && values[p] <= values[q])
  }

  /** Scanning x's domain in ascending order: when each of the first k values
      is held by a neighbour, so is every domain value below the k-th (every
      domain value, once the whole list is scanned). */
  lemma HeldBelow(vs: seq<Variable>, cs: seq<Constraint>, x: nat, values: seq<int>, k: nat)
    requires x < |vs| && StrictlyAscending(values) && k <= |values|
    requires forall w :: w in vs[x].domain ==> w in values
    requires forall q :: 0 <= q < k ==> HeldByNeighbor(vs, cs, x, values[q])
    ensures forall w :: w in vs[x].domain && (k == |values| || w < values[k]) ==> HeldByNeighbor(vs, cs, x, w)
  {
    forall w | w in vs[x].domain && (k == |values| || w < values[k])
      ensures HeldByNeighbor(vs, cs, x, w)
    {
      var p :| 0 <= p < |values| && values[p] == w;
    }
  }

  /** Two cells in one constraint: cell 0 may take 1 or 2, cell 1 only 1. */
  function ExampleCells(): seq<Variable> {
    [Variable(0, {1, 2}, None), Variable(1, {1}, None)]
  }

  function ExampleConstraints(): seq<Constraint> {
    [[0, 1]]
  }

  lemma ExampleSorted()
    ensures SortedValues(ExampleCells()[0].domain) == [1, 2]
  {
    AscendingUnique(SortedValues(ExampleCells()[0].domain), [1, 2]);
  }

  lemma ExampleNeighbors()
    ensures Neighbors(ExampleConstraints(), 2, 0) == [1]
  {
    var cs := ExampleConstraints();
    var nbrs := Neighbors(cs, 2, 0);
    assert Shares(cs, 0, 1) by {
      assert 0 in cs[0] && 1 in cs[0];
    }
    forall x: nat ensures x in nbrs <==> x in [1] {
    }
    AscendingUnique(nbrs, [1]);
  }

  lemma ExampleSupport()
    ensures Support(ExampleCells(), ExampleConstraints(), 0, 1) == 1
    ensures Support(ExampleCells(), ExampleConstraints(), 0, 2) == 0
  {
    ExampleNeighbors();
    var vs := ExampleCells();
    assert [1][..0] == [];
    assert CountContaining(vs, [1], 1) == 1;
  }

  /** The ascending order [1, 2] of the example puts the value its
      neighbour holds first, so it is not least constraining. */
  lemma ExampleAscendingNotLcv()
    ensures !LcvOrdered(ExampleCells(), ExampleConstraints(), 0, [1, 2])
  {
    ExampleSupport();
    var values := [1, 2];
    assert Support(ExampleCells(), ExampleConstraints(), 0, values[0]) == 1;
    assert Support(ExampleCells(), ExampleConstraints(), 0, values[1]) == 0;
  }

  /** [2, 1] is the least constraining order of the example's cell 0. */
  lemma ExampleLcv()
    ensures LcvOrdered(ExampleCells(), ExampleConstraints(), 0, [2, 1])
  {
    ExampleSupport();
    var vs, values := ExampleCells(), [2, 1];
    assert |vs[0].domain| == 2 by {
      assert vs[0].domain == {1} + {2};
    }
    forall p, q | 0 <= p < q < |values|
      ensures Support(vs, ExampleConstraints(), 0, values[p]) < Support(vs, ExampleConstraints(), 0, values[q])
    {
      assert p == 0 && q == 1;
    }
  }

  /** On the example, value 1 of cell 0 is held by its neighbour and value 2
      is not, yet the ordering as written offers [1, 2], which is not the
      least constraining order; [2, 1] is. */
  lemma LcvAsWrittenCounterexample()
    ensures SortedValues(ExampleCells()[0].domain) == [1, 2]
    ensures !LcvOrdered(ExampleCells(), ExampleConstraints(), 0, [1, 2])
    ensures LcvOrdered(ExampleCells(), ExampleConstraints(), 0, [2, 1])
  {
    ExampleSorted();
    ExampleAscendingNotLcv();
    ExampleLcv();
  }

  /** A freshly built board: cell 0 is given the value 1, cell 1 may still
      take 1 or 2, and both lie in one constraint. */
  function FreshCells(): seq<Variable> {
    [Variable(0, {1}, Some(1)), Variable(1, {1, 2}, None)]
  }

  /** The fresh board is a sound start under every strategy although its
      given cell is not yet settled: the neighbour still holds the given
      value until the first propagation. */
  lemma FreshBoardSoundStart(cc: Heuristics.ConsistencyHeuristic)
    ensures SoundStart(FreshCells(), ExampleConstraints(), cc)
    ensures !AllSettled(FreshCells(), ExampleConstraints())
  {
    NeighborsMembers(ExampleConstraints(), 2, 0);
    assert 0 in ExampleConstraints()[0] && 1 in ExampleConstraints()[0];
    assert 1 in Neighbors(ExampleConstraints(), 2, 0);
    assert !Settled(FreshCells(), ExampleConstraints(), 0);
  }

  /** Norvig's fixpoint rules out skipping the forcing step: on the example
      cells, cell 0 still has the value 2 that its only neighbour cannot
      take, so a run that leaves these cells unchanged is not a fixpoint of
      Norvig's check. */
  lemma SkippedForcingNotFixpoint()
    ensures !ConstraintsUnforced(ExampleCells(), ExampleConstraints(), {0})
  {
    ExampleNeighbors();
    assert !HeldByNeighbor(ExampleCells(), ExampleConstraints(), 0, 2);
    assert 2 in ExampleCells()[0].domain && !IsAssigned(ExampleCells()[0]);
    assert !Unforced(ExampleCells(), ExampleConstraints(), 0);
    assert 0 in ExampleConstraints()[0];
  }

  /** A chain of four cells A, B, C, D over the constraints [A, B], [B, C]
      and [C, D], with A given 1 and C given 2. */
  function ChainCells(): seq<Variable> {
    [Variable(0, {1}, Some(1)), Variable(1, {1, 2}, None), Variable(2, {2}, Some(2)), Variable(3, {2, 3}, None)]
  }

  function ChainConstraints(): seq<Constraint> {
    [[0, 1], [1, 2], [2, 3]]
  }

  /** Stopping after one pass is not the fixpoint propagation promises: with
      [A, B] modified on entry, the pass removes 1 from B, which touches
      [B, C], and C's value 2 is still in B's domain there. The source's
      second pass empties B. */
  lemma OnePassNotFixpoint()
    ensures var after := ChainCells()[1 := RemoveValue(ChainCells()[1], 1)];
      !ModsSettled(after, ChainConstraints(), {0} + Touching(ChainConstraints(), Changed(ChainCells(), after)))
  {
    var cs := ChainConstraints();
    var after := ChainCells()[1 := RemoveValue(ChainCells()[1], 1)];
    assert 1 in cs[0] && 1 in cs[1] && 1 !in cs[2];
    TouchedOne(ChainCells(), cs, 1, RemoveValue(ChainCells()[1], 1), {0, 1});
    NeighborsMembers(cs, 4, 2);
    assert 2 in cs[1];
    assert 1 in Neighbors(cs, 4, 2);
    assert 2 in after[1].domain;
    assert !Settled(after, cs, 2);
    assert !ConstraintSettled(after, cs, 1);
  }

  class BTSolver {
    const n: nat
    const constraints: seq<Constraint>
    const varHeuristic: Heuristics.VariableHeuristic
    const valHeuristic: Heuristics.ValueHeuristic
    const consistency: Heuristics.ConsistencyHeuristic

    var vars: seq<Variable>
    var modified: set<nat>
    var trail: seq<Entry>
    var markers: seq<nat>
    var hasSolution: bool

    ghost predicate Valid()
      reads this
    {
      && |vars| == n
      && WellFormed(n, constraints)
      && Fits(trail, n)
      && MarkersFit(markers, |trail|)
    }

    /** The network is given as its cells and constraints, with the set of
        constraints it reports as modified; the trail starts empty. */
    constructor (vs: seq<Variable>, cs: seq<Constraint>, touched: set<nat>,
                 valH: Heuristics.ValueHeuristic, varH: Heuristics.VariableHeuristic,
                 cc: Heuristics.ConsistencyHeuristic)
      requires WellFormed(|vs|, cs)
      ensures Valid()
      ensures vars == vs && constraints == cs && modified == touched
      ensures trail == [] && markers == [] && !hasSolution
      ensures valHeuristic == valH && varHeuristic == varH && consistency == cc
    {
      n := |vs|;
      constraints := cs;
      varHeuristic, valHeuristic, consistency := varH, valH, cc;
      vars := vs;
      modified := touched;
      trail, markers := [], [];
      hasSolution := false;
    }

    /** The constraints that contain cell i. */
    function ConstraintsOf(i: nat): (r: set<nat>)
      ensures forall ci :: ci in r <==> 0 <= ci < |constraints| && i in constraints[ci]
    {
      set ci: nat | ci < |constraints| && i in constraints[ci]
    }

    // ---------------------------------------------------------------
    // Trail operations
    // ---------------------------------------------------------------

    method PlaceTrailMarker()
      requires Valid()
      modifies this
      ensures Valid()
      ensures markers == old(markers) + [|trail|]
      ensures vars == old(vars) && trail == old(trail)
      ensures modified == old(modified) && hasSolution == old(hasSolution)
    {
      markers := markers + [|trail|];
    }

    /** Restores every snapshot taken since the newest marker, newest first,
        and removes that marker. */
    method Undo()
      requires Valid() && |markers| > 0
      modifies this
      ensures Valid()
      ensures var m := old(markers)[|old(markers)| - 1];
        && vars == Rollback(old(vars), old(trail)[m..])
        && trail == old(trail)[..m]
      ensures markers == old(markers)[..|old(markers)| - 1]
      ensures modified == old(modified) && hasSolution == old(hasSolution)
    {
      var m := markers[|markers| - 1];
      assert Fits(trail[m..], |vars|);
      vars := Rollback(vars, trail[m..]);
      trail := trail[..m];
      markers := markers[..|markers| - 1];
    }

    /** Record-then-mutate: push cell i, then remove value from its domain
        (the domain holds value, as the callers check first). */
    method PushAndRemove(i: nat, value: int)
      requires Valid() && i < n && value in vars[i].domain
      modifies this
      ensures Valid()
      ensures trail == old(trail) + [Entry(i, old(vars)[i])]
      ensures vars == old(vars)[i := RemoveValue(old(vars)[i], value)]
      ensures modified == old(modified) + ConstraintsOf(i)
      ensures modified == old(modified) + Touching(constraints, Changed(old(vars), vars))
      ensures markers == old(markers) && hasSolution == old(hasSolution)
      ensures Undoable(old(vars), old(trail), vars, trail)
      ensures PrunedOnly(old(vars), vars)
      ensures Measure(vars) < Measure(old(vars))
    {
      var c := RemoveValue(vars[i], value);
      TouchedOne(vars, constraints, i, c, ConstraintsOf(i));
      RecordThenSet(vars, trail, i, c);
      MeasureUpdate(vars, i, c);
      trail := trail + [Entry(i, vars[i])];
      modified := modified + ConstraintsOf(i);
      vars := vars[i := c];
    }

    /** Record-then-mutate: push cell i, then assign it value, a value of its
        domain. */
    method PushAndAssign(i: nat, value: int)
      requires Valid() && i < n && !IsAssigned(vars[i]) && value in vars[i].domain
      modifies this
      ensures Valid()
      ensures trail == old(trail) + [Entry(i, old(vars)[i])]
      ensures vars == old(vars)[i := Assign(old(vars)[i], value)]
      ensures modified == old(modified) + ConstraintsOf(i)
      ensures modified == old(modified) + Touching(constraints, Changed(old(vars), vars))
      ensures markers == old(markers) && hasSolution == old(hasSolution)
      ensures Undoable(old(vars), old(trail), vars, trail)
      ensures PrunedOrForced(old(vars), vars)
      ensures OpenSet(vars) == OpenSet(old(vars)) - {i}
      ensures Measure(vars) < Measure(old(vars))
    {
      var c := Assign(vars[i], value);
      TouchedOne(vars, constraints, i, c, ConstraintsOf(i));
      OpenSetAssign(vars, i, c);
      RecordThenSet(vars, trail, i, c);
      MeasureUpdate(vars, i, c);
      trail := trail + [Entry(i, vars[i])];
      modified := modified + ConstraintsOf(i);
      vars := vars[i := c];
    }

    /** Hands out the modified constraints and clears the record. */
    method TakeModifiedConstraints() returns (mods: set<nat>)
      requires Valid()
      modifies this
      ensures Valid()
      ensures mods == old(modified) && modified == {}
      ensures vars == old(vars) && trail == old(trail)
      ensures markers == old(markers) && hasSolution == old(hasSolution)
    {
      mods := modified;
      modified := {};
    }

    // ---------------------------------------------------------------
    // Read-only scans
    // ---------------------------------------------------------------

    /** The plain consistency check: every constraint holds. */
    method AssignmentsCheck() returns (ok: bool)
      requires Valid()
      ensures ok <==> AllConstraintsHold(vars, constraints)
    {
      for ci := 0 to |constraints|
        invariant forall cj :: 0 <= cj < ci ==> ConstraintHolds(vars, constraints[cj])
      {
        if !ConstraintHolds(vars, constraints[ci]) {
          return false;
        }
      }
      return true;
    }

    /** The final scan of both propagation strategies: no domain is empty. */
    method NoDomainEmpty() returns (ok: bool)
      requires Valid()
      ensures ok <==> NoEmptyDomain(vars)
    {
      for i := 0 to n
        invariant forall j :: 0 <= j < i ==> vars[j].domain != {}
      {
        if vars[i].domain == {} {
          return false;
        }
      }
      return true;
    }

    /** The scan solve does before declaring success: every cell is assigned. */
    method AllVariablesAssigned() returns (ok: bool)
      requires Valid()
      ensures ok <==> AllAssigned(vars)
    {
      for i := 0 to n
        invariant forall j :: 0 <= j < i ==> IsAssigned(vars[j])
      {
        if !IsAssigned(vars[i]) {
          return false;
        }
      }
      return true;
    }

    /** Whether value is in the domain of some neighbour of x; the scan stops
        at the first such neighbour. */
    method AppearsInNeighbor(x: nat, value: int) returns (found: bool)
      requires Valid() && x < n
      ensures found <==> HeldByNeighbor(vars, constraints, x, value)
    {
      var nbrs := Neighbors(constraints, n, x);
      for k := 0 to |nbrs|
        invariant forall q :: 0 <= q < k ==> value !in vars[nbrs[q]].domain
      {
        if value in vars[nbrs[k]].domain {
          return true;
        }
      }
      return false;
    }

    /** Counts the unassigned cells among xs. */
    method CountUnassigned(xs: seq<nat>) returns (count: nat)
      requires Valid()
      requires forall p :: 0 <= p < |xs| ==> xs[p] < n
      ensures count == CountOpen(vars, xs)
    {
      count := 0;
      for k := 0 to |xs|
        invariant count == CountOpen(vars, xs[..k])
      {
        assert xs[..k + 1][..k] == xs[..k];
        if !IsAssigned(vars[xs[k]]) {
          count := count + 1;
        }
      }
      assert xs[..|xs|] == xs;
    }

    /** Counts the neighbours of x whose domain holds value. */
    method CountSupport(x: nat, value: int) returns (count: nat)
      requires Valid() && x < n
      ensures count == Support(vars, constraints, x, value)
    {
      var nbrs := Neighbors(constraints, n, x);
      count := 0;
      for k := 0 to |nbrs|
        invariant count == CountContaining(vars, nbrs[..k], value)
      {
        assert nbrs[..k + 1][..k] == nbrs[..k];
        if value in vars[nbrs[k]].domain {
          count := count + 1;
        }
      }
      assert nbrs[..|nbrs|] == nbrs;
    }

    // ---------------------------------------------------------------
    // Variable selectors
    // ---------------------------------------------------------------

    /** The earliest unassigned cell; None exactly when every cell is assigned. */
    method GetFirstUnassignedVariable() returns (r: Option<nat>)
      requires Valid()
      ensures r.None? <==> AllAssigned(vars)
      ensures r.Some? ==> IsFirstUnassigned(vars, r.value)
    {
      for i := 0 to n
        invariant forall j :: 0 <= j < i ==> IsAssigned(vars[j])
      {
        if !IsAssigned(vars[i]) {
          return Some(i);
        }
      }
      return None;
    }

    /** Minimum remaining values. The scan starts from the first unassigned
        cell and only a strictly smaller domain replaces the current pick. */
    method GetMrv() returns (r: Option<nat>)
      requires Valid()
      ensures r.None? <==> AllAssigned(vars)
      ensures r.Some? ==> IsMrvChoice(vars, r.value)
    {
      r := GetFirstUnassignedVariable();
      if r.Some? {
        var first := r.value;
        var best := first;
        var minValues := Size(vars[best]);
        for i := 0 to n
          invariant best < n && !IsAssigned(vars[best]) && minValues == Size(vars[best])
          invariant forall j :: 0 <= j < i && !IsAssigned(vars[j]) ==> minValues <= Size(vars[j])
          invariant forall j :: 0 <= j < best && !IsAssigned(vars[j]) ==> minValues < Size(vars[j])
        {
          if !IsAssigned(vars[i]) && Size(vars[i]) < minValues {
            best := i;
            minValues := Size(vars[i]);
          }
        }
        r := Some(best);
      }
    }

    /** The list of minimum-remaining-values candidates that the degree
        heuristics build: it starts as [first] and, scanning every cell (so
        first itself is added a second time when it is minimal), restarts at
        each strictly smaller domain and grows at each equal one. */
    method CollectMrvs(first: nat) returns (mrvs: seq<nat>, minValues: nat)
      requires Valid() && IsFirstUnassigned(vars, first)
      ensures mrvs != []
      ensures forall p :: 0 <= p < |mrvs| ==> InMrvSet(vars, mrvs[p], minValues)
      ensures forall j: nat :: j < n && InMrvSet(vars, j, minValues) ==> j in mrvs
      ensures forall j :: 0 <= j < n && !IsAssigned(vars[j]) ==> minValues <= Size(vars[j])
      ensures forall p, q :: 0 <= p < q < |mrvs| ==> mrvs[p] <= mrvs[q]
    {
      minValues := Size(vars[first]);
      mrvs := [first];
      for i := 0 to n
        invariant mrvs != []
        invariant forall p :: 0 <= p < |mrvs| ==> InMrvSet(vars, mrvs[p], minValues)
        invariant forall j: nat :: j < i && InMrvSet(vars, j, minValues) ==> j in mrvs
        invariant InMrvSet(vars, first, minValues) ==> first in mrvs
        invariant forall j :: 0 <= j < i && !IsAssigned(vars[j]) ==> minValues <= Size(vars[j])
        invariant minValues <= Size(vars[first])
        invariant forall p, q :: 0 <= p < q < |mrvs| ==> mrvs[p] <= mrvs[q]
        invariant forall p :: 0 <= p < |mrvs| ==> mrvs[p] < i || mrvs[p] == first
      {
        if !IsAssigned(vars[i]) {
          if Size(vars[i]) < minValues {
            mrvs := [i];
            minValues := Size(vars[i]);
          } else if Size(vars[i]) == minValues {
            mrvs := mrvs + [i];
          }
        }
      }
    }

    /** The degree of x: its number of unassigned neighbours. */
    method CountUnassignedNeighbors(x: nat) returns (degree: nat)
      requires Valid() && x < n
      ensures degree == Degree(vars, constraints, x)
    {
      degree := CountUnassigned(Neighbors(constraints, n, x));
    }

    /** The first candidate with the most unassigned neighbours; a later one
        replaces it only with a strictly larger count. The ghost result at is
        the position of the choice in the candidate list. */
    method MostUnassignedNeighbors(mrvs: seq<nat>) returns (best: nat, ghost at: nat)
      requires Valid() && mrvs != []
      requires forall p :: 0 <= p < |mrvs| ==> mrvs[p] < n
      ensures at < |mrvs| && mrvs[at] == best
      ensures forall q :: 0 <= q < |mrvs| ==> Degree(vars, constraints, mrvs[q]) <= Degree(vars, constraints, best)
      ensures forall q :: 0 <= q < at ==> Degree(vars, constraints, mrvs[q]) < Degree(vars, constraints, best)
    {
      best, at := mrvs[0], 0;
      var maxDegree := 0;
      for p := 0 to |mrvs|
        invariant 0 <= at < |mrvs| && mrvs[at] == best
        invariant p >= 1 ==> maxDegree == Degree(vars, constraints, best) && at < p
        invariant p == 0 ==> maxDegree == 0
        invariant forall q :: 0 <= q < p ==> Degree(vars, constraints, mrvs[q]) <= maxDegree
        invariant forall q :: 0 <= q < at ==> Degree(vars, constraints, mrvs[q]) < maxDegree
      {
        var degree := CountUnassignedNeighbors(mrvs[p]);
        if degree > maxDegree {
          best, at := mrvs[p], p;
          maxDegree := degree;
        }
      }
    }

    /** Degree heuristic: most unassigned neighbours within the minimum
        remaining values set. */
    method GetDegree() returns (r: Option<nat>)
      requires Valid()
      ensures r.None? <==> AllAssigned(vars)
      ensures r.Some? ==> IsDegreeChoice(vars, constraints, r.value)
    {
      r := GetFirstUnassignedVariable();
      if r.Some? {
        var mrvs, minValues := CollectMrvs(r.value);
        var best, at := MostUnassignedNeighbors(mrvs);
        forall j: nat | j < |vars| && InMrvSet(vars, j, Size(vars[best]))
          ensures Degree(vars, constraints, j) <= Degree(vars, constraints, best)
          ensures j < best ==> Degree(vars, constraints, j) < Degree(vars, constraints, best)
        {
          assert j in mrvs;
          var q :| 0 <= q < |mrvs| && mrvs[q] == j;
          if j < best {
            assert q < at;
          }
        }
        r := Some(best);
      }
    }

    /** Counts, over every constraint containing x, its unassigned members. */
    method CountConstraintLoad(x: nat) returns (total: nat)
      requires Valid() && x < n
      ensures total == Load(vars, constraints, x)
    {
      total := 0;
      for ci := 0 to |constraints|
        invariant total == LoadUpTo(vars, constraints, x, ci)
      {
        if x in constraints[ci] {
          var count := CountUnassigned(constraints[ci]);
          total := total + count;
        }
      }
    }

    /** The first candidate with the largest constraint load; a later one
        replaces it only with a strictly larger load. The ghost result at is
        the position of the choice in the candidate list. */
    method LargestLoad(mrvs: seq<nat>) returns (best: nat, ghost at: nat)
      requires Valid() && mrvs != []
      requires forall p :: 0 <= p < |mrvs| ==> mrvs[p] < n
      ensures at < |mrvs| && mrvs[at] == best
      ensures forall q :: 0 <= q < |mrvs| ==> Load(vars, constraints, mrvs[q]) <= Load(vars, constraints, best)
      ensures forall q :: 0 <= q < at ==> Load(vars, constraints, mrvs[q]) < Load(vars, constraints, best)
    {
      best, at := mrvs[0], 0;
      var maxConstraints := 0;
      for p := 0 to |mrvs|
        invariant 0 <= at < |mrvs| && mrvs[at] == best
        invariant p >= 1 ==> maxConstraints == Load(vars, constraints, best) && at < p
        invariant p == 0 ==> maxConstraints == 0
        invariant forall q :: 0 <= q < p ==> Load(vars, constraints, mrvs[q]) <= maxConstraints
        invariant forall q :: 0 <= q < at ==> Load(vars, constraints, mrvs[q]) < maxConstraints
      {
        var load := CountConstraintLoad(mrvs[p]);
        if load > maxConstraints {
          best, at := mrvs[p], p;
          maxConstraints := load;
        }
      }
    }

    /** Minimum remaining values with the constraint-load tie-breaker. */
    method MrvWithTieBreaker() returns (r: Option<nat>)
      requires Valid()
      ensures r.None? <==> AllAssigned(vars)
      ensures r.Some? ==> IsLoadChoice(vars, constraints, r.value)
    {
      r := GetFirstUnassignedVariable();
      if r.Some? {
        var mrvs, minValues := CollectMrvs(r.value);
        var best, at := LargestLoad(mrvs);
        forall j: nat | j < |vars| && InMrvSet(vars, j, Size(vars[best]))
          ensures Load(vars, constraints, j) <= Load(vars, constraints, best)
          ensures j < best ==> Load(vars, constraints, j) < Load(vars, constraints, best)
        {
          assert j in mrvs;
          var q :| 0 <= q < |mrvs| && mrvs[q] == j;
          if j < best {
            assert q < at;
          }
        }
        r := Some(best);
      }
    }

    /** Dispatch on the configured variable heuristic. */
    method SelectNextVariable() returns (r: Option<nat>)
      requires Valid()
      ensures r.None? <==> AllAssigned(vars)
      ensures r.Some? ==> r.value < n && !IsAssigned(vars[r.value])
      ensures varHeuristic == Heuristics.FirstUnassigned && r.Some? ==> IsFirstUnassigned(vars, r.value)
      ensures varHeuristic == Heuristics.MinimumRemainingValue && r.Some? ==> IsMrvChoice(vars, r.value)
      ensures varHeuristic == Heuristics.DegreeHeuristic && r.Some? ==> IsDegreeChoice(vars, constraints, r.value)
      ensures varHeuristic == Heuristics.MrvWithTieBreaker && r.Some? ==> IsLoadChoice(vars, constraints, r.value)
    {
      match varHeuristic
      case MinimumRemainingValue => r := GetMrv();
      case DegreeHeuristic => r := GetDegree();
      case MrvWithTieBreaker => r := MrvWithTieBreaker();
      case FirstUnassigned => r := GetFirstUnassignedVariable();
    }

    // ---------------------------------------------------------------
    // Value orderings
    // ---------------------------------------------------------------

    /** The values of x's domain, ascending. */
    method GetValuesInOrder(x: nat) returns (values: seq<int>)
      requires Valid() && x < n
      ensures StrictlyAscending(values)
      ensures forall v :: v in values <==> v in vars[x].domain
      ensures |values| == |vars[x].domain|
    {
      values := SortedValues(vars[x].domain);
    }

    /** Each of the given values paired with the number of neighbours of x
        whose domain holds it, in the given order. */
    method ScoreEach(x: nat, order: seq<int>) returns (scored: seq<Scored>)
      requires Valid() && x < n
      ensures Keys(scored) == order
      ensures forall q :: 0 <= q < |scored| ==> scored[q].count == CountContaining(vars, Neighbors(constraints, n, x), order[q])
    {
      ghost var nbrs := Neighbors(constraints, n, x);
      scored := [];
      for k := 0 to |order|
        invariant |scored| == k
        invariant forall q :: 0 <= q < k ==> scored[q].value == order[q]
        invariant forall q :: 0 <= q < k ==> scored[q].count == CountContaining(vars, nbrs, order[q])
      {
        var count := CountSupport(x, order[k]);
        scored := scored + [Scored(order[k], count)];
      }
      assert |Keys(scored)| == |order|;
      assert forall q :: 0 <= q < |order| ==> Keys(scored)[q] == order[q];
    }

    /** The candidate values of x in ascending order, each paired with the
        number of neighbours of x whose domain holds it. */
    method ScoreValues(x: nat) returns (unsorted: seq<Scored>)
      requires Valid() && x < n
      ensures Keys(unsorted) == SortedValues(vars[x].domain)
      ensures forall q :: 0 <= q < |unsorted| ==> unsorted[q].count == Support(vars, constraints, x, unsorted[q].value)
    {
      var order := GetValuesInOrder(x);
      AscendingUnique(order, SortedValues(vars[x].domain));
      unsorted := ScoreEach(x, order);
      assert forall q :: 0 <= q < |unsorted| ==> unsorted[q].value == order[q];
    }

    /** Least constraining value, as the source has it: the counts are
        computed but the list is never sorted by them, so the values come out
        in ascending order, the same sequence as GetValuesInOrder. */
    method GetValuesLcvOrder(x: nat) returns (values: seq<int>)
      requires Valid() && x < n
      ensures values == SortedValues(vars[x].domain)
    {
      var unsorted := ScoreValues(x);
      values := ValuesOf(unsorted);
    }

    /** The values of a scored list, in list order. */
    method ValuesOf(scored: seq<Scored>) returns (values: seq<int>)
      ensures values == Keys(scored)
    {
      values := [];
      for k := 0 to |scored|
        invariant |values| == k
        invariant forall q :: 0 <= q < k ==> values[q] == scored[q].value
      {
        values := values + [scored[k].value];
      }
    }

    /** Least constraining value as documented: the domain's values ordered by
        how many neighbours hold them, fewest first, ties in ascending order. */
    method LeastConstrainingValues(x: nat) returns (values: seq<int>)
      requires Valid() && x < n
      ensures LcvOrdered(vars, constraints, x, values)
    {
      var unsorted := ScoreValues(x);
      var sorted := LeastConstrainingFirst(unsorted);
      SortPermutes(unsorted);
      values := Keys(sorted);
      forall p | 0 <= p < |sorted|
        ensures sorted[p].count == Support(vars, constraints, x, values[p])
      {
        assert sorted[p] in unsorted;
        var q :| 0 <= q < |unsorted| && unsorted[q] == sorted[p];
      }
    }

    /** Dispatch on the configured value heuristic. */
    method GetNextValues(x: nat) returns (values: seq<int>)
      requires Valid() && x < n
      ensures |values| == |vars[x].domain|
      ensures forall v :: v in values <==> v in vars[x].domain
      ensures valHeuristic == Heuristics.ValuesInOrder ==> StrictlyAscending(values)
      ensures valHeuristic == Heuristics.LeastConstrainingValue ==> LcvOrdered(vars, constraints, x, values)
    {
      match valHeuristic
      case LeastConstrainingValue => values := LeastConstrainingValues(x);
      case ValuesInOrder => values := GetValuesInOrder(x);
    }

    // ---------------------------------------------------------------
    // Propagation
    // ---------------------------------------------------------------

    /** Removes the value of the assigned cell x from every neighbour whose
        domain still holds it, recording each neighbour first. */
    method PruneNeighbors(x: nat) returns (changed: bool)
      requires Valid() && x < n && IsAssigned(vars[x])
      modifies this
      ensures Valid()
      ensures markers == old(markers) && hasSolution == old(hasSolution)
      ensures Undoable(old(vars), old(trail), vars, trail)
      ensures PrunedOnly(old(vars), vars)
      ensures vars == RemoveFromAll(old(vars), Neighbors(constraints, n, x), old(vars)[x].assignment.value)
      ensures forall i :: 0 <= i < n ==>
        vars[i] == if i in Neighbors(constraints, n, x) then RemoveValue(old(vars)[i], old(vars)[x].assignment.value) else old(vars)[i]
      ensures Justified(old(vars), vars, constraints) && KeepsSolutions(old(vars), vars, constraints)
      ensures changed ==> Measure(vars) < Measure(old(vars))
      ensures modified == old(modified) + Touching(constraints, Changed(old(vars), vars))
      ensures !changed ==> vars == old(vars) && trail == old(trail) && modified == old(modified)
      ensures forall nb: nat :: nb in Neighbors(constraints, n, x) ==> vars[x].assignment.value !in vars[nb].domain
      ensures SettledGrows(old(vars), vars, constraints) && Settled(vars, constraints, x)
    {
      changed := RemoveFromCells(Neighbors(constraints, n, x), vars[x].assignment.value);
      PruneOutcome(old(vars), vars, constraints, x);
      PruneChangesExactly(old(vars), constraints, x);
    }

    /** The loop of PruneNeighbors: value is removed, in list order, from
        every cell of xs whose domain holds it, each cell recorded first and
        its constraints marked as modified. */
    method RemoveFromCells(xs: seq<nat>, value: int) returns (changed: bool)
      requires Valid() && forall p :: 0 <= p < |xs| ==> xs[p] < n
      modifies this
      ensures Valid()
      ensures markers == old(markers) && hasSolution == old(hasSolution)
      ensures Undoable(old(vars), old(trail), vars, trail)
      ensures vars == RemoveFromAll(old(vars), xs, value)
      ensures modified == old(modified) + Touching(constraints, Changed(old(vars), vars))
      ensures changed ==> Measure(vars) < Measure(old(vars))
      ensures !changed ==> vars == old(vars) && trail == old(trail) && modified == old(modified)
    {
      changed := false;
      UndoableRefl(vars, trail);
      TouchedNone(vars, constraints);
      for k := 0 to |xs|
        invariant Valid() && markers == old(markers) && hasSolution == old(hasSolution)
        invariant Undoable(old(vars), old(trail), vars, trail)
        invariant PrunedOnly(old(vars), vars)
        invariant modified == old(modified) + Touching(constraints, Changed(old(vars), vars))
        invariant vars == RemoveFromAll(old(vars), xs[..k], value)
        invariant changed ==> Measure(vars) < Measure(old(vars))
        invariant !changed ==> vars == old(vars) && trail == old(trail) && modified == old(modified)
      {
        var nb := xs[k];
        RemoveFromAllStep(old(vars), xs, k, value);
        if value in vars[nb].domain {
          ghost var v0, t0, m0 := vars, trail, modified;
          PushAndRemove(nb, value);
          UndoableTrans(old(vars), old(trail), v0, t0, vars, trail);
          PrunedModifiedStep(old(vars), v0, vars, constraints, old(modified), m0, modified);
          changed := true;
        }
      }
      assert xs[..|xs|] == xs;
    }

    /** Forward checking over one constraint: every assigned member prunes
        its neighbours. */
    method PruneConstraint(ci: nat) returns (changed: bool)
      requires Valid() && ci < |constraints|
      modifies this
      ensures Valid()
      ensures markers == old(markers) && hasSolution == old(hasSolution)
      ensures Undoable(old(vars), old(trail), vars, trail)
      ensures PrunedOnly(old(vars), vars)
      ensures changed ==> Measure(vars) < Measure(old(vars))
      ensures !changed ==> vars == old(vars) && trail == old(trail) && modified == old(modified)
      ensures modified == old(modified) + Touching(constraints, Changed(old(vars), vars))
      ensures SettledGrows(old(vars), vars, constraints)
      ensures forall x: nat :: x in constraints[ci] ==> Settled(vars, constraints, x)
      ensures Justified(old(vars), vars, constraints) && KeepsSolutions(old(vars), vars, constraints)
    {
      var c := constraints[ci];
      changed := false;
      UndoableRefl(vars, trail);
      JustifiedRefl(vars, constraints);
      TouchedNone(vars, constraints);
      for k := 0 to |c|
        invariant Valid() && markers == old(markers) && hasSolution == old(hasSolution)
        invariant Undoable(old(vars), old(trail), vars, trail)
        invariant PrunedOnly(old(vars), vars)
        invariant modified == old(modified) + Touching(constraints, Changed(old(vars), vars))
        invariant changed ==> Measure(vars) < Measure(old(vars))
        invariant !changed ==> vars == old(vars) && trail == old(trail) && modified == old(modified)
        invariant SettledGrows(old(vars), vars, constraints)
        invariant forall q :: 0 <= q < k ==> Settled(vars, constraints, c[q])
        invariant Justified(old(vars), vars, constraints) && KeepsSolutions(old(vars), vars, constraints)
      {
        ghost var v0, t0, m0 := vars, trail, modified;
        var pruned := PruneMember(c[k]);
        UndoableTrans(old(vars), old(trail), v0, t0, vars, trail);
        PrunedModifiedStep(old(vars), v0, vars, constraints, old(modified), m0, modified);
        SettledGrowsTrans(old(vars), v0, vars, constraints);
        PrunedSoundTrans(old(vars), v0, vars, constraints);
        SettledPrefix(v0, vars, constraints, c, k);
        changed := changed || pruned;
      }
    }

    /** One member of a constraint under forward checking: an assigned
        member prunes its neighbours, an unassigned one changes nothing. */
    method PruneMember(x: nat) returns (changed: bool)
      requires Valid() && x < n
      modifies this
      ensures Valid()
      ensures markers == old(markers) && hasSolution == old(hasSolution)
      ensures Undoable(old(vars), old(trail), vars, trail)
      ensures PrunedOnly(old(vars), vars)
      ensures changed ==> Measure(vars) < Measure(old(vars))
      ensures !changed ==> vars == old(vars) && trail == old(trail) && modified == old(modified)
      ensures modified == old(modified) + Touching(constraints, Changed(old(vars), vars))
      ensures !IsAssigned(old(vars)[x]) ==> !changed
      ensures SettledGrows(old(vars), vars, constraints) && Settled(vars, constraints, x)
      ensures Justified(old(vars), vars, constraints) && KeepsSolutions(old(vars), vars, constraints)
    {
      if IsAssigned(vars[x]) {
        changed := PruneNeighbors(x);
      } else {
        changed := false;
        UndoableRefl(vars, trail);
        assert PrunedOnly(vars, vars);
        JustifiedRefl(vars, constraints);
        TouchedNone(vars, constraints);
      }
    }

    /** One pass of forward checking: every constraint of mods, in index
        order, is pruned. The pass reports whether anything was removed. */
    method ForwardCheckingPass(mods: set<nat>) returns (changed: bool)
      requires Valid()
      modifies this
      ensures Valid()
      ensures markers == old(markers) && hasSolution == old(hasSolution)
      ensures Undoable(old(vars), old(trail), vars, trail)
      ensures PrunedOnly(old(vars), vars)
      ensures changed ==> Measure(vars) < Measure(old(vars))
      ensures modified == old(modified) + Touching(constraints, Changed(old(vars), vars))
      ensures !changed ==> vars == old(vars) && modified == old(modified)
      ensures Tracked(old(vars), constraints, mods) ==> AllSettled(vars, constraints)
      ensures SettledGrows(old(vars), vars, constraints) && ModsSettled(vars, constraints, mods)
      ensures Justified(old(vars), vars, constraints) && KeepsSolutions(old(vars), vars, constraints)
    {
      changed := false;
      UndoableRefl(vars, trail);
      JustifiedRefl(vars, constraints);
      TouchedNone(vars, constraints);
      for ci := 0 to |constraints|
        invariant Valid() && markers == old(markers) && hasSolution == old(hasSolution)
        invariant Undoable(old(vars), old(trail), vars, trail)
        invariant PrunedOnly(old(vars), vars)
        invariant modified == old(modified) + Touching(constraints, Changed(old(vars), vars))
        invariant changed ==> Measure(vars) < Measure(old(vars))
        invariant !changed ==> vars == old(vars) && modified == old(modified)
        invariant forall cj: nat :: cj in mods && cj < ci ==> ConstraintSettled(vars, constraints, cj)
        invariant Justified(old(vars), vars, constraints) && KeepsSolutions(old(vars), vars, constraints)
      {
        ghost var v1, t1, m1 := vars, trail, modified;
        if ci in mods {
          var pruned := PruneConstraint(ci);
          UndoableTrans(old(vars), old(trail), v1, t1, vars, trail);
          PrunedModifiedStep(old(vars), v1, vars, constraints, old(modified), m1, modified);
          PrunedSoundTrans(old(vars), v1, vars, constraints);
          changed := changed || pruned;
        }
        ModsPrefixStep(v1, vars, constraints, mods, ci);
      }
      PrunedKeepsSettled(old(vars), vars, constraints);
      if Tracked(old(vars), constraints, mods) {
        TrackedSettles(old(vars), vars, constraints, mods);
      }
    }

    /** Forward checking: passes over the modified constraints until a pass
        removes nothing, then fails exactly when some domain is empty. */
    method ForwardChecking() returns (ok: bool)
      requires Valid()
      modifies this
      ensures Valid()
      ensures markers == old(markers) && hasSolution == old(hasSolution)
      ensures Undoable(old(vars), old(trail), vars, trail)
      ensures PrunedOnly(old(vars), vars)
      ensures modified == {}
      ensures ok <==> NoEmptyDomain(vars)
      ensures Tracked(old(vars), constraints, old(modified)) ==> AllSettled(vars, constraints)
      ensures ModsSettled(vars, constraints, old(modified) + Touching(constraints, Changed(old(vars), vars)))
      ensures Justified(old(vars), vars, constraints) && KeepsSolutions(old(vars), vars, constraints)
    {
      var done := false;
      UndoableRefl(vars, trail);
      JustifiedRefl(vars, constraints);
      TouchedNone(vars, constraints);
      while !done
        invariant Valid() && markers == old(markers) && hasSolution == old(hasSolution)
        invariant Undoable(old(vars), old(trail), vars, trail)
        invariant PrunedOnly(old(vars), vars)
        invariant done ==> modified == {}
        invariant Justified(old(vars), vars, constraints) && KeepsSolutions(old(vars), vars, constraints)
        invariant PendingOrSettled(vars, constraints, old(modified) + Touching(constraints, Changed(old(vars), vars)), modified)
        decreases Measure(vars) + if done then 0 else 1
      {
        ghost var v0, t0 := vars, trail;
        var mods := TakeModifiedConstraints();
        var changed := ForwardCheckingPass(mods);
        done := !changed;
        UndoableTrans(old(vars), old(trail), v0, t0, vars, trail);
        PrunedTouchedTrans(old(vars), v0, vars, constraints);
        PrunedSoundTrans(old(vars), v0, vars, constraints);
        PendingStep(v0, vars, constraints, old(modified) + Touching(constraints, Changed(old(vars), v0)), mods, modified);
      }
      if Tracked(old(vars), constraints, old(modified)) {
        PrunedKeepsSettled(old(vars), vars, constraints);
        TrackedSettles(old(vars), vars, constraints, old(modified));
      }
      ok := NoDomainEmpty();
    }

    /** The first value of x's domain, in ascending order, that no neighbour
        of x still holds; None when every value is held by some neighbour. */
    method FirstForcedValue(x: nat) returns (r: Option<int>)
      requires Valid() && x < n
      ensures r.Some? ==>
        && r.value in vars[x].domain
        && !HeldByNeighbor(vars, constraints, x, r.value)
        && forall w :: w in vars[x].domain && w < r.value ==> HeldByNeighbor(vars, constraints, x, w)
      ensures r.None? ==> forall w :: w in vars[x].domain ==> HeldByNeighbor(vars, constraints, x, w)
    {
      var values := GetValuesInOrder(x);
      for k := 0 to |values|
        invariant forall q :: 0 <= q < k ==> HeldByNeighbor(vars, constraints, x, values[q])
      {
        var held := AppearsInNeighbor(x, values[k]);
        if !held {
          HeldBelow(vars, constraints, x, values, k);
          return Some(values[k]);
        }
      }
      HeldBelow(vars, constraints, x, values, |values|);
      return None;
    }

    /** Norvig's forced assignment for the unassigned cell x: the first value
        of its domain that no neighbour's domain holds is recorded and
        assigned; if there is none, nothing changes. */
    method ForceValue(x: nat) returns (changed: bool)
      requires Valid() && x < n && !IsAssigned(vars[x])
      modifies this
      ensures Valid()
      ensures markers == old(markers) && hasSolution == old(hasSolution)
      ensures changed ==>
        && IsAssigned(vars[x])
        && var value := vars[x].assignment.value;
        && vars == old(vars)[x := Assign(old(vars)[x], value)]
        && trail == old(trail) + [Entry(x, old(vars)[x])]
        && modified == old(modified) + ConstraintsOf(x)
        && value in old(vars)[x].domain
        && !HeldByNeighbor(old(vars), constraints, x, value)
        && forall w :: w in old(vars)[x].domain && w < value ==> HeldByNeighbor(old(vars), constraints, x, w)
      ensures !changed ==>
        && vars == old(vars) && trail == old(trail) && modified == old(modified)
        && forall w :: w in vars[x].domain ==> HeldByNeighbor(vars, constraints, x, w)
      ensures modified == old(modified) + Touching(constraints, Changed(old(vars), vars))
      ensures Undoable(old(vars), old(trail), vars, trail)
      ensures PrunedOrForced(old(vars), vars)
      ensures changed ==> Measure(vars) < Measure(old(vars))
      ensures SettledGrows(old(vars), vars, constraints)
      ensures changed ==> Settled(vars, constraints, x)
      ensures Justified(old(vars), vars, constraints)
      ensures Solvable(old(vars), constraints) ==> Solvable(vars, constraints)
    {
      var r := FirstForcedValue(x);
      if r.Some? {
        ForcedKeepsSettled(vars, constraints, x, r.value);
        ForceJustified(vars, constraints, x, r.value);
        ForceKeepsSolvable(vars, constraints, x, r.value);
        PushAndAssign(x, r.value);
        return true;
      }
      UndoableRefl(vars, trail);
      JustifiedRefl(vars, constraints);
      TouchedNone(vars, constraints);
      return false;
    }

    /** Norvig's step for one member of a constraint: an assigned cell
        prunes its neighbours, an unassigned one takes a forced value if it
        has one. Either way the cell ends up settled or unassigned. */
    method NorvigCell(x: nat) returns (changed: bool)
      requires Valid() && x < n
      modifies this
      ensures Valid()
      ensures markers == old(markers) && hasSolution == old(hasSolution)
      ensures Undoable(old(vars), old(trail), vars, trail)
      ensures PrunedOrForced(old(vars), vars)
      ensures changed ==> Measure(vars) < Measure(old(vars))
      ensures modified == old(modified) + Touching(constraints, Changed(old(vars), vars))
      ensures !changed ==> vars == old(vars) && trail == old(trail) && modified == old(modified)
      ensures SettledGrows(old(vars), vars, constraints) && Settled(vars, constraints, x)
      ensures Unforced(vars, constraints, x)
      ensures Justified(old(vars), vars, constraints)
      ensures Solvable(old(vars), constraints) ==> Solvable(vars, constraints)
    {
      if IsAssigned(vars[x]) {
        changed := PruneNeighbors(x);
        PrunedOnlyIsPrunedOrForced(old(vars), vars);
        KeepsSolutionsSolvable(old(vars), vars, constraints);
      } else {
        changed := ForceValue(x);
      }
    }

    /** Norvig's pass over one constraint: assigned members prune their
        neighbours, unassigned ones take a forced value if they have one. */
    method NorvigConstraint(ci: nat) returns (changed: bool)
      requires Valid() && ci < |constraints|
      modifies this
      ensures Valid()
      ensures markers == old(markers) && hasSolution == old(hasSolution)
      ensures Undoable(old(vars), old(trail), vars, trail)
      ensures PrunedOrForced(old(vars), vars)
      ensures changed ==> Measure(vars) < Measure(old(vars))
      ensures !changed ==> vars == old(vars) && trail == old(trail) && modified == old(modified)
      ensures modified == old(modified) + Touching(constraints, Changed(old(vars), vars))
      ensures SettledGrows(old(vars), vars, constraints)
      ensures forall x: nat :: x in constraints[ci] ==> Settled(vars, constraints, x)
      ensures forall x: nat :: x in constraints[ci] ==> PendingOrUnforced(vars, constraints, Touching(constraints, Changed(old(vars), vars)), x)
      ensures !changed ==> forall x: nat :: x in constraints[ci] ==> Unforced(vars, constraints, x)
      ensures Justified(old(vars), vars, constraints)
      ensures Solvable(old(vars), constraints) ==> Solvable(vars, constraints)
    {
      var c := constraints[ci];
      changed := false;
      UndoableRefl(vars, trail);
      JustifiedRefl(vars, constraints);
      TouchedNone(vars, constraints);
      for k := 0 to |c|
        invariant Valid() && markers == old(markers) && hasSolution == old(hasSolution)
        invariant Undoable(old(vars), old(trail), vars, trail)
        invariant PrunedOrForced(old(vars), vars)
        invariant modified == old(modified) + Touching(constraints, Changed(old(vars), vars))
        invariant forall q :: 0 <= q < k ==> PendingOrUnforced(vars, constraints, Touching(constraints, Changed(old(vars), vars)), c[q])
        invariant changed ==> Measure(vars) < Measure(old(vars))
        invariant !changed ==> vars == old(vars) && trail == old(trail) && modified == old(modified)
        invariant SettledGrows(old(vars), vars, constraints)
        invariant forall q :: 0 <= q < k ==> Settled(vars, constraints, c[q])
        invariant Justified(old(vars), vars, constraints)
        invariant Solvable(old(vars), constraints) ==> Solvable(vars, constraints)
      {
        ghost var v0, t0, m0 := vars, trail, modified;
        var step := NorvigCell(c[k]);
        UndoableTrans(old(vars), old(trail), v0, t0, vars, trail);
        ModifiedStep(old(vars), v0, vars, constraints, old(modified), m0, modified);
        UnforcedPrefix(old(vars), v0, vars, constraints, ci, k);
        SettledGrowsTrans(old(vars), v0, vars, constraints);
        JustifiedTrans(old(vars), v0, vars, constraints);
        SettledPrefix(v0, vars, constraints, c, k);
        changed := changed || step;
      }
    }

    /** One pass of Norvig's check: every constraint of mods, in index order,
        gets Norvig's step. The pass reports whether anything changed. */
    method NorvigPass(mods: set<nat>) returns (changed: bool)
      requires Valid()
      modifies this
      ensures Valid()
      ensures markers == old(markers) && hasSolution == old(hasSolution)
      ensures Undoable(old(vars), old(trail), vars, trail)
      ensures PrunedOrForced(old(vars), vars)
      ensures changed ==> Measure(vars) < Measure(old(vars))
      ensures modified == old(modified) + Touching(constraints, Changed(old(vars), vars))
      ensures !changed ==> vars == old(vars) && modified == old(modified)
      ensures Tracked(old(vars), constraints, mods) ==> AllSettled(vars, constraints)
      ensures SettledGrows(old(vars), vars, constraints) && ModsSettled(vars, constraints, mods)
      ensures ModsUnforced(vars, constraints, mods, Touching(constraints, Changed(old(vars), vars)))
      ensures !changed ==> ConstraintsUnforced(vars, constraints, mods)
      ensures Justified(old(vars), vars, constraints)
      ensures Solvable(old(vars), constraints) ==> Solvable(vars, constraints)
    {
      changed := false;
      UndoableRefl(vars, trail);
      assert PrunedOnly(vars, vars);
      PrunedOnlyIsPrunedOrForced(vars, vars);
      JustifiedRefl(vars, constraints);
      TouchedNone(vars, constraints);
      for ci := 0 to |constraints|
        invariant Valid() && markers == old(markers) && hasSolution == old(hasSolution)
        invariant Undoable(old(vars), old(trail), vars, trail)
        invariant PrunedOrForced(old(vars), vars)
        invariant modified == old(modified) + Touching(constraints, Changed(old(vars), vars))
        invariant forall cj: nat, x: nat :: cj in mods && cj < ci && x in constraints[cj] ==>
          PendingOrUnforced(vars, constraints, Touching(constraints, Changed(old(vars), vars)), x)
        invariant changed ==> Measure(vars) < Measure(old(vars))
        invariant !changed ==> vars == old(vars) && modified == old(modified)
        invariant SettledGrows(old(vars), vars, constraints)
        invariant forall cj: nat :: cj in mods && cj < ci ==> ConstraintSettled(vars, constraints, cj)
        invariant Justified(old(vars), vars, constraints)
        invariant Solvable(old(vars), constraints) ==> Solvable(vars, constraints)
      {
        ghost var v1, t1, m1 := vars, trail, modified;
        if ci in mods {
          var step := NorvigConstraint(ci);
          UndoableTrans(old(vars), old(trail), v1, t1, vars, trail);
          ModifiedStep(old(vars), v1, vars, constraints, old(modified), m1, modified);
          SettledGrowsTrans(old(vars), v1, vars, constraints);
          JustifiedTrans(old(vars), v1, vars, constraints);
          changed := changed || step;
        }
        ModsPrefixStep(v1, vars, constraints, mods, ci);
        UnforcedModsPrefix(old(vars), v1, vars, constraints, mods, ci);
      }
      if !changed {
        NothingPending(vars, constraints, mods);
      }
      if Tracked(old(vars), constraints, mods) {
        TrackedSettles(old(vars), vars, constraints, mods);
      }
    }

    /** One round of Norvig's check: the modified constraints are taken and
        given one pass. What round s of the fixpoint had settled and left
        unforced, outside the pending constraints, stays so, and the pending
        constraints are now those the round touched. */
    method NorvigRound(ghost s: set<nat>) returns (changed: bool)
      requires Valid()
      requires PendingOrSettled(vars, constraints, s, modified) && ModsUnforced(vars, constraints, s, modified)
      modifies this
      ensures Valid()
      ensures markers == old(markers) && hasSolution == old(hasSolution)
      ensures Undoable(old(vars), old(trail), vars, trail)
      ensures PrunedOrForced(old(vars), vars) && SettledGrows(old(vars), vars, constraints)
      ensures changed ==> Measure(vars) < Measure(old(vars))
      ensures !changed ==> vars == old(vars)
      ensures modified == Touching(constraints, Changed(old(vars), vars))
      ensures PendingOrSettled(vars, constraints, s + modified, modified)
      ensures ModsUnforced(vars, constraints, s + modified, modified)
      ensures Justified(old(vars), vars, constraints)
      ensures Solvable(old(vars), constraints) ==> Solvable(vars, constraints)
    {
      var mods := TakeModifiedConstraints();
      changed := NorvigPass(mods);
      PendingStep(old(vars), vars, constraints, s, mods, modified);
      UnforcedPassStep(old(vars), vars, constraints, s, mods);
    }

    /** Norvig's check: forward checking plus forced assignment, repeated
        until a pass changes nothing, then fails exactly when some domain is
        empty. */
    method NorvigCheck() returns (ok: bool)
      requires Valid()
      modifies this
      ensures Valid()
      ensures markers == old(markers) && hasSolution == old(hasSolution)
      ensures Undoable(old(vars), old(trail), vars, trail)
      ensures PrunedOrForced(old(vars), vars)
      ensures modified == {}
      ensures ok <==> NoEmptyDomain(vars)
      ensures Tracked(old(vars), constraints, old(modified)) ==> AllSettled(vars, constraints)
      ensures ModsSettled(vars, constraints, old(modified) + Touching(constraints, Changed(old(vars), vars)))
      ensures ConstraintsUnforced(vars, constraints, old(modified) + Touching(constraints, Changed(old(vars), vars)))
      ensures Justified(old(vars), vars, constraints)
      ensures Solvable(old(vars), constraints) ==> Solvable(vars, constraints)
    {
      var done := false;
      UndoableRefl(vars, trail);
      assert PrunedOnly(vars, vars);
      PrunedOnlyIsPrunedOrForced(vars, vars);
      JustifiedRefl(vars, constraints);
      TouchedNone(vars, constraints);
      while !done
        invariant Valid() && markers == old(markers) && hasSolution == old(hasSolution)
        invariant Undoable(old(vars), old(trail), vars, trail)
        invariant PrunedOrForced(old(vars), vars)
        invariant done ==> modified == {}
        invariant SettledGrows(old(vars), vars, constraints)
        invariant Justified(old(vars), vars, constraints)
        invariant Solvable(old(vars), constraints) ==> Solvable(vars, constraints)
        invariant PendingOrSettled(vars, constraints, old(modified) + Touching(constraints, Changed(old(vars), vars)), modified)
        invariant ModsUnforced(vars, constraints, old(modified) + Touching(constraints, Changed(old(vars), vars)), modified)
        decreases Measure(vars) + if done then 0 else 1
      {
        ghost var v0, t0 := vars, trail;
        var changed := NorvigRound(old(modified) + Touching(constraints, Changed(old(vars), vars)));
        done := !changed;
        UndoableTrans(old(vars), old(trail), v0, t0, vars, trail);
        TouchedTrans(old(vars), v0, vars, constraints);
        if done {
          TouchedNone(vars, constraints);
        }
        PrunedOrForcedTrans(old(vars), v0, vars);
        SettledGrowsTrans(old(vars), v0, vars, constraints);
        JustifiedTrans(old(vars), v0, vars, constraints);
      }
      NothingPending(vars, constraints, old(modified) + Touching(constraints, Changed(old(vars), vars)));
      if Tracked(old(vars), constraints, old(modified)) {
        TrackedSettles(old(vars), vars, constraints, old(modified));
      }
      ok := NoDomainEmpty();
    }

    /** Dispatch on the configured consistency strategy. */
    method CheckConsistency() returns (ok: bool)
      requires Valid()
      modifies this
      ensures Valid()
      ensures markers == old(markers) && hasSolution == old(hasSolution)
      ensures Undoable(old(vars), old(trail), vars, trail)
      ensures PrunedOrForced(old(vars), vars)
      ensures consistency == Heuristics.AssignmentsCheck ==>
        && vars == old(vars) && trail == old(trail) && modified == old(modified)
        && (ok <==> AllConstraintsHold(vars, constraints))
      ensures consistency == Heuristics.ForwardChecking ==>
        && PrunedOnly(old(vars), vars) && modified == {} && (ok <==> NoEmptyDomain(vars))
        && KeepsSolutions(old(vars), vars, constraints)
      ensures consistency == Heuristics.NorvigCheck ==>
        && modified == {} && (ok <==> NoEmptyDomain(vars))
        && ConstraintsUnforced(vars, constraints, old(modified) + Touching(constraints, Changed(old(vars), vars)))
      ensures consistency != Heuristics.AssignmentsCheck && Tracked(old(vars), constraints, old(modified)) ==>
        AllSettled(vars, constraints)
      ensures consistency != Heuristics.AssignmentsCheck ==>
        ModsSettled(vars, constraints, old(modified) + Touching(constraints, Changed(old(vars), vars)))
      ensures Justified(old(vars), vars, constraints)
      ensures Solvable(old(vars), constraints) ==> Solvable(vars, constraints)
      ensures !ok ==> !Solvable(old(vars), constraints)
    {
      match consistency {
        case ForwardChecking =>
          ok := ForwardChecking();
          PrunedOnlyIsPrunedOrForced(old(vars), vars);
          KeepsSolutionsSolvable(old(vars), vars, constraints);
        case NorvigCheck =>
          ok := NorvigCheck();
        case AssignmentsCheck =>
          ok := AssignmentsCheck();
          UndoableRefl(vars, trail);
          assert PrunedOnly(vars, vars);
          PrunedOnlyIsPrunedOrForced(vars, vars);
          JustifiedRefl(vars, constraints);
      }
      SolvableConsistent(vars, constraints);
    }

    // ---------------------------------------------------------------
    // Search
    // ---------------------------------------------------------------

    /** Depth-first backtracking search. Each trial value is tried under a
        fresh trail marker and undone on failure, so a call that finds no
        solution leaves the cells, the trail and the markers as it found
        them. */
    method Solve()
      requires Valid()
      modifies this
      ensures Valid()
      ensures old(hasSolution) ==>
        && hasSolution && vars == old(vars) && trail == old(trail)
        && markers == old(markers) && modified == old(modified)
      ensures !hasSolution ==> vars == old(vars) && trail == old(trail) && markers == old(markers)
      ensures hasSolution && !old(hasSolution) ==>
        && AllAssigned(vars)
        && PrunedOrForced(old(vars), vars)
        && Undoable(old(vars), old(trail), vars, trail)
      ensures AllAssigned(old(vars)) ==> hasSolution && vars == old(vars) && trail == old(trail)
      ensures hasSolution && !old(hasSolution) && SoundStart(old(vars), constraints, consistency) ==>
        AllConstraintsHold(vars, constraints)
      ensures !hasSolution ==> !Solvable(old(vars), constraints)
      decreases |OpenSet(vars)|, 1
    {
      if hasSolution {
        return;
      }
      var v := SelectNextVariable();
      if v.None? {
        hasSolution := AllVariablesAssigned();
        UndoableRefl(vars, trail);
        assert PrunedOnly(vars, vars);
        PrunedOnlyIsPrunedOrForced(vars, vars);
        return;
      }
      var x := v.value;
      var values := GetNextValues(x);
      for k := 0 to |values|
        invariant Valid()
        invariant vars == old(vars) && trail == old(trail) && markers == old(markers) && !hasSolution
        invariant forall q :: 0 <= q < k ==> !Solvable(vars[x := Assign(vars[x], values[q])], constraints)
      {
        TryValue(x, values[k]);
        if hasSolution {
          return;
        }
      }
      UntriedUnsolvable(vars, constraints, x, values);
    }

    /** One trial of solve's loop: place a marker, record x and assign it
        value, propagate, search on when consistent, and undo to the marker
        unless a solution was found. */
    method TryValue(x: nat, value: int)
      requires Valid() && x < n && !IsAssigned(vars[x]) && value in vars[x].domain
      requires !hasSolution
      modifies this
      ensures Valid()
      ensures !hasSolution ==> vars == old(vars) && trail == old(trail) && markers == old(markers)
      ensures hasSolution ==>
        && AllAssigned(vars)
        && PrunedOrForced(old(vars), vars)
        && Undoable(old(vars), old(trail), vars, trail)
      ensures hasSolution && SoundStart(old(vars), constraints, consistency) ==> AllConstraintsHold(vars, constraints)
      ensures !hasSolution ==> !Solvable(old(vars)[x := Assign(old(vars)[x], value)], constraints)
      decreases |OpenSet(vars)|, 0
    {
      PlaceTrailMarker();
      var ok := AssignAndCheck(x, value);
      if ok {
        ghost var v2, t2 := vars, trail;
        Solve();
        if hasSolution {
          UndoableTrans(old(vars), old(trail), v2, t2, vars, trail);
          PrunedOrForcedTrans(old(vars), v2, vars);
        }
      }
      if hasSolution {
        return;
      }
      Undo();
    }

    /** The propagation half of one trial: x is recorded and assigned value,
        then the configured consistency check runs. A failed check, or a
        network left without solutions, rules out every solution with x
        assigned value; a passed check keeps a sound start sound. */
    method AssignAndCheck(x: nat, value: int) returns (ok: bool)
      requires Valid() && x < n && !IsAssigned(vars[x]) && value in vars[x].domain
      modifies this
      ensures Valid()
      ensures markers == old(markers) && hasSolution == old(hasSolution)
      ensures Undoable(old(vars), old(trail), vars, trail)
      ensures PrunedOrForced(old(vars), vars)
      ensures |OpenSet(vars)| < |OpenSet(old(vars))|
      ensures ok && SoundStart(old(vars), constraints, consistency) ==> SoundStart(vars, constraints, consistency)
      ensures !ok ==> !Solvable(old(vars)[x := Assign(old(vars)[x], value)], constraints)
      ensures !Solvable(vars, constraints) ==> !Solvable(old(vars)[x := Assign(old(vars)[x], value)], constraints)
    {
      PushAndAssign(x, value);
      ghost var v1, t1, m1 := vars, trail, modified;
      assert OpenSet(old(vars)) == OpenSet(v1) + {x};
      ok := CheckConsistency();
      UndoableTrans(old(vars), old(trail), v1, t1, vars, trail);
      PrunedOrForcedTrans(old(vars), v1, vars);
      if ok && SoundStart(old(vars), constraints, consistency) && consistency != Heuristics.AssignmentsCheck {
        ModsCover(vars, constraints, m1 + Touching(constraints, Changed(v1, vars)), x);
        PropagatedConsistent(old(vars), vars, constraints, x, value);
      }
      OpenSetShrinks(v1, vars);
      SubsetCard(OpenSet(vars), OpenSet(v1));
    }
  }
}
