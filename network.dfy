/** The constraint network the search engine works on: cells with their
    domains and assignments, all-different constraints over lists of cells,
    and the relations the engine derives from them (neighbours, counts,
    consistency, and how a propagation step may change a cell). */
module Network {

  datatype Option<T> = None | Some(value: T)

  /** A cell: its identity, the values still possible for it, and its
      assignment, if any. */
  datatype Variable = Variable(id: nat, domain: set<int>, assignment: Option<int>)

  predicate IsAssigned(v: Variable) {
    v.assignment.Some?
  }

  function Size(v: Variable): nat {
    |v.domain|
  }

  /** Assigning a value records it and collapses the domain to that value. */
  function Assign(v: Variable, value: int): (r: Variable)
    ensures r.id == v.id && IsAssigned(r) && r.assignment.value == value
    ensures r.domain == {value}
  {
    v.(domain := {value}, assignment := Some(value))
  }

  /** Removing a value leaves the assignment alone; removing an absent value
      changes nothing. */
  function RemoveValue(v: Variable, value: int): (r: Variable)
    ensures r.id == v.id && r.assignment == v.assignment
    ensures value !in r.domain
    ensures forall x :: x in r.domain <==> x in v.domain && x != value
    ensures value in v.domain ==> Size(r) == Size(v) - 1
    ensures value !in v.domain ==> r == v
  {
    assert value !in v.domain ==> v.domain - {value} == v.domain;
    v.(domain := v.domain - {value})
  }

  /** The cells vs with value removed from each cell listed in xs, in list
      order. */
  function RemoveFromAll(vs: seq<Variable>, xs: seq<nat>, value: int): (r: seq<Variable>)
    requires forall p :: 0 <= p < |xs| ==> xs[p] < |vs|
    ensures |r| == |vs|
  {
    if xs == [] then vs
    else
      var front := RemoveFromAll(vs, xs[..|xs| - 1], value);
      front[xs[|xs| - 1] := RemoveValue(front[xs[|xs| - 1]], value)]
  }

  /** Extending the list by one cell removes the value from that cell too;
      when its domain lacks the value nothing changes. */
  lemma RemoveFromAllStep(vs: seq<Variable>, xs: seq<nat>, k: nat, value: int)
    requires k < |xs| && forall p :: 0 <= p < |xs| ==> xs[p] < |vs|
    ensures var front := RemoveFromAll(vs, xs[..k], value);
      && RemoveFromAll(vs, xs[..k + 1], value) == front[xs[k] := RemoveValue(front[xs[k]], value)]
      && (value !in front[xs[k]].domain ==> RemoveFromAll(vs, xs[..k + 1], value) == front)
  {
    assert xs[..k + 1][..k] == xs[..k];
    var front := RemoveFromAll(vs, xs[..k], value);
    if value !in front[xs[k]].domain {
      assert front[xs[k] := RemoveValue(front[xs[k]], value)] == front;
    }
  }

  /** Removal touches exactly the listed cells, each as one RemoveValue,
      however often it is listed. */
  lemma {:induction false} RemoveFromAllAt(vs: seq<Variable>, xs: seq<nat>, value: int)
    requires forall p :: 0 <= p < |xs| ==> xs[p] < |vs|
    ensures forall i :: 0 <= i < |vs| ==>
      RemoveFromAll(vs, xs, value)[i] == if i in xs then RemoveValue(vs[i], value) else vs[i]
    decreases |xs|
  {
    if xs != [] {
      var front := xs[..|xs| - 1];
      RemoveFromAllAt(vs, front, value);
      assert xs == front + [xs[|xs| - 1]];
      forall i | 0 <= i < |vs|
        ensures RemoveFromAll(vs, xs, value)[i] == if i in xs then RemoveValue(vs[i], value) else vs[i]
      {
        if i in front {
          var once := RemoveValue(vs[i], value);
          assert RemoveValue(once, value) == once;
        }
      }
    }
  }

  /** A constraint is the ordered list of the indices of its member cells. */
  type Constraint = seq<nat>

  /** Every member of every constraint is one of the n cells. */
  predicate WellFormed(n: nat, cs: seq<Constraint>) {
    forall ci, p :: 0 <= ci < |cs| && 0 <= p < |cs[ci]| ==> cs[ci][p] < n
  }

  predicate AllAssigned(vs: seq<Variable>) {
    forall i :: 0 <= i < |vs| ==> IsAssigned(vs[i])
  }

  predicate NoEmptyDomain(vs: seq<Variable>) {
    forall i :: 0 <= i < |vs| ==> vs[i].domain != {}
  }

  /** The indices of the cells that are still unassigned. */
  function OpenSet(vs: seq<Variable>): set<nat> {
    set i: nat | i < |vs| && !IsAssigned(vs[i])
  }

  /** Cells i and j are members of one common constraint. */
  predicate Shares(cs: seq<Constraint>, i: nat, j: nat) {
    exists ci :: 0 <= ci < |cs| && i in cs[ci] && j in cs[ci]
  }

  /** The neighbours of cell i among the cells j..n-1, in network order. */
  function NeighborsFrom(cs: seq<Constraint>, n: nat, i: nat, j: nat): (r: seq<nat>)
    requires j <= n
    decreases n - j
    ensures forall p :: 0 <= p < |r| ==> j <= r[p] < n
  {
    if j == n then []
    else
      var rest := NeighborsFrom(cs, n, i, j + 1);
      var head := if j != i && Shares(cs, i, j) then [j] else [];
      assert forall p :: 0 <= p < |head| ==> head[p] == j;
      head + rest
  }

  /** NeighborsFrom lists exactly the neighbours of i from j on. */
  lemma {:induction false} NeighborsFromMembers(cs: seq<Constraint>, n: nat, i: nat, j: nat)
    requires j <= n
    decreases n - j
    ensures forall x: nat :: x in NeighborsFrom(cs, n, i, j) <==> j <= x < n && x != i && Shares(cs, i, x)
  {
    if j < n {
      var rest := NeighborsFrom(cs, n, i, j + 1);
      NeighborsFromMembers(cs, n, i, j + 1);
      var head := if j != i && Shares(cs, i, j) then [j] else [];
      assert NeighborsFrom(cs, n, i, j) == head + rest;
      forall x: nat ensures x in head + rest <==> j <= x < n && x != i && Shares(cs, i, x) {
        assert x in head + rest <==> x in head || x in rest;
      }
    }
  }

  /** NeighborsFrom lists the neighbours in strictly ascending order. */
  lemma {:induction false} NeighborsFromAscending(cs: seq<Constraint>, n: nat, i: nat, j: nat)
    requires j <= n
    decreases n - j
    ensures forall p, q :: 0 <= p < q < |NeighborsFrom(cs, n, i, j)| ==> NeighborsFrom(cs, n, i, j)[p] < NeighborsFrom(cs, n, i, j)[q]
  {
    if j < n {
      var rest := NeighborsFrom(cs, n, i, j + 1);
      NeighborsFromAscending(cs, n, i, j + 1);
      var head := if j != i && Shares(cs, i, j) then [j] else [];
      var r := head + rest;
      assert NeighborsFrom(cs, n, i, j) == r;
      forall p, q | 0 <= p < q < |r| ensures r[p] < r[q] {
        if p >= |head| {
          assert r[p] == rest[p - |head|] && r[q] == rest[q - |head|];
        } else {
          assert r[p] == j && r[q] == rest[q - 1];
        }
      }
    }
  }

  /** The neighbours of cell i: every other cell sharing a constraint with
      it, in network order. */
  function Neighbors(cs: seq<Constraint>, n: nat, i: nat): (r: seq<nat>)
    ensures forall p :: 0 <= p < |r| ==> r[p] < n
  {
    NeighborsFrom(cs, n, i, 0)
  }

  /** Neighbors lists exactly the cells sharing a constraint with i, each
      once, in ascending order. */
  lemma NeighborsMembers(cs: seq<Constraint>, n: nat, i: nat)
    ensures forall x: nat :: x in Neighbors(cs, n, i) <==> x < n && x != i && Shares(cs, i, x)
    ensures forall p, q :: 0 <= p < q < |Neighbors(cs, n, i)| ==> Neighbors(cs, n, i)[p] < Neighbors(cs, n, i)[q]
  {
    NeighborsFromMembers(cs, n, i, 0);
    NeighborsFromAscending(cs, n, i, 0);
  }

  /** The neighbour relation is symmetric and irreflexive. */
  lemma NeighborsSymmetric(cs: seq<Constraint>, n: nat, i: nat, j: nat)
    requires i < n && j < n
    ensures j in Neighbors(cs, n, i) <==> i in Neighbors(cs, n, j)
    ensures i !in Neighbors(cs, n, i)
  {
    NeighborsMembers(cs, n, i);
    NeighborsMembers(cs, n, j);
    if Shares(cs, i, j) {
      var ci :| 0 <= ci < |cs| && i in cs[ci] && j in cs[ci];
      assert j in cs[ci] && i in cs[ci];
    }
    if Shares(cs, j, i) {
      var ci :| 0 <= ci < |cs| && j in cs[ci] && i in cs[ci];
      assert i in cs[ci] && j in cs[ci];
    }
  }

  /** Some neighbour of cell x still has value in its domain. */
  predicate HeldByNeighbor(vs: seq<Variable>, cs: seq<Constraint>, x: nat, value: int) {
    exists nb :: nb in Neighbors(cs, |vs|, x) && value in vs[nb].domain
  }

  /** How many of the cells listed in xs are unassigned. */
  function CountOpen(vs: seq<Variable>, xs: seq<nat>): (k: nat)
    requires forall p :: 0 <= p < |xs| ==> xs[p] < |vs|
    ensures k <= |xs|
    ensures k == 0 <==> forall p :: 0 <= p < |xs| ==> IsAssigned(vs[xs[p]])
  {
    if xs == [] then 0
    else CountOpen(vs, xs[..|xs| - 1]) + (if IsAssigned(vs[xs[|xs| - 1]]) then 0 else 1)
  }

  /** How many of the cells listed in xs still have value in their domain. */
  function CountContaining(vs: seq<Variable>, xs: seq<nat>, value: int): (k: nat)
    requires forall p :: 0 <= p < |xs| ==> xs[p] < |vs|
    ensures k <= |xs|
    ensures k == 0 <==> forall p :: 0 <= p < |xs| ==> value !in vs[xs[p]].domain
  {
    if xs == [] then 0
    else CountContaining(vs, xs[..|xs| - 1], value) + (if value in vs[xs[|xs| - 1]].domain then 1 else 0)
  }

  /** The degree of cell i: its number of unassigned neighbours. */
  function Degree(vs: seq<Variable>, cs: seq<Constraint>, i: nat): nat {
    CountOpen(vs, Neighbors(cs, |vs|, i))
  }

  /** The number of neighbours of cell i whose domain still holds value. */
  function Support(vs: seq<Variable>, cs: seq<Constraint>, i: nat, value: int): nat {
    CountContaining(vs, Neighbors(cs, |vs|, i), value)
  }

  /** A value is held by some neighbour exactly when its neighbour support
      is positive: the value-ordering count and the forcing test agree. */
  lemma HeldIffSupport(vs: seq<Variable>, cs: seq<Constraint>, x: nat, value: int)
    ensures HeldByNeighbor(vs, cs, x, value) <==> Support(vs, cs, x, value) > 0
  {
    var nbrs := Neighbors(cs, |vs|, x);
    if HeldByNeighbor(vs, cs, x, value) {
      var nb :| nb in nbrs && value in vs[nb].domain;
      var p :| 0 <= p < |nbrs| && nbrs[p] == nb;
    }
    if Support(vs, cs, x, value) > 0 {
      var p :| 0 <= p < |nbrs| && value in vs[nbrs[p]].domain;
      assert nbrs[p] in nbrs;
    }
  }

  /** The unassigned members of the first k constraints that contain cell i,
      counted once per constraint they share with it (a cell in two such
      constraints counts twice; i itself counts in each, while unassigned). */
  function LoadUpTo(vs: seq<Variable>, cs: seq<Constraint>, i: nat, k: nat): nat
    requires WellFormed(|vs|, cs) && k <= |cs|
  {
    if k == 0 then 0
    else LoadUpTo(vs, cs, i, k - 1) + (if i in cs[k - 1] then CountOpen(vs, cs[k - 1]) else 0)
  }

  function Load(vs: seq<Variable>, cs: seq<Constraint>, i: nat): nat
    requires WellFormed(|vs|, cs)
  {
    LoadUpTo(vs, cs, i, |cs|)
  }

  /** A constraint holds when no two distinct assigned members share a value. */
  predicate ConstraintHolds(vs: seq<Variable>, c: Constraint) {
    forall p, q ::
      (0 <= p < |c| && 0 <= q < |c| && c[p] != c[q] && c[p] < |vs| && c[q] < |vs|
       && IsAssigned(vs[c[p]]) && IsAssigned(vs[c[q]]))
      ==> vs[c[p]].assignment.value != vs[c[q]].assignment.value
  }

  predicate AllConstraintsHold(vs: seq<Variable>, cs: seq<Constraint>) {
    forall ci :: 0 <= ci < |cs| ==> ConstraintHolds(vs, cs[ci])
  }

  /** Forward checking's effect on the cells: domains only shrink, and no
      assignment is made or changed. */
  predicate PrunedOnly(before: seq<Variable>, after: seq<Variable>) {
    && |after| == |before|
    && forall i :: 0 <= i < |before| ==>
         && after[i].id == before[i].id
         && after[i].domain <= before[i].domain
         && after[i].assignment == before[i].assignment
  }

  /** Propagation with forced assignment: domains only shrink, an assignment
      is never changed, and a new assignment is a value of the cell's domain,
      to which that domain collapses. */
  predicate PrunedOrForced(before: seq<Variable>, after: seq<Variable>) {
    && |after| == |before|
    && forall i :: 0 <= i < |before| ==>
         && after[i].id == before[i].id
         && after[i].domain <= before[i].domain
         && (IsAssigned(before[i]) ==> after[i].assignment == before[i].assignment)
         && (IsAssigned(after[i]) && !IsAssigned(before[i]) ==>
               && after[i].assignment.value in before[i].domain
               && after[i].domain <= {after[i].assignment.value})
  }

  lemma PrunedOnlyIsPrunedOrForced(before: seq<Variable>, after: seq<Variable>)
    requires PrunedOnly(before, after)
    ensures PrunedOrForced(before, after)
  {
  }

  lemma PrunedOrForcedTrans(a: seq<Variable>, b: seq<Variable>, c: seq<Variable>)
    requires PrunedOrForced(a, b) && PrunedOrForced(b, c)
    ensures PrunedOrForced(a, c)
  {
    forall i | 0 <= i < |a|
      ensures IsAssigned(c[i]) && !IsAssigned(a[i]) ==>
        c[i].assignment.value in a[i].domain && c[i].domain <= {c[i].assignment.value}
    {
      if IsAssigned(c[i]) && !IsAssigned(a[i]) {
        if IsAssigned(b[i]) {
          assert c[i].assignment == b[i].assignment;
        } else {
          assert c[i].assignment.value in b[i].domain;
        }
      }
    }
  }

  /** Assigning the unassigned cell i takes it out of the unassigned cells. */
  lemma OpenSetAssign(vs: seq<Variable>, i: nat, c: Variable)
    requires i < |vs| && !IsAssigned(vs[i]) && IsAssigned(c)
    ensures OpenSet(vs[i := c]) == OpenSet(vs) - {i}
  {
  }

  /** Propagation never unassigns a cell, so the unassigned cells only get fewer. */
  lemma OpenSetShrinks(before: seq<Variable>, after: seq<Variable>)
    requires PrunedOrForced(before, after)
    ensures OpenSet(after) <= OpenSet(before)
  {
  }

  lemma SubsetCard(a: set<nat>, b: set<nat>)
    requires a <= b
    ensures |a| <= |b|
    decreases |b|
  {
    if b != {} {
      var x :| x in b;
      SubsetCard(a - {x}, b - {x});
    }
  }

  /** The assigned cell x's value is in no neighbour's domain (vacuous while
      x is unassigned): forward checking has nothing left to do for x. */
  predicate Settled(vs: seq<Variable>, cs: seq<Constraint>, x: nat) {
    x < |vs| && IsAssigned(vs[x]) ==>
      forall nb: nat :: nb < |vs| && nb in Neighbors(cs, |vs|, x) ==> vs[x].assignment.value !in vs[nb].domain
  }

  predicate AllSettled(vs: seq<Variable>, cs: seq<Constraint>) {
    forall x: nat :: x < |vs| ==> Settled(vs, cs, x)
  }

  /** Every cell settled in a stays settled in b. */
  predicate SettledGrows(a: seq<Variable>, b: seq<Variable>, cs: seq<Constraint>) {
    && |b| == |a|
    && forall x: nat :: x < |a| && Settled(a, cs, x) ==> Settled(b, cs, x)
  }

  /** Cell x lies in one of the constraints of mods numbered lo or higher. */
  predicate PendingIn(cs: seq<Constraint>, mods: set<nat>, lo: nat, x: nat) {
    exists ci: nat :: ci in mods && lo <= ci < |cs| && x in cs[ci]
  }

  /** The modified set covers the work left: every cell that is not settled
      lies in a modified constraint. */
  predicate Tracked(vs: seq<Variable>, cs: seq<Constraint>, mods: set<nat>) {
    forall x: nat :: x < |vs| && !Settled(vs, cs, x) ==> PendingIn(cs, mods, 0, x)
  }

  /** An assigned cell's domain holds at most its own value. */
  predicate Collapsed(vs: seq<Variable>) {
    forall i :: 0 <= i < |vs| && IsAssigned(vs[i]) ==> vs[i].domain <= {vs[i].assignment.value}
  }

  /** Pruning and forced assignment keep every assigned domain collapsed. */
  lemma CollapsedKept(a: seq<Variable>, b: seq<Variable>)
    requires Collapsed(a) && PrunedOrForced(a, b)
    ensures Collapsed(b)
  {
  }

  /** Pruning alone never unsettles a cell. */
  lemma PrunedKeepsSettled(a: seq<Variable>, b: seq<Variable>, cs: seq<Constraint>)
    requires PrunedOnly(a, b)
    ensures SettledGrows(a, b, cs)
  {
  }

  lemma SettledGrowsTrans(a: seq<Variable>, b: seq<Variable>, c: seq<Variable>, cs: seq<Constraint>)
    requires SettledGrows(a, b, cs) && SettledGrows(b, c, cs)
    ensures SettledGrows(a, c, cs)
  {
  }

  /** A step that unsettles nobody and settles members[k] extends a settled
      prefix of members by one. */
  lemma SettledPrefix(a: seq<Variable>, b: seq<Variable>, cs: seq<Constraint>, members: seq<nat>, k: nat)
    requires SettledGrows(a, b, cs) && k < |members|
    requires forall q :: 0 <= q < k ==> Settled(a, cs, members[q])
    requires Settled(b, cs, members[k])
    ensures forall q :: 0 <= q <= k ==> Settled(b, cs, members[q])
  {
  }

  /** Every member of constraint ci is settled. */
  predicate ConstraintSettled(vs: seq<Variable>, cs: seq<Constraint>, ci: nat) {
    ci < |cs| && forall x: nat :: x in cs[ci] ==> Settled(vs, cs, x)
  }

  /** Every member of every constraint in mods is settled. */
  predicate ModsSettled(vs: seq<Variable>, cs: seq<Constraint>, mods: set<nat>) {
    forall ci: nat :: ci in mods && ci < |cs| ==> ConstraintSettled(vs, cs, ci)
  }

  /** A pass over the constraints in index order: once constraint ci has
      been settled (when it is in mods) by a step that unsettles nobody, the
      settled prefix of mods reaches ci. */
  lemma ModsPrefixStep(a: seq<Variable>, b: seq<Variable>, cs: seq<Constraint>, mods: set<nat>, ci: nat)
    requires SettledGrows(a, b, cs)
    requires forall cj: nat :: cj in mods && cj < ci ==> ConstraintSettled(a, cs, cj)
    requires ci in mods ==> ConstraintSettled(b, cs, ci)
    ensures forall cj: nat :: cj in mods && cj < ci + 1 ==> ConstraintSettled(b, cs, cj)
  {
    forall cj: nat | cj in mods && cj < ci + 1 ensures ConstraintSettled(b, cs, cj) {
      if cj < ci {
        assert ConstraintSettled(a, cs, cj);
      }
    }
  }

  /** A cell all of whose constraints are settled is settled itself: its
      neighbours all share one of those constraints with it. */
  lemma ModsCover(vs: seq<Variable>, cs: seq<Constraint>, mods: set<nat>, x: nat)
    requires forall ci :: 0 <= ci < |cs| && x in cs[ci] ==> ci in mods
    requires ModsSettled(vs, cs, mods)
    ensures Settled(vs, cs, x)
  {
    if x < |vs| && IsAssigned(vs[x]) {
      NeighborsMembers(cs, |vs|, x);
      forall nb: nat | nb < |vs| && nb in Neighbors(cs, |vs|, x)
        ensures vs[x].assignment.value !in vs[nb].domain
      {
        var ci :| 0 <= ci < |cs| && x in cs[ci] && nb in cs[ci];
        assert ConstraintSettled(vs, cs, ci);
      }
    }
  }

  /** Assigning x a value no neighbour holds settles x and unsettles nobody. */
  lemma ForcedKeepsSettled(a: seq<Variable>, cs: seq<Constraint>, x: nat, value: int)
    requires x < |a| && value in a[x].domain
    requires forall nb: nat :: nb < |a| && nb in Neighbors(cs, |a|, x) ==> value !in a[nb].domain
    ensures SettledGrows(a, a[x := Assign(a[x], value)], cs)
    ensures Settled(a[x := Assign(a[x], value)], cs, x)
  {
    var b := a[x := Assign(a[x], value)];
    forall y: nat | y < |a| && Settled(a, cs, y) ensures Settled(b, cs, y) {
      if y < |b| && IsAssigned(b[y]) && y != x {
        forall nb: nat | nb < |b| && nb in Neighbors(cs, |b|, y)
          ensures b[y].assignment.value !in b[nb].domain
        {
          assert b[nb].domain <= a[nb].domain;
        }
      }
    }
  }

  /** The fixpoint of a pass: a cell unsettled at the start lies in a
      modified constraint, whose members the pass settled, and a cell settled
      at the start stays settled, so every cell ends settled. */
  lemma TrackedSettles(before: seq<Variable>, after: seq<Variable>, cs: seq<Constraint>, mods: set<nat>)
    requires Tracked(before, cs, mods) && SettledGrows(before, after, cs) && ModsSettled(after, cs, mods)
    ensures AllSettled(after, cs)
  {
    forall x: nat | x < |after| ensures Settled(after, cs, x) {
      if !Settled(before, cs, x) {
        var ci: nat :| ci in mods && 0 <= ci < |cs| && x in cs[ci];
        assert ConstraintSettled(after, cs, ci);
      }
    }
  }

  /** The cells whose state differs between a and b (listed cell by cell,
      so that the set unfolds only where ChangedMembers is called). */
  function Changed(a: seq<Variable>, b: seq<Variable>): set<nat> {
    ChangedBelow(a, b, if |a| < |b| then |a| else |b|)
  }

  /** The cells below k whose state differs between a and b. */
  function ChangedBelow(a: seq<Variable>, b: seq<Variable>, k: nat): set<nat>
    requires k <= |a| && k <= |b|
  {
    if k == 0 then {}
    else ChangedBelow(a, b, k - 1) + if a[k - 1] != b[k - 1] then {k - 1} else {}
  }

  lemma {:induction false} ChangedBelowMembers(a: seq<Variable>, b: seq<Variable>, k: nat)
    requires k <= |a| && k <= |b|
    ensures forall i: nat :: i in ChangedBelow(a, b, k) <==> i < k && a[i] != b[i]
  {
    if k > 0 {
      ChangedBelowMembers(a, b, k - 1);
    }
  }

  /** Changed holds exactly the cells of both sequences that differ. */
  lemma ChangedMembers(a: seq<Variable>, b: seq<Variable>)
    ensures forall i: nat :: i in Changed(a, b) <==> i < |a| && i < |b| && a[i] != b[i]
  {
    ChangedBelowMembers(a, b, if |a| < |b| then |a| else |b|);
  }

  /** The constraints that contain some cell of cells: the ones a network
      reports as modified once those cells have changed. */
  function Touching(cs: seq<Constraint>, cells: set<nat>): set<nat> {
    TouchingBelow(cs, cells, |cs|)
  }

  /** The constraints below k that contain some cell of cells. */
  function TouchingBelow(cs: seq<Constraint>, cells: set<nat>, k: nat): set<nat>
    requires k <= |cs|
  {
    if k == 0 then {}
    else TouchingBelow(cs, cells, k - 1) + if exists x :: x in cells && x in cs[k - 1] then {k - 1} else {}
  }

  lemma {:induction false} TouchingBelowMembers(cs: seq<Constraint>, cells: set<nat>, k: nat)
    requires k <= |cs|
    ensures forall ci: nat :: ci in TouchingBelow(cs, cells, k) <==> ci < k && exists x :: x in cells && x in cs[ci]
  {
    if k > 0 {
      TouchingBelowMembers(cs, cells, k - 1);
    }
  }

  /** Touching holds exactly the constraints that contain a cell of cells. */
  lemma TouchingMembers(cs: seq<Constraint>, cells: set<nat>)
    ensures forall ci: nat :: ci in Touching(cs, cells) <==> ci < |cs| && exists x :: x in cells && x in cs[ci]
  {
    TouchingBelowMembers(cs, cells, |cs|);
  }

  /** A step that changes nothing touches no constraint. */
  lemma TouchedNone(a: seq<Variable>, cs: seq<Constraint>)
    ensures Touching(cs, Changed(a, a)) == {}
  {
    ChangedMembers(a, a);
    assert Changed(a, a) == {};
    TouchingMembers(cs, {});
  }

  /** Changing cell i alone touches exactly the constraints containing i,
      here given as r. */
  lemma TouchedOne(a: seq<Variable>, cs: seq<Constraint>, i: nat, v: Variable, r: set<nat>)
    requires i < |a| && v != a[i]
    requires forall ci :: ci in r <==> 0 <= ci < |cs| && i in cs[ci]
    ensures Touching(cs, Changed(a, a[i := v])) == r
  {
    ChangedMembers(a, a[i := v]);
    TouchingMembers(cs, {i});
    assert Changed(a, a[i := v]) == {i};
  }

  /** Under propagation a changed cell stays changed (domains only shrink
      and an assignment is never undone), so the cells changed over two
      steps are those changed by either, and so are the constraints they
      touch. */
  lemma TouchedTrans(a: seq<Variable>, b: seq<Variable>, c: seq<Variable>, cs: seq<Constraint>)
    requires PrunedOrForced(a, b) && PrunedOrForced(b, c)
    ensures Changed(a, c) == Changed(a, b) + Changed(b, c)
    ensures Touching(cs, Changed(a, c)) == Touching(cs, Changed(a, b)) + Touching(cs, Changed(b, c))
  {
    ChangedMembers(a, b);
    ChangedMembers(b, c);
    ChangedMembers(a, c);
    TouchingMembers(cs, Changed(a, b));
    TouchingMembers(cs, Changed(b, c));
    TouchingMembers(cs, Changed(a, c));
    forall i: nat | i < |a| && (a[i] != b[i] || b[i] != c[i]) ensures a[i] != c[i] {
      if a[i].domain == c[i].domain {
        assert a[i].domain == b[i].domain;
        assert !IsAssigned(a[i]) && IsAssigned(c[i]);
      }
    }
  }

  /** The modified record over two propagation steps: if each step adds
      the constraints it touched, so do both steps together. */
  lemma ModifiedStep(a: seq<Variable>, b: seq<Variable>, c: seq<Variable>, cs: seq<Constraint>, m: set<nat>, m0: set<nat>, m1: set<nat>)
    requires PrunedOrForced(a, b) && PrunedOrForced(b, c)
    requires m0 == m + Touching(cs, Changed(a, b)) && m1 == m0 + Touching(cs, Changed(b, c))
    ensures PrunedOrForced(a, c)
    ensures m1 == m + Touching(cs, Changed(a, c))
  {
    TouchedTrans(a, b, c, cs);
    PrunedOrForcedTrans(a, b, c);
  }

  /** TouchedTrans for two pruning steps, which compose to one. */
  lemma PrunedTouchedTrans(a: seq<Variable>, b: seq<Variable>, c: seq<Variable>, cs: seq<Constraint>)
    requires PrunedOnly(a, b) && PrunedOnly(b, c)
    ensures PrunedOnly(a, c)
    ensures Touching(cs, Changed(a, c)) == Touching(cs, Changed(a, b)) + Touching(cs, Changed(b, c))
  {
    TouchedTrans(a, b, c, cs);
  }

  /** ModifiedStep for two pruning steps, which compose to one. */
  lemma PrunedModifiedStep(a: seq<Variable>, b: seq<Variable>, c: seq<Variable>, cs: seq<Constraint>, m: set<nat>, m0: set<nat>, m1: set<nat>)
    requires PrunedOnly(a, b) && PrunedOnly(b, c)
    requires m0 == m + Touching(cs, Changed(a, b)) && m1 == m0 + Touching(cs, Changed(b, c))
    ensures PrunedOnly(a, c)
    ensures m1 == m + Touching(cs, Changed(a, c))
  {
    TouchedTrans(a, b, c, cs);
  }

  /** Every member of every constraint of s that is not pending in mods is
      settled. */
  predicate PendingOrSettled(vs: seq<Variable>, cs: seq<Constraint>, s: set<nat>, mods: set<nat>) {
    forall ci: nat :: ci in s && ci < |cs| && ci !in mods ==> ConstraintSettled(vs, cs, ci)
  }

  /** One pass of a fixpoint loop: the pass settles the pending constraints
      and unsettles nobody, so what remains pending is what the pass itself
      touched. */
  lemma PendingStep(a: seq<Variable>, b: seq<Variable>, cs: seq<Constraint>, s: set<nat>, mods: set<nat>, touched: set<nat>)
    requires PendingOrSettled(a, cs, s, mods)
    requires SettledGrows(a, b, cs) && ModsSettled(b, cs, mods)
    ensures PendingOrSettled(b, cs, s + touched, touched)
  {
    forall ci: nat | ci in s + touched && ci < |cs| && ci !in touched ensures ConstraintSettled(b, cs, ci) {
      if ci !in mods {
        assert ConstraintSettled(a, cs, ci);
      }
    }
  }

  /** No value of the unassigned cell x is forced: each one is still held by
      some neighbour (vacuous for an assigned cell). */
  predicate Unforced(vs: seq<Variable>, cs: seq<Constraint>, x: nat) {
    x < |vs| && !IsAssigned(vs[x]) ==> forall w :: w in vs[x].domain ==> HeldByNeighbor(vs, cs, x, w)
  }

  /** Cell x lies in a pending constraint of mods, or it has no forced value. */
  predicate PendingOrUnforced(vs: seq<Variable>, cs: seq<Constraint>, mods: set<nat>, x: nat) {
    PendingIn(cs, mods, 0, x) || Unforced(vs, cs, x)
  }

  /** Every member of every constraint of s is pending in mods or unforced. */
  predicate ModsUnforced(vs: seq<Variable>, cs: seq<Constraint>, s: set<nat>, mods: set<nat>) {
    forall ci: nat, x: nat :: ci in s && ci < |cs| && x in cs[ci] ==> PendingOrUnforced(vs, cs, mods, x)
  }

  /** A step that changes member y of constraint cj touches cj. */
  lemma TouchedBy(b: seq<Variable>, c: seq<Variable>, cs: seq<Constraint>, cj: nat, y: nat)
    requires cj < |cs| && y in cs[cj] && y < |b| && y < |c| && b[y] != c[y]
    ensures cj in Touching(cs, Changed(b, c))
  {
    ChangedMembers(b, c);
    assert y in Changed(b, c);
    TouchingMembers(cs, Changed(b, c));
  }

  /** A step that leaves x and all its neighbours alone keeps x unforced. */
  lemma UnforcedLocal(b: seq<Variable>, c: seq<Variable>, cs: seq<Constraint>, x: nat)
    requires |b| == |c| && x < |b| && b[x] == c[x]
    requires forall nb :: nb in Neighbors(cs, |b|, x) ==> b[nb] == c[nb]
    requires Unforced(b, cs, x)
    ensures Unforced(c, cs, x)
  {
    if !IsAssigned(c[x]) {
      forall w | w in c[x].domain ensures HeldByNeighbor(c, cs, x, w) {
        var nb :| nb in Neighbors(cs, |b|, x) && w in b[nb].domain;
        assert w in c[nb].domain;
      }
    }
  }

  /** Whether x has a forced value depends only on x and its neighbours: a
      later step either leaves them all alone, or changes one of them and so
      touches a constraint containing x. */
  lemma UnforcedStep(a: seq<Variable>, b: seq<Variable>, c: seq<Variable>, cs: seq<Constraint>, ci: nat, x: nat)
    requires PrunedOrForced(a, b) && PrunedOrForced(b, c)
    requires ci < |cs| && x in cs[ci]
    requires PendingOrUnforced(b, cs, Touching(cs, Changed(a, b)), x)
    ensures PendingOrUnforced(c, cs, Touching(cs, Changed(a, c)), x)
  {
    TouchedTrans(a, b, c, cs);
    if PendingIn(cs, Touching(cs, Changed(a, b)), 0, x) {
      var cj: nat :| cj in Touching(cs, Changed(a, b)) && cj < |cs| && x in cs[cj];
      assert cj in Touching(cs, Changed(a, c));
    } else if x < |b| && b[x] != c[x] {
      TouchedBy(b, c, cs, ci, x);
      assert ci in Touching(cs, Changed(a, c));
    } else if x < |b| && exists nb :: nb in Neighbors(cs, |b|, x) && b[nb] != c[nb] {
      var nb :| nb in Neighbors(cs, |b|, x) && b[nb] != c[nb];
      NeighborsMembers(cs, |b|, x);
      var cj :| 0 <= cj < |cs| && x in cs[cj] && nb in cs[cj];
      TouchedBy(b, c, cs, cj, nb);
      assert cj in Touching(cs, Changed(a, c));
    } else if x < |b| {
      UnforcedLocal(b, c, cs, x);
    }
  }

  /** A cell left pending or unforced by a later step is pending or
      unforced over both steps together. */
  lemma UnforcedLater(a: seq<Variable>, b: seq<Variable>, c: seq<Variable>, cs: seq<Constraint>, x: nat)
    requires PrunedOrForced(a, b) && PrunedOrForced(b, c)
    requires PendingOrUnforced(c, cs, Touching(cs, Changed(b, c)), x)
    ensures PendingOrUnforced(c, cs, Touching(cs, Changed(a, c)), x)
  {
    TouchedTrans(a, b, c, cs);
    if PendingIn(cs, Touching(cs, Changed(b, c)), 0, x) {
      var cj: nat :| cj in Touching(cs, Changed(b, c)) && cj < |cs| && x in cs[cj];
      assert cj in Touching(cs, Changed(a, c));
    }
  }

  /** Walking the members of constraint ci: a step that leaves members[k]
      unforced extends the prefix of members that are pending or unforced. */
  lemma UnforcedPrefix(a: seq<Variable>, b: seq<Variable>, c: seq<Variable>, cs: seq<Constraint>, ci: nat, k: nat)
    requires PrunedOrForced(a, b) && PrunedOrForced(b, c)
    requires ci < |cs| && k < |cs[ci]|
    requires forall q :: 0 <= q < k ==> PendingOrUnforced(b, cs, Touching(cs, Changed(a, b)), cs[ci][q])
    requires Unforced(c, cs, cs[ci][k])
    ensures forall q :: 0 <= q <= k ==> PendingOrUnforced(c, cs, Touching(cs, Changed(a, c)), cs[ci][q])
  {
    forall q | 0 <= q < k ensures PendingOrUnforced(c, cs, Touching(cs, Changed(a, c)), cs[ci][q]) {
      UnforcedStep(a, b, c, cs, ci, cs[ci][q]);
    }
  }

  /** Walking the constraints of mods in index order: once constraint ci
      (when it is in mods) has left its members pending or unforced, the
      prefix of mods whose members are reaches ci. */
  lemma UnforcedModsPrefix(a: seq<Variable>, b: seq<Variable>, c: seq<Variable>, cs: seq<Constraint>, mods: set<nat>, ci: nat)
    requires PrunedOrForced(a, b) && PrunedOrForced(b, c) && ci < |cs|
    requires forall cj: nat, x: nat :: cj in mods && cj < ci && x in cs[cj] ==>
      PendingOrUnforced(b, cs, Touching(cs, Changed(a, b)), x)
    requires ci in mods ==> forall x: nat :: x in cs[ci] ==>
      PendingOrUnforced(c, cs, Touching(cs, Changed(b, c)), x)
    ensures forall cj: nat, x: nat :: cj in mods && cj < ci + 1 && x in cs[cj] ==>
      PendingOrUnforced(c, cs, Touching(cs, Changed(a, c)), x)
  {
    forall cj: nat, x: nat | cj in mods && cj < ci + 1 && x in cs[cj]
      ensures PendingOrUnforced(c, cs, Touching(cs, Changed(a, c)), x)
    {
      if cj < ci {
        UnforcedStep(a, b, c, cs, cj, x);
      } else {
        UnforcedLater(a, b, c, cs, x);
      }
    }
  }

  /** One pass of Norvig's fixpoint loop: a member that was pending has been
      processed by the pass, and an unforced one is either still unforced or
      had a neighbour changed, so it is pending again. */
  lemma UnforcedPassStep(a: seq<Variable>, b: seq<Variable>, cs: seq<Constraint>, s: set<nat>, mods: set<nat>)
    requires PrunedOrForced(a, b)
    requires ModsUnforced(a, cs, s, mods)
    requires ModsUnforced(b, cs, mods, Touching(cs, Changed(a, b)))
    ensures ModsUnforced(b, cs, s + Touching(cs, Changed(a, b)), Touching(cs, Changed(a, b)))
  {
    var touched := Touching(cs, Changed(a, b));
    forall ci: nat, x: nat | ci in s + touched && ci < |cs| && x in cs[ci]
      ensures PendingOrUnforced(b, cs, touched, x)
    {
      if ci !in touched {
        assert PendingOrUnforced(a, cs, mods, x);
        if PendingIn(cs, mods, 0, x) {
          var cj: nat :| cj in mods && cj < |cs| && x in cs[cj];
        } else {
          UnforcedStep(a, a, b, cs, ci, x);
        }
      }
    }
  }

  /** No member of a constraint of s has a forced value. */
  predicate ConstraintsUnforced(vs: seq<Variable>, cs: seq<Constraint>, s: set<nat>) {
    forall ci: nat, x: nat :: ci in s && ci < |cs| && x in cs[ci] ==> Unforced(vs, cs, x)
  }

  /** Once nothing is pending, every member of a constraint of s is
      unforced. */
  lemma NothingPending(vs: seq<Variable>, cs: seq<Constraint>, s: set<nat>)
    requires ModsUnforced(vs, cs, s, {})
    ensures ConstraintsUnforced(vs, cs, s)
  {
    forall ci: nat, x: nat | ci in s && ci < |cs| && x in cs[ci] ensures Unforced(vs, cs, x) {
      assert PendingOrUnforced(vs, cs, {}, x);
    }
  }

  /** The termination measure of propagation: per cell, its domain size plus
      one while it is unassigned. */
  function Weight(v: Variable): nat {
    Size(v) + if IsAssigned(v) then 0 else 1
  }

  function Measure(vs: seq<Variable>): nat {
    if vs == [] then 0 else Measure(vs[..|vs| - 1]) + Weight(vs[|vs| - 1])
  }

  /** Replacing one cell changes the measure by the difference of the weights. */
  lemma {:induction false} MeasureUpdate(vs: seq<Variable>, i: nat, c: Variable)
    requires i < |vs|
    ensures Measure(vs[i := c]) + Weight(vs[i]) == Measure(vs) + Weight(c)
    decreases |vs|
  {
    var last := |vs| - 1;
    if i == last {
      assert vs[i := c][..last] == vs[..last];
    } else {
      assert vs[i := c][..last] == vs[..last][i := c];
      MeasureUpdate(vs[..last], i, c);
    }
  }

  /** Assigning an unassigned cell one of its values is a forcing step, and
      it lowers the measure. */
  lemma AssignIsForced(vs: seq<Variable>, i: nat, value: int)
    requires i < |vs| && !IsAssigned(vs[i]) && value in vs[i].domain
    ensures PrunedOrForced(vs, vs[i := Assign(vs[i], value)])
    ensures Measure(vs[i := Assign(vs[i], value)]) < Measure(vs)
  {
    MeasureUpdate(vs, i, Assign(vs[i], value));
  }
}
