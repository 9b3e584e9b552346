/** What each variable-selection heuristic chooses, stated as a property of
    the chosen index. Each property determines the choice uniquely, which
    the lemmas at the end prove. */
module Selection {
  import opened Network

  /** k is the earliest unassigned cell in network order. */
  predicate IsFirstUnassigned(vs: seq<Variable>, k: nat) {
    && k < |vs|
    && !IsAssigned(vs[k])
    && forall j :: 0 <= j < k ==> IsAssigned(vs[j])
  }

  /** k is unassigned and no unassigned cell has a smaller domain. */
  predicate HasMinimumDomain(vs: seq<Variable>, k: nat) {
    && k < |vs|
    && !IsAssigned(vs[k])
    && forall j :: 0 <= j < |vs| && !IsAssigned(vs[j]) ==> Size(vs[k]) <= Size(vs[j])
  }

  /** Minimum remaining values: a smallest domain, the earliest among ties. */
  predicate IsMrvChoice(vs: seq<Variable>, k: nat) {
    && HasMinimumDomain(vs, k)
    && forall j :: 0 <= j < k && !IsAssigned(vs[j]) ==> Size(vs[k]) < Size(vs[j])
  }

  /** Cell j is in the minimum-remaining-values set of domain size m. */
  predicate InMrvSet(vs: seq<Variable>, j: nat, m: nat) {
    j < |vs| && !IsAssigned(vs[j]) && Size(vs[j]) == m
  }

  /** Degree: within the minimum-remaining-values set, most unassigned
      neighbours, the earliest among ties. */
  predicate IsDegreeChoice(vs: seq<Variable>, cs: seq<Constraint>, k: nat) {
    && HasMinimumDomain(vs, k)
    && forall j: nat :: j < |vs| && InMrvSet(vs, j, Size(vs[k])) ==>
         && Degree(vs, cs, j) <= Degree(vs, cs, k)
         && (j < k ==> Degree(vs, cs, j) < Degree(vs, cs, k))
  }

  /** MRV with tie-breaker: within the minimum-remaining-values set, the
      largest count of unassigned members over the constraints containing
      the cell, the earliest among ties. */
  predicate IsLoadChoice(vs: seq<Variable>, cs: seq<Constraint>, k: nat)
    requires WellFormed(|vs|, cs)
  {
    && HasMinimumDomain(vs, k)
    && forall j: nat :: j < |vs| && InMrvSet(vs, j, Size(vs[k])) ==>
         && Load(vs, cs, j) <= Load(vs, cs, k)
         && (j < k ==> Load(vs, cs, j) < Load(vs, cs, k))
  }

  lemma FirstUnassignedUnique(vs: seq<Variable>, k1: nat, k2: nat)
    requires IsFirstUnassigned(vs, k1) && IsFirstUnassigned(vs, k2)
    ensures k1 == k2
  {
  }

  lemma MrvChoiceUnique(vs: seq<Variable>, k1: nat, k2: nat)
    requires IsMrvChoice(vs, k1) && IsMrvChoice(vs, k2)
    ensures k1 == k2
  {
  }

  lemma DegreeChoiceUnique(vs: seq<Variable>, cs: seq<Constraint>, k1: nat, k2: nat)
    requires IsDegreeChoice(vs, cs, k1) && IsDegreeChoice(vs, cs, k2)
    ensures k1 == k2
  {
    assert Size(vs[k1]) == Size(vs[k2]);
    assert InMrvSet(vs, k2, Size(vs[k1])) && InMrvSet(vs, k1, Size(vs[k2]));
  }

  lemma LoadChoiceUnique(vs: seq<Variable>, cs: seq<Constraint>, k1: nat, k2: nat)
    requires WellFormed(|vs|, cs)
    requires IsLoadChoice(vs, cs, k1) && IsLoadChoice(vs, cs, k2)
    ensures k1 == k2
  {
    assert Size(vs[k1]) == Size(vs[k2]);
    assert InMrvSet(vs, k2, Size(vs[k1])) && InMrvSet(vs, k1, Size(vs[k2]));
  }

  /** When every unassigned cell has the same domain size, minimum remaining
      values degenerates to the first unassigned cell. */
  lemma MrvOfEqualSizesIsFirst(vs: seq<Variable>, k: nat)
    requires IsMrvChoice(vs, k)
    requires forall i, j :: 0 <= i < |vs| && 0 <= j < |vs| && !IsAssigned(vs[i]) && !IsAssigned(vs[j]) ==> Size(vs[i]) == Size(vs[j])
    ensures IsFirstUnassigned(vs, k)
  {
  }
}
