/** The undo log of the search: each entry records a cell's full state just
    before it was changed. Rolling entries back newest-first restores the
    cells, which is what makes "push before mutate" sufficient for exact
    backtracking. */
module Trail {
  import opened Network

  /** A snapshot taken by push: the cell's index and its state at push time. */
  datatype Entry = Entry(index: nat, saved: Variable)

  /** Every entry names one of the n cells. */
  predicate Fits(t: seq<Entry>, n: nat) {
    forall k :: 0 <= k < |t| ==> t[k].index < n
  }

  /** The cells after restoring every snapshot of t, newest first. */
  function Rollback(vs: seq<Variable>, t: seq<Entry>): (r: seq<Variable>)
    requires Fits(t, |vs|)
    ensures |r| == |vs|
    decreases |t|
  {
    if t == [] then vs
    else
      var e := t[|t| - 1];
      Rollback(vs[e.index := e.saved], t[..|t| - 1])
  }

  /** Rolling back a concatenation is rolling back the newer part first. */
  lemma {:induction false} RollbackAppend(vs: seq<Variable>, t1: seq<Entry>, t2: seq<Entry>)
    requires Fits(t1, |vs|) && Fits(t2, |vs|)
    ensures Fits(t1 + t2, |vs|)
    ensures Rollback(vs, t1 + t2) == Rollback(Rollback(vs, t2), t1)
    decreases |t2|
  {
    assert forall k :: 0 <= k < |t1 + t2| ==> (t1 + t2)[k] == if k < |t1| then t1[k] else t2[k - |t1|];
    if t2 != [] {
      var e := t2[|t2| - 1];
      var vs' := vs[e.index := e.saved];
      assert (t1 + t2)[..|t1 + t2| - 1] == t1 + t2[..|t2| - 1];
      RollbackAppend(vs', t1, t2[..|t2| - 1]);
    } else {
      assert t1 + t2 == t1;
    }
  }

  /** The state (v1, t1) was reached from (v0, t0) by pushes and mutations
      that were each recorded first: t1 extends t0, and rolling back the
      entries added since gives v0 back. */
  predicate Undoable(v0: seq<Variable>, t0: seq<Entry>, v1: seq<Variable>, t1: seq<Entry>) {
    && |v1| == |v0|
    && Fits(t1, |v1|)
    && |t0| <= |t1|
    && t1[..|t0|] == t0
    && Rollback(v1, t1[|t0|..]) == v0
  }

  lemma UndoableRefl(v: seq<Variable>, t: seq<Entry>)
    requires Fits(t, |v|)
    ensures Undoable(v, t, v, t)
  {
    assert t[|t|..] == [];
  }

  /** Recording a cell and then replacing it is undoable. */
  lemma RecordThenSet(vs: seq<Variable>, t: seq<Entry>, i: nat, c: Variable)
    requires Fits(t, |vs|) && i < |vs|
    ensures Undoable(vs, t, vs[i := c], t + [Entry(i, vs[i])])
  {
    var t' := t + [Entry(i, vs[i])];
    assert t'[..|t|] == t;
    assert t'[|t|..] == [Entry(i, vs[i])];
    assert t'[|t|..][..0] == [];
    assert vs[i := c][i := vs[i]] == vs;
  }

  /** Undoable steps compose: the trail discipline survives any sequence of them. */
  lemma UndoableTrans(v0: seq<Variable>, t0: seq<Entry>, v1: seq<Variable>, t1: seq<Entry>,
                      v2: seq<Variable>, t2: seq<Entry>)
    requires Undoable(v0, t0, v1, t1) && Undoable(v1, t1, v2, t2)
    ensures Undoable(v0, t0, v2, t2)
  {
    var older := t2[|t0|..|t1|];
    var newer := t2[|t1|..];
    assert older == t1[|t0|..];
    assert t2[|t0|..] == older + newer;
    assert Fits(older, |v2|);
    assert Fits(newer, |v2|);
    RollbackAppend(v2, older, newer);
    assert t2[..|t0|] == t1[..|t0|];
  }
}
