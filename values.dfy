/** Orderings of a domain's values: ascending order, and the least
    constraining value order (fewest neighbour conflicts first, ties in
    ascending value order). */
module ValueOrder {

  lemma HasElement(s: set<int>)
    requires s != {}
    ensures exists y :: y in s
  {
    if forall y :: y !in s {
      assert false;
    }
  }

  /** The least element of s, given the least element m of s without y. */
  lemma LeastWith(s: set<int>, y: int, m: int)
    requires y in s && m in s - {y}
    requires forall x :: x in s - {y} ==> m <= x
    ensures forall x :: x in s ==> (if y < m then y else m) <= x
  {
    forall x | x in s ensures (if y < m then y else m) <= x {
      if x != y {
        assert x in s - {y};
      }
    }
  }

  /** Finds the least element of a non-empty set, by induction on its size. */
  lemma {:induction false} LeastElement(s: set<int>) returns (m: int)
    requires s != {}
    ensures m in s && forall x :: x in s ==> m <= x
    decreases |s|
  {
    HasElement(s);
    var y :| y in s;
    if s - {y} == {} {
      forall x | x in s ensures y <= x {
        assert x !in s - {y};
      }
      m := y;
    } else {
      var least := LeastElement(s - {y});
      LeastWith(s, y, least);
      m := if y < least then y else least;
    }
  }

  lemma MinExists(s: set<int>)
    requires s != {}
    ensures exists m :: m in s && forall x :: x in s ==> m <= x
  {
    var m := LeastElement(s);
  }

  function MinOf(s: set<int>): (m: int)
    requires s != {}
    ensures m in s && forall x :: x in s ==> m <= x
  {
    MinExists(s);
    var m :| m in s && forall x :: x in s ==> m <= x;
    m
  }

  /** The values of a domain, each once, in strictly ascending order. */
  function SortedValues(s: set<int>): (r: seq<int>)
    ensures |r| == |s|
    ensures forall x :: x in r <==> x in s
    ensures StrictlyAscending(r)
    decreases |s|
  {
    if s == {} then []
    else
      var m := MinOf(s);
      var rest := SortedValues(s - {m});
      assert forall p :: 0 <= p < |rest| ==> m < rest[p] by {
        forall p | 0 <= p < |rest| ensures m < rest[p] {
          assert rest[p] in rest;
        }
      }
      [m] + rest
  }

  /** A candidate value with its count of neighbours still holding it
      (one entry of the list the LCV ordering builds). */
  datatype Scored = Scored(value: int, count: nat)

  /** a goes no later than b: fewer conflicts, or as many and a smaller value. */
  predicate Before(a: Scored, b: Scored) {
    a.count < b.count || (a.count == b.count && a.value <= b.value)
  }

  predicate SortedByCount(s: seq<Scored>) {
    forall p, q :: 0 <= p < q < |s| ==> Before(s[p], s[q])
  }

  /** The values of a list of scored candidates, in list order. */
  function Keys(s: seq<Scored>): (r: seq<int>)
    ensures |r| == |s|
    ensures forall p :: 0 <= p < |s| ==> r[p] == s[p].value
  {
    if s == [] then [] else [s[0].value] + Keys(s[1..])
  }

  function InsertByCount(e: Scored, s: seq<Scored>): (r: seq<Scored>)
    requires SortedByCount(s)
    ensures SortedByCount(r)
    ensures multiset(r) == multiset(s) + multiset{e}
    ensures forall x :: x in r ==> x == e || x in s
  {
    if s == [] then [e]
    else if Before(e, s[0]) then [e] + s
    else
      assert s == [s[0]] + s[1..];
      var rest := InsertByCount(e, s[1..]);
      HeadComesFirst(s);
      PrependSorted(s[0], rest);
      [s[0]] + rest
  }

  /** The head of a sorted list goes no later than anything after it. */
  lemma HeadComesFirst(s: seq<Scored>)
    requires SortedByCount(s) && s != []
    ensures forall x :: x in s[1..] ==> Before(s[0], x)
  {
    forall x | x in s[1..] ensures Before(s[0], x) {
      var q :| 0 <= q < |s[1..]| && s[1..][q] == x;
      assert s[q + 1] == x;
    }
  }

  lemma PrependSorted(h: Scored, rest: seq<Scored>)
    requires SortedByCount(rest)
    requires forall p :: 0 <= p < |rest| ==> Before(h, rest[p])
    ensures SortedByCount([h] + rest)
  {
  }

  /** Stable insertion sort by conflict count; the input order breaks ties,
      and in an ascending input that means the smaller value first. */
  function LeastConstrainingFirst(s: seq<Scored>): (r: seq<Scored>)
    ensures SortedByCount(r)
    ensures multiset(r) == multiset(s)
  {
    if s == [] then []
    else
      assert s == [s[0]] + s[1..];
      InsertByCount(s[0], LeastConstrainingFirst(s[1..]))
  }

  /** Sorting by conflict count keeps the candidates and their values. */
  lemma SortPermutes(s: seq<Scored>)
    ensures |LeastConstrainingFirst(s)| == |s|
    ensures forall e :: e in LeastConstrainingFirst(s) <==> e in s
    ensures forall v :: v in Keys(LeastConstrainingFirst(s)) <==> v in Keys(s)
  {
    var r := LeastConstrainingFirst(s);
    assert |r| == |multiset(r)| == |multiset(s)| == |s|;
    forall e ensures e in r <==> e in s {
      assert e in r <==> e in multiset(r);
      assert e in s <==> e in multiset(s);
    }
    forall v ensures v in Keys(r) <==> v in Keys(s) {
      if v in Keys(r) {
        var p :| 0 <= p < |r| && Keys(r)[p] == v;
        assert r[p] in s;
        var q :| 0 <= q < |s| && s[q] == r[p];
        assert Keys(s)[q] == v;
      }
      if v in Keys(s) {
        var q :| 0 <= q < |s| && Keys(s)[q] == v;
        assert s[q] in r;
        var p :| 0 <= p < |r| && r[p] == s[q];
        assert Keys(r)[p] == v;
      }
    }
  }

  predicate StrictlyAscending(r: seq<int>) {
    forall p, q :: 0 <= p < q < |r| ==> r[p] < r[q]
  }

  /** In a strictly ascending sequence the head is below every later element. */
  lemma HeadIsLeast(r: seq<int>, x: int)
    requires StrictlyAscending(r) && r != [] && x in r[1..]
    ensures r[0] < x
  {
    var p :| 0 <= p < |r[1..]| && r[1..][p] == x;
    assert r[p + 1] == x;
  }

  /** In a strictly ascending sequence the head is the least element. */
  lemma HeadIsMin(r: seq<int>, x: int)
    requires StrictlyAscending(r) && x in r
    ensures r[0] <= x
  {
    var p :| 0 <= p < |r| && r[p] == x;
  }

  /** Two strictly ascending orderings of one set of elements start alike. */
  lemma SameHead(r1: seq<int>, r2: seq<int>)
    requires StrictlyAscending(r1) && StrictlyAscending(r2)
    requires forall x :: x in r1 <==> x in r2
    requires r1 != [] && r2 != []
    ensures r1[0] == r2[0]
  {
    assert r1[0] in r1 && r2[0] in r2;
    HeadIsMin(r2, r1[0]);
    HeadIsMin(r1, r2[0]);
  }

  /** Removing the common head leaves tails with the same elements. */
  lemma SameTail(r1: seq<int>, r2: seq<int>)
    requires StrictlyAscending(r1) && StrictlyAscending(r2)
    requires forall x :: x in r1 <==> x in r2
    requires r1 != [] && r2 != [] && r1[0] == r2[0]
    ensures forall x :: x in r1[1..] <==> x in r2[1..]
  {
    assert r1 == [r1[0]] + r1[1..] && r2 == [r2[0]] + r2[1..];
    forall x ensures x in r1[1..] ==> x in r2[1..] {
      if x in r1[1..] {
        HeadIsLeast(r1, x);
        assert x in r2 && x != r2[0];
      }
    }
    forall x ensures x in r2[1..] ==> x in r1[1..] {
      if x in r2[1..] {
        HeadIsLeast(r2, x);
        assert x in r1 && x != r1[0];
      }
    }
  }

  /** A strictly ascending sequence is determined by its elements: any two
      such orderings of one domain are the same sequence. */
  lemma {:induction false} AscendingUnique(r1: seq<int>, r2: seq<int>)
    requires StrictlyAscending(r1) && StrictlyAscending(r2)
    requires forall x :: x in r1 <==> x in r2
    ensures r1 == r2
    decreases |r1|
  {
    if r1 != [] {
      assert r1[0] in r1;
    }
    if r2 != [] {
      assert r2[0] in r2;
    }
    if r1 != [] && r2 != [] {
      SameHead(r1, r2);
      SameTail(r1, r2);
      assert StrictlyAscending(r1[1..]) && StrictlyAscending(r2[1..]);
      AscendingUnique(r1[1..], r2[1..]);
      assert r1 == [r1[0]] + r1[1..] && r2 == [r2[0]] + r2[1..];
    }
  }
}
