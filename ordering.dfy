/**
  What the variable selectors and value orderers choose, stated on values:
  degrees and conflict counts, the minimum-remaining-values choices, and
  the orders in which candidate values are tried.
 */
module Ordering {
  import opened Network

  /** How many entries of `vs` are unassigned variables (`vs` may repeat). */
  function CountUnassigned(cells: seq<Cell>, vs: seq<nat>): (r: nat)
    ensures r <= |vs|
  {
    if vs == [] then 0
    else (CountUnassigned(cells, vs[..|vs| - 1])
          + if vs[|vs| - 1] < |cells| && !cells[vs[|vs| - 1]].Assigned() then 1 else 0)
  }

  /** The degree of variable k: its unassigned neighbours. */
  function Degree(s: Shape, cells: seq<Cell>, k: nat): nat {
    if k < |s.neighbours| then CountUnassigned(cells, s.neighbours[k]) else 0
  }

  /** How many entries of `vs` hold x in their domain. */
  function CountHolding(cells: seq<Cell>, vs: seq<nat>, x: int): (r: nat)
    ensures r <= |vs|
  {
    if vs == [] then 0
    else (CountHolding(cells, vs[..|vs| - 1], x)
          + if vs[|vs| - 1] < |cells| && x in cells[vs[|vs| - 1]].dom then 1 else 0)
  }

  /** Narrowing the domains never adds holders of a value. */
  lemma {:induction false} CountHoldingMono(a: seq<Cell>, b: seq<Cell>, vs: seq<nat>, x: int)
    requires Narrowed(a, b)
    ensures CountHolding(b, vs, x) <= CountHolding(a, vs, x)
    decreases |vs|
  {
    if vs != [] {
      CountHoldingMono(a, b, vs[..|vs| - 1], x);
    }
  }

  /** How many neighbours of v would lose value x if v took it. */
  function Conflicts(s: Shape, cells: seq<Cell>, v: nat, x: int): nat {
    if v < |s.neighbours| then CountHolding(cells, s.neighbours[v], x) else 0
  }

  function Size(cells: seq<Cell>, k: nat): int
    requires k < |cells|
  {
    |cells[k].dom|
  }

  // ---------------------------------------------------------------------
  // Variable selection
  // ---------------------------------------------------------------------

  /** `getfirstUnassignedVariable`: the first unassigned variable in storage order. */
  predicate IsFirstUnassigned(cells: seq<Cell>, r: Option<nat>) {
    && (r.None? <==> AllAssigned(cells))
    && (r.Some? ==> r.value < |cells| && !cells[r.value].Assigned()
                    && forall j :: 0 <= j < r.value ==> cells[j].Assigned())
  }

  /** `getMRV`: the first unassigned variable whose domain is smallest. */
  predicate IsMRV(cells: seq<Cell>, r: Option<nat>) {
    && (r.None? <==> AllAssigned(cells))
    && (r.Some? ==> MinRemaining(cells, r.value)
                    && forall j :: 0 <= j < r.value && !cells[j].Assigned() ==> Size(cells, j) > Size(cells, r.value))
  }

  /** p is unassigned and no unassigned variable has a smaller domain. */
  predicate MinRemaining(cells: seq<Cell>, p: nat) {
    && p < |cells| && !cells[p].Assigned()
    && forall j :: 0 <= j < |cells| && !cells[j].Assigned() ==> Size(cells, p) <= Size(cells, j)
  }

  /** j is an unassigned variable after p tying with it on domain size and degree. */
  predicate Ties(s: Shape, cells: seq<Cell>, p: nat, j: nat)
    requires p < |cells|
  {
    p < j < |cells| && !cells[j].Assigned()
    && Size(cells, j) == Size(cells, p) && Degree(s, cells, j) == Degree(s, cells, p)
  }

  /** The variables among p+1..k-1 that tie with p, in storage order. */
  function TiesUpTo(s: Shape, cells: seq<Cell>, p: nat, k: nat): (r: seq<Option<nat>>)
    requires p < |cells|
    ensures forall t :: 0 <= t < |r| ==> r[t].Some? && r[t].value < k && Ties(s, cells, p, r[t].value)
    ensures forall t1, t2 :: 0 <= t1 < t2 < |r| ==> r[t1].value < r[t2].value
    decreases k
  {
    if k <= p + 1 then []
    else (TiesUpTo(s, cells, p, k - 1)
          + if k - 1 < |cells| && Ties(s, cells, p, k - 1) then [Some(k - 1)] else [])
  }

  /**
    `MRVwithTieBreaker`: the first element is the earliest variable of
    smallest domain whose degree is largest among those of that size, or
    None when every variable is assigned; the rest are the later variables
    tying with it on both.
   */
  predicate IsTieBreakChoice(s: Shape, cells: seq<Cell>, r: seq<Option<nat>>) {
    && |r| >= 1
    && (r[0].None? <==> AllAssigned(cells))
    && (r[0].None? ==> |r| == 1)
    && (r[0].Some? ==>
          var p := r[0].value;
          && MinRemaining(cells, p)
          && (forall j :: 0 <= j < |cells| && !cells[j].Assigned() && Size(cells, j) == Size(cells, p)
                ==> Degree(s, cells, j) <= Degree(s, cells, p))
          && (forall j :: 0 <= j < p && !cells[j].Assigned() && Size(cells, j) == Size(cells, p)
                ==> Degree(s, cells, j) < Degree(s, cells, p))
          && r[1..] == TiesUpTo(s, cells, p, |cells|))
  }

  /** Every variable tying with the first choice is listed after it. */
  lemma {:induction false} TiesUpToComplete(s: Shape, cells: seq<Cell>, p: nat, k: nat, j: nat)
    requires p < |cells| && j < k && Ties(s, cells, p, j)
    ensures Some(j) in TiesUpTo(s, cells, p, k)
    decreases k
  {
    if j < k - 1 {
      TiesUpToComplete(s, cells, p, k - 1, j);
    }
  }

  // ---------------------------------------------------------------------
  // Value ordering
  // ---------------------------------------------------------------------

  predicate Ascending(r: seq<int>) {
    forall i, j :: 0 <= i < j < |r| ==> r[i] < r[j]
  }

  /** Lexicographic order on (conflicts, value) pairs. */
  predicate KeyLess(a: (int, int), b: (int, int)) {
    a.0 < b.0 || (a.0 == b.0 && a.1 < b.1)
  }

  /** The least-constraining-value key of value x for variable v. */
  function LcvKey(s: Shape, cells: seq<Cell>, v: nat, x: int): (int, int) {
    (Conflicts(s, cells, v, x), x)
  }

  /** r lists values by increasing number of conflicts, ties by increasing value. */
  predicate LcvSorted(s: Shape, cells: seq<Cell>, v: nat, r: seq<int>) {
    forall i, j :: 0 <= i < j < |r| ==> KeyLess(LcvKey(s, cells, v, r[i]), LcvKey(s, cells, v, r[j]))
  }

  predicate PairsSorted(ps: seq<(int, int)>) {
    forall i, j :: 0 <= i < j < |ps| ==> KeyLess(ps[i], ps[j])
  }

  /** Inserts a new pair into a sorted sequence of pairs. */
  function InsertPair(ps: seq<(int, int)>, p: (int, int)): (r: seq<(int, int)>)
    requires PairsSorted(ps) && p !in ps
    ensures PairsSorted(r) && |r| == |ps| + 1
    ensures forall q :: q in r <==> q in ps || q == p
  {
    if ps == [] then [p]
    else if KeyLess(p, ps[0]) then [p] + ps
    else
      assert KeyLess(ps[0], p) by { assert ps[0] != p; }
      assert forall q :: q in ps[1..] ==> KeyLess(ps[0], q) by {
        forall q | q in ps[1..] ensures KeyLess(ps[0], q) {
          var k :| 0 <= k < |ps[1..]| && ps[1..][k] == q;
          assert ps[k + 1] == q;
        }
      }
      assert forall q :: q in ps <==> q == ps[0] || q in ps[1..] by {
        assert ps == [ps[0]] + ps[1..];
      }
      [ps[0]] + InsertPair(ps[1..], p)
  }

  /** `std::sort` on pairwise-distinct pairs: a sorted rearrangement. */
  function SortPairs(ps: seq<(int, int)>): (r: seq<(int, int)>)
    requires forall i, j :: 0 <= i < j < |ps| ==> ps[i] != ps[j]
    ensures PairsSorted(r) && |r| == |ps|
    ensures forall q :: q in r <==> q in ps
  {
    if ps == [] then []
    else
      var init := ps[..|ps| - 1];
      var last := ps[|ps| - 1];
      assert last !in init by {
        assert forall k :: 0 <= k < |init| ==> init[k] == ps[k] != ps[|ps| - 1];
      }
      assert forall q :: q in ps <==> q in init || q == last by {
        assert ps == init + [last];
      }
      InsertPair(SortPairs(init), last)
  }

  /** In a strictly sorted sequence the tail holds every element but the head. */
  lemma AscendingTail(a: seq<int>)
    requires Ascending(a) && a != []
    ensures forall x :: x in a[1..] <==> x in a && x != a[0]
  {
    forall x ensures x in a[1..] <==> x in a && x != a[0] {
      if x in a && x != a[0] {
        var k :| 0 <= k < |a| && a[k] == x;
        assert a[1..][k - 1] == x;
      }
    }
  }

  /** A strictly sorted sequence has no repeated element. */
  lemma {:induction false} AscendingCard(a: seq<int>)
    requires Ascending(a)
    ensures |set x | x in a| == |a|
    decreases |a|
  {
    if a != [] {
      AscendingTail(a);
      AscendingCard(a[1..]);
      assert (set x | x in a) == {a[0]} + (set x | x in a[1..]);
    }
  }

  /** An ascending arrangement of a set of values is unique. */
  lemma {:induction false} AscendingUnique(a: seq<int>, b: seq<int>)
    requires Ascending(a) && Ascending(b)
    requires forall x :: x in a <==> x in b
    ensures a == b
    decreases |a|
  {
    AscendingCard(a);
    AscendingCard(b);
    assert (set x | x in a) == (set x | x in b);
    if a != [] {
      AscendingHead(a, b);
      AscendingTail(a);
      AscendingTail(b);
      AscendingUnique(a[1..], b[1..]);
      assert a == [a[0]] + a[1..] && b == [b[0]] + b[1..];
    }
  }

  lemma AscendingHead(a: seq<int>, b: seq<int>)
    requires Ascending(a) && Ascending(b) && a != [] && b != []
    requires forall x :: x in a <==> x in b
    ensures a[0] == b[0]
  {
    assert b[0] in b && a[0] in a;
    var k :| 0 <= k < |a| && a[k] == b[0];
    var m :| 0 <= m < |b| && b[m] == a[0];
    assert k == 0 || m == 0;
  }

  lemma LcvTail(s: Shape, cells: seq<Cell>, v: nat, a: seq<int>)
    requires LcvSorted(s, cells, v, a) && a != []
    ensures forall x :: x in a[1..] <==> x in a && x != a[0]
  {
    forall x ensures x in a[1..] <==> x in a && x != a[0] {
      if x in a && x != a[0] {
        var k :| 0 <= k < |a| && a[k] == x;
        assert a[1..][k - 1] == x;
      }
    }
  }

  lemma {:induction false} LcvCard(s: Shape, cells: seq<Cell>, v: nat, a: seq<int>)
    requires LcvSorted(s, cells, v, a)
    ensures |set x | x in a| == |a|
    decreases |a|
  {
    if a != [] {
      LcvTail(s, cells, v, a);
      LcvCard(s, cells, v, a[1..]);
      assert (set x | x in a) == {a[0]} + (set x | x in a[1..]);
    }
  }

  /** The least-constraining-value arrangement of a set of values is unique. */
  lemma {:induction false} LcvUnique(s: Shape, cells: seq<Cell>, v: nat, a: seq<int>, b: seq<int>)
    requires LcvSorted(s, cells, v, a) && LcvSorted(s, cells, v, b)
    requires forall x :: x in a <==> x in b
    ensures a == b
    decreases |a|
  {
    LcvCard(s, cells, v, a);
    LcvCard(s, cells, v, b);
    assert (set x | x in a) == (set x | x in b);
    if a != [] {
      assert b[0] in b && a[0] in a;
      assert b[0] in a && a[0] in b;
      LcvTail(s, cells, v, a);
      LcvTail(s, cells, v, b);
      LcvUnique(s, cells, v, a[1..], b[1..]);
      assert a == [a[0]] + a[1..] && b == [b[0]] + b[1..];
    }
  }
}
