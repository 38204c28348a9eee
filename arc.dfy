/**
  What an arc-consistency pass does to the variables, stated on values:
  an assigned variable removes its value from its neighbours, a removal
  never empties a domain (a neighbour holding only that value is a
  conflict instead), and a neighbour brought down to one value is queued
  for a forced assignment.
 */
module Arcs {
  import opened Network

  /** Every variable listed in ns loses v; the others are unchanged. */
  function RemovedAll(cells: seq<Cell>, ns: seq<nat>, v: int): (r: seq<Cell>)
    ensures |r| == |cells|
  {
    seq(|cells|, j requires 0 <= j < |cells| => if j in ns then RemoveValue(cells[j], v) else cells[j])
  }

  /** Removing v from nobody changes nothing. */
  lemma RemovedNone(cells: seq<Cell>, v: int)
    ensures RemovedAll(cells, [], v) == cells
  {
  }

  /** Removing v from one more listed variable. */
  lemma RemovedStep(cells: seq<Cell>, ns: seq<nat>, k: nat, v: int)
    requires k < |ns| && ns[k] < |cells|
    ensures var cur := RemovedAll(cells, ns[..k], v);
      RemovedAll(cells, ns[..k + 1], v) == cur[ns[k] := RemoveValue(cur[ns[k]], v)]
  {
    var cur := RemovedAll(cells, ns[..k], v);
    var next := cur[ns[k] := RemoveValue(cur[ns[k]], v)];
    assert ns[..k + 1] == ns[..k] + [ns[k]];
    forall j | 0 <= j < |cells|
      ensures RemovedAll(cells, ns[..k + 1], v)[j] == next[j]
    {
      if j == ns[k] && j in ns[..k] {
        assert RemoveValue(RemoveValue(cells[j], v), v).dom == RemoveValue(cells[j], v).dom;
      }
    }
  }

  /** Every listed variable with one value left takes it; the others are unchanged. */
  function ForcedAll(cells: seq<Cell>, q: seq<nat>): (r: seq<Cell>)
    ensures |r| == |cells|
  {
    seq(|cells|, j requires 0 <= j < |cells| =>
      if j in q && |cells[j].dom| == 1 then AssignValue(OnlyValue(cells[j].dom)) else cells[j])
  }

  /** Forcing one more listed variable: it takes the value it had left at the start. */
  lemma ForcedStep(cells: seq<Cell>, q: seq<nat>, i: nat)
    requires i < |q| && q[i] < |cells| && |cells[q[i]].dom| == 1
    ensures var cur := ForcedAll(cells, q[..i]);
      && |cur[q[i]].dom| == 1 && OnlyValue(cur[q[i]].dom) == OnlyValue(cells[q[i]].dom)
      && ForcedAll(cells, q[..i + 1]) == cur[q[i] := AssignValue(OnlyValue(cells[q[i]].dom))]
  {
    assert q[..i + 1] == q[..i] + [q[i]];
    var z := OnlyValue(cells[q[i]].dom);
    assert OnlyValue({z}) == z;
  }

  /** The domain of y is the value v alone: removing v would leave it empty. */
  predicate HoldsOnly(cells: seq<Cell>, y: nat, v: int) {
    y < |cells| && v in cells[y].dom && |cells[y].dom| == 1
  }

  /** None of the first k variables listed in ns holds v alone. */
  predicate Spared(cells: seq<Cell>, ns: seq<nat>, k: nat, v: int) {
    forall t :: 0 <= t < k && t < |ns| ==> !HoldsOnly(cells, ns[t], v)
  }

  /**
    While removing v from the listed variables, the next one holds v
    alone exactly when it did at the start: had it been listed earlier,
    it would have lost v already.
   */
  lemma SparedStep(cells: seq<Cell>, ns: seq<nat>, k: nat, v: int)
    requires k < |ns| && ns[k] < |cells| && Spared(cells, ns, k, v)
    ensures HoldsOnly(RemovedAll(cells, ns[..k], v), ns[k], v) <==> HoldsOnly(cells, ns[k], v)
    ensures !HoldsOnly(cells, ns[k], v) ==> Spared(cells, ns, k + 1, v)
  {
    if ns[k] in ns[..k] {
      var t :| 0 <= t < k && ns[t] == ns[k];
    }
  }

  /** Some assigned variable among vs, with value w, lists j as a neighbour. */
  predicate RemovesFrom(s: Shape, cells: seq<Cell>, vs: seq<nat>, j: nat, w: int) {
    exists x :: x in vs && x < |cells| && x < |s.neighbours| && cells[x].Assigned()
      && cells[x].val.value == w && j in s.neighbours[x]
  }

  /**
    `after` is `before` once every assigned variable among vs has removed
    its value from its neighbours: no assignment changes, and a value
    leaves the domain of j exactly when such a variable has it.
   */
  ghost predicate Stripped(s: Shape, before: seq<Cell>, after: seq<Cell>, vs: seq<nat>) {
    && |after| == |before|
    && forall j :: 0 <= j < |before| ==>
         && after[j].val == before[j].val
         && forall w :: w in after[j].dom <==> w in before[j].dom && !RemovesFrom(s, before, vs, j, w)
  }

  /** No assigned member of c still has its value in the domain of one of its neighbours. */
  predicate ArcClean(s: Shape, cells: seq<Cell>, c: seq<nat>) {
    forall x, y :: x in c && x < |cells| && x < |s.neighbours| && cells[x].Assigned()
      && y in s.neighbours[x] && y < |cells|
      ==> cells[x].val.value !in cells[y].dom
  }

  /** No domain that had a value is left empty. */
  predicate NoneEmptied(before: seq<Cell>, after: seq<Cell>) {
    forall j :: 0 <= j < |before| && j < |after| && before[j].dom != {} ==> after[j].dom != {}
  }

  /**
    The queue q is q0 followed by exactly the variables that went from
    two or more values down to one.
   */
  ghost predicate Queued(before: seq<Cell>, after: seq<Cell>, q0: seq<nat>, q: seq<nat>) {
    && q0 <= q
    && forall a: nat :: a in q <==>
         a in q0 || (a < |before| && a < |after| && |before[a].dom| >= 2 && |after[a].dom| == 1)
  }

  /** What every part of a scan keeps: narrowing, no new assignment, no emptied domain, the queue. */
  ghost predicate ArcStep(before: seq<Cell>, after: seq<Cell>, q0: seq<nat>, q: seq<nat>) {
    Narrowed(before, after) && SameVals(before, after) && NoneEmptied(before, after) && Queued(before, after, q0, q)
  }

  /** Nothing done is a scan step. */
  lemma ArcStepNone(cells: seq<Cell>, q: seq<nat>)
    ensures ArcStep(cells, cells, q, q)
  {
  }

  /** Removing v from a domain of two or more values, queuing the variable when two were left. */
  lemma RemoveStep(cells: seq<Cell>, y: nat, v: int, q0: seq<nat>)
    requires y < |cells| && v in cells[y].dom && |cells[y].dom| >= 2
    ensures ArcStep(cells, cells[y := RemoveValue(cells[y], v)], q0,
                    q0 + if |cells[y].dom| == 2 then [y] else [])
  {
    RemoveCard(cells[y].dom, v);
  }

  /** Scan steps compose: a variable reaching one value is queued exactly once on the way. */
  lemma ArcStepTrans(a: seq<Cell>, b: seq<Cell>, c: seq<Cell>, q0: seq<nat>, q1: seq<nat>, q2: seq<nat>)
    requires ArcStep(a, b, q0, q1) && ArcStep(b, c, q1, q2)
    ensures ArcStep(a, c, q0, q2)
  {
    forall x: nat | x < |a|
      ensures (|a[x].dom| >= 2 && |c[x].dom| == 1) <==>
              ((|a[x].dom| >= 2 && |b[x].dom| == 1) || (|b[x].dom| >= 2 && |c[x].dom| == 1))
    {
      SubsetCard(c[x].dom, b[x].dom);
      SubsetCard(b[x].dom, a[x].dom);
    }
  }

  /** An assigned member x of vs adds its removals; an unassigned one adds none. */
  lemma RemovesFromAppend(s: Shape, cells: seq<Cell>, vs: seq<nat>, x: nat, j: nat, w: int)
    ensures RemovesFrom(s, cells, vs + [x], j, w) <==>
      RemovesFrom(s, cells, vs, j, w)
      || (x < |cells| && x < |s.neighbours| && cells[x].Assigned() && cells[x].val.value == w && j in s.neighbours[x])
  {
    if RemovesFrom(s, cells, vs + [x], j, w) {
      var y :| y in vs + [x] && y < |cells| && y < |s.neighbours| && cells[y].Assigned()
        && cells[y].val.value == w && j in s.neighbours[y];
      if y != x {
        assert y in vs;
      }
    }
    if RemovesFrom(s, cells, vs, j, w) {
      var y :| y in vs && y < |cells| && y < |s.neighbours| && cells[y].Assigned()
        && cells[y].val.value == w && j in s.neighbours[y];
      assert y in vs + [x];
    }
  }

  /** Before any member is scanned, nothing is stripped. */
  lemma StrippedNone(s: Shape, cells: seq<Cell>)
    ensures Stripped(s, cells, cells, [])
  {
  }

  /** Scanning one more member x: an assigned one strips its value from its neighbours. */
  lemma StrippedStep(s: Shape, before: seq<Cell>, cur: seq<Cell>, vs: seq<nat>, x: nat)
    requires Stripped(s, before, cur, vs) && x < |before| && x < |s.neighbours|
    ensures !cur[x].Assigned() ==> Stripped(s, before, cur, vs + [x])
    ensures cur[x].Assigned() ==>
      Stripped(s, before, RemovedAll(cur, s.neighbours[x], cur[x].val.value), vs + [x])
  {
    var next := if cur[x].Assigned() then RemovedAll(cur, s.neighbours[x], cur[x].val.value) else cur;
    forall j, w | 0 <= j < |before|
      ensures w in next[j].dom <==> w in before[j].dom && !RemovesFrom(s, before, vs + [x], j, w)
    {
      RemovesFromAppend(s, before, vs, x, j, w);
    }
  }

  /** A scan that stripped c leaves c clean. */
  lemma StrippedClean(s: Shape, before: seq<Cell>, after: seq<Cell>, c: seq<nat>)
    requires Stripped(s, before, after, c)
    ensures ArcClean(s, after, c)
  {
    forall x, y | x in c && x < |after| && x < |s.neighbours| && after[x].Assigned()
      && y in s.neighbours[x] && y < |after|
      ensures after[x].val.value !in after[y].dom
    {
      assert RemovesFrom(s, before, c, y, after[x].val.value);
    }
  }

  /** The members of the listed constraints, one constraint after the other, in the order listed. */
  function Members(s: Shape, rmc: seq<nat>): (vs: seq<nat>)
    ensures forall x :: x in vs <==>
      exists p :: 0 <= p < |rmc| && rmc[p] < |s.constraints| && x in s.constraints[rmc[p]]
    decreases |rmc|
  {
    if rmc == [] then []
    else
      var last := rmc[|rmc| - 1];
      var front := Members(s, rmc[..|rmc| - 1]);
      assert forall p :: 0 <= p < |rmc| - 1 ==> rmc[..|rmc| - 1][p] == rmc[p];
      front + if last < |s.constraints| then s.constraints[last] else []
  }

  /** Scanning vs and then ws strips what scanning vs + ws strips. */
  lemma RemovesFromJoin(s: Shape, cells: seq<Cell>, vs: seq<nat>, ws: seq<nat>, j: nat, w: int)
    ensures RemovesFrom(s, cells, vs + ws, j, w) <==> RemovesFrom(s, cells, vs, j, w) || RemovesFrom(s, cells, ws, j, w)
  {
    if RemovesFrom(s, cells, vs, j, w) {
      var x :| x in vs && x < |cells| && x < |s.neighbours| && cells[x].Assigned()
        && cells[x].val.value == w && j in s.neighbours[x];
      assert x in vs + ws;
    }
    if RemovesFrom(s, cells, ws, j, w) {
      var x :| x in ws && x < |cells| && x < |s.neighbours| && cells[x].Assigned()
        && cells[x].val.value == w && j in s.neighbours[x];
      assert x in vs + ws;
    }
  }

  /**
    Two scans in a row are one scan of both lists: the second scan sees
    the same assignments as the first, so its removals are those the
    first state would give.
   */
  lemma StrippedTrans(s: Shape, a: seq<Cell>, b: seq<Cell>, c: seq<Cell>, vs: seq<nat>, ws: seq<nat>)
    requires Stripped(s, a, b, vs) && Stripped(s, b, c, ws)
    ensures Stripped(s, a, c, vs + ws)
  {
    forall j, w | 0 <= j < |a|
      ensures w in c[j].dom <==> w in a[j].dom && !RemovesFrom(s, a, vs + ws, j, w)
    {
      RemovesFromJoin(s, a, vs, ws, j, w);
      assert RemovesFrom(s, b, ws, j, w) <==> RemovesFrom(s, a, ws, j, w) by {
        if RemovesFrom(s, b, ws, j, w) {
          var x :| x in ws && x < |b| && x < |s.neighbours| && b[x].Assigned()
            && b[x].val.value == w && j in s.neighbours[x];
          assert a[x].val == b[x].val;
        }
      }
    }
  }

  /**
    Every value that left a domain between `before` and `after` is the
    value of a variable assigned in `after` that has it as a neighbour.
   */
  ghost predicate Justified(s: Shape, before: seq<Cell>, after: seq<Cell>) {
    forall j, w :: 0 <= j < |before| && j < |after| && w in before[j].dom && w !in after[j].dom ==>
      HeldNearby(s, after, j, w)
  }

  /** Some variable with j as a neighbour is assigned w. */
  ghost predicate HeldNearby(s: Shape, cells: seq<Cell>, j: nat, w: int) {
    exists x :: 0 <= x < |cells| && x < |s.neighbours| && cells[x].Assigned() && cells[x].val.value == w
      && j in s.neighbours[x]
  }

  /** Every variable assigned in `after` but not in `before` had at least two values in `before`. */
  predicate ForcedOnly(before: seq<Cell>, after: seq<Cell>) {
    forall a :: 0 <= a < |before| && a < |after| && !before[a].Assigned() && after[a].Assigned() ==>
      |before[a].dom| >= 2
  }

  /** The removals of a scan are justified by the assignments it scanned. */
  lemma StrippedJustified(s: Shape, before: seq<Cell>, after: seq<Cell>, vs: seq<nat>)
    requires Stripped(s, before, after, vs)
    ensures Justified(s, before, after)
  {
    forall j, w | 0 <= j < |before| && j < |after| && w in before[j].dom && w !in after[j].dom
      ensures HeldNearby(s, after, j, w)
    {
      var x :| x in vs && x < |before| && x < |s.neighbours| && before[x].Assigned()
        && before[x].val.value == w && j in s.neighbours[x];
      assert after[x].val == before[x].val;
    }
  }

  /** Removing the value v of the assigned variable x from some of its neighbours is justified by x. */
  lemma RemovedJustified(s: Shape, cells: seq<Cell>, ns: seq<nat>, x: nat, v: int)
    requires x < |cells| && x < |s.neighbours| && cells[x].Assigned() && cells[x].val.value == v
    requires x !in ns && forall y :: y in ns ==> y in s.neighbours[x]
    ensures Justified(s, cells, RemovedAll(cells, ns, v))
  {
    var r := RemovedAll(cells, ns, v);
    assert r[x] == cells[x];
    forall j, w | 0 <= j < |cells| && j < |r| && w in cells[j].dom && w !in r[j].dom
      ensures HeldNearby(s, r, j, w)
    {
      assert j in ns && w == v;
    }
  }

  /** Justified steps compose, since an assignment made is never undone. */
  lemma JustifiedTrans(s: Shape, a: seq<Cell>, b: seq<Cell>, c: seq<Cell>)
    requires |a| == |b| && Justified(s, a, b) && Justified(s, b, c) && Narrowed(b, c)
    ensures Justified(s, a, c)
  {
    forall j, w | 0 <= j < |a| && j < |c| && w in a[j].dom && w !in c[j].dom
      ensures HeldNearby(s, c, j, w)
    {
      if w !in b[j].dom {
        var x :| 0 <= x < |b| && x < |s.neighbours| && b[x].Assigned() && b[x].val.value == w
          && j in s.neighbours[x];
        assert c[x].val == b[x].val;
      }
    }
  }

  /** Forced steps compose: the later one starts from a narrower state. */
  lemma ForcedOnlyTrans(a: seq<Cell>, b: seq<Cell>, c: seq<Cell>)
    requires Narrowed(a, b) && ForcedOnly(a, b) && ForcedOnly(b, c)
    ensures ForcedOnly(a, c)
  {
    forall x | 0 <= x < |a| && x < |c| && !a[x].Assigned() && c[x].Assigned()
      ensures |a[x].dom| >= 2
    {
      if !b[x].Assigned() {
        SubsetCard(b[x].dom, a[x].dom);
      }
    }
  }

  /**
    The forced assignments of a round take no value from anyone: each
    queued variable takes the one value it had. Only variables the round
    brought down from two or more values are assigned.
   */
  lemma ForcedKeeps(s: Shape, c0: seq<Cell>, cr: seq<Cell>, q: seq<nat>)
    requires ArcStep(c0, cr, [], q)
    requires forall a :: a in q ==> a < |cr| && !cr[a].Assigned() && |cr[a].dom| == 1
    ensures Narrowed(cr, ForcedAll(cr, q)) && Justified(s, cr, ForcedAll(cr, q))
    ensures ForcedOnly(c0, ForcedAll(cr, q))
  {
    var c1 := ForcedAll(cr, q);
    forall a | 0 <= a < |cr|
      ensures c1[a].dom == cr[a].dom && (cr[a].Assigned() ==> c1[a].val == cr[a].val)
    {
      if a in q {
        var z := OnlyValue(cr[a].dom);
      }
    }
  }

  /** Removing values without assigning keeps a constraint clean. */
  lemma ArcCleanKept(s: Shape, a: seq<Cell>, b: seq<Cell>, c: seq<nat>)
    requires ArcClean(s, a, c) && Narrowed(a, b) && SameVals(a, b)
    ensures ArcClean(s, b, c)
  {
  }

  /**
    After the forced assignments, a variable that the whole pass brings
    down to one value is assigned: either it was queued in this round or
    it still had two values when the next round began.
   */
  lemma ForcedAssigned(c0: seq<Cell>, cr: seq<Cell>, c1: seq<Cell>, cf: seq<Cell>, q: seq<nat>)
    requires ArcStep(c0, cr, [], q) && c1 == ForcedAll(cr, q) && Narrowed(c1, cf)
    requires forall a :: a in q ==> a < |cr| && |cr[a].dom| == 1
    requires forall a :: 0 <= a < |cf| && |c1[a].dom| >= 2 && |cf[a].dom| == 1 ==> cf[a].Assigned()
    ensures forall a :: 0 <= a < |cf| && |c0[a].dom| >= 2 && |cf[a].dom| == 1 ==> cf[a].Assigned()
  {
    forall a | 0 <= a < |cf| && |c0[a].dom| >= 2 && |cf[a].dom| == 1
      ensures cf[a].Assigned()
    {
      if a !in q {
        assert c0[a].dom != {};
        assert |c1[a].dom| >= 2;
      }
    }
  }
}
